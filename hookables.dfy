/**
 * What the debug renderer is given: a hookable (a fragment registered at a
 * named hook of a page template), the metadata of the current rendering, and
 * the renderer it decorates.
 */
module Hookables {

  /** The five things the debug renderer reads from a hookable: its hook name,
      its type (what `getType()` answers, such as "template" or "component"),
      its name, its target and its priority (what `getPriority()` answers). */
  datatype AbstractHookable = AbstractHookable(
    hookName: string,
    hookableType: string,
    name: string,
    target: string,
    priority: int)

  /** The metadata of one rendering. The debug renderer only passes it on. */
  type HookableMetadata

  /**
   * The wrapped renderer (an implementation of the hookable renderer
   * interface, which renders a Twig template or component). What it outputs
   * for a hookable and metadata is the function `output`; `calls` records the
   * arguments of every call made to it, in order.
   */
  class HookableRenderer {
    const output: (AbstractHookable, HookableMetadata) -> string
    ghost var calls: seq<(AbstractHookable, HookableMetadata)>

    constructor (output: (AbstractHookable, HookableMetadata) -> string)
      ensures this.output == output
      ensures calls == []
    {
      this.output := output;
      calls := [];
    }

    method Render(hookable: AbstractHookable, metadata: HookableMetadata) returns (rendered: string)
      modifies this
      ensures rendered == output(hookable, metadata)
      ensures calls == old(calls) + [(hookable, metadata)]
    {
      rendered := output(hookable, metadata);
      calls := calls + [(hookable, metadata)];
    }
  }
}
