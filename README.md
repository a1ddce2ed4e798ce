# Hookable debug comment renderer, in Dafny

Twig Hooks lets templates declare named hooks to which "hookables" (templates
or components) are attached. In debug mode, each hookable's renderer is wrapped
in `HookableDebugCommentRenderer`. This decorator:

- calls the wrapped renderer once;
- trims what the wrapped renderer returns with PHP's `trim`;
- puts an HTML comment naming the hookable on either side of it;
- joins the three parts with `PHP_EOL`:

```
<!-- BEGIN HOOKABLE | hook: "…", type: "…", name: "…", target: "…", priority: N -->
trimmed output of the wrapped renderer
<!--  END HOOKABLE  | hook: "…", type: "…", name: "…", target: "…", priority: N -->
```

This project models that decorator and proves what its output looks like.

Modules:

- `Wrappers`: an `Option` type.
- `PhpStrings`:
  - PHP's `trim` with its default character list (space, `\t`, `\n`, `\r`, `\0`, `\x0B`);
  - `implode`;
  - `explode` and a substring search, which are used only to state the line structure of the output.
- `PhpFormat`: the `%d` conversion of `sprintf`, plus a reader `ParseInt` that reads a numeral back. `ParseInt` is there to prove that `%d` loses nothing.
- `Hookables`:
  - the five fields of a hookable that the decorator reads;
  - an abstract metadata type;
  - the wrapped renderer, as a class. Its output is a function of its arguments, and a ghost log records every call made to it.
- `DebugCommentRenderer`:
  - the two comments;
  - `DebugRendering`, a function that specifies the output;
  - the decorator itself, as a class whose `Render` method builds the list of parts by appending, as the PHP code does;
  - a reader `ParseDebugComment`. It exists only to state that a comment determines its hookable: `ParseDebugCommentRoundTrip` proves that reading a comment back returns the hookable it was built from.

In the model, the hookable's `getType()` is the field `hookableType`, because `type` is a Dafny keyword. `getPriority()` is the field `priority`. `PHP_EOL` is the decorator's `eol` field, which its constructor sets.

## Model

| member | source | states |
|---|---|---|
| PhpStrings.Trim | src/TwigHooks/src/Hookable/Renderer/Debug/HookableDebugCommentRenderer.php:21 | `trim` never lengthens a string, and its result neither starts nor ends with a character from the default trim list |
| PhpStrings.TrimStart | src/TwigHooks/src/Hookable/Renderer/Debug/HookableDebugCommentRenderer.php:21 | the prefix `trim` strips is made of trim characters only, and is followed by a non-trim character or by the end of the string |
| PhpStrings.TrimEnd | src/TwigHooks/src/Hookable/Renderer/Debug/HookableDebugCommentRenderer.php:21 | the suffix `trim` strips is made of trim characters only, and is preceded by a non-trim character or by the start of the string |
| PhpStrings.TrimIsStrippedSlice | src/TwigHooks/src/Hookable/Renderer/Debug/HookableDebugCommentRenderer.php:21 | `trim` returns a contiguous piece of its argument, and all it cut off on either side are trim characters |
| PhpStrings.TrimOfPadded | src/TwigHooks/src/Hookable/Renderer/Debug/HookableDebugCommentRenderer.php:21 | for any untrimmable string with trim characters on either side, `trim` returns exactly that string |
| PhpStrings.TrimIdempotent | src/TwigHooks/src/Hookable/Renderer/Debug/HookableDebugCommentRenderer.php:21 | trimming twice is trimming once |
| PhpStrings.TrimIgnoresPadding | src/TwigHooks/src/Hookable/Renderer/Debug/HookableDebugCommentRenderer.php:21 | trim characters added around a string do not change what `trim` returns |
| PhpStrings.Implode | src/TwigHooks/src/Hookable/Renderer/Debug/HookableDebugCommentRenderer.php:24 | imploding no parts gives the empty string; the result is as long as all the parts plus one separator between each pair; it starts with the first part |
| PhpStrings.ImplodeThree | src/TwigHooks/src/Hookable/Renderer/Debug/HookableDebugCommentRenderer.php:24 | imploding three parts puts the separator between the first and second parts and between the second and third |
| PhpStrings.MiddleOfImplodedThree | src/TwigHooks/src/Hookable/Renderer/Debug/HookableDebugCommentRenderer.php:24 | in three imploded parts, the second part sits right after the first part and the separator |
| PhpStrings.ExplodeImplode | src/TwigHooks/src/Hookable/Renderer/Debug/HookableDebugCommentRenderer.php:24 | exploding on a separator that cannot overlap itself gives back the imploded parts when none of them contains the separator |
| PhpFormat.NatToDecimal | src/TwigHooks/src/Hookable/Renderer/Debug/HookableDebugCommentRenderer.php:30 | the numeral of a natural number is non-empty, starts with a digit, and starts with `0` exactly when the number is 0 (no leading zeros) |
| PhpFormat.NatToDecimalDigits | src/TwigHooks/src/Hookable/Renderer/Debug/HookableDebugCommentRenderer.php:30 | a numeral is made of digits only |
| PhpFormat.FormatInt | src/TwigHooks/src/Hookable/Renderer/Debug/HookableDebugCommentRenderer.php:35 | `%d` of the priority starts with `-` exactly when the priority is negative; the digits after a minus sign do not start with `0`; a non-negative priority's numeral starts with `0` exactly when the priority is 0, and 0 is written `0` (no leading zeros) |
| PhpFormat.FormatIntDigits | src/TwigHooks/src/Hookable/Renderer/Debug/HookableDebugCommentRenderer.php:35 | apart from the leading minus sign of a negative number, `%d` writes digits only |
| PhpFormat.ParseFormatInt | src/TwigHooks/src/Hookable/Renderer/Debug/HookableDebugCommentRenderer.php:30 | reading back what `%d` wrote gives the number that was written |
| PhpFormat.FormatIntInjective | src/TwigHooks/src/Hookable/Renderer/Debug/HookableDebugCommentRenderer.php:30 | two different priorities are never written the same way |
| DebugCommentRenderer.OpeningDebugComment | src/TwigHooks/src/Hookable/Renderer/Debug/HookableDebugCommentRenderer.php:27-37 | the opening comment is longer than 21 characters and starts with the 21-character marker `<!-- BEGIN HOOKABLE ` and a bar |
| DebugCommentRenderer.ClosingDebugComment | src/TwigHooks/src/Hookable/Renderer/Debug/HookableDebugCommentRenderer.php:39-49 | the closing comment is longer than 21 characters and starts with the 21-character marker `<!--  END HOOKABLE  ` and a bar |
| DebugCommentRenderer.CommentsDifferOnlyInMarker | src/TwigHooks/src/Hookable/Renderer/Debug/HookableDebugCommentRenderer.php:29-48 | both comments are their 21-character marker followed by the same body, so they have equal length, different prefixes and identical rest |
| DebugCommentRenderer.FieldsAppearVerbatim | src/TwigHooks/src/Hookable/Renderer/Debug/HookableDebugCommentRenderer.php:30-35 | whatever characters a field holds (quotes, `-->`, line breaks), both comments show it unchanged at an offset fixed by the lengths of the fields before it, and end with ` -->` |
| DebugCommentRenderer.QuotesMakeCommentsAmbiguous | src/TwigHooks/src/Hookable/Renderer/Debug/HookableDebugCommentRenderer.php:30-35 | because nothing is escaped, two different hookables (the text `", type: "` moved from the hook name into the type) produce identical comments |
| DebugCommentRenderer.ParseDebugCommentRoundTrip | src/TwigHooks/src/Hookable/Renderer/Debug/HookableDebugCommentRenderer.php:29-48 | when no string field contains `"`, reading either comment back gives its kind (opening or closing) and the hookable it was built from, negative priorities included |
| DebugCommentRenderer.CommentsHaveNoLineSeparator | src/TwigHooks/src/Hookable/Renderer/Debug/HookableDebugCommentRenderer.php:29-48 | if no string field contains the line separator, neither comment contains it |
| DebugCommentRenderer.DebugRendering | src/TwigHooks/src/Hookable/Renderer/Debug/HookableDebugCommentRenderer.php:19-24 | imploding the three parts gives the opening comment, EOL, the trimmed inner output, EOL and the closing comment, in that order, both comments built from the same hookable |
| DebugCommentRenderer.RenderedMiddleIsTrimmedInner | src/TwigHooks/src/Hookable/Renderer/Debug/HookableDebugCommentRenderer.php:21 | the middle of the output, right after the opening comment and EOL, is a contiguous piece of the inner output; it neither starts nor ends with a trim character, and only trim characters were cut from the inner output around it |
| DebugCommentRenderer.RenderingIgnoresPadding | src/TwigHooks/src/Hookable/Renderer/Debug/HookableDebugCommentRenderer.php:21 | an inner output padded with trim characters, or already trimmed, gives the same output as the inner output itself |
| DebugCommentRenderer.RenderingHasThreeLines | src/TwigHooks/src/Hookable/Renderer/Debug/HookableDebugCommentRenderer.php:19-24 | with EOL `\n` or `\r\n`, if neither a string field nor the trimmed inner output contains EOL, splitting the output on EOL gives exactly the opening comment, the trimmed inner output and the closing comment |
| DebugCommentRenderer.ExampleRendering | src/TwigHooks/src/Hookable/Renderer/Debug/HookableDebugCommentRenderer.php:17-25 | hook `h`, type `t`, name `n`, target `x`, priority 5 and inner output ` <div>content</div> ` render to the two literal comments around `<div>content</div>` |
| DebugCommentRenderer.HookableDebugCommentRenderer.constructor | src/TwigHooks/src/Hookable/Renderer/Debug/HookableDebugCommentRenderer.php:13 | the decorator stores the renderer it wraps, and the line separator, unchanged |
| DebugCommentRenderer.HookableDebugCommentRenderer.Render | src/TwigHooks/src/Hookable/Renderer/Debug/HookableDebugCommentRenderer.php:17-25 | the output is `DebugRendering` of the wrapped renderer's output; the wrapped renderer is called exactly once, with the hookable and metadata `render` received |
| Hookables.HookableRenderer.Render | src/TwigHooks/src/Hookable/Renderer/Debug/HookableDebugCommentRenderer.php:21 | a call to the wrapped renderer returns its output for those arguments, and is recorded once in its call log |

## Left out

- `app/DataFixtures/AppFixtures.php` is not part of this model. It only hands over to a fixture library.
- What the wrapped renderer actually renders (a Twig template or component) is not modelled. It is the function `output` of `Hookables.HookableRenderer`. The renderer interface's other implementations and Dafny-side polymorphism over them are also left out.
- Exceptions the wrapped renderer may throw are not modelled. In PHP they pass through `render` unchanged.
- `HookableMetadata` is an abstract type. The decorator only passes it on, so it can be neither read nor altered.
- `AbstractHookable` is modelled only through the five values the comments use. Its configuration, context and other members are left out.
- `PHP_EOL` depends on the platform. It is the constructor's `eol` argument. `RenderingHasThreeLines` is stated only for `\n` and `\r\n`, the values `PHP_EOL` takes.
- PHP strings are byte strings. The model works on sequences of characters, with no multibyte or encoding concerns.
- DebugCommentRenderer.ParseDebugCommentRoundTrip: stated only for string fields without `"`. `QuotesMakeCommentsAmbiguous` shows that with a quote the comment no longer determines the hookable.
- PhpFormat.FormatInt: the priority is an unbounded integer. PHP's 64-bit integer range, and the bounds of `%d` that follow from it, are not modelled.
