/**
 * The debug decorator of the hookable renderer. It renders a hookable with
 * the renderer it wraps, trims that output, and frames it with an opening
 * and a closing HTML comment naming the hookable, one per line:
 *
 *   <!-- BEGIN HOOKABLE | hook: "…", type: "…", name: "…", target: "…", priority: N -->
 *   trimmed inner output
 *   <!--  END HOOKABLE  | hook: "…", type: "…", name: "…", target: "…", priority: N -->
 *
 * Field values are inserted as they are, without any escaping.
 */
module DebugCommentRenderer {

  import opened Wrappers
  import opened PhpStrings
  import opened PhpFormat
  import opened Hookables

  // ---------------------------------------------------------------------------
  // The two comments
  // ---------------------------------------------------------------------------

  /** The first 21 characters of the opening and of the closing comment. */
  const BeginMarker: string := "<!-- BEGIN HOOKABLE |"
  const EndMarker: string := "<!--  END HOOKABLE  |"

  /** The comment written before the inner output. */
  function OpeningDebugComment(hookable: AbstractHookable): (comment: string)
    ensures |comment| > 21 && comment[..21] == BeginMarker
  {
    BeginMarker + " hook: \"" + hookable.hookName
    + "\", type: \"" + hookable.hookableType
    + "\", name: \"" + hookable.name
    + "\", target: \"" + hookable.target
    + "\", priority: " + FormatInt(hookable.priority)
    + " -->"
  }

  /** The comment written after the inner output. */
  function ClosingDebugComment(hookable: AbstractHookable): (comment: string)
    ensures |comment| > 21 && comment[..21] == EndMarker
  {
    EndMarker + " hook: \"" + hookable.hookName
    + "\", type: \"" + hookable.hookableType
    + "\", name: \"" + hookable.name
    + "\", target: \"" + hookable.target
    + "\", priority: " + FormatInt(hookable.priority)
    + " -->"
  }

  /** What follows the marker in either comment: the five fields and the
      comment's end. */
  function CommentBody(hookable: AbstractHookable): string {
    " hook: \"" + CommentFields(hookable)
  }

  /** The comment from the hook name on, grouped to the right, the order in
      which it is read back. */
  function CommentFields(hookable: AbstractHookable): string {
    FieldsText(hookable.hookName, hookable.hookableType, hookable.name, hookable.target,
               FormatInt(hookable.priority))
  }

  function FieldsText(hookName: string, hookableType: string, name: string, target: string,
                      priority: string): string {
    hookName
    + ("\", type: \"" + (hookableType
    + ("\", name: \"" + (name
    + ("\", target: \"" + (target
    + ("\", priority: " + (priority
    + " -->"))))))))
  }

  /** The suffixes of `FieldsText` that begin at each separator, the points
      where the format strings and the reader cut the comment. */
  lemma FieldsTextTails(hookName: string, hookableType: string, name: string, target: string,
                        priority: string)
    returns (t2: string, t4: string, t6: string, t8: string)
    ensures FieldsText(hookName, hookableType, name, target, priority) == hookName + t2
    ensures t2 == "\", type: \"" + (hookableType + t4)
    ensures t4 == "\", name: \"" + (name + t6)
    ensures t6 == "\", target: \"" + (target + t8)
    ensures t8 == "\", priority: " + (priority + " -->")
  {
    t8 := "\", priority: " + (priority + " -->");
    t6 := "\", target: \"" + (target + t8);
    t4 := "\", name: \"" + (name + t6);
    t2 := "\", type: \"" + (hookableType + t4);
  }

  /** The comments as the format strings lay them out, regrouped to the right. */
  lemma RegroupComment(start: string, hookable: AbstractHookable)
    ensures start + hookable.hookName
            + "\", type: \"" + hookable.hookableType
            + "\", name: \"" + hookable.name
            + "\", target: \"" + hookable.target
            + "\", priority: " + FormatInt(hookable.priority)
            + " -->"
         == start + CommentFields(hookable)
  {
    var h := hookable;
    var p := FormatInt(h.priority);
    var t2, t4, t6, t8 := FieldsTextTails(h.hookName, h.hookableType, h.name, h.target, p);
    var x0 := start;
    var x1 := x0 + h.hookName;
    var x2 := x1 + "\", type: \"";
    var x3 := x2 + h.hookableType;
    var x4 := x3 + "\", name: \"";
    var x5 := x4 + h.name;
    var x6 := x5 + "\", target: \"";
    var x7 := x6 + h.target;
    var x8 := x7 + "\", priority: ";
    Assoc(x8, p, " -->");
    Assoc(x7, "\", priority: ", p + " -->");
    Assoc(x6, h.target, t8);
    Assoc(x5, "\", target: \"", h.target + t8);
    Assoc(x4, h.name, t6);
    Assoc(x3, "\", name: \"", h.name + t6);
    Assoc(x2, h.hookableType, t4);
    Assoc(x1, "\", type: \"", h.hookableType + t4);
    Assoc(x0, h.hookName, t2);
  }

  /** The two comments differ only in their 21-character marker. */
  lemma CommentsDifferOnlyInMarker(hookable: AbstractHookable)
    ensures OpeningDebugComment(hookable) == BeginMarker + CommentBody(hookable)
    ensures ClosingDebugComment(hookable) == EndMarker + CommentBody(hookable)
    ensures |OpeningDebugComment(hookable)| == |ClosingDebugComment(hookable)|
    ensures OpeningDebugComment(hookable)[..21] != ClosingDebugComment(hookable)[..21]
    ensures OpeningDebugComment(hookable)[21..] == ClosingDebugComment(hookable)[21..]
  {
    var fields := CommentFields(hookable);
    RegroupComment(BeginMarker + " hook: \"", hookable);
    RegroupComment(EndMarker + " hook: \"", hookable);
    Assoc(BeginMarker, " hook: \"", fields);
    Assoc(EndMarker, " hook: \"", fields);
    assert BeginMarker[5] != EndMarker[5];
  }

  // ---------------------------------------------------------------------------
  // Reading a comment back
  // ---------------------------------------------------------------------------

  predicate QuoteFree(s: string) {
    forall k :: 0 <= k < |s| ==> s[k] != '"'
  }

  datatype CommentKind = Begin | End

  /** `s` with the literal `lit` taken off its front. */
  function ExpectLiteral(lit: string, s: string): (rest: Option<string>)
    ensures rest.Some? <==> |lit| <= |s| && s[..|lit|] == lit
    ensures rest.Some? ==> s == lit + rest.value
  {
    if |lit| <= |s| && s[..|lit|] == lit then Some(s[|lit|..]) else None
  }

  /** `s` cut at its first double quote: the text before it, and the rest
      from the quote on. */
  function ReadQuoted(s: string): (r: Option<(string, string)>)
    ensures r.Some? ==> QuoteFree(r.value.0) && s == r.value.0 + r.value.1
    ensures r.Some? ==> |r.value.1| > 0 && r.value.1[0] == '"'
    ensures r.None? ==> QuoteFree(s)
  {
    match IndexOf(s, "\"")
    case None =>
      assert QuoteFree(s) by {
        forall k | 0 <= k < |s| ensures s[k] != '"' {
          assert !OccursAt(s, "\"", k);
          assert s[k..k + 1] == [s[k]];
        }
      }
      None
    case Some(k) =>
      assert QuoteFree(s[..k]) by {
        forall j | 0 <= j < k ensures s[..k][j] != '"' {
          assert !OccursAt(s, "\"", j);
          assert s[j..j + 1] == [s[j]];
        }
      }
      assert s[k..][0] == s[k..k + 1][0] == '"';
      Some((s[..k], s[k..]))
  }

  /** The priority and the comment's end, `N -->`. */
  function ParsePriority(s: string): Option<int> {
    if |s| >= 4 && s[|s| - 4..] == " -->" then ParseInt(s[..|s| - 4]) else None
  }

  /** Reads the five fields back from what follows the marker. */
  function ParseCommentBody(s: string): Option<AbstractHookable> {
    var s1 :- ExpectLiteral(" hook: \"", s);
    var hookName :- ReadQuoted(s1);
    var s2 :- ExpectLiteral("\", type: \"", hookName.1);
    var hookableType :- ReadQuoted(s2);
    var s3 :- ExpectLiteral("\", name: \"", hookableType.1);
    var name :- ReadQuoted(s3);
    var s4 :- ExpectLiteral("\", target: \"", name.1);
    var target :- ReadQuoted(s4);
    var s5 :- ExpectLiteral("\", priority: ", target.1);
    var priority :- ParsePriority(s5);
    Some(AbstractHookable(hookName.0, hookableType.0, name.0, target.0, priority))
  }

  /** Reads a debug comment back: which of the two it is, and the hookable. */
  function ParseDebugComment(comment: string): Option<(CommentKind, AbstractHookable)> {
    if |comment| < 21 then None
    else
      var kind :- ParseMarker(comment[..21]);
      var hookable :- ParseCommentBody(comment[21..]);
      Some((kind, hookable))
  }

  /** Which comment a 21-character marker begins. */
  function ParseMarker(marker: string): (kind: Option<CommentKind>)
    ensures kind == Some(Begin) <==> marker == BeginMarker
    ensures kind == Some(End) <==> marker == EndMarker
  {
    assert BeginMarker[5] != EndMarker[5];
    if marker == BeginMarker then Some(Begin)
    else if marker == EndMarker then Some(End)
    else None
  }

  function Marker(kind: CommentKind): string {
    match kind
    case Begin => BeginMarker
    case End => EndMarker
  }

  lemma ReadQuotedOf(field: string, rest: string)
    requires QuoteFree(field)
    requires |rest| > 0 && rest[0] == '"'
    ensures ReadQuoted(field + rest) == Some((field, rest))
  {
    var s := field + rest;
    assert s[|field|..|field| + 1] == "\"";
    assert OccursAt(s, "\"", |field|);
    forall j: nat | j < |field| ensures !OccursAt(s, "\"", j) {
      assert s[j..j + 1][0] == field[j];
    }
    assert s[..|field|] == field && s[|field|..] == rest;
  }

  lemma ParseCommentBodyOf(hookable: AbstractHookable)
    requires QuoteFree(hookable.hookName) && QuoteFree(hookable.hookableType)
    requires QuoteFree(hookable.name) && QuoteFree(hookable.target)
    ensures ParseCommentBody(CommentBody(hookable)) == Some(hookable)
  {
    var h := hookable;
    var p := FormatInt(h.priority);
    var t2, t4, t6, t8 := FieldsTextTails(h.hookName, h.hookableType, h.name, h.target, p);
    var t9 := p + " -->";
    assert CommentBody(h) == " hook: \"" + (h.hookName + t2);
    assert ExpectLiteral(" hook: \"", " hook: \"" + (h.hookName + t2)) == Some(h.hookName + t2);
    ReadQuotedOf(h.hookName, t2);
    assert ExpectLiteral("\", type: \"", t2) == Some(h.hookableType + t4);
    ReadQuotedOf(h.hookableType, t4);
    assert ExpectLiteral("\", name: \"", t4) == Some(h.name + t6);
    ReadQuotedOf(h.name, t6);
    assert ExpectLiteral("\", target: \"", t6) == Some(h.target + t8);
    ReadQuotedOf(h.target, t8);
    assert ExpectLiteral("\", priority: ", t8) == Some(t9);
    assert t9[..|t9| - 4] == p && t9[|t9| - 4..] == " -->";
    ParseFormatInt(h.priority);
    assert ParsePriority(t9) == Some(h.priority);
  }

  lemma ParseMarkedComment(kind: CommentKind, body: string, hookable: AbstractHookable)
    requires ParseCommentBody(body) == Some(hookable)
    ensures ParseDebugComment(Marker(kind) + body) == Some((kind, hookable))
  {
    var c := Marker(kind) + body;
    assert |Marker(kind)| == 21;
    assert c[..21] == Marker(kind) && c[21..] == body;
    assert ParseMarker(c[..21]) == Some(kind);
  }

  /** When no string field holds a double quote, either comment names its
      hookable unambiguously: reading it back gives the hookable it was built from. */
  lemma ParseDebugCommentRoundTrip(hookable: AbstractHookable)
    requires QuoteFree(hookable.hookName) && QuoteFree(hookable.hookableType)
    requires QuoteFree(hookable.name) && QuoteFree(hookable.target)
    ensures ParseDebugComment(OpeningDebugComment(hookable)) == Some((Begin, hookable))
    ensures ParseDebugComment(ClosingDebugComment(hookable)) == Some((End, hookable))
  {
    CommentsDifferOnlyInMarker(hookable);
    ParseCommentBodyOf(hookable);
    ParseMarkedComment(Begin, CommentBody(hookable), hookable);
    ParseMarkedComment(End, CommentBody(hookable), hookable);
  }

  // ---------------------------------------------------------------------------
  // Field values are not escaped
  // ---------------------------------------------------------------------------

  lemma SliceAfter(prefix: string, s: string, i: nat, j: nat)
    requires i <= j <= |s|
    ensures (prefix + s)[|prefix| + i..|prefix| + j] == s[i..j]
  {
  }

  /** `fields` shows the hook name, type, name, target and formatted priority
      exactly as they are, each at the position fixed by the lengths of the
      fields before it, and ends with ` -->`. */
  predicate FieldsLaidOut(fields: string, hn: string, ty: string, nm: string, tg: string, p: string) {
    var o2 := |hn| + 10;
    var o3 := o2 + |ty| + 10;
    var o4 := o3 + |nm| + 12;
    var o5 := o4 + |tg| + 13;
    && |fields| == o5 + |p| + 4
    && fields[..|hn|] == hn
    && fields[o2..o2 + |ty|] == ty
    && fields[o3..o3 + |nm|] == nm
    && fields[o4..o4 + |tg|] == tg
    && fields[o5..o5 + |p|] == p
    && fields[|fields| - 4..] == " -->"
  }

  /** A comment shows the fields of `hookable` verbatim when, after the 29
      characters of its marker and ` hook: "`, they are laid out as above. */
  predicate ShowsFieldsVerbatim(comment: string, hookable: AbstractHookable) {
    var h := hookable;
    && |comment| >= 29
    && FieldsLaidOut(comment[29..], h.hookName, h.hookableType, h.name, h.target, FormatInt(h.priority))
  }

  /** A slice of what follows a separator and a field. */
  lemma SliceAfterField(sep: string, field: string, t: string, i: nat, j: nat)
    requires i <= j <= |t|
    ensures |sep + (field + t)| == |sep| + |field| + |t|
    ensures (sep + (field + t))[|sep| + |field| + i..|sep| + |field| + j] == t[i..j]
  {
    assert sep + (field + t) == (sep + field) + t;
  }

  lemma PriorityAtOffset(hn: string, ty: string, nm: string, tg: string, p: string)
    ensures var f := FieldsText(hn, ty, nm, tg, p);
      var o5 := |hn| + 10 + |ty| + 10 + |nm| + 12 + |tg| + 13;
      |f| == o5 + |p| + 4 && f[o5..o5 + |p|] == p
  {
    var t8 := "\", priority: " + (p + " -->");
    var t6 := "\", target: \"" + (tg + t8);
    var t4 := "\", name: \"" + (nm + t6);
    var t2 := "\", type: \"" + (ty + t4);
    var i := 13;
    assert t8[i..i + |p|] == p;
    SliceAfterField("\", target: \"", tg, t8, i, i + |p|);
    i := i + 12 + |tg|;
    SliceAfterField("\", name: \"", nm, t6, i, i + |p|);
    i := i + 10 + |nm|;
    SliceAfterField("\", type: \"", ty, t4, i, i + |p|);
    i := i + 10 + |ty|;
    SliceAfter(hn, t2, i, i + |p|);
  }

  /** Both comments end with the ` -->` that closes them. */
  lemma FieldsEndWithArrow(hn: string, ty: string, nm: string, tg: string, p: string)
    ensures var f := FieldsText(hn, ty, nm, tg, p); |f| >= 4 && f[|f| - 4..] == " -->"
  {
    var t8 := "\", priority: " + (p + " -->");
    var t6 := "\", target: \"" + (tg + t8);
    var t4 := "\", name: \"" + (nm + t6);
    var t2 := "\", type: \"" + (ty + t4);
    SuffixOf(p, " -->", 4);
    SuffixOf("\", priority: ", p + " -->", 4);
    SuffixOf(tg, t8, 4);
    SuffixOf("\", target: \"", tg + t8, 4);
    SuffixOf(nm, t6, 4);
    SuffixOf("\", name: \"", nm + t6, 4);
    SuffixOf(ty, t4, 4);
    SuffixOf("\", type: \"", ty + t4, 4);
    SuffixOf(hn, t2, 4);
  }

  /** The last `k` characters of `x + t` are those of `t`. */
  lemma SuffixOf(x: string, t: string, k: nat)
    requires k <= |t|
    ensures (x + t)[|x + t| - k..] == t[|t| - k..]
  {
  }

  lemma TargetAtOffset(hn: string, ty: string, nm: string, tg: string, p: string)
    ensures var f := FieldsText(hn, ty, nm, tg, p);
      var o4 := |hn| + 10 + |ty| + 10 + |nm| + 12;
      o4 + |tg| <= |f| && f[o4..o4 + |tg|] == tg
  {
    var t6 := "\", target: \"" + (tg + ("\", priority: " + (p + " -->")));
    var t4 := "\", name: \"" + (nm + t6);
    var t2 := "\", type: \"" + (ty + t4);
    var i := 12;
    assert t6[i..i + |tg|] == tg;
    SliceAfterField("\", name: \"", nm, t6, i, i + |tg|);
    i := i + 10 + |nm|;
    SliceAfterField("\", type: \"", ty, t4, i, i + |tg|);
    i := i + 10 + |ty|;
    SliceAfter(hn, t2, i, i + |tg|);
  }

  lemma NameAtOffset(hn: string, ty: string, nm: string, tg: string, p: string)
    ensures var f := FieldsText(hn, ty, nm, tg, p);
      var o3 := |hn| + 10 + |ty| + 10;
      o3 + |nm| <= |f| && f[o3..o3 + |nm|] == nm
  {
    var t4 := "\", name: \"" + (nm + ("\", target: \"" + (tg + ("\", priority: " + (p + " -->")))));
    var t2 := "\", type: \"" + (ty + t4);
    var i := 10;
    assert t4[i..i + |nm|] == nm;
    SliceAfterField("\", type: \"", ty, t4, i, i + |nm|);
    i := i + 10 + |ty|;
    SliceAfter(hn, t2, i, i + |nm|);
  }

  lemma TypeAtOffset(hn: string, ty: string, nm: string, tg: string, p: string)
    ensures var f := FieldsText(hn, ty, nm, tg, p);
      |hn| + 10 + |ty| <= |f| && f[..|hn|] == hn && f[|hn| + 10..|hn| + 10 + |ty|] == ty
  {
    var t2 := FieldsText(hn, ty, nm, tg, p)[|hn|..];
    assert FieldsText(hn, ty, nm, tg, p) == hn + t2;
    assert t2[10..10 + |ty|] == ty;
    SliceAfter(hn, t2, 10, 10 + |ty|);
  }

  lemma FieldsTextLaidOut(hn: string, ty: string, nm: string, tg: string, p: string)
    ensures FieldsLaidOut(FieldsText(hn, ty, nm, tg, p), hn, ty, nm, tg, p)
  {
    PriorityAtOffset(hn, ty, nm, tg, p);
    FieldsEndWithArrow(hn, ty, nm, tg, p);
    TargetAtOffset(hn, ty, nm, tg, p);
    NameAtOffset(hn, ty, nm, tg, p);
    TypeAtOffset(hn, ty, nm, tg, p);
  }

  /** Field values are inserted as they are: whatever characters a field holds
      (a double quote, `-->`), both comments show it unchanged at a position
      fixed by the lengths of the fields before it. */
  lemma FieldsAppearVerbatim(hookable: AbstractHookable)
    ensures ShowsFieldsVerbatim(OpeningDebugComment(hookable), hookable)
    ensures ShowsFieldsVerbatim(ClosingDebugComment(hookable), hookable)
  {
    var h, f := hookable, CommentFields(hookable);
    CommentsDifferOnlyInMarker(hookable);
    FieldsTextLaidOut(h.hookName, h.hookableType, h.name, h.target, FormatInt(h.priority));
    Assoc(BeginMarker, " hook: \"", f);
    Assoc(EndMarker, " hook: \"", f);
    assert (BeginMarker + " hook: \"" + f)[29..] == f;
    assert (EndMarker + " hook: \"" + f)[29..] == f;
  }

  /** Because nothing is escaped, a double quote in a field lets two different
      hookables produce the very same comments. */
  lemma QuotesMakeCommentsAmbiguous(hookable: AbstractHookable, a: string, b: string, c: string)
    ensures var separator := "\", type: \"";
      var h1 := hookable.(hookName := a + separator + b, hookableType := c);
      var h2 := hookable.(hookName := a, hookableType := b + separator + c);
      && h1 != h2
      && OpeningDebugComment(h1) == OpeningDebugComment(h2)
      && ClosingDebugComment(h1) == ClosingDebugComment(h2)
  {
    var separator := "\", type: \"";
    var h1 := hookable.(hookName := a + separator + b, hookableType := c);
    var h2 := hookable.(hookName := a, hookableType := b + separator + c);
    assert |h1.hookName| != |h2.hookName|;
    var h := hookable;
    var rest := "\", name: \"" + (h.name
      + ("\", target: \"" + (h.target
      + ("\", priority: " + (FormatInt(h.priority) + " -->")))));
    assert CommentFields(h1) == a + separator + b + (separator + (c + rest));
    assert CommentFields(h2) == a + (separator + (b + separator + c + rest));
    Assoc(a + separator, b, separator + (c + rest));
    Assoc(a, separator, b + (separator + (c + rest)));
    Assoc(b, separator, c + rest);
    Assoc(b + separator, c, rest);
    assert CommentFields(h1) == CommentFields(h2);
    CommentsDifferOnlyInMarker(h1);
    CommentsDifferOnlyInMarker(h2);
  }

  // ---------------------------------------------------------------------------
  // Rendering
  // ---------------------------------------------------------------------------

  /** What the decorator returns when the wrapped renderer produced `inner`:
      the opening comment, the trimmed inner output and the closing comment,
      imploded with the line separator `eol`. */
  function DebugRendering(hookable: AbstractHookable, inner: string, eol: string): (rendered: string)
    ensures rendered
         == OpeningDebugComment(hookable) + eol + Trim(inner) + eol + ClosingDebugComment(hookable)
  {
    ImplodeThree(eol, OpeningDebugComment(hookable), Trim(inner), ClosingDebugComment(hookable));
    Implode(eol, [OpeningDebugComment(hookable), Trim(inner), ClosingDebugComment(hookable)])
  }

  /** The middle of the output is the inner output with its leading and trailing
      trim characters cut off, and nothing else changed: a contiguous piece of
      it that neither starts nor ends with a trim character. */
  lemma RenderedMiddleIsTrimmedInner(hookable: AbstractHookable, inner: string, eol: string)
    ensures var rendered, middle := DebugRendering(hookable, inner, eol), Trim(inner);
      var start, cut := |OpeningDebugComment(hookable)| + |eol|, TrimStart(inner);
      && start + |middle| <= |rendered|
      && rendered[start..start + |middle|] == middle
      && cut + |middle| <= |inner|
      && middle == inner[cut..cut + |middle|]
      && AllTrimChars(inner[..cut]) && AllTrimChars(inner[cut + |middle|..])
      && IsTrimmed(middle)
  {
    RenderedMiddle(hookable, inner, eol);
    TrimIsStrippedSlice(inner);
  }

  lemma RenderedMiddle(hookable: AbstractHookable, inner: string, eol: string)
    ensures var rendered, middle := DebugRendering(hookable, inner, eol), Trim(inner);
      var start := |OpeningDebugComment(hookable)| + |eol|;
      start + |middle| <= |rendered| && rendered[start..start + |middle|] == middle
  {
    var opening, middle, closing := OpeningDebugComment(hookable), Trim(inner), ClosingDebugComment(hookable);
    assert DebugRendering(hookable, inner, eol) == Implode(eol, [opening, middle, closing]);
    MiddleOfImplodedThree(opening, eol, middle, closing);
  }

  /** Trim characters around the inner output never reach the output: padding
      it with them, or trimming it beforehand, renders the same. */
  lemma RenderingIgnoresPadding(hookable: AbstractHookable, a: string, inner: string, b: string, eol: string)
    requires AllTrimChars(a) && AllTrimChars(b)
    ensures DebugRendering(hookable, a + inner + b, eol) == DebugRendering(hookable, inner, eol)
    ensures DebugRendering(hookable, Trim(inner), eol) == DebugRendering(hookable, inner, eol)
  {
    TrimIgnoresPadding(a, inner, b);
    TrimIdempotent(inner);
  }

  lemma FormatIntHasNoLineFeed(n: int)
    ensures forall k :: 0 <= k < |FormatInt(n)| ==> FormatInt(n)[k] != '\n'
  {
    var s := FormatInt(n);
    FormatIntDigits(n);
    forall k | 0 <= k < |s| ensures s[k] != '\n' {
      if n < 0 && k > 0 {
        assert s[k] == s[1..][k - 1];
      }
    }
  }

  /** With no line separator in a string field, neither comment holds one. */
  lemma CommentsHaveNoLineSeparator(hookable: AbstractHookable, eol: string)
    requires IsLineSeparator(eol)
    requires !Contains(hookable.hookName, eol) && !Contains(hookable.hookableType, eol)
    requires !Contains(hookable.name, eol) && !Contains(hookable.target, eol)
    ensures !Contains(OpeningDebugComment(hookable), eol)
    ensures !Contains(ClosingDebugComment(hookable), eol)
  {
    var h, body := hookable, CommentBody(hookable);
    assert !Contains(body, eol) by {
      var p := FormatInt(h.priority);
      FormatIntHasNoLineFeed(h.priority);
      NoLineFeedNoSeparator(p, eol);
      var fields := FieldsText(h.hookName, h.hookableType, h.name, h.target, p);
      FieldsTextHasNoSeparator(h.hookName, h.hookableType, h.name, h.target, p, eol);
      NoLineFeedNoSeparator(" hook: \"", eol);
      NoSeparatorInConcat(" hook: \"", fields, eol);
    }
    assert !Contains(BeginMarker + body, eol) by {
      NoLineFeedNoSeparator(BeginMarker, eol);
      NoSeparatorInConcat(BeginMarker, body, eol);
    }
    assert !Contains(EndMarker + body, eol) by {
      NoLineFeedNoSeparator(EndMarker, eol);
      NoSeparatorInConcat(EndMarker, body, eol);
    }
    CommentsDifferOnlyInMarker(h);
  }

  lemma FieldsTextHasNoSeparator(hn: string, ty: string, nm: string, tg: string, p: string, eol: string)
    requires IsLineSeparator(eol)
    requires !Contains(hn, eol) && !Contains(ty, eol) && !Contains(nm, eol) && !Contains(tg, eol)
    requires !Contains(p, eol)
    ensures !Contains(FieldsText(hn, ty, nm, tg, p), eol)
  {
    var l9, l8, l6, l4, l2 := " -->", "\", priority: ", "\", target: \"", "\", name: \"", "\", type: \"";
    NoLineFeedNoSeparator(l9, eol);
    NoLineFeedNoSeparator(l8, eol);
    NoLineFeedNoSeparator(l6, eol);
    NoLineFeedNoSeparator(l4, eol);
    NoLineFeedNoSeparator(l2, eol);
    // from the right: every seam has a quote or a space on one side
    var t9 := p + l9;
    NoSeparatorInConcat(p, l9, eol);
    var t8 := l8 + t9;
    NoSeparatorInConcat(l8, t9, eol);
    var t7 := tg + t8;
    NoSeparatorInConcat(tg, t8, eol);
    var t6 := l6 + t7;
    NoSeparatorInConcat(l6, t7, eol);
    var t5 := nm + t6;
    NoSeparatorInConcat(nm, t6, eol);
    var t4 := l4 + t5;
    NoSeparatorInConcat(l4, t5, eol);
    var t3 := ty + t4;
    NoSeparatorInConcat(ty, t4, eol);
    var t2 := l2 + t3;
    NoSeparatorInConcat(l2, t3, eol);
    NoSeparatorInConcat(hn, t2, eol);
  }

  /** When no string field and not the trimmed inner output holds the line
      separator, splitting the output on it gives exactly three lines: the
      opening comment, the trimmed inner output and the closing comment. */
  lemma RenderingHasThreeLines(hookable: AbstractHookable, inner: string, eol: string)
    requires IsLineSeparator(eol)
    requires !Contains(hookable.hookName, eol) && !Contains(hookable.hookableType, eol)
    requires !Contains(hookable.name, eol) && !Contains(hookable.target, eol)
    requires !Contains(Trim(inner), eol)
    ensures Explode(eol, DebugRendering(hookable, inner, eol))
         == [OpeningDebugComment(hookable), Trim(inner), ClosingDebugComment(hookable)]
  {
    var parts := [OpeningDebugComment(hookable), Trim(inner), ClosingDebugComment(hookable)];
    CommentsHaveNoLineSeparator(hookable, eol);
    LineSeparatorIsBorderless(eol);
    ExplodeImplode(eol, parts);
  }

  /** Either comment of the worked example's hookable, in five pieces. */
  lemma ExampleComment(start: string, hookable: AbstractHookable)
    requires hookable == AbstractHookable("h", "t", "n", "x", 5)
    ensures start + hookable.hookName
            + "\", type: \"" + hookable.hookableType
            + "\", name: \"" + hookable.name
            + "\", target: \"" + hookable.target
            + "\", priority: " + FormatInt(hookable.priority)
            + " -->"
         == start + "h" + "\", type: \"t" + "\", name: \"n" + "\", target: \"x" + "\", priority: 5 -->"
  {
    assert FormatInt(5) == "5";
    var x1 := start + "h";
    Assoc(x1, "\", type: \"", "t");
    var x2 := x1 + "\", type: \"t";
    Assoc(x2, "\", name: \"", "n");
    var x3 := x2 + "\", name: \"n";
    Assoc(x3, "\", target: \"", "x");
    var x4 := x3 + "\", target: \"x";
    Assoc(x4, "\", priority: ", "5");
    Assoc(x4, "\", priority: 5", " -->");
  }

  /** The worked example: hook "h", type "t", name "n", target "x", priority 5,
      and an inner output " <div>content</div> " (one space on either side). */
  const ExampleHookable := AbstractHookable("h", "t", "n", "x", 5)
  const ExampleInner := " " + "<div>content</div>" + " "
  const ExampleOpening := "<!-- BEGIN HOOKABLE | hook: \"h" + "\", type: \"t" + "\", name: \"n"
                          + "\", target: \"x" + "\", priority: 5 -->"
  const ExampleClosing := "<!--  END HOOKABLE  | hook: \"h" + "\", type: \"t" + "\", name: \"n"
                          + "\", target: \"x" + "\", priority: 5 -->"

  lemma ExampleRendering(eol: string)
    ensures DebugRendering(ExampleHookable, ExampleInner, eol)
         == ExampleOpening + eol + "<div>content</div>" + eol + ExampleClosing
  {
    ExampleTrim();
    ExampleOpeningComment();
    ExampleClosingComment();
  }

  lemma ExampleTrim()
    ensures Trim(ExampleInner) == "<div>content</div>"
  {
    TrimOfPadded(" ", "<div>content</div>", " ");
  }

  lemma ExampleOpeningComment()
    ensures OpeningDebugComment(ExampleHookable) == ExampleOpening
  {
    ExampleComment(BeginMarker + " hook: \"", ExampleHookable);
    assert BeginMarker + " hook: \"" + "h" == "<!-- BEGIN HOOKABLE | hook: \"h";
  }

  lemma ExampleClosingComment()
    ensures ClosingDebugComment(ExampleHookable) == ExampleClosing
  {
    ExampleComment(EndMarker + " hook: \"", ExampleHookable);
    assert EndMarker + " hook: \"" + "h" == "<!--  END HOOKABLE  | hook: \"h";
  }

  /**
   * The debug decorator. It wraps another hookable renderer and is used in its
   * place; `eol` is the platform's line separator, PHP_EOL.
   */
  class HookableDebugCommentRenderer {
    const innerRenderer: HookableRenderer
    const eol: string

    constructor (innerRenderer: HookableRenderer, eol: string)
      ensures this.innerRenderer == innerRenderer && this.eol == eol
    {
      this.innerRenderer := innerRenderer;
      this.eol := eol;
    }

    /** Renders the hookable with the wrapped renderer, called exactly once and
        with the same hookable and metadata, and frames the trimmed result with
        the two debug comments, one part per line. */
    method Render(hookable: AbstractHookable, metadata: HookableMetadata) returns (rendered: string)
      modifies innerRenderer
      ensures rendered == DebugRendering(hookable, innerRenderer.output(hookable, metadata), eol)
      ensures innerRenderer.calls == old(innerRenderer.calls) + [(hookable, metadata)]
    {
      var renderedParts: seq<string> := [];
      renderedParts := renderedParts + [OpeningDebugComment(hookable)];
      var inner := innerRenderer.Render(hookable, metadata);
      renderedParts := renderedParts + [Trim(inner)];
      renderedParts := renderedParts + [ClosingDebugComment(hookable)];
      assert renderedParts == [OpeningDebugComment(hookable), Trim(inner), ClosingDebugComment(hookable)];
      rendered := Implode(eol, renderedParts);
    }
  }
}
