/**
 * The PHP string built-ins the debug comment renderer relies on: `trim` with
 * its default character list, and `implode`. `explode` and substring search
 * are here only to state what the rendered output looks like line by line.
 * Strings are sequences of characters; PHP's byte strings are not modelled.
 */
module PhpStrings {

  import opened Wrappers

  // ---------------------------------------------------------------------------
  // trim
  // ---------------------------------------------------------------------------

  /** The characters `trim` strips when no character list is given:
      space, tab, line feed, carriage return, NUL and vertical tab. */
  predicate IsTrimChar(c: char) {
    c == ' ' || c == '\t' || c == '\n' || c == '\r' || c == '\0' || c == '\U{B}'
  }

  ghost predicate AllTrimChars(s: string) {
    forall k :: 0 <= k < |s| ==> IsTrimChar(s[k])
  }

  /** Neither end of `s` can be stripped by `trim`. */
  predicate IsTrimmed(s: string) {
    s == [] || (!IsTrimChar(s[0]) && !IsTrimChar(s[|s| - 1]))
  }

  /** Number of leading characters `trim` strips: the longest prefix of trim characters. */
  function TrimStart(s: string): (i: nat)
    ensures i <= |s|
    ensures AllTrimChars(s[..i])
    ensures i < |s| ==> !IsTrimChar(s[i])
  {
    if s == [] || !IsTrimChar(s[0]) then 0
    else
      var i := 1 + TrimStart(s[1..]);
      assert s[..i] == [s[0]] + s[1..][..i - 1];
      i
  }

  /** Length of `s` once its trailing trim characters are stripped. */
  function TrimEnd(s: string): (j: nat)
    ensures j <= |s|
    ensures AllTrimChars(s[j..])
    ensures 0 < j ==> !IsTrimChar(s[j - 1])
  {
    if s == [] || !IsTrimChar(s[|s| - 1]) then |s|
    else
      var j := TrimEnd(s[..|s| - 1]);
      assert s[j..] == s[..|s| - 1][j..] + [s[|s| - 1]];
      j
  }

  /** PHP `trim($s)`: strip the leading trim characters, then the trailing ones
      of what is left (so a string of trim characters only becomes empty). */
  function Trim(s: string): (r: string)
    ensures |r| <= |s|
    ensures IsTrimmed(r)
  {
    var rest := s[TrimStart(s)..];
    rest[..TrimEnd(rest)]
  }

  /** What `trim` returns is a contiguous piece of its argument, and everything it
      cut off on either side is a trim character: inner characters are untouched. */
  lemma TrimIsStrippedSlice(s: string)
    ensures TrimStart(s) + |Trim(s)| <= |s|
    ensures Trim(s) == s[TrimStart(s)..TrimStart(s) + |Trim(s)|]
    ensures AllTrimChars(s[..TrimStart(s)])
    ensures AllTrimChars(s[TrimStart(s) + |Trim(s)|..])
  {
    var i := TrimStart(s);
    var rest := s[i..];
    var j := TrimEnd(rest);
    assert Trim(s) == rest[..j];
    assert rest[..j] == s[i..i + j];
    assert s[i + j..] == rest[j..];
  }

  lemma {:induction false} TrimStartOfPadded(a: string, t: string)
    requires AllTrimChars(a)
    requires t == [] || !IsTrimChar(t[0])
    ensures TrimStart(a + t) == |a|
    decreases |a|
  {
    if a != [] {
      assert (a + t)[1..] == a[1..] + t;
      TrimStartOfPadded(a[1..], t);
    } else {
      assert a + t == t;
    }
  }

  lemma {:induction false} TrimEndOfPadded(t: string, b: string)
    requires AllTrimChars(b)
    requires t == [] || !IsTrimChar(t[|t| - 1])
    ensures TrimEnd(t + b) == |t|
    decreases |b|
  {
    if b != [] {
      assert (t + b)[..|t + b| - 1] == t + b[..|b| - 1];
      TrimEndOfPadded(t, b[..|b| - 1]);
    } else {
      assert t + b == t;
    }
  }

  /** `trim` is characterised by what it does: whatever trim characters pad a
      string that cannot itself be trimmed, `trim` returns exactly that string. */
  lemma TrimOfPadded(a: string, m: string, b: string)
    requires AllTrimChars(a) && AllTrimChars(b)
    requires IsTrimmed(m)
    ensures Trim(a + m + b) == m
  {
    var s := a + m + b;
    if m == [] {
      assert s == a + b;
      assert AllTrimChars(s) by {
        forall k | 0 <= k < |s| ensures IsTrimChar(s[k]) {
          if k < |a| { assert s[k] == a[k]; } else { assert s[k] == b[k - |a|]; }
        }
      }
      TrimStartOfPadded(s, []);
      assert s + [] == s;
    } else {
      assert s == a + (m + b);
      TrimStartOfPadded(a, m + b);
      assert s[|a|..] == m + b;
      TrimEndOfPadded(m, b);
    }
  }

  /** Trimming twice is trimming once. */
  lemma TrimIdempotent(s: string)
    ensures Trim(Trim(s)) == Trim(s)
  {
    var r := Trim(s);
    assert [] + r + [] == r;
    TrimOfPadded([], r, []);
  }

  lemma AllTrimCharsConcat(a: string, b: string)
    requires AllTrimChars(a) && AllTrimChars(b)
    ensures AllTrimChars(a + b)
  {
    var s := a + b;
    forall k | 0 <= k < |s| ensures IsTrimChar(s[k]) {
      if k < |a| { assert s[k] == a[k]; } else { assert s[k] == b[k - |a|]; }
    }
  }

  lemma Assoc(a: string, b: string, c: string)
    ensures a + b + c == a + (b + c)
  {
  }

  /** Trim characters added around a string do not change what `trim` returns. */
  lemma TrimIgnoresPadding(a: string, s: string, b: string)
    requires AllTrimChars(a) && AllTrimChars(b)
    ensures Trim(a + s + b) == Trim(s)
  {
    var middle := Trim(s);
    var left, right := TrimSplit(s);
    Regroup(a, left, middle, right, b);
    AllTrimCharsConcat(a, left);
    AllTrimCharsConcat(right, b);
    TrimOfPadded(a + left, middle, right + b);
  }

  /** `s` is what `trim` returns with trim characters on either side. */
  lemma TrimSplit(s: string) returns (left: string, right: string)
    ensures s == left + Trim(s) + right
    ensures AllTrimChars(left) && AllTrimChars(right)
  {
    var middle, cut := Trim(s), TrimStart(s);
    TrimIsStrippedSlice(s);
    left, right := s[..cut], s[cut + |middle|..];
    assert s == s[..cut] + s[cut..];
    assert s[cut..] == middle + right;
  }

  lemma Regroup(a: string, l: string, m: string, r: string, b: string)
    ensures a + (l + m + r) + b == (a + l) + m + (r + b)
  {
  }

  // ---------------------------------------------------------------------------
  // Substring search
  // ---------------------------------------------------------------------------

  /** `sep` occurs in `s` starting at position `k`. */
  predicate OccursAt(s: string, sep: string, k: nat) {
    k + |sep| <= |s| && s[k..k + |sep|] == sep
  }

  ghost predicate Contains(s: string, sep: string) {
    exists k: nat :: OccursAt(s, sep, k)
  }

  /** Position of the first occurrence of `sep` in `s`, as PHP's `strpos`. */
  function IndexOf(s: string, sep: string): (r: Option<nat>)
    ensures r.Some? ==> OccursAt(s, sep, r.value)
    ensures forall k: nat :: r.Some? && k < r.value ==> !OccursAt(s, sep, k)
    ensures r.None? ==> !Contains(s, sep)
    decreases |s|
  {
    if |s| < |sep| then None
    else if s[..|sep|] == sep then Some(0)
    else
      var r := IndexOf(s[1..], sep);
      assert !OccursAt(s, sep, 0);
      assert forall k: nat :: 0 < k && OccursAt(s, sep, k) ==> OccursAt(s[1..], sep, k - 1) by {
        forall k: nat | 0 < k && OccursAt(s, sep, k) ensures OccursAt(s[1..], sep, k - 1) {
          assert s[1..][k - 1..k - 1 + |sep|] == s[k..k + |sep|];
        }
      }
      match r
      case None => None
      case Some(k) =>
        assert OccursAt(s, sep, k + 1) by {
          assert s[1..][k..k + |sep|] == s[k + 1..k + 1 + |sep|];
        }
        Some(k + 1)
  }

  /** No proper prefix of `sep` is also a suffix of it, so two occurrences of
      `sep` never overlap. Both of PHP's line separators have this property. */
  ghost predicate Borderless(sep: string) {
    forall n :: 0 < n < |sep| ==> sep[..n] != sep[|sep| - n..]
  }

  /** The line separators `PHP_EOL` can stand for. */
  predicate IsLineSeparator(eol: string) {
    eol == "\n" || eol == "\r\n"
  }

  lemma LineSeparatorIsBorderless(eol: string)
    requires IsLineSeparator(eol)
    ensures |eol| > 0 && Borderless(eol)
  {
    if eol == "\r\n" {
      assert eol[..1] != eol[1..] by { assert eol[..1][0] == '\r' && eol[1..][0] == '\n'; }
    }
  }

  /** A string without a line feed contains no line separator. */
  lemma NoLineFeedNoSeparator(s: string, eol: string)
    requires IsLineSeparator(eol)
    requires forall k :: 0 <= k < |s| ==> s[k] != '\n'
    ensures !Contains(s, eol)
  {
    var n := |eol|;
    forall k: nat ensures !OccursAt(s, eol, k) {
      if k + n <= |s| {
        assert s[k..k + n][n - 1] == s[k + n - 1] != '\n';
      }
    }
  }

  /** Gluing two strings without a line separator creates one only when a
      carriage return meets a line feed. */
  lemma NoSeparatorInConcat(x: string, y: string, eol: string)
    requires IsLineSeparator(eol)
    requires !Contains(x, eol) && !Contains(y, eol)
    requires x == [] || y == [] || x[|x| - 1] != '\r' || y[0] != '\n'
    ensures !Contains(x + y, eol)
  {
    var s := x + y;
    var n := |eol|;
    forall k: nat | k + n <= |s| ensures !OccursAt(s, eol, k) {
      SliceOfConcat(x, y, k, k + n);
      if k + n <= |x| {
        assert !OccursAt(x, eol, k);
      } else if |x| <= k {
        assert !OccursAt(y, eol, k - |x|);
      } else {
        // the occurrence would straddle the seam: "\r" ending x, "\n" starting y
        assert eol == "\r\n" && k == |x| - 1;
        assert s[k..k + n][0] == x[|x| - 1] && s[k..k + n][1] == y[0];
        assert eol[0] == '\r' && eol[1] == '\n';
      }
    }
  }

  /** A slice of `x + y` lying within one of the two pieces. */
  lemma SliceOfConcat(x: string, y: string, i: nat, j: nat)
    requires i <= j <= |x| + |y|
    ensures j <= |x| ==> (x + y)[i..j] == x[i..j]
    ensures |x| <= i ==> (x + y)[i..j] == y[i - |x|..j - |x|]
  {
  }

  /** The first occurrence of a borderless `sep` in `a + sep + b`, when `a` does
      not contain it, is the one right after `a`. */
  lemma FirstOccurrenceAfter(a: string, sep: string, b: string)
    requires |sep| > 0 && Borderless(sep)
    requires !Contains(a, sep)
    ensures IndexOf(a + sep + b, sep) == Some(|a|)
  {
    var s := a + sep + b;
    var n := |sep|;
    assert s[|a|..|a| + n] == sep;
    assert OccursAt(s, sep, |a|);
    forall j: nat | j < |a| ensures !OccursAt(s, sep, j) {
      if j + n <= |a| {
        assert s[j..j + n] == a[j..j + n];
        assert !OccursAt(a, sep, j);
      } else {
        // an occurrence straddling the end of `a` would give `sep` a border
        var p := |a| - j;
        assert s[j..j + n][p..] == sep[..n - p];
        assert sep[..n - p] != sep[n - (n - p)..];
      }
    }
  }

  // ---------------------------------------------------------------------------
  // implode / explode
  // ---------------------------------------------------------------------------

  /** PHP `implode($sep, $parts)`: the parts joined with `sep` between neighbours. */
  function Implode(sep: string, parts: seq<string>): (r: string)
    ensures |parts| == 0 ==> r == []
    ensures |parts| > 0 ==> |r| == TotalLength(parts) + (|parts| - 1) * |sep|
    ensures |parts| > 0 ==> r[..|parts[0]|] == parts[0]
  {
    if |parts| == 0 then []
    else if |parts| == 1 then parts[0]
    else parts[0] + sep + Implode(sep, parts[1..])
  }

  lemma ImplodeThree(sep: string, x: string, y: string, z: string)
    ensures Implode(sep, [x, y, z]) == x + sep + y + sep + z
  {
    assert [x, y, z][1..] == [y, z];
    assert [y, z][1..] == [z];
    assert Implode(sep, [y, z]) == y + sep + z;
  }

  /** The second of three parts sits right after the first and a separator. */
  lemma MiddleOfThree(x: string, sep: string, y: string, z: string)
    ensures var s := x + sep + y + sep + z;
      |x| + |sep| + |y| <= |s| && s[|x| + |sep|..|x| + |sep| + |y|] == y
  {
    var s := x + sep + y + sep + z;
    assert s == (x + sep) + (y + (sep + z));
    assert (y + (sep + z))[..|y|] == y;
  }

  /** The second of three imploded parts sits right after the first and the separator. */
  lemma MiddleOfImplodedThree(x: string, sep: string, y: string, z: string)
    ensures var s := Implode(sep, [x, y, z]);
      |x| + |sep| + |y| <= |s| && s[|x| + |sep|..|x| + |sep| + |y|] == y
  {
    ImplodeThree(sep, x, y, z);
    MiddleOfThree(x, sep, y, z);
  }

  function TotalLength(parts: seq<string>): nat {
    if parts == [] then 0 else |parts[0]| + TotalLength(parts[1..])
  }

  /** PHP `explode($sep, $s)` with no limit: the pieces of `s` between the
      occurrences of `sep`, found from left to right. */
  function Explode(sep: string, s: string): (r: seq<string>)
    requires |sep| > 0
    ensures |r| > 0
    decreases |s|
  {
    match IndexOf(s, sep)
    case None => [s]
    case Some(k) => [s[..k]] + Explode(sep, s[k + |sep|..])
  }

  /** Splitting on a borderless separator undoes joining with it, provided no
      part contains the separator. */
  lemma {:induction false} ExplodeImplode(sep: string, parts: seq<string>)
    requires |sep| > 0 && Borderless(sep)
    requires |parts| > 0
    requires forall i :: 0 <= i < |parts| ==> !Contains(parts[i], sep)
    ensures Explode(sep, Implode(sep, parts)) == parts
  {
    if |parts| == 1 {
    } else {
      var rest := Implode(sep, parts[1..]);
      var s := parts[0] + sep + rest;
      assert Implode(sep, parts) == s;
      FirstOccurrenceAfter(parts[0], sep, rest);
      assert s[..|parts[0]|] == parts[0];
      assert s[|parts[0]| + |sep|..] == rest;
      assert Explode(sep, s) == [parts[0]] + Explode(sep, rest);
      ExplodeImplode(sep, parts[1..]);
      assert parts == [parts[0]] + parts[1..];
    }
  }
}
