/** The parts of Python's `str` behaviour that the report generator and the
    e-mail endpoint rely on, over `string` (a sequence of Unicode scalar values):
    `isspace`/`strip`, `splitlines`, `split`, `join`, `replace`, `in`,
    `startswith` and `lower`. */
module PyStrings {

  datatype Option<+T> = None | Some(value: T)

  /** The characters `str.isspace()` accepts, which are the ones `str.strip()` removes. */
  predicate IsSpace(c: char) {
    c == ' ' || '\t' <= c <= '\r' || '\U{1C}' <= c <= '\U{1F}' || c == '\U{85}' || c == '\U{A0}'
    || c == '\U{1680}' || '\U{2000}' <= c <= '\U{200A}' || c == '\U{2028}' || c == '\U{2029}'
    || c == '\U{202F}' || c == '\U{205F}' || c == '\U{3000}'
  }

  /** The line boundaries of `str.splitlines()` ("\r\n" is handled by SplitLines). */
  predicate IsLineBreak(c: char) {
    '\n' <= c <= '\r' || '\U{1C}' <= c <= '\U{1E}' || c == '\U{85}' || c == '\U{2028}' || c == '\U{2029}'
  }

  lemma LineBreakIsSpace(c: char)
    requires IsLineBreak(c)
    ensures IsSpace(c)
  {
  }

  predicate StartsWith(s: string, p: string) {
    |p| <= |s| && s[..|p|] == p
  }

  predicate OccursAt(s: string, p: string, i: nat) {
    i + |p| <= |s| && s[i..i + |p|] == p
  }

  /** `p in s` for strings. */
  predicate Contains(s: string, p: string) {
    exists i: nat | i <= |s| :: OccursAt(s, p, i)
  }

  /** `s.find(p)`, with None for -1: the first index where `p` occurs. */
  function Find(s: string, p: string): (r: Option<nat>)
    ensures r.Some? ==> OccursAt(s, p, r.value)
    ensures r.Some? ==> forall j: nat | j < r.value :: !OccursAt(s, p, j)
    ensures r.None? <==> !Contains(s, p)
    decreases |s|
  {
    if StartsWith(s, p) then
      assert s[0..|p|] == s[..|p|];
      assert OccursAt(s, p, 0);
      Some(0)
    else if |s| == 0 then None
    else
      var rest := Find(s[1..], p);
      assert forall j: nat | j < |s| :: OccursAt(s, p, j + 1) == OccursAt(s[1..], p, j) by {
        forall j: nat | j < |s| ensures OccursAt(s, p, j + 1) == OccursAt(s[1..], p, j) {
          if j + 1 + |p| <= |s| {
            assert s[1..][j..j + |p|] == s[j + 1..j + 1 + |p|];
          }
        }
      }
      assert !OccursAt(s, p, 0);
      if rest.None? then
        assert forall j: nat | j <= |s| :: !OccursAt(s, p, j) by {
          forall j: nat | j <= |s| ensures !OccursAt(s, p, j) {
            if j > 0 {
              assert !OccursAt(s[1..], p, j - 1);
            }
          }
        }
        None
      else
        assert forall j: nat | j < rest.value + 1 :: !OccursAt(s, p, j) by {
          forall j: nat | j < rest.value + 1 ensures !OccursAt(s, p, j) {
            if j > 0 {
              assert !OccursAt(s[1..], p, j - 1);
            }
          }
        }
        Some(rest.value + 1)
  }

  lemma SliceOfSlice(s: string, a: nat, b: nat, i: nat, j: nat)
    requires a <= b <= |s| && i <= j <= b - a
    ensures s[a..b][i..j] == s[a + i..a + j]
  {
    assert |s[a..b][i..j]| == j - i == |s[a + i..a + j]|;
    forall k | 0 <= k < j - i
      ensures s[a..b][i..j][k] == s[a + i..a + j][k]
    {
      assert s[a..b][i..j][k] == s[a..b][i + k] == s[a + i + k];
    }
  }

  /** Find returns exactly the first occurrence. */
  lemma FindIsFirst(s: string, p: string, j: nat)
    requires OccursAt(s, p, j)
    requires forall m: nat | m < j :: !OccursAt(s, p, m)
    ensures Find(s, p) == Some(j)
  {
    ContainsWitness(s, p, j);
  }

  lemma ContainsWitness(s: string, p: string, i: nat)
    requires OccursAt(s, p, i)
    ensures Contains(s, p)
  {
  }

  /** An occurrence inside a slice is an occurrence in the whole string. */
  lemma ContainsInSlice(s: string, a: nat, b: nat, p: string)
    requires a <= b <= |s|
    requires Contains(s[a..b], p)
    ensures Contains(s, p)
  {
    var i: nat :| i <= b - a && OccursAt(s[a..b], p, i);
    SliceOfSlice(s, a, b, i, i + |p|);
    ContainsWitness(s, p, a + i);
  }

  /** An occurrence in `[x] + t` is at the front or lies wholly in `t`. */
  lemma ContainsCons(x: char, t: string, p: string)
    requires p != []
    requires Contains([x] + t, p)
    ensures StartsWith([x] + t, p) || Contains(t, p)
  {
    var s := [x] + t;
    var i: nat :| i <= |s| && OccursAt(s, p, i);
    if i > 0 {
      assert s[i..i + |p|] == t[i - 1..i - 1 + |p|];
      ContainsWitness(t, p, i - 1);
    }
  }

  /** `sep.join(xs)`. */
  function Join(sep: string, xs: seq<string>): string
  {
    if |xs| == 0 then ""
    else if |xs| == 1 then xs[0]
    else xs[0] + sep + Join(sep, xs[1..])
  }

  /** `s.split(sep)` for a non-empty separator: the pieces between the
      non-overlapping occurrences of `sep`, found left to right. */
  function Split(s: string, sep: string): (parts: seq<string>)
    requires sep != []
    ensures |parts| >= 1
    ensures Contains(s, sep) <==> |parts| >= 2
    ensures forall k | 0 <= k < |parts| :: !Contains(parts[k], sep)
    ensures forall k, c | 0 <= k < |parts| && c in parts[k] :: c in s
    decreases |s|
  {
    match Find(s, sep)
    case None => [s]
    case Some(i) =>
      var rest := Split(s[i + |sep|..], sep);
      assert forall c | c in s[i + |sep|..] :: c in s;
      assert forall c | c in s[..i] :: c in s;
      forall j: nat | j <= i
        ensures !OccursAt(s[..i], sep, j)
      {
        if j + |sep| <= i {
          SliceOfSlice(s, 0, i, j, j + |sep|);
          assert s[..i][j..j + |sep|] == s[j..j + |sep|];
          assert !OccursAt(s, sep, j);
        }
      }
      [s[..i]] + rest
  }

  /** Splitting and joining with the same separator gives the string back. */
  lemma {:induction false} SplitJoin(s: string, sep: string)
    requires sep != []
    ensures Join(sep, Split(s, sep)) == s
    decreases |s|
  {
    match Find(s, sep)
    case None =>
    case Some(i) =>
      var tail := s[i + |sep|..];
      SplitJoin(tail, sep);
      var parts := Split(s, sep);
      assert parts == [s[..i]] + Split(tail, sep);
      assert |parts| >= 2 && parts[0] == s[..i] && parts[1..] == Split(tail, sep);
      assert Join(sep, parts) == s[..i] + sep + Join(sep, parts[1..]);
      assert s == s[..i] + sep + tail;
  }

  /** Every cut Split makes is at the first occurrence of `sep` in the text
      still to be split: no occurrence of `sep` begins inside a piece that a
      separator follows. */
  lemma {:induction false} SplitIsLeftmost(s: string, sep: string)
    requires sep != []
    ensures var parts := Split(s, sep);
      forall k | 0 <= k < |parts| - 1 :: !Contains(parts[k] + sep[..|sep| - 1], sep)
    decreases |s|
  {
    match Find(s, sep)
    case None =>
    case Some(i) =>
      var tail := s[i + |sep|..];
      SplitIsLeftmost(tail, sep);
      var parts := Split(s, sep);
      assert parts == [s[..i]] + Split(tail, sep);
      FirstPieceIsLeftmost(s, sep, i);
      assert forall k | 1 <= k < |parts| :: parts[k] == Split(tail, sep)[k - 1];
  }

  /** No occurrence of `sep` begins before the first one. */
  lemma FirstPieceIsLeftmost(s: string, sep: string, i: nat)
    requires sep != [] && Find(s, sep) == Some(i)
    ensures !Contains(s[..i] + sep[..|sep| - 1], sep)
  {
    PieceAndSeparatorStart(s, sep, i);
    NoEarlyMatch(s, sep, i + |sep| - 1);
  }

  lemma PieceAndSeparatorStart(s: string, sep: string, i: nat)
    requires sep != [] && OccursAt(s, sep, i)
    ensures s[..i] + sep[..|sep| - 1] == s[..i + |sep| - 1]
  {
    assert s[i..i + |sep|] == sep;
  }

  /** A prefix of `s` in which no occurrence of `sep` fits holds no `sep`. */
  lemma NoEarlyMatch(s: string, sep: string, n: nat)
    requires n <= |s|
    requires forall j: nat | j + |sep| <= n :: !OccursAt(s, sep, j)
    ensures !Contains(s[..n], sep)
  {
    forall j: nat | j <= n
      ensures !OccursAt(s[..n], sep, j)
    {
      if j + |sep| <= n {
        SliceOfSlice(s, 0, n, j, j + |sep|);
        assert s[..n][j..j + |sep|] == s[j..j + |sep|];
        assert !OccursAt(s, sep, j);
      }
    }
  }

  /** The converse: pieces that join back to `s`, with no separator in the
      last piece and none beginning inside any other, are exactly what Split
      gives. Split is thus the unique leftmost splitting of `s`. */
  lemma {:induction false} LeftmostSplitIsSplit(s: string, sep: string, ps: seq<string>)
    requires sep != [] && |ps| >= 1
    requires Join(sep, ps) == s
    requires !Contains(ps[|ps| - 1], sep)
    requires forall k | 0 <= k < |ps| - 1 :: !Contains(ps[k] + sep[..|sep| - 1], sep)
    ensures Split(s, sep) == ps
    decreases |ps|
  {
    if |ps| == 1 {
      assert Find(s, sep).None?;
    } else {
      var tail := ps[1..];
      var rest := Join(sep, tail);
      assert forall k | 0 <= k < |tail| :: tail[k] == ps[k + 1];
      LeftmostSplitIsSplit(rest, sep, tail);
      SplitAfterLeftmostPiece(ps[0], sep, rest);
      assert ps == [ps[0]] + tail;
    }
  }

  /** Split cuts `piece + sep + rest` after `piece` when no `sep` begins inside `piece`. */
  lemma SplitAfterLeftmostPiece(piece: string, sep: string, rest: string)
    requires sep != [] && !Contains(piece + sep[..|sep| - 1], sep)
    ensures Split(piece + sep + rest, sep) == [piece] + Split(rest, sep)
  {
    var s := piece + sep + rest;
    FindAfterLeftmostPiece(piece, sep, rest);
    assert s[..|piece|] == piece && s[|piece| + |sep|..] == rest;
  }

  /** In `piece + sep + rest`, when no `sep` begins inside `piece`, the first `sep` is the one after `piece`. */
  lemma FindAfterLeftmostPiece(piece: string, sep: string, rest: string)
    requires sep != [] && !Contains(piece + sep[..|sep| - 1], sep)
    ensures Find(piece + sep + rest, sep) == Some(|piece|)
  {
    var s := piece + sep + rest;
    var i := |piece|;
    assert s[i..i + |sep|] == sep;
    var head := piece + sep[..|sep| - 1];
    assert head == s[..i + |sep| - 1];
    forall m: nat | m < i
      ensures !OccursAt(s, sep, m)
    {
      SliceOfSlice(s, 0, i + |sep| - 1, m, m + |sep|);
      assert !OccursAt(head, sep, m);
    }
    FindIsFirst(s, sep, i);
  }

  /** `s.replace(target, replacement)`: every non-overlapping occurrence of
      `target`, scanning left to right, becomes `replacement`. */
  function Replace(s: string, target: string, replacement: string): string
    requires target != []
    decreases |s|
  {
    if |s| == 0 then ""
    else if StartsWith(s, target) then replacement + Replace(s[|target|..], target, replacement)
    else [s[0]] + Replace(s[1..], target, replacement)
  }

  /** Replacing a target that does not occur changes nothing. */
  lemma {:induction false} ReplaceAbsent(s: string, target: string, replacement: string)
    requires target != [] && !Contains(s, target)
    ensures Replace(s, target, replacement) == s
    decreases |s|
  {
    if |s| > 0 {
      assert !StartsWith(s, target) by {
        assert !OccursAt(s, target, 0);
      }
      AbsentFromTail(s, target);
      ReplaceAbsent(s[1..], target, replacement);
      assert s == [s[0]] + s[1..];
    }
  }

  /** Replace rewrites the first occurrence of `target` in place: the text
      before it is copied, the occurrence becomes `replacement`, and the text
      after it is processed in turn. */
  lemma {:induction false} ReplaceAtFirst(a: string, target: string, b: string, replacement: string)
    requires target != [] && !Contains(a + target[..|target| - 1], target)
    ensures Replace(a + target + b, target, replacement) == a + replacement + Replace(b, target, replacement)
    decreases |a|
  {
    var s := a + target + b;
    if |a| == 0 {
      assert s == target + b;
      ReplaceAtFront(target, b, replacement);
    } else {
      var h := a + target[..|target| - 1];
      assert s[..|h|] == h;
      AbsentFromPrefix(s, h, target);
      assert h[1..] == a[1..] + target[..|target| - 1];
      AbsentFromTail(h, target);
      ReplaceAtFirst(a[1..], target, b, replacement);
      ReplaceSkipsChar(a, target, b, replacement);
    }
  }

  /** One step of ReplaceAtFirst: a first character that does not start the target is copied. */
  lemma ReplaceSkipsChar(a: string, target: string, b: string, replacement: string)
    requires target != [] && |a| >= 1
    requires !StartsWith(a + target + b, target)
    requires Replace(a[1..] + target + b, target, replacement) == a[1..] + replacement + Replace(b, target, replacement)
    ensures Replace(a + target + b, target, replacement) == a + replacement + Replace(b, target, replacement)
  {
    var s := a + target + b;
    var done := Replace(b, target, replacement);
    assert s[0] == a[0] && s[1..] == a[1..] + target + b;
    assert [a[0]] + (a[1..] + replacement + done) == a + replacement + done;
  }

  lemma ReplaceAtFront(target: string, b: string, replacement: string)
    requires target != []
    ensures Replace(target + b, target, replacement) == replacement + Replace(b, target, replacement)
  {
    var s := target + b;
    assert s[..|target|] == target && s[|target|..] == b;
  }

  /** A string does not start with `p` when a prefix at least as long as `p` lacks it. */
  lemma AbsentFromPrefix(s: string, h: string, p: string)
    requires |p| <= |h| <= |s| && s[..|h|] == h
    requires !Contains(h, p)
    ensures !StartsWith(s, p)
  {
    assert !OccursAt(h, p, 0);
    assert s[..|p|] == h[0..|p|];
  }

  lemma AbsentFromSuffix(h: string, k: nat, p: string)
    requires k <= |h| && !Contains(h, p)
    ensures !Contains(h[k..], p)
  {
    forall j: nat | j <= |h| - k
      ensures !OccursAt(h[k..], p, j)
    {
      if j + |p| <= |h| - k {
        SliceOfSlice(h, k, |h|, j, j + |p|);
        assert !OccursAt(h, p, j + k);
      }
    }
  }

  lemma AbsentFromTail(h: string, p: string)
    requires |h| >= 1 && !Contains(h, p)
    ensures !Contains(h[1..], p)
  {
    forall j: nat | j <= |h| - 1
      ensures !OccursAt(h[1..], p, j)
    {
      if j + |p| <= |h| - 1 {
        SliceOfSlice(h, 1, |h|, j, j + |p|);
        assert !OccursAt(h, p, j + 1);
      }
    }
  }

  /** The number of whitespace characters `s` starts with. */
  function LeadingSpaces(s: string): (n: nat)
    ensures n <= |s|
    ensures forall i | 0 <= i < n :: IsSpace(s[i])
    ensures n < |s| ==> !IsSpace(s[n])
  {
    if |s| > 0 && IsSpace(s[0]) then 1 + LeadingSpaces(s[1..]) else 0
  }

  /** The length of `s` without its trailing whitespace. */
  function TrimmedLength(s: string): (n: nat)
    ensures n <= |s|
    ensures forall i | n <= i < |s| :: IsSpace(s[i])
    ensures n > 0 ==> !IsSpace(s[n - 1])
  {
    if |s| > 0 && IsSpace(s[|s| - 1]) then TrimmedLength(s[..|s| - 1]) else |s|
  }

  /** Where the stripped text ends in `s`. */
  function StripEnd(s: string): (b: nat)
    ensures LeadingSpaces(s) <= b <= |s|
  {
    var a := LeadingSpaces(s);
    if a == |s| then a else TrimmedLength(s)
  }

  /** `str.strip()` with no argument: the text between the leading and the
      trailing whitespace. */
  function Strip(s: string): (r: string)
    ensures r == [] || (!IsSpace(r[0]) && !IsSpace(r[|r| - 1]))
    ensures r == [] <==> forall i | 0 <= i < |s| :: IsSpace(s[i])
    ensures forall c | c in r :: c in s
  {
    s[LeadingSpaces(s)..StripEnd(s)]
  }

  /** Strip gives a contiguous part of its input, so nothing new can occur in it. */
  lemma StripContains(s: string, p: string)
    requires Contains(Strip(s), p)
    ensures Contains(s, p)
  {
    ContainsInSlice(s, LeadingSpaces(s), StripEnd(s), p);
  }

  lemma StripIdempotent(s: string)
    ensures Strip(Strip(s)) == Strip(s)
  {
    var r := Strip(s);
    if r != [] {
      assert LeadingSpaces(r) == 0;
      assert TrimmedLength(r) == |r|;
      assert r[0..|r|] == r;
    }
  }

  /** Strip removes whitespace from the two ends and nothing else: its result
      is the slice of `s` after the leading whitespace, and every character
      outside that slice is whitespace. */
  lemma StripRemovesOnlyOuterSpace(s: string)
    ensures var a, r := LeadingSpaces(s), Strip(s);
      && a + |r| <= |s| && r == s[a..a + |r|]
      && (forall i | 0 <= i < a :: IsSpace(s[i]))
      && (forall i | a + |r| <= i < |s| :: IsSpace(s[i]))
  {
  }

  /** The index of the first line boundary in `s`. */
  function FirstLineBreak(s: string): (r: Option<nat>)
    ensures r.Some? ==> r.value < |s| && IsLineBreak(s[r.value])
    ensures r.Some? ==> forall j | 0 <= j < r.value :: !IsLineBreak(s[j])
    ensures r.None? ==> forall c | c in s :: !IsLineBreak(c)
  {
    if |s| == 0 then None
    else if IsLineBreak(s[0]) then Some(0)
    else match FirstLineBreak(s[1..])
      case None => None
      case Some(j) => Some(j + 1)
  }

  /** `str.splitlines()`: "\r\n" is one boundary and a final boundary does not
      start an empty last line. */
  function SplitLines(s: string): (lines: seq<string>)
    ensures forall k, c | 0 <= k < |lines| && c in lines[k] :: !IsLineBreak(c)
    decreases |s|
  {
    if |s| == 0 then []
    else match FirstLineBreak(s)
      case None => [s]
      case Some(i) =>
        var next := if s[i] == '\r' && i + 1 < |s| && s[i + 1] == '\n' then i + 2 else i + 1;
        assert forall c | c in s[..i] :: !IsLineBreak(c);
        [s[..i]] + SplitLines(s[next..])
  }

  /** `s` without its line boundary characters. */
  function DropLineBreaks(s: string): (r: string)
    ensures |r| <= |s|
    decreases |s|
  {
    if |s| == 0 then ""
    else (if IsLineBreak(s[0]) then "" else [s[0]]) + DropLineBreaks(s[1..])
  }

  /** The concatenation of `xs`, `"".join(xs)`. */
  function Concat(xs: seq<string>): string
  {
    if |xs| == 0 then "" else xs[0] + Concat(xs[1..])
  }

  lemma {:induction false} DropLineBreaksAppend(a: string, b: string)
    ensures DropLineBreaks(a + b) == DropLineBreaks(a) + DropLineBreaks(b)
    decreases |a|
  {
    if |a| == 0 {
      assert a + b == b;
    } else {
      assert (a + b)[0] == a[0] && (a + b)[1..] == a[1..] + b;
      DropLineBreaksAppend(a[1..], b);
    }
  }

  lemma {:induction false} DropOnlyLineBreaks(s: string)
    requires forall c | c in s :: IsLineBreak(c)
    ensures DropLineBreaks(s) == ""
    decreases |s|
  {
    if |s| > 0 {
      assert s[0] in s;
      assert forall c | c in s[1..] :: c in s;
      DropOnlyLineBreaks(s[1..]);
    }
  }

  lemma {:induction false} DropNoLineBreaks(s: string)
    requires forall c | c in s :: !IsLineBreak(c)
    ensures DropLineBreaks(s) == s
    decreases |s|
  {
    if |s| > 0 {
      assert s[0] in s;
      assert forall c | c in s[1..] :: c in s;
      DropNoLineBreaks(s[1..]);
      assert s == [s[0]] + s[1..];
    }
  }

  /** `s` without its whitespace: the text a whitespace cleanup must keep. */
  function DropSpaces(s: string): string
    decreases |s|
  {
    if |s| == 0 then ""
    else (if IsSpace(s[0]) then "" else [s[0]]) + DropSpaces(s[1..])
  }

  lemma {:induction false} DropSpacesAppend(a: string, b: string)
    ensures DropSpaces(a + b) == DropSpaces(a) + DropSpaces(b)
    decreases |a|
  {
    if |a| == 0 {
      assert a + b == b;
    } else {
      assert (a + b)[0] == a[0] && (a + b)[1..] == a[1..] + b;
      DropSpacesAppend(a[1..], b);
    }
  }

  lemma {:induction false} DropSpacesOfSpaces(s: string)
    requires forall i | 0 <= i < |s| :: IsSpace(s[i])
    ensures DropSpaces(s) == ""
    decreases |s|
  {
    if |s| > 0 {
      DropSpacesOfSpaces(s[1..]);
    }
  }

  /** Strip removes whitespace only. */
  lemma StripKeepsText(s: string)
    ensures DropSpaces(Strip(s)) == DropSpaces(s)
  {
    StripRemovesOnlyOuterSpace(s);
    SpaceAroundKeepsText(s, LeadingSpaces(s), LeadingSpaces(s) + |Strip(s)|);
  }

  /** Whitespace before `a` and from `b` on carries no text. */
  lemma SpaceAroundKeepsText(s: string, a: nat, b: nat)
    requires a <= b <= |s|
    requires forall i | 0 <= i < a :: IsSpace(s[i])
    requires forall i | b <= i < |s| :: IsSpace(s[i])
    ensures DropSpaces(s) == DropSpaces(s[a..b])
  {
    ThreeSlices(s, a, b);
    SpacesAround(s[..a], s[a..b], s[b..]);
  }

  lemma ThreeSlices(s: string, a: nat, b: nat)
    requires a <= b <= |s|
    ensures s == s[..a] + s[a..b] + s[b..]
  {
  }

  lemma SpacesAround(x: string, m: string, y: string)
    requires forall i | 0 <= i < |x| :: IsSpace(x[i])
    requires forall i | 0 <= i < |y| :: IsSpace(y[i])
    ensures DropSpaces(x + m + y) == DropSpaces(m)
  {
    DropSpacesAppend(x + m, y);
    DropSpacesAppend(x, m);
    DropSpacesOfSpaces(x);
    DropSpacesOfSpaces(y);
  }

  /** Line boundaries are whitespace, so dropping them first changes nothing. */
  lemma {:induction false} DropSpacesAfterLineBreaks(s: string)
    ensures DropSpaces(DropLineBreaks(s)) == DropSpaces(s)
    decreases |s|
  {
    if |s| > 0 {
      DropSpacesAfterLineBreaks(s[1..]);
      var head := if IsLineBreak(s[0]) then "" else [s[0]];
      DropSpacesAppend(head, DropLineBreaks(s[1..]));
      if IsLineBreak(s[0]) {
        LineBreakIsSpace(s[0]);
      } else {
        assert DropSpaces(head) == (if IsSpace(s[0]) then "" else [s[0]]) + DropSpaces(head[1..]);
      }
    }
  }

  lemma {:induction false} ConcatAppend(xs: seq<string>, ys: seq<string>)
    ensures Concat(xs + ys) == Concat(xs) + Concat(ys)
    decreases |xs|
  {
    if |xs| == 0 {
      assert xs + ys == ys;
    } else {
      assert (xs + ys)[0] == xs[0] && (xs + ys)[1..] == xs[1..] + ys;
      ConcatAppend(xs[1..], ys);
    }
  }

  /** Joining with a whitespace separator adds whitespace only. */
  lemma {:induction false} JoinKeepsText(sep: string, xs: seq<string>)
    requires forall i | 0 <= i < |sep| :: IsSpace(sep[i])
    ensures DropSpaces(Join(sep, xs)) == DropSpaces(Concat(xs))
  {
    if |xs| == 1 {
      assert xs[1..] == [];
      assert Concat(xs) == xs[0] + Concat([]) == xs[0];
    } else if |xs| >= 2 {
      JoinKeepsText(sep, xs[1..]);
      DropSpacesAppend(xs[0] + sep, Join(sep, xs[1..]));
      DropSpacesAppend(xs[0], sep);
      DropSpacesOfSpaces(sep);
      DropSpacesAppend(xs[0], Concat(xs[1..]));
    }
  }

  /** Splitting on whitespace loses whitespace only. */
  lemma SplitKeepsText(s: string, sep: string)
    requires sep != [] && forall i | 0 <= i < |sep| :: IsSpace(sep[i])
    ensures DropSpaces(Concat(Split(s, sep))) == DropSpaces(s)
  {
    SplitJoin(s, sep);
    JoinKeepsText(sep, Split(s, sep));
  }

  /** The lines of `s`, put back together, are `s` with its line boundaries
      taken out: splitlines loses the boundaries and nothing else. */
  lemma {:induction false} SplitLinesKeepsText(s: string)
    ensures Concat(SplitLines(s)) == DropLineBreaks(s)
    decreases |s|
  {
    if |s| > 0 {
      match FirstLineBreak(s)
      case None =>
        DropNoLineBreaks(s);
        assert Concat([s]) == s + Concat([]);
      case Some(i) =>
        var next := if s[i] == '\r' && i + 1 < |s| && s[i + 1] == '\n' then i + 2 else i + 1;
        SplitLinesKeepsText(s[next..]);
        assert SplitLines(s) == [s[..i]] + SplitLines(s[next..]);
        assert forall j | i <= j < next :: IsLineBreak(s[j]);
        LineAndBoundary(s, i, next);
        LineStep(s, i, next, SplitLines(s[next..]));
    }
  }

  /** One step of SplitLinesKeepsText: a line, its boundary, and the rest. */
  lemma LineStep(s: string, i: nat, next: nat, restLines: seq<string>)
    requires i < next <= |s|
    requires DropLineBreaks(s[..next]) == s[..i]
    requires Concat(restLines) == DropLineBreaks(s[next..])
    ensures Concat([s[..i]] + restLines) == DropLineBreaks(s)
  {
    var lines := [s[..i]] + restLines;
    assert lines[0] == s[..i] && lines[1..] == restLines;
    assert s == s[..next] + s[next..];
    DropLineBreaksAppend(s[..next], s[next..]);
  }

  /** A line followed by its boundary loses just the boundary. */
  lemma LineAndBoundary(s: string, i: nat, next: nat)
    requires i < next <= |s|
    requires forall j | 0 <= j < i :: !IsLineBreak(s[j])
    requires forall j | i <= j < next :: IsLineBreak(s[j])
    ensures DropLineBreaks(s[..next]) == s[..i]
  {
    var line, brk := s[..i], s[i..next];
    DropNoLineBreaks(line);
    DropOnlyLineBreaks(brk);
    assert s[..next] == line + brk;
    DropLineBreaksAppend(line, brk);
  }

  /** `s` with every line boundary written as one "\n", "\r\n" counting as one boundary. */
  function BreaksAsNewlines(s: string): (r: string)
    decreases |s|
  {
    if |s| == 0 then ""
    else if s[0] == '\r' && |s| >= 2 && s[1] == '\n' then "\n" + BreaksAsNewlines(s[2..])
    else if IsLineBreak(s[0]) then "\n" + BreaksAsNewlines(s[1..])
    else [s[0]] + BreaksAsNewlines(s[1..])
  }

  predicate EndsWithLineBreak(s: string) {
    |s| > 0 && IsLineBreak(s[|s| - 1])
  }

  lemma {:induction false} BreaksAsNewlinesKeepsPlainText(s: string)
    requires forall c | c in s :: !IsLineBreak(c)
    ensures BreaksAsNewlines(s) == s
    decreases |s|
  {
    if |s| > 0 {
      assert s[0] in s;
      assert forall c | c in s[1..] :: c in s;
      BreaksAsNewlinesKeepsPlainText(s[1..]);
      assert s == [s[0]] + s[1..];
    }
  }

  /** The text up to the first boundary is kept and the boundary becomes "\n". */
  lemma {:induction false} BreaksAsNewlinesAtFirst(s: string, i: nat, next: nat)
    requires FirstLineBreak(s) == Some(i)
    requires next == if s[i] == '\r' && i + 1 < |s| && s[i + 1] == '\n' then i + 2 else i + 1
    ensures BreaksAsNewlines(s) == s[..i] + "\n" + BreaksAsNewlines(s[next..])
    decreases i, 1
  {
    if i == 0 {
      BreakHeadAsNewline(s, next);
    } else {
      BreaksAsNewlinesAfterPlainHead(s, i, next);
    }
  }

  /** The step of BreaksAsNewlinesAtFirst past a first character that is not a boundary. */
  lemma {:induction false} BreaksAsNewlinesAfterPlainHead(s: string, i: nat, next: nat)
    requires FirstLineBreak(s) == Some(i) && i > 0
    requires next == if s[i] == '\r' && i + 1 < |s| && s[i + 1] == '\n' then i + 2 else i + 1
    ensures BreaksAsNewlines(s) == s[..i] + "\n" + BreaksAsNewlines(s[next..])
    decreases i, 0
  {
    var t := s[1..];
    FirstLineBreakOfTail(s, i, next);
    BreaksAsNewlinesAtFirst(t, i - 1, next - 1);
    PlainHeadKept(s);
    HeadBeforeFirstBreak(s, i, BreaksAsNewlines(s), BreaksAsNewlines(t), BreaksAsNewlines(s[next..]));
  }

  /** Past a first character that is not a boundary, the first boundary is one place earlier. */
  lemma FirstLineBreakOfTail(s: string, i: nat, next: nat)
    requires FirstLineBreak(s) == Some(i) && i > 0
    requires next == if s[i] == '\r' && i + 1 < |s| && s[i + 1] == '\n' then i + 2 else i + 1
    ensures |s| > 0 && !IsLineBreak(s[0])
    ensures FirstLineBreak(s[1..]) == Some(i - 1)
    ensures var t := s[1..]; next - 1 == if t[i - 1] == '\r' && i < |t| && t[i] == '\n' then i + 1 else i
    ensures s[1..][next - 1..] == s[next..]
  {
  }

  lemma HeadBeforeFirstBreak(s: string, i: nat, ns: string, nt: string, rest: string)
    requires 0 < i <= |s|
    requires ns == [s[0]] + nt
    requires nt == s[1..][..i - 1] + "\n" + rest
    ensures ns == s[..i] + "\n" + rest
  {
    assert s[..i] == [s[0]] + s[1..][..i - 1];
  }

  lemma PlainHeadKept(s: string)
    requires |s| > 0 && !IsLineBreak(s[0])
    ensures BreaksAsNewlines(s) == [s[0]] + BreaksAsNewlines(s[1..])
  {
  }

  lemma BreakHeadAsNewline(s: string, next: nat)
    requires |s| > 0 && IsLineBreak(s[0])
    requires next == if s[0] == '\r' && 1 < |s| && s[1] == '\n' then 2 else 1
    ensures BreaksAsNewlines(s) == "\n" + BreaksAsNewlines(s[next..])
  {
  }

  /** The lines joined with "\n", followed by "\n" when `s` ends with a
      boundary, are `s` with every boundary written as "\n". */
  lemma {:induction false} SplitLinesRejoin(s: string)
    ensures Join("\n", SplitLines(s)) + (if EndsWithLineBreak(s) then "\n" else "") == BreaksAsNewlines(s)
    decreases |s|
  {
    if |s| > 0 {
      match FirstLineBreak(s)
      case None =>
        BreaksAsNewlinesKeepsPlainText(s);
        assert s[|s| - 1] in s;
      case Some(i) =>
        var next := if s[i] == '\r' && i + 1 < |s| && s[i + 1] == '\n' then i + 2 else i + 1;
        var rest := s[next..];
        SplitLinesRejoin(rest);
        BreaksAsNewlinesAtFirst(s, i, next);
        assert SplitLines(s) == [s[..i]] + SplitLines(rest);
        BoundaryEndsAt(s, i, next);
        EndsAfterBoundary(s, next);
        SplitLinesOfNothing(rest);
        RejoinStep(s[..i], SplitLines(rest), EndsWithLineBreak(s), EndsWithLineBreak(rest), BreaksAsNewlines(rest));
    }
  }

  /** The first boundary occupies `s[i..next]`. */
  lemma BoundaryEndsAt(s: string, i: nat, next: nat)
    requires i < |s| && IsLineBreak(s[i])
    requires next == if s[i] == '\r' && i + 1 < |s| && s[i + 1] == '\n' then i + 2 else i + 1
    ensures i < next <= |s| && IsLineBreak(s[next - 1])
  {
  }

  /** Text that has a boundary just before `next` ends with a boundary
      exactly when nothing follows or what follows does. */
  lemma EndsAfterBoundary(s: string, next: nat)
    requires 0 < next <= |s| && IsLineBreak(s[next - 1])
    ensures EndsWithLineBreak(s) <==> next == |s| || EndsWithLineBreak(s[next..])
  {
    if next < |s| {
      assert s[next..][|s| - next - 1] == s[|s| - 1];
    }
  }

  lemma SplitLinesOfNothing(s: string)
    ensures SplitLines(s) == [] <==> s == []
  {
  }

  /** One step of SplitLinesRejoin: the first line, its boundary and the rest. */
  lemma RejoinStep(line: string, restLines: seq<string>, ends: bool, restEnds: bool, restText: string)
    requires restLines == [] ==> restText == "" && ends
    requires restLines != [] ==> ends == restEnds
    requires Join("\n", restLines) + (if restEnds then "\n" else "") == restText
    ensures Join("\n", [line] + restLines) + (if ends then "\n" else "") == line + "\n" + restText
  {
    var lines := [line] + restLines;
    assert lines[0] == line && lines[1..] == restLines;
  }

  lemma NoLineBreakNoNewline(x: string)
    requires forall c | c in x :: !IsLineBreak(c)
    ensures !Contains(x, "\n")
  {
    forall i: nat | i <= |x|
      ensures !OccursAt(x, "\n", i)
    {
      if i < |x| {
        assert x[i] in x;
        assert x[i..i + 1][0] == x[i];
      }
    }
  }

  /** `s.splitlines()` is `split("\n")` of `s` with every boundary written as
      "\n" and one final boundary dropped: the lines are cut exactly at the
      boundaries. */
  lemma SplitLinesIsSplitOnNewline(s: string)
    requires s != []
    ensures EndsWithLineBreak(s) ==> BreaksAsNewlines(s) != []
    ensures var n := BreaksAsNewlines(s);
      SplitLines(s) == Split(if EndsWithLineBreak(s) then n[..|n| - 1] else n, "\n")
  {
    SplitLinesOfNothing(s);
    SplitLinesRejoin(s);
    SplitOfRejoined(SplitLines(s), EndsWithLineBreak(s), BreaksAsNewlines(s), "\n");
  }

  /** Lines free of boundaries, joined with a newline and optionally
      followed by one, split back on the newline into the same lines. */
  lemma SplitOfRejoined(lines: seq<string>, ends: bool, n: string, nl: string)
    requires nl == "\n" && |lines| >= 1
    requires forall k, c | 0 <= k < |lines| && c in lines[k] :: !IsLineBreak(c)
    requires Join(nl, lines) + (if ends then nl else "") == n
    ensures ends ==> n != []
    ensures lines == Split(if ends then n[..|n| - 1] else n, nl)
  {
    DropFinalNewline(Join(nl, lines), ends, n);
    LinesHaveNoNewline(lines, nl);
    LeftmostSplitIsSplit(Join(nl, lines), nl, lines);
  }

  lemma DropFinalNewline(body: string, ends: bool, n: string)
    requires body + (if ends then "\n" else "") == n
    ensures ends ==> n != []
    ensures body == if ends then n[..|n| - 1] else n
  {
    if ends {
      assert n[..|n| - 1] == body;
    }
  }

  lemma LinesHaveNoNewline(lines: seq<string>, nl: string)
    requires nl == "\n"
    requires forall k, c | 0 <= k < |lines| && c in lines[k] :: !IsLineBreak(c)
    ensures forall k | 0 <= k < |lines| :: !Contains(lines[k], nl)
    ensures forall k | 0 <= k < |lines| :: !Contains(lines[k] + nl[..|nl| - 1], nl)
  {
    forall k | 0 <= k < |lines|
      ensures !Contains(lines[k], nl) && !Contains(lines[k] + nl[..|nl| - 1], nl)
    {
      assert lines[k] + nl[..|nl| - 1] == lines[k];
      NoLineBreakNoNewline(lines[k]);
    }
  }

  function LowerChar(c: char): char {
    if 'A' <= c <= 'Z' then (c as int + 32) as char else c
  }

  /** `str.lower()` restricted to ASCII letters. */
  function Lower(s: string): (r: string)
    ensures |r| == |s|
    ensures forall i | 0 <= i < |s| :: r[i] == LowerChar(s[i])
  {
    seq(|s|, i requires 0 <= i < |s| => LowerChar(s[i]))
  }

  function DigitChar(d: nat): char
    requires d < 10
  {
    ('0' as int + d) as char
  }

  predicate IsDigits(s: string) {
    forall i | 0 <= i < |s| :: '0' <= s[i] <= '9'
  }

  /** The number a string of decimal digits denotes. */
  function DecimalValue(s: string): nat
    requires IsDigits(s)
    decreases |s|
  {
    if |s| == 0 then 0
    else DecimalValue(s[..|s| - 1]) * 10 + (s[|s| - 1] as int - '0' as int)
  }

  /** `str(n)` for a non-negative integer: the decimal numeral of `n`. */
  function NatToString(n: nat): (r: string)
    ensures r != [] && IsDigits(r)
    ensures DecimalValue(r) == n
    ensures r[0] == '0' ==> n == 0
    ensures n < 10 <==> |r| == 1
    decreases n
  {
    if n < 10 then [DigitChar(n)]
    else
      var r := NatToString(n / 10) + [DigitChar(n % 10)];
      assert r[..|r| - 1] == NatToString(n / 10);
      r
  }

  /** Reading a numeral without a leading zero and writing the number back
      gives the numeral: NatToString is the only such spelling of `n`. */
  lemma {:induction false} NatToStringOfValue(s: string)
    requires s != [] && IsDigits(s) && (s[0] == '0' ==> |s| == 1)
    ensures NatToString(DecimalValue(s)) == s
    decreases |s|
  {
    var init := s[..|s| - 1];
    var d := s[|s| - 1] as int - '0' as int;
    if |s| == 1 {
      assert DecimalValue(s) == DecimalValue(init) * 10 + d;
    } else {
      assert init[0] == s[0];
      NatToStringOfValue(init);
      LeadingDigitPositive(init);
      var v := DecimalValue(s);
      assert v == DecimalValue(init) * 10 + d;
      assert v / 10 == DecimalValue(init) && v % 10 == d;
      assert s == init + [DigitChar(d)];
    }
  }

  lemma {:induction false} LeadingDigitPositive(s: string)
    requires s != [] && IsDigits(s) && s[0] != '0'
    ensures DecimalValue(s) > 0
    decreases |s|
  {
    if |s| > 1 {
      var init := s[..|s| - 1];
      assert init[0] == s[0];
      LeadingDigitPositive(init);
    }
  }
}
