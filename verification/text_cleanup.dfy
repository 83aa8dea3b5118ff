/** The whitespace cleanup that both the website reader and the e-mail endpoint
    apply to text scraped from a page: split into lines, strip each line, split
    each line on double spaces, strip each phrase and keep the non-empty ones.
    The two callers differ only in the separator they join the chunks with. */
module TextCleanup {
  import opened PyStrings

  const DoubleSpace := "  "

  /** `phrase.strip()` for each phrase, keeping the non-empty results. */
  function NonEmptyStripped(phrases: seq<string>): seq<string>
  {
    if |phrases| == 0 then []
    else
      var c := Strip(phrases[0]);
      (if c == "" then [] else [c]) + NonEmptyStripped(phrases[1..])
  }

  /** The chunks one line contributes. */
  function LineChunks(line: string): seq<string>
  {
    NonEmptyStripped(Split(Strip(line), DoubleSpace))
  }

  function ChunksOfLines(lines: seq<string>): seq<string>
  {
    if |lines| == 0 then [] else LineChunks(lines[0]) + ChunksOfLines(lines[1..])
  }

  /** All chunks of a scraped text, in order. */
  function Chunks(text: string): seq<string>
  {
    ChunksOfLines(SplitLines(text))
  }

  /** What every chunk is: non-empty, stripped, free of double spaces and of line breaks. */
  predicate IsCleanChunk(c: string) {
    && c != []
    && !IsSpace(c[0])
    && !IsSpace(c[|c| - 1])
    && !Contains(c, DoubleSpace)
    && forall ch | ch in c :: !IsLineBreak(ch)
  }

  lemma {:induction false} StrippedPhrasesAreClean(phrases: seq<string>)
    requires forall k | 0 <= k < |phrases| :: !Contains(phrases[k], DoubleSpace)
    requires forall k, ch | 0 <= k < |phrases| && ch in phrases[k] :: !IsLineBreak(ch)
    ensures forall c | c in NonEmptyStripped(phrases) :: IsCleanChunk(c)
  {
    if |phrases| > 0 {
      var c := Strip(phrases[0]);
      var rest := NonEmptyStripped(phrases[1..]);
      StrippedPhrasesAreClean(phrases[1..]);
      if c != "" {
        assert !Contains(c, DoubleSpace) by {
          if Contains(c, DoubleSpace) {
            StripContains(phrases[0], DoubleSpace);
          }
        }
        assert forall ch | ch in c :: ch in phrases[0];
        assert IsCleanChunk(c);
      }
      assert NonEmptyStripped(phrases) == (if c == "" then [] else [c]) + rest;
    }
  }

  lemma LineChunksAreClean(line: string)
    requires forall ch | ch in line :: !IsLineBreak(ch)
    ensures forall c | c in LineChunks(line) :: IsCleanChunk(c)
  {
    StrippedPhrasesAreClean(Split(Strip(line), DoubleSpace));
  }

  lemma {:induction false} ChunksOfLinesAreClean(lines: seq<string>)
    requires forall k, ch | 0 <= k < |lines| && ch in lines[k] :: !IsLineBreak(ch)
    ensures forall c | c in ChunksOfLines(lines) :: IsCleanChunk(c)
  {
    if |lines| > 0 {
      LineChunksAreClean(lines[0]);
      ChunksOfLinesAreClean(lines[1..]);
    }
  }

  /** Every chunk of any scraped text is clean. */
  lemma ChunksAreClean(text: string)
    ensures forall c | c in Chunks(text) :: IsCleanChunk(c)
  {
    ChunksOfLinesAreClean(SplitLines(text));
  }

  /** Stripping phrases and dropping the empty ones loses whitespace only. */
  lemma {:induction false} NonEmptyStrippedKeepsText(phrases: seq<string>)
    ensures DropSpaces(Concat(NonEmptyStripped(phrases))) == DropSpaces(Concat(phrases))
  {
    if |phrases| > 0 {
      var c := Strip(phrases[0]);
      var head := if c == "" then [] else [c];
      var rest := NonEmptyStripped(phrases[1..]);
      NonEmptyStrippedKeepsText(phrases[1..]);
      StripKeepsText(phrases[0]);
      ConcatAppend(head, rest);
      assert Concat(head) == c by {
        if c != "" {
          assert Concat(head) == c + Concat([]);
        }
      }
      DropSpacesAppend(c, Concat(rest));
      DropSpacesAppend(phrases[0], Concat(phrases[1..]));
    }
  }

  /** The chunks of a line hold all of its text, in order. */
  lemma LineChunksKeepText(line: string)
    ensures DropSpaces(Concat(LineChunks(line))) == DropSpaces(line)
  {
    NonEmptyStrippedKeepsText(Split(Strip(line), DoubleSpace));
    SplitKeepsText(Strip(line), DoubleSpace);
    StripKeepsText(line);
  }

  lemma {:induction false} ChunksOfLinesKeepText(lines: seq<string>)
    ensures DropSpaces(Concat(ChunksOfLines(lines))) == DropSpaces(Concat(lines))
  {
    if |lines| > 0 {
      var rest := ChunksOfLines(lines[1..]);
      ChunksOfLinesKeepText(lines[1..]);
      LineChunksKeepText(lines[0]);
      ConcatAppend(LineChunks(lines[0]), rest);
      DropSpacesAppend(Concat(LineChunks(lines[0])), Concat(rest));
      DropSpacesAppend(lines[0], Concat(lines[1..]));
    }
  }

  /** The cleanup removes whitespace and nothing else: the chunks of a text,
      put together, hold every other character of it, in order. */
  lemma ChunksKeepText(text: string)
    ensures DropSpaces(Concat(Chunks(text))) == DropSpaces(text)
  {
    ChunksOfLinesKeepText(SplitLines(text));
    SplitLinesKeepsText(text);
    DropSpacesAfterLineBreaks(text);
  }

  lemma PairAt(s: string, c: char, i: nat)
    ensures OccursAt(s, [c, c], i) <==> i + 2 <= |s| && s[i] == c && s[i + 1] == c
  {
    if i + 2 <= |s| && s[i] == c && s[i + 1] == c {
      assert s[i..i + 2] == [c, c];
    }
  }

  /** A doubled character in a concatenation lies in one half or straddles the seam. */
  lemma PairInConcat(a: string, b: string, c: char)
    requires Contains(a + b, [c, c])
    ensures || Contains(a, [c, c])
            || Contains(b, [c, c])
            || (a != [] && b != [] && a[|a| - 1] == c && b[0] == c)
  {
    var s := a + b;
    var i: nat :| i <= |s| && OccursAt(s, [c, c], i);
    PairAt(s, c, i);
    if i + 2 <= |a| {
      PairAt(a, c, i);
      ContainsWitness(a, [c, c], i);
    } else if i >= |a| {
      PairAt(b, c, i - |a|);
      ContainsWitness(b, [c, c], i - |a|);
    }
  }

  /** Joining with a one-character separator starts with the first item and ends with the last. */
  lemma {:induction false} JoinEnds(xs: seq<string>, c: char)
    requires xs != [] && forall k | 0 <= k < |xs| :: xs[k] != []
    ensures var j := Join([c], xs); j != [] && j[0] == xs[0][0] && j[|j| - 1] == xs[|xs| - 1][|xs[|xs| - 1]| - 1]
  {
    if |xs| >= 2 {
      JoinEnds(xs[1..], c);
      assert Join([c], xs) == xs[0] + [c] + Join([c], xs[1..]);
    }
  }

  /** Joining items that neither contain, begin with nor end with the separator
      character never puts two separators side by side. */
  lemma {:induction false} JoinHasNoDoubledSeparator(xs: seq<string>, c: char)
    requires forall x | x in xs :: x != [] && x[0] != c && x[|x| - 1] != c && !Contains(x, [c, c])
    ensures !Contains(Join([c], xs), [c, c])
  {
    if |xs| >= 2 {
      assert forall x | x in xs[1..] :: x in xs;
      assert xs[0] in xs;
      var rest := Join([c], xs[1..]);
      JoinHasNoDoubledSeparator(xs[1..], c);
      JoinEnds(xs[1..], c);
      assert Join([c], xs) == xs[0] + ([c] + rest);
      if Contains(Join([c], xs), [c, c]) {
        PairInConcat(xs[0], [c] + rest, c);
        if Contains([c] + rest, [c, c]) {
          assert !Contains([c], [c, c]);
          PairInConcat([c], rest, c);
        }
      }
    }
  }
}
