/** The e-mail endpoint: the text cleanup of the saved report, the recipient
    address check, the rewrite of the report into a professional tone and the
    ordered guard checks that decide the HTTP reply of `POST /send-report`. */
module EmailApi {
  import opened PyStrings
  import opened TextCleanup

  // ---------------------------------------------------------------------------
  // Extracting the report text
  // ---------------------------------------------------------------------------

  const Newline := "\n"
  const BlankLine := "\n\n"
  const TripleNewline := "\n\n\n"

  /** The cleaned report text: its chunks joined with single line breaks. */
  function CleanReportText(text: string): string
  {
    Join(Newline, Chunks(text))
  }

  /** The number of line feeds `s` starts with. */
  function LeadingNewlines(s: string): (n: nat)
    ensures n <= |s|
    ensures forall k | 0 <= k < n :: s[k] == '\n'
    ensures n < |s| ==> s[n] != '\n'
  {
    if |s| > 0 && s[0] == '\n' then 1 + LeadingNewlines(s[1..]) else 0
  }

  /** Three line feeds cannot straddle a run of at most two and text that does not open with one. */
  lemma NoTripleAcross(run: string, rest: string)
    requires |run| <= 2
    requires !Contains(rest, TripleNewline)
    requires rest == [] || rest[0] != '\n'
    ensures !Contains(run + rest, TripleNewline)
  {
    var s := run + rest;
    forall i: nat | i <= |s|
      ensures !OccursAt(s, TripleNewline, i)
    {
      if i + 3 <= |s| {
        if i >= |run| {
          assert s[i..i + 3] == rest[i - |run|..i - |run| + 3];
          assert !OccursAt(rest, TripleNewline, i - |run|);
        } else {
          assert s[i..i + 3][|run| - i] == s[|run|] == rest[0];
        }
      }
    }
  }

  /** `re.sub(r'\n{3,}', '\n\n', s)`: every run of three or more line feeds
      becomes exactly two. */
  function CollapseNewlines(s: string): (r: string)
    ensures |r| <= |s|
    ensures s != [] && s[0] != '\n' ==> r != [] && r[0] == s[0]
    ensures !Contains(r, TripleNewline)
    decreases |s|
  {
    if |s| == 0 then ""
    else if s[0] == '\n' then
      var n := LeadingNewlines(s);
      var run := if n >= 3 then BlankLine else s[..n];
      var rest := CollapseNewlines(s[n..]);
      NoTripleAcross(run, rest);
      run + rest
    else
      var rest := CollapseNewlines(s[1..]);
      var r := [s[0]] + rest;
      assert !StartsWith(r, TripleNewline) by {
        if |r| >= 3 {
          assert r[..3][0] == s[0];
        }
      }
      assert !Contains(r, TripleNewline) by {
        if Contains(r, TripleNewline) {
          ContainsCons(s[0], rest, TripleNewline);
        }
      }
      r
  }

  /** Text without three line feeds in a row is left as it is by the collapse. */
  lemma {:induction false} CollapseKeepsShortRuns(s: string)
    requires !Contains(s, TripleNewline)
    ensures CollapseNewlines(s) == s
    decreases |s|, 1
  {
    if |s| > 0 {
      if s[0] == '\n' {
        CollapseKeepsShortRun(s);
      } else {
        CollapseKeepsPlainHead(s);
      }
    }
  }

  lemma {:induction false} CollapseKeepsShortRun(s: string)
    requires s != [] && s[0] == '\n' && !Contains(s, TripleNewline)
    ensures CollapseNewlines(s) == s
    decreases |s|, 0
  {
    var n := LeadingNewlines(s);
    RunBelowThree(s);
    AbsentFromSuffix(s, n, TripleNewline);
    CollapseKeepsShortRuns(s[n..]);
    assert s == s[..n] + s[n..];
  }

  lemma {:induction false} CollapseKeepsPlainHead(s: string)
    requires s != [] && s[0] != '\n' && !Contains(s, TripleNewline)
    ensures CollapseNewlines(s) == s
    decreases |s|, 0
  {
    AbsentFromTail(s, TripleNewline);
    CollapseKeepsShortRuns(s[1..]);
    assert s == [s[0]] + s[1..];
  }

  /** Text without three line feeds in a row starts with at most two. */
  lemma RunBelowThree(s: string)
    requires !Contains(s, TripleNewline)
    ensures LeadingNewlines(s) < 3
  {
    if LeadingNewlines(s) >= 3 {
      assert s[..3] == TripleNewline;
      ContainsWitness(s, TripleNewline, 0);
    }
  }

  /** `k` line feeds. */
  function LineFeeds(k: nat): (r: string)
    ensures |r| == k && forall i | 0 <= i < k :: r[i] == '\n'
  {
    seq(k, _ => '\n')
  }

  lemma {:induction false} LeadingNewlinesIs(s: string, k: nat)
    requires k <= |s| && forall i | 0 <= i < k :: s[i] == '\n'
    requires k < |s| ==> s[k] != '\n'
    ensures LeadingNewlines(s) == k
    decreases k
  {
    if k > 0 {
      LeadingNewlinesIs(s[1..], k - 1);
    }
  }

  /** A run of three or more line feeds, up to a character that is not one,
      becomes exactly one blank line. Together with the two lemmas after it,
      this fixes the collapse on every input. */
  lemma CollapseLongRun(k: nat, rest: string)
    requires k >= 3
    requires rest == [] || rest[0] != '\n'
    ensures CollapseNewlines(LineFeeds(k) + rest) == BlankLine + CollapseNewlines(rest)
  {
    var s := LineFeeds(k) + rest;
    LeadingNewlinesIs(s, k);
    assert s[0] == '\n' && s[k..] == rest;
  }

  /** A run of one or two line feeds is kept as it is. */
  lemma CollapseShortRun(k: nat, rest: string)
    requires 1 <= k <= 2
    requires rest == [] || rest[0] != '\n'
    ensures CollapseNewlines(LineFeeds(k) + rest) == LineFeeds(k) + CollapseNewlines(rest)
  {
    var s := LineFeeds(k) + rest;
    LeadingNewlinesIs(s, k);
    assert s[0] == '\n' && s[k..] == rest && s[..k] == LineFeeds(k);
  }

  /** Every character other than a line feed is copied. */
  lemma CollapseKeepsOtherChars(c: char, rest: string)
    requires c != '\n'
    ensures CollapseNewlines([c] + rest) == [c] + CollapseNewlines(rest)
  {
    assert ([c] + rest)[1..] == rest;
  }

  lemma NoCharNoPair(x: string, c: char)
    requires forall ch | ch in x :: ch != c
    ensures !Contains(x, [c, c])
  {
    forall i: nat | i <= |x|
      ensures !OccursAt(x, [c, c], i)
    {
      if i < |x| {
        assert x[i] in x;
      }
    }
  }

  /** The cleanup changes whitespace only: every other character of the page
      text is kept, in order, and nothing else is added. */
  lemma CleanReportTextKeepsText(text: string)
    ensures DropSpaces(CleanReportText(text)) == DropSpaces(text)
  {
    JoinKeepsText(Newline, Chunks(text));
    ChunksKeepText(text);
  }

  /** The cleaned report text never holds an empty line. */
  lemma CleanReportTextHasNoBlankLine(text: string)
    ensures !Contains(CleanReportText(text), BlankLine)
  {
    var xs := Chunks(text);
    ChunksAreClean(text);
    forall x | x in xs
      ensures x != [] && x[0] != '\n' && x[|x| - 1] != '\n' && !Contains(x, ['\n', '\n'])
    {
      assert IsCleanChunk(x);
      assert forall ch | ch in x :: ch != '\n';
      NoCharNoPair(x, '\n');
    }
    JoinHasNoDoubledSeparator(xs, '\n');
  }

  /** What `extract_text_from_html` returns for the text of the parsed page:
      the cleaned text with long runs of line feeds collapsed. */
  function ReportText(pageText: string): string
  {
    CollapseNewlines(CleanReportText(pageText))
  }

  lemma NoBlankLineNoTriple(t: string)
    requires !Contains(t, BlankLine)
    ensures !Contains(t, TripleNewline)
  {
    if Contains(t, TripleNewline) {
      var i: nat :| i <= |t| && OccursAt(t, TripleNewline, i);
      assert t[i..i + 3][0] == t[i] && t[i..i + 3][1] == t[i + 1];
      PairAt(t, '\n', i);
      ContainsWitness(t, ['\n', '\n'], i);
    }
  }

  /** The collapse never changes the cleaned text. */
  lemma CollapseIsRedundant(pageText: string)
    ensures ReportText(pageText) == CleanReportText(pageText)
  {
    var t := CleanReportText(pageText);
    CleanReportTextHasNoBlankLine(pageText);
    NoBlankLineNoTriple(t);
    CollapseKeepsShortRuns(t);
  }

  /** `extract_text_from_html(html_file)`: None when the file cannot be read or
      parsed (given here as None page text). */
  function ExtractText(pageText: Option<string>): (r: Option<string>)
    ensures r.Some? <==> pageText.Some?
    ensures r.Some? ==> r.value == CleanReportText(pageText.value) && !Contains(r.value, BlankLine)
  {
    match pageText
    case None => None
    case Some(t) =>
      CollapseIsRedundant(t);
      CleanReportTextHasNoBlankLine(t);
      Some(ReportText(t))
  }

  // ---------------------------------------------------------------------------
  // The recipient address check
  // ---------------------------------------------------------------------------

  predicate IsAsciiLetter(c: char) {
    'a' <= c <= 'z' || 'A' <= c <= 'Z'
  }

  predicate IsAsciiDigit(c: char) {
    '0' <= c <= '9'
  }

  /** `[a-zA-Z0-9._%+-]` */
  predicate IsLocalChar(c: char) {
    IsAsciiLetter(c) || IsAsciiDigit(c) || c == '.' || c == '_' || c == '%' || c == '+' || c == '-'
  }

  /** `[a-zA-Z0-9.-]` */
  predicate IsDomainChar(c: char) {
    IsAsciiLetter(c) || IsAsciiDigit(c) || c == '.' || c == '-'
  }

  predicate IsLocalPart(s: string) {
    |s| >= 1 && forall i | 0 <= i < |s| :: IsLocalChar(s[i])
  }

  predicate IsDomainPart(s: string) {
    |s| >= 1 && forall i | 0 <= i < |s| :: IsDomainChar(s[i])
  }

  /** `[a-zA-Z]{2,}` */
  predicate IsTopLevelPart(s: string) {
    |s| >= 2 && forall i | 0 <= i < |s| :: IsAsciiLetter(s[i])
  }

  /** `s` is L@D.T with the '@' at `at` and the '.' before T at `dot`. */
  predicate ShapeAt(s: string, at: nat, dot: nat) {
    && at < dot < |s|
    && s[at] == '@' && s[dot] == '.'
    && IsLocalPart(s[..at]) && IsDomainPart(s[at + 1..dot]) && IsTopLevelPart(s[dot + 1..])
  }

  predicate EndsWithNewline(s: string) {
    |s| > 0 && s[|s| - 1] == '\n'
  }

  /** What the pattern `^[a-zA-Z0-9._%+-]+@[a-zA-Z0-9.-]+\.[a-zA-Z]{2,}$`
      accepts under `re.match`: the whole string has the shape, or everything
      but one final line feed has it (`$` also matches before a final "\n"). */
  ghost predicate PatternMatches(s: string) {
    HasShape(s) || (EndsWithNewline(s) && HasShape(s[..|s| - 1]))
  }

  ghost predicate HasShape(s: string) {
    exists at: nat, dot: nat :: ShapeAt(s, at, dot)
  }

  function IndexOf(s: string, c: char): (r: Option<nat>)
    ensures r.Some? ==> r.value < |s| && s[r.value] == c && forall k | 0 <= k < r.value :: s[k] != c
    ensures r.None? ==> forall k | 0 <= k < |s| :: s[k] != c
  {
    if |s| == 0 then None
    else if s[0] == c then Some(0)
    else match IndexOf(s[1..], c)
      case None => None
      case Some(k) => Some(k + 1)
  }

  function LastIndexOf(s: string, c: char): (r: Option<nat>)
    ensures r.Some? ==> r.value < |s| && s[r.value] == c && forall k | r.value < k < |s| :: s[k] != c
    ensures r.None? ==> forall k | 0 <= k < |s| :: s[k] != c
  {
    if |s| == 0 then None
    else if s[|s| - 1] == c then Some(|s| - 1)
    else LastIndexOf(s[..|s| - 1], c)
  }

  /** The address check, decided by the first '@' and the last '.'. */
  predicate IsAddress(s: string) {
    match IndexOf(s, '@')
    case None => false
    case Some(at) =>
      match LastIndexOf(s, '.')
      case None => false
      case Some(dot) => at < dot && IsLocalPart(s[..at]) && IsDomainPart(s[at + 1..dot]) && IsTopLevelPart(s[dot + 1..])
  }

  /** `re.match(email_pattern, s)` succeeds. */
  predicate IsValidEmail(s: string) {
    IsAddress(s) || (EndsWithNewline(s) && IsAddress(s[..|s| - 1]))
  }

  /** In a string of the shape, the '@' is the first one and the '.' the last one. */
  lemma ShapeIsDetermined(s: string, at: nat, dot: nat)
    requires ShapeAt(s, at, dot)
    ensures IndexOf(s, '@') == Some(at)
    ensures LastIndexOf(s, '.') == Some(dot)
    ensures IsAddress(s)
  {
    assert forall k | 0 <= k < at :: s[..at][k] == s[k];
    assert forall k | dot < k < |s| :: s[dot + 1..][k - dot - 1] == s[k];
  }

  lemma AddressHasShape(s: string)
    requires IsAddress(s)
    ensures ShapeAt(s, IndexOf(s, '@').value, LastIndexOf(s, '.').value)
  {
  }

  /** The deterministic check accepts exactly what the pattern accepts. */
  lemma ValidEmailIsPattern(s: string)
    ensures IsValidEmail(s) <==> PatternMatches(s)
  {
    if IsAddress(s) {
      AddressHasShape(s);
      var at, dot := IndexOf(s, '@').value, LastIndexOf(s, '.').value;
      assert ShapeAt(s, at, dot);
    } else if EndsWithNewline(s) && IsAddress(s[..|s| - 1]) {
      var core := s[..|s| - 1];
      AddressHasShape(core);
      var at, dot := IndexOf(core, '@').value, LastIndexOf(core, '.').value;
      assert ShapeAt(core, at, dot);
    }
    if HasShape(s) {
      var at: nat, dot: nat :| ShapeAt(s, at, dot);
      ShapeIsDetermined(s, at, dot);
    }
    if EndsWithNewline(s) && HasShape(s[..|s| - 1]) {
      var core := s[..|s| - 1];
      var at: nat, dot: nat :| ShapeAt(core, at, dot);
      ShapeIsDetermined(core, at, dot);
    }
  }

  lemma OneAtInShape(s: string, at: nat, dot: nat)
    requires ShapeAt(s, at, dot)
    ensures multiset(s)['@'] == 1
  {
    var local, rest := s[..at], s[at + 1..];
    assert s == local + [s[at]] + rest;
    assert forall k | 0 <= k < |local| :: local[k] != '@';
    assert '@' !in local;
    var domain, top := s[at + 1..dot], s[dot + 1..];
    assert rest == domain + [s[dot]] + top;
    assert forall k | 0 <= k < |domain| :: domain[k] != '@';
    assert forall k | 0 <= k < |top| :: top[k] != '@';
    assert '@' !in domain && '@' !in top;
    assert multiset(s) == multiset(local) + multiset{'@'} + multiset(rest);
  }

  /** Every accepted address holds exactly one '@'. */
  lemma ValidEmailHasOneAt(s: string)
    requires IsValidEmail(s)
    ensures multiset(s)['@'] == 1
  {
    if IsAddress(s) {
      AddressHasShape(s);
      OneAtInShape(s, IndexOf(s, '@').value, LastIndexOf(s, '.').value);
    } else {
      var core := s[..|s| - 1];
      AddressHasShape(core);
      OneAtInShape(core, IndexOf(core, '@').value, LastIndexOf(core, '.').value);
      assert s == core + ['\n'];
      assert multiset(s) == multiset(core) + multiset{'\n'};
    }
  }

  /** One final line feed is let through. */
  lemma TrailingNewlineAccepted()
    ensures IsValidEmail("a@b.co\n")
  {
    var core := "a@b.co";
    assert core[..1] == "a" && core[2..3] == "b" && core[4..] == "co";
    assert ShapeAt(core, 1, 3);
    ShapeIsDetermined(core, 1, 3);
    assert ("a@b.co\n")[..6] == core;
  }

  /** A second final line feed is not. */
  lemma SecondNewlineRejected()
    ensures !IsValidEmail("a@b.co\n\n")
  {
    var s := "a@b.co\n\n";
    if IsAddress(s) {
      AddressHasShape(s);
    }
    var core := s[..|s| - 1];
    assert core[|core| - 1] == '\n';
    if IsAddress(core) {
      AddressHasShape(core);
    }
  }

  /** A one-letter top-level part is rejected. */
  lemma ShortTopLevelRejected()
    ensures !IsValidEmail("a@b.c")
  {
    var s := "a@b.c";
    if IsAddress(s) {
      AddressHasShape(s);
    }
  }

  // ---------------------------------------------------------------------------
  // Rewriting the report in a professional tone
  // ---------------------------------------------------------------------------

  /** A slang word or phrase to look for: never empty. */
  type Word = w: string | w != [] witness "a"

  datatype Rule = Rule(slang: Word, professional: string)

  /** The replacement table, in its dictionary order. */
  const Replacements: seq<Rule> := [
    Rule("no cap", ""),
    Rule("periodt", ""),
    Rule("vibe check", "Market Assessment"),
    Rule("bestie", ""),
    Rule("lowkey", ""),
    Rule("highkey", ""),
    Rule("fr fr", ""),
    Rule("that's facts", ""),
    Rule("stay woke", ""),
    Rule("it's giving", "indicating"),
    Rule("slay", "perform well"),
    Rule("fire", "strong"),
    Rule("lit", "active"),
    Rule("tea", "information"),
    Rule("spill the tea", "provide details")
  ]

  /** The characters `re.IGNORECASE` treats as equal to a lower-case ASCII
      letter are mapped onto it: upper-case ASCII, the Kelvin sign, the long s,
      the dotted capital I and the dotless i. */
  function FoldCase(c: char): char {
    if 'A' <= c <= 'Z' then (c as int + 32) as char
    else if c == '\U{212A}' then 'k'
    else if c == '\U{017F}' then 's'
    else if c == '\U{0130}' || c == '\U{0131}' then 'i'
    else c
  }

  /** `\w`: ASCII letters, digits and '_', the Latin letters from U+00C0 to
      U+024F and the Kelvin sign. */
  predicate IsWordChar(c: char) {
    IsAsciiLetter(c) || IsAsciiDigit(c) || c == '_'
    || ('\U{00C0}' <= c <= '\U{024F}' && c != '\U{00D7}' && c != '\U{00F7}')
    || c == '\U{212A}'
  }

  /** `\b` at position `i`: a word character on exactly one side. */
  predicate BoundaryAt(s: string, i: nat)
    requires i <= |s|
  {
    (i > 0 && IsWordChar(s[i - 1])) != (i < |s| && IsWordChar(s[i]))
  }

  /** `w` (lower case) occurs at `i`, ignoring case. */
  predicate MatchesAt(s: string, w: string, i: nat) {
    i + |w| <= |s| && forall k | 0 <= k < |w| :: FoldCase(s[i + k]) == w[k]
  }

  /** `\bw\b` matches at `i`. */
  predicate WholeWordAt(s: string, w: string, i: nat) {
    MatchesAt(s, w, i) && BoundaryAt(s, i) && BoundaryAt(s, i + |w|)
  }

  /** `re.sub(rf'\b{re.escape(w)}\b', rep, s[i..], flags=re.IGNORECASE)`,
      where the boundaries still look at the character before `i`. */
  function ReplaceWordFrom(s: string, w: string, rep: string, i: nat): string
    requires w != [] && i <= |s|
    decreases |s| - i
  {
    if i == |s| then ""
    else if WholeWordAt(s, w, i) then rep + ReplaceWordFrom(s, w, rep, i + |w|)
    else [s[i]] + ReplaceWordFrom(s, w, rep, i + 1)
  }

  function ReplaceWord(s: string, w: string, rep: string): string
    requires w != []
  {
    ReplaceWordFrom(s, w, rep, 0)
  }

  /** No whole-word match of `w` anywhere in `s`. */
  predicate NoWholeWord(s: string, w: string) {
    forall j | 0 <= j <= |s| :: !WholeWordAt(s, w, j)
  }

  /** Without a whole-word match between `i` and `j`, the scan copies that stretch unchanged. */
  lemma {:induction false} CopiesUntilMatch(s: string, w: string, rep: string, i: nat, j: nat)
    requires w != [] && i <= j <= |s|
    requires forall m | i <= m < j :: !WholeWordAt(s, w, m)
    ensures ReplaceWordFrom(s, w, rep, i) == s[i..j] + ReplaceWordFrom(s, w, rep, j)
    decreases j - i
  {
    if i < j {
      CopiesUntilMatch(s, w, rep, i + 1, j);
      CopiesOneChar(s, w, rep, i);
      ConsOntoSlice(s, i, j, ReplaceWordFrom(s, w, rep, i), ReplaceWordFrom(s, w, rep, i + 1), ReplaceWordFrom(s, w, rep, j));
    }
  }

  lemma CopiesOneChar(s: string, w: string, rep: string, i: nat)
    requires w != [] && i < |s| && !WholeWordAt(s, w, i)
    ensures ReplaceWordFrom(s, w, rep, i) == [s[i]] + ReplaceWordFrom(s, w, rep, i + 1)
  {
  }

  lemma ConsOntoSlice(s: string, i: nat, j: nat, x: string, y: string, z: string)
    requires i < j <= |s|
    requires x == [s[i]] + y && y == s[i + 1..j] + z
    ensures x == s[i..j] + z
  {
    assert s[i..j] == [s[i]] + s[i + 1..j];
  }

  /** At the first whole-word match from `i` on, the stretch before it is
      copied, the match becomes `rep` and the scan resumes right after it.
      With CopiesUntilMatch this fixes the substitution on every input: every
      whole-word match is replaced, wherever it stands in the text. */
  lemma ReplacesFirstMatch(s: string, w: string, rep: string, i: nat, j: nat)
    requires w != [] && i <= j <= |s|
    requires forall m | i <= m < j :: !WholeWordAt(s, w, m)
    requires WholeWordAt(s, w, j)
    ensures ReplaceWordFrom(s, w, rep, i) == s[i..j] + rep + ReplaceWordFrom(s, w, rep, j + |w|)
  {
    CopiesUntilMatch(s, w, rep, i, j);
  }

  /** A match in the middle of a sentence is replaced: "tea time" becomes "information time". */
  lemma MidSentenceMatchReplaced(s: string, u: string)
    requires s == "tea time" && u == "information time"
    ensures ReplaceWord(s, "tea", "information") == u
  {
    assert WholeWordAt(s, "tea", 0) by {
      assert !IsWordChar(s[3]);
    }
    ReplacesFirstMatch(s, "tea", "information", 0, 0);
    forall m | 3 <= m < |s|
      ensures !WholeWordAt(s, "tea", m)
    {
      MismatchAt(s, "tea", m, if m == 4 then 1 else 0);
    }
    CopiesUntilMatch(s, "tea", "information", 3, |s|);
    assert s[3..|s|] == " time";
  }

  /** A text with no whole-word match is left as it is. */
  lemma NoMatchKeeps(s: string, w: string, rep: string)
    requires w != [] && NoWholeWord(s, w)
    ensures ReplaceWord(s, w, rep) == s
  {
    CopiesUntilMatch(s, w, rep, 0, |s|);
    assert s[0..|s|] == s;
  }

  /** A match that starts or ends inside a longer word is not a whole word. */
  lemma InsideWordIsNoMatch(s: string, w: string, i: nat)
    requires MatchesAt(s, w, i)
    requires (0 < i < |s| && IsWordChar(s[i - 1]) && IsWordChar(s[i]))
          || (0 < i + |w| < |s| && IsWordChar(s[i + |w| - 1]) && IsWordChar(s[i + |w|]))
    ensures !WholeWordAt(s, w, i)
  {
  }

  /** "lit" inside "split" and "tea" inside "steam" are left alone. */
  lemma SubwordsAreKept()
    ensures ReplaceWord("split", "lit", "active") == "split"
    ensures ReplaceWord("steam", "tea", "information") == "steam"
  {
    var s := "split";
    forall j | 0 <= j <= |s|
      ensures !WholeWordAt(s, "lit", j)
    {
      if MatchesAt(s, "lit", j) {
        assert "lit"[0] == 'l' && FoldCase(s[j + 0]) == "lit"[0];
        if j == 2 {
          assert IsWordChar(s[1]) && IsWordChar(s[2]);
        }
      }
    }
    NoMatchKeeps(s, "lit", "active");
    var t := "steam";
    forall j | 0 <= j <= |t|
      ensures !WholeWordAt(t, "tea", j)
    {
      if MatchesAt(t, "tea", j) {
        assert "tea"[0] == 't' && FoldCase(t[j + 0]) == "tea"[0];
        if j == 1 {
          assert IsWordChar(t[0]) && IsWordChar(t[1]);
        }
      }
    }
    NoMatchKeeps(t, "tea", "information");
  }

  /** The table applied in order, the last rule last. */
  function ApplyRules(text: string, rules: seq<Rule>): string
  {
    if |rules| == 0 then text
    else
      var last := rules[|rules| - 1];
      ReplaceWord(ApplyRules(text, rules[..|rules| - 1]), last.slang, last.professional)
  }

  /** The six code-point ranges of the emoji pattern. */
  predicate IsEmoji(c: char) {
    || '\U{1F600}' <= c <= '\U{1F64F}'
    || '\U{1F300}' <= c <= '\U{1F5FF}'
    || '\U{1F680}' <= c <= '\U{1F6FF}'
    || '\U{1F1E0}' <= c <= '\U{1F1FF}'
    || '\U{2702}' <= c <= '\U{27B0}'
    || '\U{24C2}' <= c <= '\U{1F251}'
  }

  /** `emoji_pattern.sub('', s)`: every character in the ranges is deleted. */
  function RemoveEmoji(s: string): (r: string)
    ensures forall c | c in r :: !IsEmoji(c)
    ensures forall c | c in r :: c in s
  {
    if |s| == 0 then ""
    else (if IsEmoji(s[0]) then "" else [s[0]]) + RemoveEmoji(s[1..])
  }

  /** The filter works character by character, so it keeps the order of what it keeps. */
  lemma {:induction false} RemoveEmojiAppend(a: string, b: string)
    ensures RemoveEmoji(a + b) == RemoveEmoji(a) + RemoveEmoji(b)
    decreases |a|
  {
    if |a| > 0 {
      RemoveEmojiAppend(a[1..], b);
      assert (a + b)[1..] == a[1..] + b;
    } else {
      assert a + b == b;
    }
  }

  /** The filter changes exactly the texts that hold a character in the ranges. */
  lemma {:induction false} RemoveEmojiKeepsExactly(s: string)
    ensures RemoveEmoji(s) == s <==> forall c | c in s :: !IsEmoji(c)
    decreases |s|
  {
    if |s| > 0 {
      RemoveEmojiKeepsExactly(s[1..]);
      assert forall c | c in s[1..] :: c in s;
      if IsEmoji(s[0]) {
        assert |RemoveEmoji(s)| <= |s[1..]| by {
          RemoveEmojiShorter(s[1..]);
        }
      } else {
        assert s == [s[0]] + s[1..];
        assert forall c | c in s :: c == s[0] || c in s[1..];
      }
    }
  }

  lemma {:induction false} RemoveEmojiShorter(s: string)
    ensures |RemoveEmoji(s)| <= |s|
  {
    if |s| > 0 {
      RemoveEmojiShorter(s[1..]);
    }
  }

  lemma RemoveEmojiIdempotent(s: string)
    ensures RemoveEmoji(RemoveEmoji(s)) == RemoveEmoji(s)
  {
    RemoveEmojiKeepsExactly(RemoveEmoji(s));
  }

  /** `format_professional_report(raw_text)`. */
  function FormatReport(rawText: string): string
  {
    RemoveEmoji(ApplyRules(rawText, Replacements))
  }

  /** The loop over the replacement table, then the emoji filter. */
  method FormatProfessionalReport(rawText: string) returns (text: string)
    ensures text == FormatReport(rawText)
    ensures forall c | c in text :: !IsEmoji(c)
  {
    text := rawText;
    var i := 0;
    while i < |Replacements|
      invariant 0 <= i <= |Replacements|
      invariant text == ApplyRules(rawText, Replacements[..i])
    {
      assert Replacements[..i + 1][..i] == Replacements[..i];
      text := ReplaceWord(text, Replacements[i].slang, Replacements[i].professional);
      i := i + 1;
    }
    assert Replacements[..|Replacements|] == Replacements;
    text := RemoveEmoji(text);
  }

  /** Some rule of the table matches as a whole word somewhere in `text`. */
  predicate HasSlang(text: string) {
    exists k, i | 0 <= k < |Replacements| && 0 <= i <= |text| :: WholeWordAt(text, Replacements[k].slang, i)
  }

  lemma {:induction false} RulesKeepPlainText(text: string, n: nat)
    requires n <= |Replacements|
    requires forall k | 0 <= k < n :: NoWholeWord(text, Replacements[k].slang)
    ensures ApplyRules(text, Replacements[..n]) == text
  {
    if n > 0 {
      assert Replacements[..n][..n - 1] == Replacements[..n - 1];
      RulesKeepPlainText(text, n - 1);
      var rule := Replacements[n - 1];
      NoMatchKeeps(text, rule.slang, rule.professional);
    }
  }

  /** Text with no slang word and no character in the ranges comes back unchanged. */
  lemma PlainTextIsUnchanged(text: string)
    requires !HasSlang(text)
    requires forall c | c in text :: !IsEmoji(c)
    ensures FormatReport(text) == text
  {
    RulesKeepPlainText(text, |Replacements|);
    assert Replacements[..|Replacements|] == Replacements;
    RemoveEmojiKeepsExactly(text);
  }

  /** A word one of whose letters `s` lacks, in any case, has no match in `s`. */
  lemma AbsentLetter(s: string, w: string, k: nat)
    requires k < |w|
    requires forall c | c in s :: FoldCase(c) != w[k]
    ensures NoWholeWord(s, w)
  {
    forall j | 0 <= j <= |s|
      ensures !MatchesAt(s, w, j)
    {
      if j + |w| <= |s| {
        assert s[j + k] in s;
      }
    }
  }

  lemma MismatchAt(s: string, w: string, j: nat, k: nat)
    requires j + |w| <= |s| ==> k < |w| && FoldCase(s[j + k]) != w[k]
    ensures !MatchesAt(s, w, j)
  {
  }

  /** One more rule of the table is one more replacement. */
  lemma RuleStep(text: string, n: nat)
    requires n < |Replacements|
    ensures ApplyRules(text, Replacements[..n + 1])
         == ReplaceWord(ApplyRules(text, Replacements[..n]), Replacements[n].slang, Replacements[n].professional)
  {
    assert Replacements[..n + 1][..n] == Replacements[..n];
  }

  // The lemmas below are about the fixed phrases "spill the tea" and "spill
  // the information". Each takes its phrase as a parameter pinned by a
  // `requires` rather than writing the literal in its `ensures`: a function
  // applied to literal arguments only is unfolded by the verifier all the way
  // through the rule table, which makes these proofs far too costly, while a
  // parameter lets each lemma unfold exactly the one step it is about.

  lemma LitIsNotInSpillTheTea(s: string)
    requires s == "spill the tea"
    ensures NoWholeWord(s, "lit")
  {
    forall j | 0 <= j <= |s|
      ensures !MatchesAt(s, "lit", j)
    {
      if j + 3 <= |s| {
        assert j == 0 || j == 1 || j == 2 || j == 3 || j == 4 || j == 5 || j == 6 || j == 7 || j == 8 || j == 9 || j == 10;
        MismatchAt(s, "lit", j, if j == 1 then 0 else 1);
      }
    }
  }

  /** A rule one of whose letters the text lacks leaves the text as it is. */
  lemma KeepStep(text: string, n: nat, k: nat)
    requires n < |Replacements| && k < |Replacements[n].slang|
    requires ApplyRules(text, Replacements[..n]) == text
    requires forall c | c in text :: FoldCase(c) != Replacements[n].slang[k]
    ensures ApplyRules(text, Replacements[..n + 1]) == text
  {
    RuleStep(text, n);
    AbsentLetter(text, Replacements[n].slang, k);
    NoMatchKeeps(text, Replacements[n].slang, Replacements[n].professional);
  }

  /** The letters of "spill the tea", all lower case already. */
  predicate IsSpillLetter(c: char) {
    c == 's' || c == 'p' || c == 'i' || c == 'l' || c == 't' || c == 'h' || c == 'e' || c == 'a' || c == ' '
  }

  lemma SpillTheTeaLetters(s: string)
    requires s == "spill the tea"
    ensures forall c | c in s :: IsSpillLetter(c)
  {
  }

  /** KeepStep for a text made of those letters and a rule letter outside them. */
  lemma SpillKeepStep(s: string, n: nat, k: nat)
    requires forall c | c in s :: IsSpillLetter(c)
    requires n < |Replacements| && k < |Replacements[n].slang|
    requires !IsSpillLetter(Replacements[n].slang[k])
    requires ApplyRules(s, Replacements[..n]) == s
    ensures ApplyRules(s, Replacements[..n + 1]) == s
  {
    forall c | c in s
      ensures FoldCase(c) != Replacements[n].slang[k]
    {
      assert FoldCase(c) == c;
    }
    KeepStep(s, n, k);
  }

  /** For each of the first twelve rules, the position of a letter outside
      "spill the tea": n, r, v, b, o, g, f, the apostrophe, y, the apostrophe, y, f. */
  function ForeignLetter(n: nat): nat
    requires n < 12
  {
    [0, 2, 0, 0, 1, 2, 0, 4, 3, 2, 3, 0][n]
  }

  lemma ForeignLetterIsForeign(n: nat)
    requires n < 12
    ensures ForeignLetter(n) < |Replacements[n].slang|
    ensures !IsSpillLetter(Replacements[n].slang[ForeignLetter(n)])
  {
    if n < 4 {
      assert n == 0 || n == 1 || n == 2 || n == 3;
    } else if n < 8 {
      assert n == 4 || n == 5 || n == 6 || n == 7;
    } else {
      assert n == 8 || n == 9 || n == 10 || n == 11;
    }
  }

  /** None of the first twelve rules changes a text made of those letters. */
  lemma {:induction false} EarlyRulesKeepSpillLetters(s: string, n: nat)
    requires forall c | c in s :: IsSpillLetter(c)
    requires n <= 12
    ensures ApplyRules(s, Replacements[..n]) == s
  {
    if n == 0 {
      assert Replacements[..0] == [];
    } else {
      EarlyRulesKeepSpillLetters(s, n - 1);
      ForeignLetterIsForeign(n - 1);
      SpillKeepStep(s, n - 1, ForeignLetter(n - 1));
    }
  }

  /** "tea" does not occur in the first ten characters of "spill the tea". */
  lemma TeaIsNotEarlyInSpillTheTea(s: string)
    requires s == "spill the tea"
    ensures forall m | 0 <= m < 10 :: !WholeWordAt(s, "tea", m)
  {
    forall j | 0 <= j < 10
      ensures !MatchesAt(s, "tea", j)
    {
      assert j == 0 || j == 1 || j == 2 || j == 3 || j == 4 || j == 5 || j == 6 || j == 7 || j == 8 || j == 9;
      MismatchAt(s, "tea", j, if j == 6 then 1 else 0);
    }
  }

  /** The "tea" rule rewrites the last word of "spill the tea". */
  lemma TeaRuleRewritesSpillTheTea(s: string, u: string)
    requires s == "spill the tea" && u == "spill the information"
    ensures ReplaceWord(s, "tea", "information") == u
  {
    TeaIsNotEarlyInSpillTheTea(s);
    TeaAtTheEnd(s);
    LastWordReplaced(s, "tea", "information", 10);
    assert s[..10] == "spill the ";
  }

  /** The last word of "spill the tea" is a whole-word match of "tea". */
  lemma TeaAtTheEnd(s: string)
    requires s == "spill the tea"
    ensures WholeWordAt(s, "tea", 10)
  {
    assert s[10..13] == "tea";
    assert forall k | 0 <= k < 3 :: s[10 + k] == s[10..13][k];
  }

  /** The only whole-word match, at the very end, is the only change. */
  lemma LastWordReplaced(s: string, w: string, rep: string, i: nat)
    requires w != [] && i + |w| == |s|
    requires forall m | 0 <= m < i :: !WholeWordAt(s, w, m)
    requires WholeWordAt(s, w, i)
    ensures ReplaceWord(s, w, rep) == s[..i] + rep
  {
    CopiesUntilMatch(s, w, rep, 0, i);
    assert ReplaceWordFrom(s, w, rep, i) == rep + ReplaceWordFrom(s, w, rep, |s|);
    assert s[0..i] == s[..i];
  }

  /** The "lit" rule leaves "spill the tea" alone. */
  lemma LitRuleKeepsSpillTheTea(s: string)
    requires s == "spill the tea"
    ensures ReplaceWord(s, "lit", "active") == s
  {
    LitIsNotInSpillTheTea(s);
    NoMatchKeeps(s, "lit", "active");
  }

  /** The "spill the tea" rule then finds nothing to rewrite. */
  lemma LastRuleFindsNothing(u: string)
    requires u == "spill the information"
    ensures ReplaceWord(u, "spill the tea", "provide details") == u
  {
    forall j | 0 <= j <= |u|
      ensures !MatchesAt(u, "spill the tea", j)
    {
      if j + 13 <= |u| {
        assert j == 0 || j == 1 || j == 2 || j == 3 || j == 4 || j == 5 || j == 6 || j == 7 || j == 8;
        MismatchAt(u, "spill the tea", j, if j == 0 then 10 else 0);
      }
    }
    NoMatchKeeps(u, "spill the tea", "provide details");
  }

  lemma InformationHasNoEmoji(u: string)
    requires u == "spill the information"
    ensures forall c | c in u :: !IsEmoji(c)
  {
    assert forall c | c in u :: c == ' ' || 'a' <= c <= 'z';
  }

  /** The last three rules and the emoji filter, for a text the first twelve keep. */
  lemma LateRules(s: string, t: string, u: string)
    requires ApplyRules(s, Replacements[..12]) == s
    requires ReplaceWord(s, "lit", "active") == s
    requires ReplaceWord(s, "tea", "information") == t
    requires ReplaceWord(t, "spill the tea", "provide details") == u
    requires forall c | c in u :: !IsEmoji(c)
    ensures FormatReport(s) == u
  {
    RuleStep(s, 12);
    RuleStep(s, 13);
    RuleStep(s, 14);
    assert Replacements[..15] == Replacements;
    RemoveEmojiKeepsExactly(u);
  }

  /** "tea" comes before "spill the tea" in the table, so the longer phrase
      never gets its turn: "spill the tea" becomes "spill the information". */
  lemma TeaRuleComesFirst(s: string, u: string)
    requires s == "spill the tea" && u == "spill the information"
    ensures FormatReport(s) == u
  {
    SpillTheTeaLetters(s);
    EarlyRulesKeepSpillLetters(s, 12);
    LitRuleKeepsSpillTheTea(s);
    TeaRuleRewritesSpillTheTea(s, u);
    LastRuleFindsNothing(u);
    InformationHasNoEmoji(u);
    LateRules(s, u, u);
  }

  /** Matching ignores case: "Vibe Check" becomes "Market Assessment". */
  lemma MatchingIgnoresCase()
    ensures ReplaceWord("Vibe Check", "vibe check", "Market Assessment") == "Market Assessment"
  {
    var s := "Vibe Check";
    assert WholeWordAt(s, "vibe check", 0);
  }

  // ---------------------------------------------------------------------------
  // The reply of POST /send-report
  // ---------------------------------------------------------------------------

  /** The JSON reply: `success`, then `message` on success or `error` otherwise. */
  datatype Response = Response(status: nat, success: bool, message: string)

  const GmailEmail := "GMAIL_EMAIL"
  const GmailPassword := "GMAIL_PASSWORD"

  /** Both credentials are set and non-empty (`os.getenv`, a missing key being None). */
  predicate IsConfigured(env: map<string, string>) {
    GmailEmail in env && env[GmailEmail] != "" && GmailPassword in env && env[GmailPassword] != ""
  }

  /** `send_report()` with its inputs given: the request's `email` field, the
      environment, whether the report file exists, the text of the parsed page
      (None when reading fails) and the error of the SMTP exchange, if any. */
  function SendReport(email: Option<string>, env: map<string, string>, reportExists: bool,
                      pageText: Option<string>, sendError: Option<string>): (r: Response)
    ensures r.success <==> r.status == 200
    ensures r.status in {200, 400, 404, 500}
    ensures r.status == 200 <==>
      && email.Some? && IsValidEmail(email.value)
      && IsConfigured(env) && reportExists
      && ExtractText(pageText).Some? && ExtractText(pageText).value != ""
      && sendError.None?
    ensures r.status == 200 ==> r.message == "Report sent successfully to " + email.value
    ensures email.None? || email.value == "" ==> r == Response(400, false, "Email address is required")
    ensures email.Some? && email.value != "" && !IsValidEmail(email.value) ==>
      r == Response(400, false, "Invalid email format")
    ensures email.Some? && IsValidEmail(email.value) && !IsConfigured(env) ==>
      r == Response(500, false, "Email service not configured")
    ensures email.Some? && IsValidEmail(email.value) && IsConfigured(env) && !reportExists ==>
      r == Response(404, false, "Report file not found")
    ensures email.Some? && IsValidEmail(email.value) && IsConfigured(env) && reportExists
            && (pageText.None? || CleanReportText(pageText.value) == "") ==>
      r == Response(500, false, "Failed to extract report content")
    ensures email.Some? && IsValidEmail(email.value) && IsConfigured(env) && reportExists
            && ExtractText(pageText).Some? && ExtractText(pageText).value != "" && sendError.Some? ==>
      r == Response(500, false, sendError.value)
  {
    if email.None? || email.value == "" then
      Response(400, false, "Email address is required")
    else if !IsValidEmail(email.value) then
      Response(400, false, "Invalid email format")
    else if !IsConfigured(env) then
      Response(500, false, "Email service not configured")
    else if !reportExists then
      Response(404, false, "Report file not found")
    else
      var rawText := ExtractText(pageText);
      if rawText.None? || rawText.value == "" then
        Response(500, false, "Failed to extract report content")
      else
        match sendError
        case Some(e) => Response(500, false, e)
        case None => Response(200, true, "Report sent successfully to " + email.value)
  }
}
