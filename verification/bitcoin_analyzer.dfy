/** The local string logic of the report generator: turning the website agent's
    output into the HTML document that is saved as the report, cleaning and
    capping the text read from a web page, and checking the environment for the
    API keys the agents need. */
module BitcoinAnalyzer {
  import opened PyStrings
  import opened TextCleanup

  // ---------------------------------------------------------------------------
  // Reading a website: whitespace cleanup and the 5000-character cap
  // ---------------------------------------------------------------------------

  const MaxWebsiteChars := 5000

  /** The page text after the cleanup: its chunks joined with single spaces. */
  function CleanWebText(text: string): string
  {
    Join(" ", Chunks(text))
  }

  /** The cleanup changes whitespace only: every other character of the page
      text is kept, in order, and nothing else is added. */
  lemma CleanWebTextKeepsText(text: string)
    ensures DropSpaces(CleanWebText(text)) == DropSpaces(text)
  {
    JoinKeepsText(" ", Chunks(text));
    ChunksKeepText(text);
  }

  /** The cleaned text has no two spaces in a row and neither begins nor ends with whitespace. */
  lemma CleanWebTextShape(text: string)
    ensures !Contains(CleanWebText(text), DoubleSpace)
    ensures CleanWebText(text) == [] || (!IsSpace(CleanWebText(text)[0]) && !IsSpace(CleanWebText(text)[|CleanWebText(text)| - 1]))
  {
    var xs := Chunks(text);
    ChunksAreClean(text);
    assert forall x | x in xs :: x != [] && x[0] != ' ' && x[|x| - 1] != ' ' && !Contains(x, [' ', ' ']);
    JoinHasNoDoubledSeparator(xs, ' ');
    if xs != [] {
      assert forall k | 0 <= k < |xs| :: xs[k] in xs;
      JoinEnds(xs, ' ');
      assert xs[0] in xs && xs[|xs| - 1] in xs;
    }
  }

  /** What the website reader returns for a page's text: the cleaned text, cut
      to its first 5000 characters when it is longer. */
  function WebsiteText(pageText: string): (r: string)
    ensures |r| <= MaxWebsiteChars
    ensures StartsWith(CleanWebText(pageText), r)
    ensures |CleanWebText(pageText)| <= MaxWebsiteChars ==> r == CleanWebText(pageText)
    ensures |CleanWebText(pageText)| > MaxWebsiteChars ==> r == CleanWebText(pageText)[..MaxWebsiteChars]
    ensures !Contains(r, DoubleSpace)
    ensures r == [] || !IsSpace(r[0])
  {
    var text := CleanWebText(pageText);
    CleanWebTextShape(pageText);
    if |text| > MaxWebsiteChars then
      var r := text[..MaxWebsiteChars];
      assert !Contains(r, DoubleSpace) by {
        if Contains(r, DoubleSpace) {
          ContainsInSlice(text, 0, MaxWebsiteChars, DoubleSpace);
        }
      }
      r
    else text
  }

  // ---------------------------------------------------------------------------
  // Saving the website agent's output as an HTML document
  // ---------------------------------------------------------------------------

  const Fence := "```"
  const HtmlFence := "```html"

  // The skeleton's text is written line by line as on the page, with the
  // long lines cut into short literals. The cuts change no character: they
  // only let the backtick-freedom proofs below add one short piece at a time,
  // and the cut after "<!DOCTYPE" is the prefix the start check compares.

  /** The fixed page around content that is not a full document, up to and
      including the line break after `<body>`. */
  const SkeletonHead: string := DocumentTop + DocumentTitle
  /** The skeleton up to the viewport declaration. */
  const DocumentTop: string :=
    "<!DOCTYPE" + " html>\n"
    + "<html lang=\"en\">\n"
    + "<head>\n"
    + "    <meta charset=\"UTF-8\">\n"
    + "    <meta name=\"viewport\"" + " content=\"width=device-width," + " initial-scale=1.0\">\n"
  /** The title line, the end of the head and the opening of the body. */
  const DocumentTitle: string :=
    "    <title>Bitcoin Analysis" + " Report - SEVENTEEN" + " Edition \U{1F48E}</title>\n"
    + "</head>\n"
    + "<body>\n"
  /** The rest of that page, from the line break before `</body>`. */
  const SkeletonTail := "\n</body>\n</html>"

  /** A part that mentions a document, a root element or a body, ignoring case. */
  predicate LooksLikeDocument(part: string) {
    var lower := Lower(part);
    Contains(lower, "<html") || Contains(lower, "<!doctype") || Contains(lower, "<body")
  }

  /** A part that, stripped, opens with a tag and is longer than 100 characters. */
  predicate LooksLikeLongTag(part: string) {
    StartsWith(Strip(part), "<") && |Strip(part)| > 100
  }

  /** The content counts as a full document when it opens with either marker
      (case-sensitively). */
  predicate IsDocumentStart(s: string) {
    StartsWith(s, "<!DOCTYPE") || StartsWith(s, "<html")
  }

  /** The index of the first part satisfying `p`, the loop-and-break search of the source. */
  function FirstWhere(parts: seq<string>, p: string -> bool): (r: Option<nat>)
    ensures r.Some? ==> r.value < |parts| && p(parts[r.value])
    ensures r.Some? ==> forall j | 0 <= j < r.value :: !p(parts[j])
    ensures r.None? ==> forall j | 0 <= j < |parts| :: !p(parts[j])
  {
    if |parts| == 0 then None
    else if p(parts[0]) then Some(0)
    else match FirstWhere(parts[1..], p)
      case None => None
      case Some(k) => Some(k + 1)
  }

  lemma {:induction false} FirstWhereFinds(parts: seq<string>, p: string -> bool, i: nat)
    requires i < |parts| && p(parts[i])
    requires forall j | 0 <= j < i :: !p(parts[j])
    ensures FirstWhere(parts, p) == Some(i)
  {
    if i > 0 {
      FirstWhereFinds(parts[1..], p, i - 1);
    }
  }

  /** `output.split("```html")[1].split("```")[0].strip()`. */
  function FenceFragment(output: string): string
    requires Contains(output, HtmlFence)
  {
    Strip(Split(Split(output, HtmlFence)[1], Fence)[0])
  }

  /** The index of the first occurrence of `p` in `s`, or `|s|` when there is none. */
  function IndexOr(s: string, p: string): (r: nat)
    ensures r <= |s|
  {
    match Find(s, p)
    case Some(i) => i
    case None => |s|
  }

  /** A character in a string whose lower-case form holds '<' is itself '<', so
      such a string does not strip to nothing. */
  lemma MarkupIsNotBlank(part: string)
    requires LooksLikeDocument(part)
    ensures Strip(part) != ""
  {
    var lower := Lower(part);
    var needle := if Contains(lower, "<html") then "<html"
      else if Contains(lower, "<!doctype") then "<!doctype" else "<body";
    assert Contains(lower, needle) && needle[0] == '<';
    var i: nat :| i <= |lower| && OccursAt(lower, needle, i);
    assert lower[i..i + |needle|][0] == lower[i] == '<';
    assert part[i] == '<';
  }

  /** The stripped first part that looks like markup, or "" when none does
      (the first `for part in parts` loop). */
  function FirstMarkupPart(parts: seq<string>): (r: string)
    ensures forall k | 0 <= k < |parts| && LooksLikeDocument(parts[k]) && (forall j | 0 <= j < k :: !LooksLikeDocument(parts[j])) ::
      r == Strip(parts[k])
    ensures r == "" <==> forall j | 0 <= j < |parts| :: !LooksLikeDocument(parts[j])
  {
    var found := FirstWhere(parts, LooksLikeDocument);
    assert forall k | 0 <= k < |parts| && LooksLikeDocument(parts[k]) && (forall j | 0 <= j < k :: !LooksLikeDocument(parts[j])) ::
      found == Some(k)
    by {
      forall k | 0 <= k < |parts| && LooksLikeDocument(parts[k]) && (forall j | 0 <= j < k :: !LooksLikeDocument(parts[j]))
        ensures found == Some(k)
      {
        FirstWhereFinds(parts, LooksLikeDocument, k);
      }
    }
    match found
    case Some(k) => MarkupIsNotBlank(parts[k]); Strip(parts[k])
    case None => ""
  }

  /** The stripped first part that opens with a tag and is longer than 100
      characters, or "" when none does (the second loop). */
  function FirstLongTagPart(parts: seq<string>): (r: string)
    ensures forall k | 0 <= k < |parts| && LooksLikeLongTag(parts[k]) && (forall j | 0 <= j < k :: !LooksLikeLongTag(parts[j])) ::
      r == Strip(parts[k])
    ensures r == "" <==> forall j | 0 <= j < |parts| :: !LooksLikeLongTag(parts[j])
  {
    var found := FirstWhere(parts, LooksLikeLongTag);
    assert forall k | 0 <= k < |parts| && LooksLikeLongTag(parts[k]) && (forall j | 0 <= j < k :: !LooksLikeLongTag(parts[j])) ::
      found == Some(k)
    by {
      forall k | 0 <= k < |parts| && LooksLikeLongTag(parts[k]) && (forall j | 0 <= j < k :: !LooksLikeLongTag(parts[j]))
        ensures found == Some(k)
      {
        FirstWhereFinds(parts, LooksLikeLongTag, k);
      }
    }
    match found
    case Some(k) => Strip(parts[k])
    case None => ""
  }

  lemma HtmlFenceHoldsFence(output: string)
    requires Contains(output, HtmlFence)
    ensures Contains(output, Fence)
  {
    var i: nat :| i <= |output| && OccursAt(output, HtmlFence, i);
    SliceOfSlice(output, i, i + 7, 0, 3);
    assert output[i..i + 3] == Fence;
    ContainsWitness(output, Fence, i);
  }

  /** The content the source settles on before cleaning (the value of
      `html_content` after the fallback to the whole output). */
  function SelectedContent(output: string): (r: string)
    ensures Contains(output, HtmlFence) && FenceFragment(output) != "" ==> r == FenceFragment(output)
    ensures Contains(output, HtmlFence) && FenceFragment(output) == "" ==> r == Strip(output)
    ensures !Contains(output, HtmlFence) && Contains(output, Fence) ==>
      var parts := Split(output, Fence);
      r == if FirstMarkupPart(parts) != "" then FirstMarkupPart(parts)
           else if FirstLongTagPart(parts) != "" then FirstLongTagPart(parts)
           else Strip(output)
    ensures !Contains(output, Fence) ==> r == Strip(output)
  {
    if Contains(output, HtmlFence) then
      HtmlFenceHoldsFence(output);
      var fragment := FenceFragment(output);
      if fragment != "" then fragment else Strip(output)
    else if Contains(output, Fence) then
      var parts := Split(output, Fence);
      var found := if FirstMarkupPart(parts) != "" then FirstMarkupPart(parts) else FirstLongTagPart(parts);
      if found != "" then found else Strip(output)
    else
      Strip(output)
  }

  // Removing fences ------------------------------------------------------------

  /** The number of backticks `s` starts with. */
  function LeadingTicks(s: string): (n: nat)
    ensures n <= |s|
  {
    if |s| > 0 && s[0] == '`' then 1 + LeadingTicks(s[1..]) else 0
  }

  lemma ThreeTicksStartFence(s: string)
    ensures LeadingTicks(s) >= 3 <==> StartsWith(s, Fence)
  {
    assert Fence == ['`', '`', '`'];
    if |s| >= 3 {
      assert s[1..][1..] == s[2..];
      assert s[1..][0] == s[1] && s[2..][0] == s[2];
      if s[0] == '`' && s[1] == '`' {
        assert LeadingTicks(s) == 2 + LeadingTicks(s[2..]);
      }
    }
    if LeadingTicks(s) >= 3 {
      assert s[..3] == Fence;
    }
    if StartsWith(s, Fence) {
      assert s[..3][0] == s[0] && s[..3][1] == s[1] && s[..3][2] == s[2];
    }
  }

  /** A leading fence is three leading backticks, and `replace` drops it whole. */
  lemma FenceAtFront(s: string)
    requires StartsWith(s, Fence)
    ensures LeadingTicks(s) == 3 + LeadingTicks(s[3..])
    ensures Replace(s, Fence, "") == Replace(s[3..], Fence, "")
  {
    assert |Fence| == 3;
    assert s[1..][1..][1..] == s[3..];
    assert s[0] == '`' && s[1..][0] == '`' && s[1..][1..][0] == '`' by {
      assert s[..3][0] == s[0] && s[..3][1] == s[1] && s[..3][2] == s[2];
    }
    assert LeadingTicks(s[1..][1..]) == 1 + LeadingTicks(s[3..]);
    assert LeadingTicks(s[1..]) == 2 + LeadingTicks(s[3..]);
    assert Replace(s, Fence, "") == "" + Replace(s[3..], Fence, "");
  }

  /** Without a fence at the front, `replace` keeps the first character. */
  lemma NoFenceAtFront(s: string)
    requires |s| > 0 && !StartsWith(s, Fence)
    ensures Replace(s, Fence, "") == [s[0]] + Replace(s[1..], Fence, "")
  {
  }

  lemma LeadingTicksCons(c: char, t: string)
    ensures LeadingTicks([c] + t) == if c == '`' then 1 + LeadingTicks(t) else 0
  {
    assert ([c] + t)[1..] == t;
  }

  /** Removing every "```" leaves the run of backticks at the front shortened to its remainder modulo 3. */
  lemma {:induction false} RemoveFencesLeadingTicks(s: string)
    ensures LeadingTicks(Replace(s, Fence, "")) == LeadingTicks(s) % 3
    decreases |s|
  {
    if |s| > 0 {
      ThreeTicksStartFence(s);
      if StartsWith(s, Fence) {
        RemoveFencesLeadingTicks(s[3..]);
        FenceAtFront(s);
        assert (3 + LeadingTicks(s[3..])) % 3 == LeadingTicks(s[3..]) % 3;
      } else {
        RemoveFencesLeadingTicks(s[1..]);
        NoFenceAtFront(s);
        LeadingTicksCons(s[0], Replace(s[1..], Fence, ""));
        assert LeadingTicks(s) == if s[0] == '`' then 1 + LeadingTicks(s[1..]) else 0;
      }
    }
  }

  /** `replace("```", "")` leaves no "```" behind, not even where two removed
      fences were separated by backticks. */
  lemma {:induction false} RemovingFencesLeavesNone(s: string)
    ensures !Contains(Replace(s, Fence, ""), Fence)
    decreases |s|
  {
    if |s| > 0 {
      if StartsWith(s, Fence) {
        RemovingFencesLeavesNone(s[3..]);
        assert |Fence| == 3 && Replace(s, Fence, "") == Replace(s[3..], Fence, "");
      } else {
        RemovingFencesLeavesNone(s[1..]);
        var t := Replace(s[1..], Fence, "");
        var r := [s[0]] + t;
        assert Replace(s, Fence, "") == r;
        if Contains(r, Fence) {
          ContainsCons(s[0], t, Fence);
          ThreeTicksStartFence(r);
          ThreeTicksStartFence(s);
          RemoveFencesLeadingTicks(s[1..]);
          assert false;
        }
      }
    }
  }

  /** The markdown clean-up: drop "```html", then "```", then strip. */
  function CleanFences(content: string): (r: string)
    ensures !Contains(r, Fence)
    ensures Strip(r) == r
  {
    var unfenced := Replace(Replace(content, HtmlFence, ""), Fence, "");
    RemovingFencesLeavesNone(Replace(content, HtmlFence, ""));
    StripIdempotent(unfenced);
    assert !Contains(Strip(unfenced), Fence) by {
      if Contains(Strip(unfenced), Fence) {
        StripContains(unfenced, Fence);
      }
    }
    Strip(unfenced)
  }

  predicate HasNoBacktick(s: string) {
    forall i | 0 <= i < |s| :: s[i] != '`'
  }

  /** Content without a fence is only stripped. */
  lemma CleanFencesKeepsPlainContent(content: string)
    requires !Contains(content, Fence)
    ensures CleanFences(content) == Strip(content)
  {
    forall i: nat | i <= |content|
      ensures !OccursAt(content, HtmlFence, i)
    {
      if i + |HtmlFence| <= |content| {
        assert content[i..i + |Fence|] == content[i..i + |HtmlFence|][..|Fence|];
        assert !OccursAt(content, Fence, i);
      }
    }
    ReplaceAbsent(content, HtmlFence, "");
    ReplaceAbsent(content, Fence, "");
  }

  /** A pattern opening with a backtick cannot occur in text without one
      followed by fewer characters than the pattern has. */
  lemma TickedPatternAbsent(body: string, tail: string, p: string)
    requires HasNoBacktick(body)
    requires p != [] && p[0] == '`' && |tail| < |p|
    ensures !Contains(body + tail, p)
  {
    var t := body + tail;
    forall i: nat | i <= |t|
      ensures !OccursAt(t, p, i)
    {
      if i + |p| <= |t| {
        assert t[i..i + |p|][0] == t[i] == body[i];
      }
    }
  }

  /** A block fenced by "```html" and "```" whose body holds no backtick is
      unwrapped to its stripped body. */
  lemma FencedBlockIsUnwrapped(body: string)
    requires HasNoBacktick(body)
    ensures CleanFences(HtmlFence + body + Fence) == Strip(body)
  {
    var inner := body + Fence;
    assert HtmlFence + body + Fence == "" + HtmlFence + inner;
    TickedPatternAbsent("", HtmlFence[..|HtmlFence| - 1], HtmlFence);
    ReplaceAtFirst("", HtmlFence, inner, "");
    assert Replace(HtmlFence + body + Fence, HtmlFence, "") == Replace(inner, HtmlFence, "");
    TickedPatternAbsent(body, Fence, HtmlFence);
    ReplaceAbsent(inner, HtmlFence, "");
    TickedPatternAbsent(body, Fence[..|Fence| - 1], Fence);
    ReplaceAtFirst(body, Fence, "", "");
    assert body + Fence + "" == inner && body + "" + "" == body;
  }

  lemma SkeletonShape()
    ensures |SkeletonHead| >= 9 && SkeletonHead[..9] == "<!DOCTYPE"
    ensures SkeletonHead[|SkeletonHead| - 7..] == "<body>\n" && SkeletonTail[..8] == "\n</body>"
  {
  }

  lemma NoBacktickConcat(a: string, b: string)
    requires HasNoBacktick(a) && HasNoBacktick(b)
    ensures HasNoBacktick(a + b)
  {
    forall i | 0 <= i < |a + b|
      ensures (a + b)[i] != '`'
    {
      if i < |a| {
        assert (a + b)[i] == a[i];
      } else {
        assert (a + b)[i] == b[i - |a|];
      }
    }
  }

  lemma DocumentTopHasNoBackticks()
    ensures HasNoBacktick(DocumentTop)
  {
    var p := "<!DOCTYPE";
    var q := " html>\n";
    NoBacktickConcat(p, q);
    p, q := p + q, "<html lang=\"en\">\n";
    NoBacktickConcat(p, q);
    p, q := p + q, "<head>\n";
    NoBacktickConcat(p, q);
    p, q := p + q, "    <meta charset=\"UTF-8\">\n";
    NoBacktickConcat(p, q);
    p, q := p + q, "    <meta name=\"viewport\"";
    NoBacktickConcat(p, q);
    p, q := p + q, " content=\"width=device-width,";
    NoBacktickConcat(p, q);
    p, q := p + q, " initial-scale=1.0\">\n";
    NoBacktickConcat(p, q);
    assert p + q == DocumentTop;
  }

  lemma DocumentTitleHasNoBackticks()
    ensures HasNoBacktick(DocumentTitle)
  {
    var p := "    <title>Bitcoin Analysis";
    var q := " Report - SEVENTEEN";
    NoBacktickConcat(p, q);
    p, q := p + q, " Edition \U{1F48E}</title>\n";
    NoBacktickConcat(p, q);
    p, q := p + q, "</head>\n";
    NoBacktickConcat(p, q);
    p, q := p + q, "<body>\n";
    NoBacktickConcat(p, q);
    assert p + q == DocumentTitle;
  }

  lemma SkeletonHasNoBackticks()
    ensures forall c | c in SkeletonHead :: c != '`'
    ensures forall c | c in SkeletonTail :: c != '`'
  {
    DocumentTopHasNoBackticks();
    DocumentTitleHasNoBackticks();
    NoBacktickConcat(DocumentTop, DocumentTitle);
    assert HasNoBacktick(SkeletonTail);
  }

  /** In `head + body + tail`, every backtick lies inside `body` when neither end holds one. */
  lemma TicksInsideFrame(head: string, body: string, tail: string)
    requires forall c | c in head :: c != '`'
    requires forall c | c in tail :: c != '`'
    ensures var s := head + body + tail;
            forall k | 0 <= k < |s| && s[k] == '`' :: |head| <= k < |head| + |body|
  {
    var s := head + body + tail;
    forall k | 0 <= k < |head|
      ensures s[k] != '`'
    {
      assert s[k] == head[k] && head[k] in head;
    }
    forall k | |head| + |body| <= k < |s|
      ensures s[k] != '`'
    {
      assert s[k] == tail[k - |head| - |body|] && tail[k - |head| - |body|] in tail;
    }
  }

  /** A fence inside `head + body + tail` when neither end holds a backtick lies inside `body`. */
  lemma FenceInsideFrame(head: string, body: string, tail: string)
    requires forall c | c in head :: c != '`'
    requires forall c | c in tail :: c != '`'
    requires Contains(head + body + tail, Fence)
    ensures Contains(body, Fence)
  {
    var s := head + body + tail;
    var i: nat :| i <= |s| && OccursAt(s, Fence, i);
    assert s[i..i + 3] == Fence;
    assert s[i] == '`' && s[i + 2] == '`';
    TicksInsideFrame(head, body, tail);
    var j := i - |head|;
    assert s[i..i + 3] == body[j..j + 3];
    ContainsWitness(body, Fence, j);
  }

  /** The wrapping step: content that does not start like a document is placed
      between `<body>\n` and `\n</body>` of the fixed skeleton (SkeletonShape). */
  function EnsureDocument(content: string): string
  {
    if !StartsWith(Strip(content), "<!DOCTYPE") && !StartsWith(Strip(content), "<html") then
      SkeletonHead + content + SkeletonTail
    else content
  }

  /** Stripped content always leaves the wrapping step as a document start. */
  lemma EnsuredDocumentStarts(content: string)
    requires Strip(content) == content
    ensures IsDocumentStart(EnsureDocument(content))
  {
    if !IsDocumentStart(content) {
      var r := SkeletonHead + content + SkeletonTail;
      SkeletonShape();
      assert r[..9] == SkeletonHead[..9];
    }
  }

  /** The skeleton holds no backtick, so wrapping cannot create a fence. */
  lemma EnsuredDocumentAddsNoFence(content: string)
    requires !Contains(content, Fence)
    ensures !Contains(EnsureDocument(content), Fence)
  {
    if !IsDocumentStart(Strip(content)) {
      if Contains(SkeletonHead + content + SkeletonTail, Fence) {
        SkeletonHasNoBackticks();
        FenceInsideFrame(SkeletonHead, content, SkeletonTail);
      }
    }
  }

  /** Content that already opens like a document is kept as it is; anything
      else is embedded verbatim between `<body>\n` and `\n</body>`. */
  lemma EnsureDocumentFrames(content: string)
    ensures IsDocumentStart(Strip(content)) ==> EnsureDocument(content) == content
    ensures !IsDocumentStart(Strip(content)) ==>
      var d := EnsureDocument(content);
      var n := |SkeletonHead|;
      && |d| == n + |content| + |SkeletonTail|
      && d[n - 7..n] == "<body>\n"
      && d[n..n + |content|] == content
      && d[n + |content|..n + |content| + 8] == "\n</body>"
  {
    SkeletonShape();
    if !IsDocumentStart(Strip(content)) {
      var d := SkeletonHead + content + SkeletonTail;
      var n := |SkeletonHead|;
      assert d[n - 7..n] == SkeletonHead[n - 7..];
      assert d[n..n + |content|] == content;
      assert d[n + |content|..n + |content| + 8] == SkeletonTail[..8];
    }
  }

  /** The document the source saves (before the e-mail form and date are added). */
  function HtmlDocument(output: string): string
  {
    EnsureDocument(CleanFences(SelectedContent(output)))
  }

  /** The first `for part in parts` loop: the first part that looks like markup, stripped. */
  method FindMarkupPart(parts: seq<string>) returns (content: string)
    ensures content == FirstMarkupPart(parts)
  {
    content := "";
    var i := 0;
    while i < |parts|
      invariant 0 <= i <= |parts|
      invariant forall j | 0 <= j < i :: !LooksLikeDocument(parts[j])
      invariant content == ""
    {
      if LooksLikeDocument(parts[i]) {
        FirstWhereFinds(parts, LooksLikeDocument, i);
        content := Strip(parts[i]);
        break;
      }
      i := i + 1;
    }
  }

  /** The second loop: the first long part that opens with a tag, stripped. */
  method FindLongTagPart(parts: seq<string>) returns (content: string)
    ensures content == FirstLongTagPart(parts)
  {
    content := "";
    var i := 0;
    while i < |parts|
      invariant 0 <= i <= |parts|
      invariant forall j | 0 <= j < i :: !LooksLikeLongTag(parts[j])
      invariant content == ""
    {
      if LooksLikeLongTag(parts[i]) {
        FirstWhereFinds(parts, LooksLikeLongTag, i);
        content := Strip(parts[i]);
        break;
      }
      i := i + 1;
    }
  }

  /** Lines 516-558 of the source, step by step: find the fenced fragment, fall
      back to the whole output, clean the fences and wrap when needed. */
  method BuildHtmlDocument(output: string) returns (doc: string)
    ensures doc == HtmlDocument(output)
    ensures !Contains(doc, Fence)
    ensures IsDocumentStart(doc)
  {
    // `None` and "" are both false for the source's `if not html_content`,
    // so the empty string stands for "nothing found yet".
    var content := "";
    if Contains(output, HtmlFence) {
      content := Strip(Split(Split(output, HtmlFence)[1], Fence)[0]);
    } else if Contains(output, Fence) {
      var parts := Split(output, Fence);
      content := FindMarkupPart(parts);
      if content == "" {
        content := FindLongTagPart(parts);
      }
    }
    if content == "" {
      content := Strip(output);
    }
    assert content == SelectedContent(output);
    content := Strip(Replace(Replace(content, HtmlFence, ""), Fence, ""));
    assert content == CleanFences(SelectedContent(output));
    EnsuredDocumentStarts(content);
    EnsuredDocumentAddsNoFence(content);
    if !StartsWith(Strip(content), "<!DOCTYPE") && !StartsWith(Strip(content), "<html") {
      content := SkeletonHead + content + SkeletonTail;
    }
    doc := content;
  }

  /** The fragment taken from a "```html" fence runs from just after the first
      "```html" to the first "```" after it, unless that "```" overlaps the next
      "```html" (a longer run of backticks in front of it), in which case it
      runs up to that next "```html". */
  lemma FragmentRunsToNextFence(output: string)
    requires Contains(output, HtmlFence)
    ensures var i := Find(output, HtmlFence).value;
            var rest := output[i + |HtmlFence|..];
            var k := IndexOr(rest, HtmlFence);
            var j := IndexOr(rest, Fence);
            FenceFragment(output) == Strip(rest[..if j + 3 <= k then j else k])
  {
    var i := Find(output, HtmlFence).value;
    var rest := output[i + |HtmlFence|..];
    var k := IndexOr(rest, HtmlFence);
    assert Split(output, HtmlFence) == [output[..i]] + Split(rest, HtmlFence);
    assert Split(output, HtmlFence)[1] == rest[..k] by {
      match Find(rest, HtmlFence)
      case None =>
        assert rest[..k] == rest;
      case Some(k') =>
    }
    FirstPieceOfPrefix(rest, k);
  }

  /** Cutting `rest` at `k` and taking the text before the first "```" of the
      cut keeps everything up to the first "```" of `rest` when that "```" lies
      wholly before `k`, and everything up to `k` otherwise. */
  lemma FirstPieceOfPrefix(rest: string, k: nat)
    requires k <= |rest|
    ensures var j := IndexOr(rest, Fence);
            Split(rest[..k], Fence)[0] == rest[..if j + 3 <= k then j else k]
  {
    var j := IndexOr(rest, Fence);
    var a := rest[..k];
    if j + 3 <= k {
      assert OccursAt(rest, Fence, j);
      SliceOfSlice(rest, 0, k, j, j + 3);
      assert OccursAt(a, Fence, j);
      forall m: nat | m < j
        ensures !OccursAt(a, Fence, m)
      {
        if m + 3 <= |a| {
          SliceOfSlice(rest, 0, k, m, m + 3);
          assert a[m..m + 3] == rest[m..m + 3];
          assert !OccursAt(rest, Fence, m);
        }
      }
      FindIsFirst(a, Fence, j);
      assert a[..j] == rest[..j];
    } else {
      forall m: nat | m <= |a|
        ensures !OccursAt(a, Fence, m)
      {
        if m + 3 <= |a| {
          SliceOfSlice(rest, 0, k, m, m + 3);
          assert a[m..m + 3] == rest[m..m + 3];
          assert !OccursAt(rest, Fence, m);
        }
      }
      assert a == rest[..k];
    }
  }

  /** The start check is case-sensitive while the detection is not: content
      opening with "<!doctype" is recognised as markup... */
  lemma LowerCaseDoctypeIsMarkup(content: string)
    requires StartsWith(content, "<!doctype")
    ensures LooksLikeDocument(content)
  {
    var lower := Lower(content);
    assert content[..9] == "<!doctype";
    assert lower[..9] == "<!doctype" by {
      forall i | 0 <= i < 9
        ensures lower[i] == content[i]
      {
        assert content[i] == content[..9][i];
      }
    }
    ContainsWitness(lower, "<!doctype", 0);
  }

  /** ...yet is still wrapped in the skeleton. */
  lemma LowerCaseDoctypeIsWrapped(content: string)
    requires StartsWith(content, "<!doctype") && Strip(content) == content
    ensures EnsureDocument(content) == SkeletonHead + content + SkeletonTail
  {
    assert content[..9] == "<!doctype";
    assert !StartsWith(content, "<!DOCTYPE") by {
      assert content[..9][2] != "<!DOCTYPE"[2];
    }
    assert !StartsWith(content, "<html") by {
      assert content[1] == content[..9][1];
      assert content[..5][1] != "<html"[1];
    }
  }

  // ---------------------------------------------------------------------------
  // Environment check
  // ---------------------------------------------------------------------------

  datatype PythonVersion = PythonVersion(major: nat, minor: nat)

  const MinPythonVersion := PythonVersion(3, 8)

  /** `sys.version_info < (3, 8)`: a longer tuple with the same first two fields is not smaller. */
  predicate IsTooOld(v: PythonVersion) {
    v.major < MinPythonVersion.major || (v.major == MinPythonVersion.major && v.minor < MinPythonVersion.minor)
  }

  const OpenAiKey := "OPENAI_API_KEY"
  const SerperKey := "SERPER_API_KEY"
  const RequiredKeys := [OpenAiKey, SerperKey]
  const Placeholders := ["", "your_openai_api_key_here", "your_serper_api_key_here"]

  /** A key is missing when it is unset or empty, or when its stripped value is
      empty or either placeholder. */
  predicate IsMissingKey(env: map<string, string>, key: string) {
    key !in env || env[key] == "" || Strip(env[key]) in Placeholders
  }

  predicate IsSubsequence(xs: seq<string>, ys: seq<string>)
  {
    if |xs| == 0 then true
    else if |ys| == 0 then false
    else if xs[0] == ys[0] then IsSubsequence(xs[1..], ys[1..])
    else IsSubsequence(xs, ys[1..])
  }

  /** The keys among `keys` that are missing, in the order of `keys`. */
  function MissingKeys(env: map<string, string>, keys: seq<string>): (r: seq<string>)
    ensures forall k :: k in r <==> k in keys && IsMissingKey(env, k)
    ensures IsSubsequence(r, keys)
  {
    if |keys| == 0 then []
    else
      var rest := MissingKeys(env, keys[1..]);
      if IsMissingKey(env, keys[0]) then [keys[0]] + rest
      else rest
  }

  /** The issue reported for a Python older than 3.8. */
  function VersionIssue(v: PythonVersion): (issue: string)
    ensures issue != [] && issue[0] == 'P'
  {
    "Python version " + NatToString(v.major) + "." + NatToString(v.minor)
    + " is too old (need " + NatToString(MinPythonVersion.major) + "."
    + NatToString(MinPythonVersion.minor) + "+)"
  }

  /** The issue reported for missing keys, which are listed comma-separated. */
  function MissingKeysIssue(missing: seq<string>): (issue: string)
    ensures issue != [] && issue[0] == 'M'
  {
    "Missing API keys: " + Join(", ", missing)
  }

  /** `check_environment()`: the list of issues and whether it is empty. The
      version issue, if any, comes first and the missing keys issue, if any,
      last. */
  function CheckEnvironment(version: PythonVersion, env: map<string, string>): (result: (bool, seq<string>))
    ensures result.0 <==> result.1 == []
    ensures result.0 <==> !IsTooOld(version) && forall k | k in RequiredKeys :: !IsMissingKey(env, k)
    ensures |result.1| == (if IsTooOld(version) then 1 else 0) + (if MissingKeys(env, RequiredKeys) != [] then 1 else 0)
    ensures IsTooOld(version) <==> |result.1| > 0 && result.1[0] == VersionIssue(version)
    ensures MissingKeys(env, RequiredKeys) != [] <==>
      |result.1| > 0 && result.1[|result.1| - 1] == MissingKeysIssue(MissingKeys(env, RequiredKeys))
  {
    var versionIssues := if IsTooOld(version) then [VersionIssue(version)] else [];
    var missing := MissingKeys(env, RequiredKeys);
    var issues := versionIssues + (if missing != [] then [MissingKeysIssue(missing)] else []);
    (|issues| == 0, issues)
  }

  /** Both keys missing are reported OpenAI first, then Serper. */
  lemma MissingKeysInOrder(env: map<string, string>)
    requires IsMissingKey(env, OpenAiKey) && IsMissingKey(env, SerperKey)
    ensures MissingKeys(env, RequiredKeys) == [OpenAiKey, SerperKey]
  {
    var r := MissingKeys(env, RequiredKeys);
    assert OpenAiKey in r && SerperKey in r;
  }
}
