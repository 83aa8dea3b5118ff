# Bitcoin analyzer report pipeline: a Dafny model of its string logic

The repository runs a set of LLM agents that write a Bitcoin market report,
saves the website agent's answer as an HTML page (`index.html`) and serves a
small Flask endpoint, `POST /send-report`, that e-mails a plain-text version of
that page. Around the agents and the web plumbing sit a few deterministic
string routines. This project models them and proves what they promise:

- `py_strings.dfy` (module `PyStrings`): the parts of Python's `str` the
  routines use: `isspace`/`strip`, `splitlines`, `split`, `join`, `replace`,
  `find`/`in`, `startswith` and ASCII `lower`.
- `text_cleanup.dfy` (module `TextCleanup`): the whitespace cleanup both files
  apply to scraped text. Lines are stripped and split on double spaces, the
  phrases are stripped, and empty ones are dropped.
- `bitcoin_analyzer.dfy` (module `BitcoinAnalyzer`): the 5000-character website
  text, the extraction of an HTML document from the agent's markdown answer
  (`_save_html_output`), and `check_environment`.
- `email_api.dfy` (module `EmailApi`): `extract_text_from_html`'s cleanup and
  newline collapse, the recipient address pattern, `format_professional_report`
  (whole-word slang replacement, then emoji removal), and the ordered guard
  checks of `send_report`.

I/O is turned into parameters:
- the page text that BeautifulSoup would produce is an input string (None when
  reading fails);
- the environment is a `map<string, string>`;
- whether `index.html` exists is a boolean;
- the outcome of the SMTP exchange is an optional error message;
- the interpreter version is a `PythonVersion` value.

## Model

| member | source | states |
|---|---|---|
| PyStrings.Find | bitcoin_analyzer.py:522 | `s.find(p)`: the index returned is an occurrence and no earlier index is one; None exactly when `p` does not occur |
| PyStrings.FindIsFirst | bitcoin_analyzer.py:522 | the first occurrence is what Find returns |
| PyStrings.Split | bitcoin_analyzer.py:526 | `s.split(sep)` gives at least one piece, two or more exactly when `sep` occurs; no piece contains `sep`; every piece's characters come from `s` |
| PyStrings.SplitJoin | bitcoin_analyzer.py:526 | joining the pieces of `split(sep)` with `sep` gives the string back |
| PyStrings.SplitIsLeftmost | bitcoin_analyzer.py:523 | every cut is at the first occurrence of `sep` in the text still to be split: no `sep` begins inside a piece that a separator follows |
| PyStrings.LeftmostSplitIsSplit | bitcoin_analyzer.py:523 | conversely, any pieces that join back to `s`, with no `sep` in the last piece and none beginning inside the others, are exactly `split(sep)`: Split is the unique leftmost splitting |
| PyStrings.Join | bitcoin_analyzer.py:121 | `sep.join(xs)`: the items with `sep` between neighbours; its properties are stated by SplitJoin, JoinEnds and JoinHasNoDoubledSeparator |
| PyStrings.Replace | bitcoin_analyzer.py:543 | `s.replace(target, replacement)`, scanning left to right over non-overlapping occurrences; its behaviour is stated by ReplaceAbsent and ReplaceAtFirst |
| PyStrings.ReplaceAbsent | bitcoin_analyzer.py:543 | replacing a target that does not occur leaves the text unchanged |
| PyStrings.ReplaceAtFirst | bitcoin_analyzer.py:543 | at the first occurrence of the target, the text before it is copied, the occurrence becomes the replacement, and the text after it is processed in turn |
| PyStrings.LeadingSpaces | bitcoin_analyzer.py:119 | the leading run of whitespace is all whitespace and is followed by a non-whitespace character or the end |
| PyStrings.TrimmedLength | bitcoin_analyzer.py:119 | the trailing run of whitespace is all whitespace and is preceded by a non-whitespace character or the start |
| PyStrings.Strip | bitcoin_analyzer.py:119 | `strip()` neither begins nor ends with whitespace, is empty exactly when the input is all whitespace, and holds only characters of the input |
| PyStrings.StripRemovesOnlyOuterSpace | bitcoin_analyzer.py:119 | `strip()` is the slice of the input after its leading whitespace, and every character outside that slice is whitespace |
| PyStrings.StripContains | bitcoin_analyzer.py:119-120 | anything that occurs in the stripped text occurs in the original |
| PyStrings.StripIdempotent | bitcoin_analyzer.py:543 | stripping twice is stripping once |
| PyStrings.FirstLineBreak | bitcoin_analyzer.py:119 | the first line boundary, with none before it; None when there is no boundary |
| PyStrings.SplitLines | bitcoin_analyzer.py:119 | no line produced by `splitlines()` holds a line boundary; SplitLinesKeepsText and SplitLinesIsSplitOnNewline fix the lines themselves |
| PyStrings.SplitLinesKeepsText | bitcoin_analyzer.py:119 | the lines put back together are the input with its line boundary characters taken out: `splitlines()` drops the boundaries and nothing else |
| PyStrings.BreaksAsNewlines | bitcoin_analyzer.py:119 | the text with every line boundary, "\r\n" counted as one, written as "\n"; BreaksAsNewlinesAtFirst states how it treats the first boundary |
| PyStrings.BreaksAsNewlinesAtFirst | bitcoin_analyzer.py:119 | the text before the first boundary is kept, that boundary becomes one "\n" and the rest is treated in turn |
| PyStrings.SplitLinesRejoin | bitcoin_analyzer.py:119 | the lines joined with "\n", plus one "\n" when the text ends with a boundary, give the text with every boundary written as "\n": the lines and the cuts between them are exactly the text's boundaries |
| PyStrings.SplitLinesIsSplitOnNewline | bitcoin_analyzer.py:119 | for non-empty text, `splitlines()` equals `split("\n")` of the text with boundaries written as "\n" and one final boundary removed; with LeftmostSplitIsSplit this fixes how many lines there are, empty ones included, and where each one is cut |
| PyStrings.DropSpaces | bitcoin_analyzer.py:119-121 | the text without its whitespace, the part of a text the cleanup must keep; StripKeepsText, JoinKeepsText and SplitKeepsText state how it relates to the string operations |
| PyStrings.StripKeepsText | bitcoin_analyzer.py:119-120 | `strip()` removes whitespace and nothing else |
| PyStrings.DropSpacesAfterLineBreaks | bitcoin_analyzer.py:119 | dropping line boundaries first changes nothing once the whitespace is dropped |
| PyStrings.JoinKeepsText | bitcoin_analyzer.py:121 | joining with a separator made of whitespace adds whitespace only |
| PyStrings.SplitKeepsText | bitcoin_analyzer.py:120 | splitting on a separator made of whitespace loses whitespace only |
| PyStrings.Lower | bitcoin_analyzer.py:528 | `lower()` keeps the length and lowercases each ASCII letter in place |
| PyStrings.LineBreakIsSpace | bitcoin_analyzer.py:119 | every line boundary is also whitespace |
| TextCleanup.StrippedPhrasesAreClean | bitcoin_analyzer.py:120-121 | stripping phrases that have no double space and no line break and dropping empty ones leaves only clean chunks: non-empty, no whitespace at either end, no double space, no line break |
| TextCleanup.LineChunksAreClean | bitcoin_analyzer.py:120-121 | the chunks of one line are clean |
| TextCleanup.ChunksOfLinesAreClean | bitcoin_analyzer.py:119-121 | the chunks of any list of lines without line breaks are clean |
| TextCleanup.ChunksAreClean | email_api.py:37-39 | every chunk of any scraped text is clean |
| TextCleanup.JoinEnds | bitcoin_analyzer.py:121 | a join of non-empty items begins with the first item's first character and ends with the last item's last character |
| TextCleanup.JoinHasNoDoubledSeparator | bitcoin_analyzer.py:121 | joining items that neither contain, begin nor end with the separator character never puts two separators side by side |
| TextCleanup.NonEmptyStripped | bitcoin_analyzer.py:120-121 | `phrase.strip()` of each phrase, keeping only the non-empty results; StrippedPhrasesAreClean states what it yields and NonEmptyStrippedKeepsText that it keeps every non-whitespace character |
| TextCleanup.LineChunks | bitcoin_analyzer.py:120-121 | the chunks of one stripped line: its pieces between double spaces, stripped, empty ones dropped; LineChunksAreClean states what it yields and LineChunksKeepText that it keeps every non-whitespace character |
| TextCleanup.ChunksOfLines | bitcoin_analyzer.py:120 | the chunks of each line in turn, in line order; ChunksOfLinesAreClean and ChunksOfLinesKeepText state what it yields |
| TextCleanup.Chunks | email_api.py:37-39 | the chunks of all lines of the text, in order; ChunksAreClean states what it yields and ChunksKeepText that nothing but whitespace is lost |
| TextCleanup.NonEmptyStrippedKeepsText | bitcoin_analyzer.py:120-121 | stripping the phrases and dropping the empty ones keeps every non-whitespace character, in order |
| TextCleanup.LineChunksKeepText | bitcoin_analyzer.py:120-121 | the chunks of a line, put together, hold every non-whitespace character of the line, in order, and nothing else |
| TextCleanup.ChunksOfLinesKeepText | bitcoin_analyzer.py:120-121 | the same for a list of lines |
| TextCleanup.ChunksKeepText | email_api.py:37-39 | the chunks of any text, put together, hold every non-whitespace character of it, in order, and nothing else: the cleanup removes whitespace only |
| BitcoinAnalyzer.CleanWebText | bitcoin_analyzer.py:119-121 | the chunks joined with single spaces; CleanWebTextShape states its shape and CleanWebTextKeepsText its content |
| BitcoinAnalyzer.CleanWebTextKeepsText | bitcoin_analyzer.py:119-121 | the cleaned web text holds every non-whitespace character of the page text, in order, and nothing else: only whitespace changes |
| BitcoinAnalyzer.CleanWebTextShape | bitcoin_analyzer.py:119-121 | the cleaned web text has no two spaces in a row and neither begins nor ends with whitespace |
| BitcoinAnalyzer.WebsiteText | bitcoin_analyzer.py:119-123 | the returned text is the cleaned text when that is 5000 characters or fewer and its first 5000 characters otherwise; it has no double space and does not begin with whitespace |
| BitcoinAnalyzer.FirstWhere | bitcoin_analyzer.py:527-530 | the `for ... break` search: the index found satisfies the test and no earlier part does; None when no part does |
| BitcoinAnalyzer.FirstWhereFinds | bitcoin_analyzer.py:527-530 | a part that satisfies the test with none before it is the one found |
| BitcoinAnalyzer.LooksLikeDocument | bitcoin_analyzer.py:528 | the lower-cased part mentions `<html`, `<!doctype` or `<body` |
| BitcoinAnalyzer.LooksLikeLongTag | bitcoin_analyzer.py:534 | the stripped part starts with `<` and is longer than 100 characters |
| BitcoinAnalyzer.IsDocumentStart | bitcoin_analyzer.py:546 | the text starts with `<!DOCTYPE` or with `<html`, case-sensitively |
| BitcoinAnalyzer.MarkupIsNotBlank | bitcoin_analyzer.py:528-529 | a part whose lower case mentions `<html`, `<!doctype` or `<body` is not blank once stripped |
| BitcoinAnalyzer.FirstMarkupPart | bitcoin_analyzer.py:527-530 | the first part whose lower case mentions `<html`, `<!doctype` or `<body`, stripped; "" exactly when no part does |
| BitcoinAnalyzer.FirstLongTagPart | bitcoin_analyzer.py:531-536 | the first part that, stripped, starts with `<` and is longer than 100 characters, stripped; "" exactly when no part qualifies |
| BitcoinAnalyzer.FindMarkupPart | bitcoin_analyzer.py:527-530 | the first loop returns FirstMarkupPart of the parts |
| BitcoinAnalyzer.FindLongTagPart | bitcoin_analyzer.py:531-536 | the second loop returns FirstLongTagPart of the parts |
| BitcoinAnalyzer.HtmlFenceHoldsFence | bitcoin_analyzer.py:522-524 | output containing "```html" contains "```" |
| BitcoinAnalyzer.FenceFragment | bitcoin_analyzer.py:523 | the text after the first "```html", cut at the next "```" and stripped; FragmentRunsToNextFence states where it ends |
| BitcoinAnalyzer.SelectedContent | bitcoin_analyzer.py:516-540 | the "```html" fragment when it is non-empty, else the whole stripped output; without "```html" but with "```", the first markup part, else the first long tag part, else the stripped output; with no fence, the stripped output |
| BitcoinAnalyzer.FragmentRunsToNextFence | bitcoin_analyzer.py:522-523 | the "```html" fragment is the text after the first "```html" up to the next "```", stripped, except that it stops at the next "```html" when that "```" overlaps it |
| BitcoinAnalyzer.FirstPieceOfPrefix | bitcoin_analyzer.py:523 | the first "```"-piece of a cut string is the text up to the first "```" when that lies wholly before the cut, and up to the cut otherwise |
| BitcoinAnalyzer.ThreeTicksStartFence | bitcoin_analyzer.py:543 | a string starts with "```" exactly when it starts with three or more backticks |
| BitcoinAnalyzer.RemoveFencesLeadingTicks | bitcoin_analyzer.py:543 | removing every "```" shortens a leading run of backticks to its length modulo 3 |
| BitcoinAnalyzer.RemovingFencesLeavesNone | bitcoin_analyzer.py:543 | after `.replace("```", "")` no "```" is left, even where removal brings backticks together |
| BitcoinAnalyzer.CleanFences | bitcoin_analyzer.py:543 | the cleaned content contains no "```" and is already stripped |
| BitcoinAnalyzer.CleanFencesKeepsPlainContent | bitcoin_analyzer.py:543 | content holding no "```" is only stripped |
| BitcoinAnalyzer.FencedBlockIsUnwrapped | bitcoin_analyzer.py:543 | a block fenced by "```html" and "```" whose body holds no backtick comes out as its stripped body |
| BitcoinAnalyzer.SkeletonShape | bitcoin_analyzer.py:548-558 | the fixed skeleton begins with `<!DOCTYPE`, its head ends with `<body>` and a line break, and its tail begins with a line break and `</body>` |
| BitcoinAnalyzer.SkeletonHasNoBackticks | bitcoin_analyzer.py:548-558 | the skeleton holds no backtick |
| BitcoinAnalyzer.FenceInsideFrame | bitcoin_analyzer.py:548-558 | a "```" in content framed by backtick-free text lies inside the content |
| BitcoinAnalyzer.EnsuredDocumentStarts | bitcoin_analyzer.py:546-558 | stripped content leaves the wrapping step starting with `<!DOCTYPE` or `<html` |
| BitcoinAnalyzer.EnsuredDocumentAddsNoFence | bitcoin_analyzer.py:546-558 | wrapping content without "```" produces no "```" |
| BitcoinAnalyzer.EnsureDocumentFrames | bitcoin_analyzer.py:546-558 | content whose stripped form starts with `<!DOCTYPE` or `<html` is kept as it is; anything else appears verbatim right after `<body>` and a line break and right before a line break and `</body>` |
| BitcoinAnalyzer.EnsureDocument | bitcoin_analyzer.py:546-558 | content whose stripped form starts with neither `<!DOCTYPE` nor `<html` goes into the fixed skeleton; its properties are stated by EnsuredDocumentStarts, EnsuredDocumentAddsNoFence and EnsureDocumentFrames |
| BitcoinAnalyzer.HtmlDocument | bitcoin_analyzer.py:516-558 | the saved document: selection, fence cleanup, then the skeleton check; BuildHtmlDocument states what it holds |
| BitcoinAnalyzer.BuildHtmlDocument | bitcoin_analyzer.py:516-558 | the step-by-step extraction yields HtmlDocument of the output; the document holds no "```" and starts with `<!DOCTYPE` or `<html` |
| BitcoinAnalyzer.LowerCaseDoctypeIsMarkup | bitcoin_analyzer.py:528 | content opening with `<!doctype` is recognised as markup by the case-insensitive test |
| BitcoinAnalyzer.LowerCaseDoctypeIsWrapped | bitcoin_analyzer.py:546 | yet such content is still wrapped in the skeleton, because the start check is case-sensitive |
| BitcoinAnalyzer.MissingKeys | bitcoin_analyzer.py:588-589 | a key is reported exactly when it is required and unset, empty, or stripped to "" or a placeholder; the report keeps the order of the required keys |
| BitcoinAnalyzer.IsMissingKey | bitcoin_analyzer.py:589 | a key is missing when unset or empty, or when its stripped value is "" or one of the two placeholders |
| BitcoinAnalyzer.IsTooOld | bitcoin_analyzer.py:584 | `sys.version_info < (3, 8)`: the major version is below 3, or it is 3 and the minor version is below 8 |
| PyStrings.NatToString | bitcoin_analyzer.py:585 | `str(n)`: a non-empty string of decimal digits whose value, read as a decimal numeral, is `n`, with no leading zero unless `n` is 0, one digit exactly when `n` is below 10 |
| PyStrings.DecimalValue | bitcoin_analyzer.py:585 | the number a string of decimal digits denotes, read most significant digit first; the reference reading of what `str(n)` prints |
| PyStrings.NatToStringOfValue | bitcoin_analyzer.py:585 | reading a numeral without a leading zero and writing the number back gives the same numeral: with the value ensures of NatToString, `str(n)` is the unique decimal spelling of `n` |
| BitcoinAnalyzer.VersionIssue | bitcoin_analyzer.py:584-585 | the version message, which starts with "P" and so cannot be mistaken for the missing keys message |
| BitcoinAnalyzer.MissingKeysIssue | bitcoin_analyzer.py:591-592 | the missing keys message, which starts with "M" |
| BitcoinAnalyzer.CheckEnvironment | bitcoin_analyzer.py:579-594 | `ok` holds exactly when `issues` is empty, exactly when the version is at least 3.8 and no key is missing; there is one issue for an old version plus one for missing keys; the first issue is the version message exactly when the version is too old, and the last names the missing keys exactly when some key is missing |
| BitcoinAnalyzer.MissingKeysInOrder | bitcoin_analyzer.py:588-592 | with both keys missing the report is OPENAI_API_KEY, then SERPER_API_KEY |
| EmailApi.LeadingNewlines | email_api.py:42 | the leading run of line feeds, followed by another character or the end |
| EmailApi.NoTripleAcross | email_api.py:42 | at most two line feeds put before text that does not start with one and has no three in a row give no three in a row |
| EmailApi.CollapseNewlines | email_api.py:42 | `re.sub(r'\n{3,}', '\n\n', s)` never lengthens the text, keeps a first character that is not a line feed, and leaves no three line feeds in a row |
| EmailApi.CollapseKeepsShortRuns | email_api.py:42 | text without three line feeds in a row is unchanged by the substitution |
| EmailApi.CollapseLongRun | email_api.py:42 | a run of three or more line feeds, up to a character that is not one, becomes exactly two line feeds |
| EmailApi.CollapseShortRun | email_api.py:42 | a run of one or two line feeds, up to a character that is not one, is kept |
| EmailApi.CollapseKeepsOtherChars | email_api.py:42 | every character other than a line feed is copied; with the two lemmas above this fixes the result on every input |
| EmailApi.NoCharNoPair | email_api.py:39 | a string without a character has no doubled copy of it |
| EmailApi.CleanReportText | email_api.py:37-39 | the chunks joined with single line feeds; CleanReportTextHasNoBlankLine states its shape and CleanReportTextKeepsText its content |
| EmailApi.CleanReportTextKeepsText | email_api.py:37-39 | the cleaned report text holds every non-whitespace character of the page text, in order, and nothing else: only whitespace changes |
| EmailApi.ReportText | email_api.py:37-42 | the cleaned text after the newline substitution; CollapseIsRedundant shows the substitution changes nothing |
| EmailApi.CleanReportTextHasNoBlankLine | email_api.py:37-39 | the chunks joined with line feeds never contain two line feeds in a row |
| EmailApi.NoBlankLineNoTriple | email_api.py:42 | without two line feeds in a row there are no three |
| EmailApi.CollapseIsRedundant | email_api.py:37-42 | the newline substitution never changes the cleaned text |
| EmailApi.ExtractText | email_api.py:21-47 | None exactly when the page could not be read; otherwise the chunks joined by single line feeds, with no blank line |
| EmailApi.IndexOf | email_api.py:100-101 | the first position of a character, with none before it; None when it is absent |
| EmailApi.LastIndexOf | email_api.py:100-101 | the last position of a character, with none after it; None when it is absent |
| EmailApi.IsAddress | email_api.py:100-101 | the pattern without `$`'s trailing line feed: split at the first `@` and the last `.`, the three parts must be L, D and T; ValidEmailIsPattern states what it accepts |
| EmailApi.IsValidEmail | email_api.py:100-101 | `re.match` of the pattern: an address, optionally followed by one line feed; ValidEmailIsPattern states what it accepts |
| EmailApi.ShapeIsDetermined | email_api.py:100-101 | in an address of the form L@D.T the `@` is the first one and the `.` before T is the last one |
| EmailApi.AddressHasShape | email_api.py:100-101 | an accepted address splits at its first `@` and last `.` into L, D and T |
| EmailApi.ValidEmailIsPattern | email_api.py:100-101 | the address pattern accepts exactly L@D.T, where L is non-empty over `[A-Za-z0-9._%+-]`, D is non-empty over `[A-Za-z0-9.-]` and T is two or more ASCII letters, optionally followed by one line feed |
| EmailApi.OneAtInShape | email_api.py:100-101 | a string of the form L@D.T holds exactly one `@` |
| EmailApi.ValidEmailHasOneAt | email_api.py:100-101 | every accepted address holds exactly one `@` |
| EmailApi.TrailingNewlineAccepted | email_api.py:100-101 | `$` lets one trailing line feed through: "a@b.co\n" is accepted |
| EmailApi.SecondNewlineRejected | email_api.py:100-101 | "a@b.co\n\n" is rejected |
| EmailApi.ShortTopLevelRejected | email_api.py:100-101 | a one-letter top-level part is rejected: "a@b.c" |
| EmailApi.IsConfigured | email_api.py:105-108 | both `GMAIL_EMAIL` and `GMAIL_PASSWORD` are set and non-empty |
| EmailApi.ReplaceWordFrom | email_api.py:74 | `re.sub` of one `\b`-delimited, case-insensitive word, scanning the original text from a position; CopiesUntilMatch (stretches without a match are copied), ReplacesFirstMatch (the first whole-word match is replaced, wherever it stands, and the scan resumes after it) and InsideWordIsNoMatch state its behaviour on every input |
| EmailApi.ReplaceWord | email_api.py:74 | the substitution over the whole text, that is ReplaceWordFrom from the start, so CopiesUntilMatch and ReplacesFirstMatch fix it on every input; NoMatchKeeps, MidSentenceMatchReplaced and MatchingIgnoresCase are instances |
| EmailApi.ApplyRules | email_api.py:73-74 | the rules applied in table order, each to the text the earlier ones produced; RuleStep and RulesKeepPlainText state its behaviour |
| EmailApi.FormatReport | email_api.py:49-87 | the rules, then the emoji filter; PlainTextIsUnchanged and TeaRuleComesFirst state its behaviour |
| EmailApi.CopiesUntilMatch | email_api.py:74 | the substitution copies unchanged every stretch that holds no whole-word match |
| EmailApi.ReplacesFirstMatch | email_api.py:74 | at the first whole-word match from a position on, the text before it is copied, the match becomes the replacement and the scan resumes right after the match, whatever text follows |
| EmailApi.MidSentenceMatchReplaced | email_api.py:69-74 | a match followed by more text is replaced: "tea time" becomes "information time" |
| EmailApi.FoldCase | email_api.py:74 | the case folding of `re.IGNORECASE` onto the lower-case table: ASCII upper case, the Kelvin sign, the long s and the dotted and dotless i map to their lower-case letter |
| EmailApi.IsWordChar | email_api.py:74 | the characters `\w` matches in the model: ASCII letters and digits, `_`, the Latin letters U+00C0 to U+024F except × and ÷, and the Kelvin sign |
| EmailApi.BoundaryAt | email_api.py:74 | `\b`: a word character on exactly one side of the position |
| EmailApi.MatchesAt | email_api.py:74 | the word occurs at the position, ignoring case |
| EmailApi.WholeWordAt | email_api.py:74 | `\bword\b` matches at the position: the word ignoring case, with a boundary at both ends |
| EmailApi.NoMatchKeeps | email_api.py:74 | text without a whole-word match is unchanged by the substitution |
| EmailApi.InsideWordIsNoMatch | email_api.py:74 | a match that starts or ends inside a longer word is not a whole-word match |
| EmailApi.SubwordsAreKept | email_api.py:68-74 | "lit" inside "split" and "tea" inside "steam" are left alone |
| EmailApi.MatchingIgnoresCase | email_api.py:58-74 | matching ignores case: "Vibe Check" becomes "Market Assessment" |
| EmailApi.RemoveEmoji | email_api.py:77-85 | after the filter no character of the six ranges remains, and every remaining character comes from the input |
| EmailApi.IsEmoji | email_api.py:77-84 | a character lies in one of the six code-point ranges of the pattern |
| EmailApi.RemoveEmojiAppend | email_api.py:85 | the filter works character by character: filtering a concatenation concatenates the filtered halves |
| EmailApi.RemoveEmojiKeepsExactly | email_api.py:77-85 | the filter leaves a text unchanged exactly when it holds no character of the ranges |
| EmailApi.RemoveEmojiShorter | email_api.py:85 | the filter never lengthens the text |
| EmailApi.RemoveEmojiIdempotent | email_api.py:77-85 | filtering twice is filtering once |
| EmailApi.FormatProfessionalReport | email_api.py:49-87 | the loop applies the fifteen rules in table order and then the filter, giving FormatReport of the input; no character of the ranges remains |
| EmailApi.RuleStep | email_api.py:73-74 | each pass of the loop applies one more rule to the text the earlier rules produced |
| EmailApi.RulesKeepPlainText | email_api.py:73-74 | rules none of which matches as a whole word leave the text unchanged |
| EmailApi.PlainTextIsUnchanged | email_api.py:52-87 | text with no slang word (as a whole word, ignoring case) and no character of the ranges comes back unchanged |
| EmailApi.AbsentLetter | email_api.py:74 | a word one of whose letters the text lacks in any case has no match in it |
| EmailApi.KeepStep | email_api.py:73-74 | a rule one of whose letters the text lacks leaves the text as it is |
| EmailApi.EarlyRulesKeepSpillLetters | email_api.py:55-67 | none of the first twelve rules changes text made only of the letters of "spill the tea" |
| EmailApi.LitRuleKeepsSpillTheTea | email_api.py:68-74 | the "lit" rule leaves "spill the tea" alone |
| EmailApi.TeaRuleRewritesSpillTheTea | email_api.py:69-74 | the "tea" rule turns "spill the tea" into "spill the information" |
| EmailApi.TeaAtTheEnd | email_api.py:69-74 | the last word of "spill the tea" is a whole-word match of "tea" |
| EmailApi.LastWordReplaced | email_api.py:74 | when the only whole-word match ends the text, the substitution replaces just that word |
| EmailApi.LastRuleFindsNothing | email_api.py:70-74 | the "spill the tea" rule then finds nothing in "spill the information" |
| EmailApi.TeaRuleComesFirst | email_api.py:55-87 | because "tea" comes before "spill the tea" in the table, "spill the tea" comes out as "spill the information" |
| EmailApi.SendReport | email_api.py:89-166 | `success` holds exactly for status 200, and the status is one of 200, 400, 404, 500. Status 200 happens exactly when: the address passes the pattern, both credentials are non-empty, the report exists, the extracted text is non-empty and sending succeeds. Otherwise the first failing check decides the reply, in this order: 400 "Email address is required", 400 "Invalid email format", 500 "Email service not configured", 404 "Report file not found", 500 "Failed to extract report content", and last a 500 reply carrying the sending error's message |

## Left out

- The CrewAI agents, tasks and crew (`analyze`, `kickoff`): configuration of an external LLM pipeline with no local logic.
- The web search request and the HTTP fetch in the website reader: network I/O. The page text is an input of `WebsiteText`.
- BeautifulSoup: `get_text`, removing `script` and `style`, and all of `_add_email_form_and_date`. The cleanup starts from the page text as an input string, so the saved document is modelled up to the point where the form and date are added.
- Reading and writing files, `os.path.exists`, `os.getenv` and `load_dotenv`. They become parameters: a boolean for the report file, a map for the environment, an optional page text.
- Flask routing, CORS, JSON parsing and serialisation, `/health`, the MIME message, the SMTP login and send, and the e-mail body. The SMTP outcome is an optional error message, which gives the 500 reply with that message.
- SendReport: an `email` field that is not a string is not modelled; the field is a string or absent. A falsy non-string (`0`, `false`, `[]`, `{}`) gets the same 400 "Email address is required" as an absent or empty address, which the model covers through `None`. A truthy non-string reaches `re.match`, whose `TypeError` ends in the generic 500 handler; that reply is not modelled. A request body that is not JSON also ends there and is not modelled.
- The embedded JavaScript and CSS strings.
- The import-time Python-version check and `main()`'s printing. `check_environment` takes the version as a parameter.
- Lower: only ASCII letters are lowercased. This is exact for the three needles it is compared with (`<html`, `<!doctype`, `<body`), which are ASCII.
- IsSpace and IsLineBreak list the characters `str.isspace()` and `str.splitlines()` use; Unicode's tables are not encoded beyond that list.
- IsWordChar approximates `\w`: ASCII letters, digits, `_`, the Latin letters U+00C0 to U+024F (minus × and ÷) and the Kelvin sign. Other Unicode letters and digits count as non-word characters.
- FoldCase models `re.IGNORECASE` for the lower-case ASCII slang table: ASCII upper case, the Kelvin sign, the long s, and the dotted and dotless i. Other Unicode case equivalences are not modelled.
- IsEmoji follows the six ranges of the source. The last range, U+24C2 to U+1F251, also covers CJK and Hangul text, which the filter therefore deletes. The model keeps this behaviour as written.
- EnsureDocument has no ensures of its own. Its properties are stated by `EnsuredDocumentStarts`, `EnsuredDocumentAddsNoFence` and `EnsureDocumentFrames`.
- `None` and `""` are both false for `if not html_content`, so the model uses `""` for "no content found yet".
