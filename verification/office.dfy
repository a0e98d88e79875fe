/**
 * `extractOfficeMetadata`: legacy OLE documents (.doc/.xls/.ppt) get a
 * printable-text salvage; Office Open XML containers (.docx/.xlsx/.pptx) have
 * their raw bytes scraped for document-property tags and, for .docx, run
 * text. The container is never decompressed: only parts stored uncompressed
 * can match.
 */
module OfficeSniffer {
  import opened Optional
  import opened Files
  import opened Text

  const OleExts: seq<string> := [".doc", ".xls", ".ppt"]

  /** Properties found in an Office file; every field is optional. */
  datatype OfficeInfo = OfficeInfo(
    content: Option<string>,
    title: Option<string>,
    subject: Option<string>,
    author: Option<string>,
    description: Option<string>,
    keywords: Option<string>)

  const NoOfficeInfo := OfficeInfo(None, None, None, None, None, None)

  // ---------------------------------------------------------------------------
  // Legacy OLE salvage

  /** Characters the salvage keeps: printable ASCII and line feed. */
  predicate OleChar(c: char) {
    (0x20 <= c as int <= 0x7E) || c == '\n'
  }

  /** Printable ASCII other than space: what survives the salvage as visible text. */
  predicate Graphic(c: char) {
    0x21 <= c as int <= 0x7E
  }

  /** The first salvage pass: every character outside printable ASCII and line
      feed becomes a space, one for one. */
  function Scrub(s: string): (r: string)
    ensures |r| == |s|
    ensures forall i :: 0 <= i < |s| ==> r[i] == if OleChar(s[i]) then s[i] else ' '
    ensures forall i :: 0 <= i < |s| ==> OleChar(r[i])
  {
    if s == [] then [] else [if OleChar(s[0]) then s[0] else ' '] + Scrub(s[1..])
  }

  /** The graphic characters of `s`, in order. */
  function GraphicChars(s: string): string
  {
    if s == [] then [] else (if Graphic(s[0]) then [s[0]] else []) + GraphicChars(s[1..])
  }

  lemma {:induction false} ScrubVisible(s: string)
    ensures Visible(Scrub(s)) == GraphicChars(s)
  {
    if s != [] {
      ScrubVisible(s[1..]);
      var c := if OleChar(s[0]) then s[0] else ' ';
      assert Scrub(s)[0] == c && Scrub(s)[1..] == Scrub(s[1..]);
      assert !IsWs(c) <==> Graphic(s[0]);
    }
  }

  /** The salvaged text: the scrubbed characters with every whitespace run of
      three or more cut to two spaces, then trimmed. */
  function OleText(s: string): (r: string)
    ensures forall i :: 0 <= i < |r| ==> OleChar(r[i])
    ensures NoWsRun(r, 3)
    ensures r != [] ==> !IsWs(r[0]) && !IsWs(r[|r| - 1])
    ensures Visible(r) == GraphicChars(s)
  {
    var scrubbed := Scrub(s);
    var collapsed := Collapse(scrubbed, 3, "  ");
    CollapseCharset(scrubbed, 3, "  ", OleChar);
    CollapseBoundsRuns(scrubbed, 3, "  ", 3);
    CollapseVisible(scrubbed, 3, "  ");
    ScrubVisible(s);
    TrimVisible(collapsed);
    TrimNoWsRun(collapsed, 3);
    TrimCharset(collapsed, OleChar);
    Trim(collapsed)
  }

  /** The OLE path: the first 1500 characters of the salvaged text when it is
      longer than 20 characters, otherwise nothing. */
  function ExtractOle(s: string): (r: Option<string>)
    ensures r.Some? <==> |OleText(s)| > 20
    ensures r.Some? ==> r.value == Take(OleText(s), 1500)
    ensures r.Some? ==> 20 < |r.value| <= 1500 && r.value <= OleText(s)
    ensures r.Some? ==> forall i :: 0 <= i < |r.value| ==> OleChar(r.value[i])
    ensures r.Some? ==> NoWsRun(r.value, 3) && !IsWs(r.value[0])
  {
    var text := OleText(s);
    if |text| > 20 then
      TakeNoWsRun(text, 3, 1500);
      Some(Take(text, 1500))
    else None
  }

  // ---------------------------------------------------------------------------
  // Office Open XML tag scraping

  /** `.` in a JavaScript regular expression does not match these (the other
      two line terminators lie outside latin-1). */
  predicate IsLineBreak(c: char) {
    c == '\n' || c == '\r'
  }

  predicate NoBreakIn(s: string, a: int, b: int) {
    forall k :: a <= k < b && 0 <= k < |s| ==> !IsLineBreak(s[k])
  }

  /** Where a lazy `(.*?)` started at `j` stops in front of `close`: the first
      index with `close` there, unless a line break comes first. */
  function LazyClose(s: string, j: nat, close: string): (m: Option<nat>)
    requires j <= |s|
    ensures m.Some? ==> j <= m.value <= |s| && At(s, m.value, close) && NoBreakIn(s, j, m.value)
    ensures m.Some? ==> forall m' :: j <= m' < m.value ==> !At(s, m', close)
    ensures m.None? ==> forall m' :: j <= m' <= |s| && NoBreakIn(s, j, m') ==> !At(s, m', close)
    decreases |s| - j
  {
    if At(s, j, close) then Some(j)
    else if j == |s| || IsLineBreak(s[j]) then None
    else LazyClose(s, j + 1, close)
  }

  /** `open` at `i`, `close` at `m`, nothing but non-line-break characters in
      between: one way for `open(.*?)close` to match. */
  predicate TagPair(s: string, open: string, close: string, i: int, m: int) {
    At(s, i, open) && i + |open| <= m <= |s| && At(s, m, close) && NoBreakIn(s, i + |open|, m)
  }

  /** Index of the close tag of the match starting at `i`, if one does. */
  function TagMatchAt(s: string, i: int, open: string, close: string): (m: Option<nat>)
    ensures m.Some? ==> TagPair(s, open, close, i, m.value)
    ensures m.Some? ==> forall m' :: m' < m.value ==> !TagPair(s, open, close, i, m')
    ensures m.None? ==> forall m' :: !TagPair(s, open, close, i, m')
  {
    if At(s, i, open) then LazyClose(s, i + |open|, close) else None
  }

  /** Start of the leftmost match at or after `from`. */
  function NextTag(s: string, from: nat, open: string, close: string): (r: Option<nat>)
    ensures r.Some? ==> from <= r.value && TagMatchAt(s, r.value, open, close).Some?
    ensures r.Some? ==> forall i :: from <= i < r.value ==> TagMatchAt(s, i, open, close).None?
    ensures r.None? ==> forall i :: from <= i ==> TagMatchAt(s, i, open, close).None?
    decreases |s| + 1 - from
  {
    if from > |s| then None
    else if TagMatchAt(s, from, open, close).Some? then Some(from)
    else NextTag(s, from + 1, open, close)
  }

  /** The captured text of the first match of `open`, a lazy any-character
      group, then `close`: the text between the tags of the match that starts
      leftmost and, from there, ends soonest. */
  function FirstTag(s: string, open: string, close: string): (r: Option<string>)
    ensures r.None? <==> forall i, m :: !TagPair(s, open, close, i, m)
    ensures r.Some? ==> exists i, m :: (TagPair(s, open, close, i, m) && r.value == s[i + |open|..m]
      && forall i', m' :: TagPair(s, open, close, i', m') ==> i < i' || (i == i' && m <= m'))
  {
    match NextTag(s, 0, open, close)
    case None =>
      forall i, m
        ensures !TagPair(s, open, close, i, m)
      {
        assert TagMatchAt(s, i, open, close).None?;
      }
      None
    case Some(i) =>
      var m := TagMatchAt(s, i, open, close).value;
      assert forall i', m' :: TagPair(s, open, close, i', m') ==> i < i' || (i == i' && m <= m') by {
        forall i', m' | TagPair(s, open, close, i', m')
          ensures i < i' || (i == i' && m <= m')
        {
          assert TagMatchAt(s, i', open, close).Some?;
        }
      }
      assert TagPair(s, open, close, i, m);
      Some(s[i + |open|..m])
  }

  /** A property field: the first tag pair's text cut to `cap` characters. */
  function Property(s: string, open: string, close: string, cap: nat): (r: Option<string>)
    ensures r.Some? <==> exists i, m :: TagPair(s, open, close, i, m)
    ensures r.Some? ==> r.value == Take(FirstTag(s, open, close).value, cap)
    ensures r.Some? ==> |r.value| <= cap && r.value <= FirstTag(s, open, close).value
  {
    match FirstTag(s, open, close)
    case None => None
    case Some(v) => Some(Take(v, cap))
  }

  // ---------------------------------------------------------------------------
  // .docx run text: every `<w:t` element's opening tag, then its text up to
  // the closing `</w:t>` on the same line

  /** One way for the run-text pattern to match at `i` with the text spanning
      `a` to `b`: `<w:t` at `i`, the tag's attributes (any characters but `>`,
      line breaks included), the `>` just before `a`, then non-line-break
      characters up to a `</w:t>` at `b`. */
  predicate RunTextMatch(s: string, i: int, a: int, b: int) {
    At(s, i, "<w:t") && i + 5 <= a && At(s, a - 1, ">") && (forall k :: i + 4 <= k < a - 1 ==> !At(s, k, ">"))
    && a <= b && At(s, b, "</w:t>") && NoBreakIn(s, a, b)
  }

  /** The run-text match at `i`: start of its text and index of `</w:t>`.
      The attributes run to the first `>`, since they cannot contain one; the
      text is the shortest that reaches a `</w:t>`, and there is no match when
      a line break comes first. */
  function RunTextAt(s: string, i: nat): (r: Option<(nat, nat)>)
    ensures r.Some? ==> RunTextMatch(s, i, r.value.0, r.value.1)
    ensures r.Some? ==> forall b :: b < r.value.1 ==> !RunTextMatch(s, i, r.value.0, b)
    ensures r.Some? ==> forall a, b :: RunTextMatch(s, i, a, b) ==> a == r.value.0
    ensures r.None? ==> forall a, b :: !RunTextMatch(s, i, a, b)
    ensures r.Some? ==> i + 5 <= r.value.0 <= r.value.1 && r.value.1 + 6 <= |s|
  {
    if At(s, i, "<w:t") then
      match FindFrom(s, ">", i + 4)
      case None => None
      case Some(g) =>
        match LazyClose(s, g + 1, "</w:t>")
        case None => None
        case Some(m) => Some((g + 1, m))
    else None
  }

  function NextRunText(s: string, from: nat): (r: Option<nat>)
    ensures r.Some? ==> from <= r.value && RunTextAt(s, r.value).Some?
    ensures r.Some? ==> forall i :: from <= i < r.value ==> RunTextAt(s, i).None?
    ensures r.None? ==> forall i :: from <= i ==> RunTextAt(s, i).None?
    decreases |s| - from
  {
    if from >= |s| then None
    else if RunTextAt(s, from).Some? then Some(from)
    else NextRunText(s, from + 1)
  }

  /** The next run text at or after `from`, and where the scan resumes. */
  function NextRunStep(s: string, from: nat): (r: Option<(string, nat)>)
    ensures r.Some? ==> from < r.value.1 <= |s|
  {
    match NextRunText(s, from)
    case None => None
    case Some(i) =>
      var p := RunTextAt(s, i).value;
      Some((s[p.0..p.1], p.1 + 6))
  }

  /** Every run text of the document, in order (no budget). */
  function AllRunTexts(s: string, from: nat): (texts: seq<string>)
    ensures texts == [] <==> NextRunText(s, from).None?
    ensures texts != [] ==> var p := RunTextAt(s, NextRunText(s, from).value).value;
      texts[0] == s[p.0..p.1]
    decreases |s| - from
  {
    match NextRunStep(s, from)
    case None => []
    case Some((x, next)) => [x] + AllRunTexts(s, next)
  }

  /** The source's loop: run texts are collected while their space-joined
      length is below 1500. */
  function CollectRunTexts(s: string, from: nat, acc: seq<string>): (texts: seq<string>)
    ensures acc <= texts
    ensures |texts| - |acc| <= |AllRunTexts(s, from)|
    ensures texts == acc + AllRunTexts(s, from)[..|texts| - |acc|]
    decreases |s| - from
  {
    match NextRunStep(s, from)
    case None => acc
    case Some((x, next)) =>
      if |Join(acc, " ")| < 1500 then
        var texts := CollectRunTexts(s, next, acc + [x]);
        PrefixCons(acc, x, AllRunTexts(s, next), |texts| - |acc| - 1);
        texts
      else acc
  }

  /** Taking `n + 1` items of `[x] + rest` after `acc` is `acc + [x]` then `n` items of `rest`. */
  lemma PrefixCons<T>(acc: seq<T>, x: T, rest: seq<T>, n: nat)
    requires n <= |rest|
    ensures acc + [x] + rest[..n] == acc + ([x] + rest)[..n + 1]
  {
    assert ([x] + rest)[..n + 1] == [x] + rest[..n];
  }

  lemma TakeOfExtension(a: string, b: string, n: nat)
    requires a <= b && |a| >= n
    ensures Take(a, n) == Take(b, n)
  {
    assert a[..n] == b[..n];
  }

  /** The budget only stops the loop once 1500 characters are in hand, so the
      kept prefix is that of all run texts joined. */
  lemma {:induction false} BudgetInvisible(s: string, from: nat, acc: seq<string>)
    ensures Take(Join(CollectRunTexts(s, from, acc), " "), 1500) == Take(Join(acc + AllRunTexts(s, from), " "), 1500)
    decreases |s| - from
  {
    match NextRunStep(s, from)
    case None =>
      assert acc + [] == acc;
    case Some((x, next)) =>
      if |Join(acc, " ")| < 1500 {
        var acc' := acc + [x];
        var rest := AllRunTexts(s, next);
        assert CollectRunTexts(s, from, acc) == CollectRunTexts(s, next, acc');
        assert AllRunTexts(s, from) == [x] + rest;
        BudgetInvisible(s, next, acc');
        AppendShift(acc, x, rest);
      } else {
        BudgetReached(acc, AllRunTexts(s, from));
      }
  }

  /** The loop collects nothing only when there is nothing to collect. */
  lemma {:induction false} CollectEmpty(s: string, from: nat, acc: seq<string>)
    ensures CollectRunTexts(s, from, acc) == [] <==> acc == [] && AllRunTexts(s, from) == []
    decreases |s| - from
  {
    match NextRunStep(s, from)
    case None =>
    case Some((x, next)) =>
      if |Join(acc, " ")| < 1500 {
        CollectEmpty(s, next, acc + [x]);
      }
  }

  lemma AppendShift<T>(a: seq<T>, x: T, b: seq<T>)
    ensures (a + [x]) + b == a + ([x] + b)
  {
  }

  lemma BudgetReached(acc: seq<string>, more: seq<string>)
    requires |Join(acc, " ")| >= 1500
    ensures Take(Join(acc, " "), 1500) == Take(Join(acc + more, " "), 1500)
  {
    JoinPrefix(acc, more, " ");
    TakeOfExtension(Join(acc, " "), Join(acc + more, " "), 1500);
  }

  /** The `.docx` body text: the first 1500 characters of the space-joined run
      texts, absent when there is none. */
  function DocxContent(s: string): (r: Option<string>)
    ensures r.Some? <==> AllRunTexts(s, 0) != []
    ensures r.Some? ==> r.value == Take(Join(AllRunTexts(s, 0), " "), 1500)
    ensures r.Some? ==> |r.value| <= 1500
  {
    var texts := CollectRunTexts(s, 0, []);
    BudgetInvisible(s, 0, []);
    CollectEmpty(s, 0, []);
    assert [] + AllRunTexts(s, 0) == AllRunTexts(s, 0);
    if texts != [] then Some(Take(Join(texts, " "), 1500)) else None
  }

  /** Some pair of `open` and `close` tags matches. */
  ghost predicate HasTag(s: string, open: string, close: string) {
    exists i, m :: TagPair(s, open, close, i, m)
  }

  /** The Open XML path; `null` when no field was found. */
  function ExtractOoxml(s: string, isDocx: bool): (r: Option<OfficeInfo>)
    ensures r.Some? ==> r.value.title == Property(s, "<dc:title>", "</dc:title>", 200)
    ensures r.Some? ==> r.value.subject == Property(s, "<dc:subject>", "</dc:subject>", 200)
    ensures r.Some? ==> r.value.author == Property(s, "<dc:creator>", "</dc:creator>", 100)
    ensures r.Some? ==> r.value.description == Property(s, "<dc:description>", "</dc:description>", 300)
    ensures r.Some? ==> r.value.keywords == Property(s, "<cp:keywords>", "</cp:keywords>", 200)
    ensures r.Some? ==> r.value.content == if isDocx then DocxContent(s) else None
    ensures r.None? <==> (!isDocx || AllRunTexts(s, 0) == [])
                         && !HasTag(s, "<dc:title>", "</dc:title>") && !HasTag(s, "<dc:subject>", "</dc:subject>")
                         && !HasTag(s, "<dc:creator>", "</dc:creator>")
                         && !HasTag(s, "<dc:description>", "</dc:description>")
                         && !HasTag(s, "<cp:keywords>", "</cp:keywords>")
    ensures r.Some? ==> r.value != NoOfficeInfo
    ensures r.Some? ==> (r.value.content.Some? <==> isDocx && AllRunTexts(s, 0) != [])
    ensures r.Some? ==> (r.value.title.Some? <==> HasTag(s, "<dc:title>", "</dc:title>"))
    ensures r.Some? ==> (r.value.subject.Some? <==> HasTag(s, "<dc:subject>", "</dc:subject>"))
    ensures r.Some? ==> (r.value.author.Some? <==> HasTag(s, "<dc:creator>", "</dc:creator>"))
    ensures r.Some? ==> (r.value.description.Some? <==> HasTag(s, "<dc:description>", "</dc:description>"))
    ensures r.Some? ==> (r.value.keywords.Some? <==> HasTag(s, "<cp:keywords>", "</cp:keywords>"))
    ensures r.Some? && r.value.content.Some? ==> r.value.content == DocxContent(s)
    ensures r.Some? && r.value.title.Some? ==> |r.value.title.value| <= 200
    ensures r.Some? && r.value.subject.Some? ==> |r.value.subject.value| <= 200
    ensures r.Some? && r.value.author.Some? ==> |r.value.author.value| <= 100
    ensures r.Some? && r.value.description.Some? ==> |r.value.description.value| <= 300
    ensures r.Some? && r.value.keywords.Some? ==> |r.value.keywords.value| <= 200
  {
    var info := OfficeInfo(
      if isDocx then DocxContent(s) else None,
      Property(s, "<dc:title>", "</dc:title>", 200),
      Property(s, "<dc:subject>", "</dc:subject>", 200),
      Property(s, "<dc:creator>", "</dc:creator>", 100),
      Property(s, "<dc:description>", "</dc:description>", 300),
      Property(s, "<cp:keywords>", "</cp:keywords>", 200));
    if info == NoOfficeInfo then None else Some(info)
  }

  /** `extractOfficeMetadata`: an unreadable file, or one too large to decode
      into a single string, yields `null` (the source swallows the error). */
  function ExtractOffice(f: FileRead, ext: string): (r: Option<OfficeInfo>)
    ensures f.Unreadable? ==> r.None?
    ensures f.Read? && !FitsInString(f.bytes) ==> r.None?
    ensures f.Read? && FitsInString(f.bytes) && ext in OleExts ==>
      r == (if ExtractOle(Latin1(f.bytes)).Some? then Some(NoOfficeInfo.(content := ExtractOle(Latin1(f.bytes)))) else None)
    ensures f.Read? && FitsInString(f.bytes) && ext !in OleExts ==> r == ExtractOoxml(Latin1(f.bytes), ext == ".docx")
    ensures r.Some? ==> r.value != NoOfficeInfo
    ensures r.Some? && ext in OleExts ==> r.value == NoOfficeInfo.(content := r.value.content)
    ensures r.Some? && r.value.content.Some? ==> |r.value.content.value| <= 1500
  {
    match f
    case Unreadable(_) => None
    case Read(bytes) =>
      var s := Latin1(bytes);
      if !FitsInString(bytes) then None
      else if ext in OleExts then
        match ExtractOle(s)
        case None => None
        case Some(c) => Some(NoOfficeInfo.(content := Some(c)))
      else ExtractOoxml(s, ext == ".docx")
  }

  /** When a pair matches at the very start, the first tag's text ends at
      the first close tag. */
  lemma FirstTagAtStart(s: string, open: string, close: string, m: nat)
    requires TagPair(s, open, close, 0, m)
    requires forall m' :: |open| <= m' < m ==> !At(s, m', close)
    ensures FirstTag(s, open, close) == Some(s[|open|..m])
  {
    var i, m0 :| TagPair(s, open, close, i, m0) && FirstTag(s, open, close).value == s[i + |open|..m0]
      && forall i', m' :: TagPair(s, open, close, i', m') ==> i < i' || (i == i' && m0 <= m');
    assert TagPair(s, open, close, i, m0);
    assert At(s, i, open);
    assert 0 <= i;
    assert i < 0 || (i == 0 && m0 <= m);
    assert |open| <= m0 && At(s, m0, close);
    assert i == 0 && m0 == m;
  }

  /** A title element on one line gives its text. */
  lemma TitleExample(s: string)
    requires s == "<dc:title>Report</dc:title>"
    ensures Property(s, "<dc:title>", "</dc:title>", 200) == Some("Report")
  {
    var open, close := "<dc:title>", "</dc:title>";
    assert s[0..10] == open && s[16..27] == close;
    assert TagPair(s, open, close, 0, 16);
    assert s[10..16] == "Report";
    forall m' | 10 <= m' < 16
      ensures !At(s, m', close)
    {
      assert s[m'] == s[10..16][m' - 10] != '<';
      assert s[m'..m' + 11][0] == s[m'];
    }
    FirstTagAtStart(s, open, close, 16);
  }
}
