/**
 * The `deep-scan-file` handler: picks a sniffer by the file's lower-cased
 * extension and gathers what it finds into one metadata record. Only the PDF
 * and text branches let a read error through, as `error`, and the PDF branch
 * also lets through the error of decoding a file too large for one string;
 * the other sniffers swallow theirs.
 *
 * Reading the file is an input (`FileRead`), and so is the UTF-8 decoder used
 * for text files.
 */
module DeepScan {
  import opened Optional
  import opened Files
  import opened Text
  import PdfSniffer
  import OfficeSniffer
  import ExifSniffer
  import PngSniffer

  const OfficeExts: seq<string> := [".docx", ".xlsx", ".pptx", ".doc", ".xls", ".ppt"]

  const TextExts: seq<string> := [".txt", ".md", ".csv", ".json", ".js", ".ts", ".py", ".html", ".css",
    ".java", ".c", ".cpp", ".h", ".rb", ".go", ".rs", ".sh", ".bat", ".ps1", ".xml", ".yaml", ".yml",
    ".ini", ".cfg", ".conf", ".log", ".sql", ".r", ".rtf"]

  const ImageExts: seq<string> := [".jpg", ".jpeg"]

  /** How many leading bytes of a text file are read. */
  const TextHead: nat := 1500

  /** The object the handler returns; a field that was never assigned is
      `None`, and the two screenshot flags are only ever assigned `true`. */
  datatype Meta = Meta(
    content: Option<string>,
    pageEstimate: Option<nat>,
    title: Option<string>,
    subject: Option<string>,
    author: Option<string>,
    description: Option<string>,
    keywords: Option<string>,
    dateTaken: Option<string>,
    camera: Option<string>,
    isScreenshot: bool,
    width: Option<nat>,
    height: Option<nat>,
    likelyScreenshot: bool,
    error: Option<string>)

  const EmptyMeta := Meta(None, None, None, None, None, None, None, None, None, false, None, None, false, None)

  /** Which branch of the handler an extension selects. */
  datatype Kind = Pdf | Office | PlainText | Jpeg | Png | Other

  /** The second and third characters of an extension: enough to tell the
      lists apart. */
  function Key(e: string): (char, char) {
    if |e| >= 3 then (e[1], e[2]) else (' ', ' ')
  }

  predicate OfficeKey(k: (char, char)) {
    k == ('d', 'o') || k == ('x', 'l') || k == ('p', 'p')
  }

  lemma OfficeKeys(e: string)
    requires e in OfficeExts
    ensures OfficeKey(Key(e))
  {
  }

  predicate TextKey(k: (char, char)) {
    !OfficeKey(k) && k != ('j', 'p') && k != ('p', 'd') && k != ('p', 'n')
  }

  lemma TextKeysLow(j: nat)
    requires j < 15
    ensures TextKey(Key(TextExts[j]))
  {
  }

  lemma TextKeysHigh(j: nat)
    requires 15 <= j < |TextExts|
    ensures TextKey(Key(TextExts[j]))
  {
  }

  lemma TextKeys(e: string)
    requires e in TextExts
    ensures TextKey(Key(e))
  {
    var j :| 0 <= j < |TextExts| && TextExts[j] == e;
    if j < 15 {
      TextKeysLow(j);
    } else {
      TextKeysHigh(j);
    }
  }

  lemma ImageKeys(e: string)
    requires e in ImageExts
    ensures Key(e) == ('j', 'p')
  {
  }

  /** No extension belongs to two branches. */
  lemma ExtensionsApart(e: string)
    ensures e in OfficeExts ==> e !in TextExts && e !in ImageExts && e != ".pdf" && e != ".png"
    ensures e in TextExts ==> e !in ImageExts && e != ".pdf" && e != ".png"
    ensures e in ImageExts ==> e != ".pdf" && e != ".png"
  {
    assert e in OfficeExts ==> OfficeKey(Key(e)) by {
      if e in OfficeExts { OfficeKeys(e); }
    }
    assert e in TextExts ==> TextKey(Key(e)) by {
      if e in TextExts { TextKeys(e); }
    }
    assert e in ImageExts ==> Key(e) == ('j', 'p') by {
      if e in ImageExts { ImageKeys(e); }
    }
    assert Key(".pdf") == ('p', 'd') && Key(".png") == ('p', 'n');
  }

  function KindOf(ext: string): (k: Kind)
    ensures k == Pdf <==> ext == ".pdf"
    ensures k == Office <==> ext in OfficeExts
    ensures k == PlainText <==> ext in TextExts
    ensures k == Jpeg <==> ext in ImageExts
    ensures k == Png <==> ext == ".png"
  {
    ExtensionsApart(ext);
    if ext == ".pdf" then Pdf
    else if ext in OfficeExts then Office
    else if ext in TextExts then PlainText
    else if ext in ImageExts then Jpeg
    else if ext == ".png" then Png
    else Other
  }

  /** The text with every NUL character removed. */
  function StripNul(s: string): (r: string)
    ensures '\0' !in r
    ensures |r| <= |s|
    ensures forall c :: c != '\0' ==> multiset(r)[c] == multiset(s)[c]
  {
    if s == [] then []
    else
      var rest := StripNul(s[1..]);
      assert s == [s[0]] + s[1..];
      if s[0] == '\0' then rest else [s[0]] + rest
  }

  lemma {:induction false} StripNulAppend(a: string, b: string)
    ensures StripNul(a + b) == StripNul(a) + StripNul(b)
  {
    if a != [] {
      assert (a + b)[1..] == a[1..] + b;
      StripNulAppend(a[1..], b);
    } else {
      assert a + b == b;
    }
  }

  lemma {:induction false} StripNulClean(s: string)
    requires '\0' !in s
    ensures StripNul(s) == s
  {
    if s != [] {
      StripNulClean(s[1..]);
    }
  }

  /** The text branch: the first 1500 bytes decoded as UTF-8, NULs removed. */
  function TextContent(bytes: seq<Byte>, decodeUtf8: seq<Byte> -> string): (c: string)
    ensures |bytes| <= TextHead ==> c == StripNul(decodeUtf8(bytes))
    ensures |bytes| > TextHead ==> c == StripNul(decodeUtf8(bytes[..TextHead]))
    ensures '\0' !in c
  {
    StripNul(decodeUtf8(Take(bytes, TextHead)))
  }

  /** Bytes past the first 1500 never reach the text content. */
  lemma TextReadsHeadOnly(bytes: seq<Byte>, tail: seq<Byte>, decodeUtf8: seq<Byte> -> string)
    requires |bytes| >= TextHead
    ensures TextContent(bytes + tail, decodeUtf8) == TextContent(bytes, decodeUtf8)
  {
    assert (bytes + tail)[..TextHead] == bytes[..TextHead];
    assert Take(bytes, TextHead) == bytes[..TextHead];
    assert Take(bytes + tail, TextHead) == (bytes + tail)[..TextHead];
  }

  // ---------------------------------------------------------------------------
  // Branches

  function PdfMeta(f: FileRead): (m: Meta)
  {
    match f
    case Unreadable(msg) => EmptyMeta.(error := Some(msg))
    case Read(bytes) =>
      if !FitsInString(bytes) then EmptyMeta.(error := Some(StringTooLongMessage))
      else EmptyMeta.(content := PdfSniffer.PdfContent(bytes), pageEstimate := Some(PdfSniffer.PageEstimate(bytes)))
  }

  function OfficeMeta(f: FileRead, ext: string): (m: Meta)
  {
    match OfficeSniffer.ExtractOffice(f, ext)
    case None => EmptyMeta
    case Some(o) =>
      EmptyMeta.(content := o.content, title := o.title, subject := o.subject, author := o.author,
                 description := o.description, keywords := o.keywords)
  }

  function TextMeta(f: FileRead, decodeUtf8: seq<Byte> -> string): (m: Meta)
  {
    match f
    case Unreadable(msg) => EmptyMeta.(error := Some(msg))
    case Read(bytes) => EmptyMeta.(content := Some(TextContent(bytes, decodeUtf8)))
  }

  function JpegMeta(f: FileRead): (m: Meta)
  {
    match ExifSniffer.ExtractExif(f)
    case None => EmptyMeta
    case Some(x) => EmptyMeta.(dateTaken := x.dateTaken, camera := x.camera, isScreenshot := x.isScreenshot)
  }

  function PngMeta(f: FileRead): (m: Meta)
  {
    match PngSniffer.ExtractPng(f)
    case None => EmptyMeta
    case Some(p) => EmptyMeta.(width := Some(p.width), height := Some(p.height), likelyScreenshot := p.likelyScreenshot)
  }

  /** The handler for a file whose `path.extname` is `extName`. */
  function DeepScanFile(extName: string, f: FileRead, decodeUtf8: seq<Byte> -> string): (m: Meta)
    ensures KindOf(LowerCase(extName)) == Other ==> m == EmptyMeta
    ensures m.error.Some? <==> (f.Unreadable? && KindOf(LowerCase(extName)) in {Pdf, PlainText})
                               || (f.Read? && !FitsInString(f.bytes) && KindOf(LowerCase(extName)) == Pdf)
    ensures f.Unreadable? && m.error.Some? ==> m == EmptyMeta.(error := Some(f.message))
    ensures f.Read? && m.error.Some? ==> m == EmptyMeta.(error := Some(StringTooLongMessage))
    ensures f.Unreadable? && KindOf(LowerCase(extName)) !in {Pdf, PlainText} ==> m == EmptyMeta
    // each branch fills only its own fields
    ensures m.pageEstimate.Some? ==> KindOf(LowerCase(extName)) == Pdf
    ensures (m.title.Some? || m.subject.Some? || m.author.Some? || m.description.Some? || m.keywords.Some?)
              ==> KindOf(LowerCase(extName)) == Office
    ensures m.dateTaken.Some? || m.camera.Some? || m.isScreenshot ==> KindOf(LowerCase(extName)) == Jpeg
    ensures m.width.Some? || m.height.Some? || m.likelyScreenshot ==> KindOf(LowerCase(extName)) == Png
    ensures m.content.Some? ==> KindOf(LowerCase(extName)) in {Pdf, Office, PlainText}
    // content bounds per branch
    ensures KindOf(LowerCase(extName)) == Pdf && m.content.Some? ==> 0 < |m.content.value| <= 2000
    ensures KindOf(LowerCase(extName)) == Office && m.content.Some? ==> |m.content.value| <= 1500
    ensures KindOf(LowerCase(extName)) == PlainText && m.content.Some? ==> '\0' !in m.content.value
    ensures KindOf(LowerCase(extName)) == PlainText ==> (m.content.Some? <==> f.Read?)
    // what each branch reports
    ensures KindOf(LowerCase(extName)) == Pdf && f.Read? && FitsInString(f.bytes) ==>
      m == EmptyMeta.(content := PdfSniffer.PdfContent(f.bytes), pageEstimate := Some(PdfSniffer.PageEstimate(f.bytes)))
    ensures KindOf(LowerCase(extName)) == PlainText && f.Read? ==>
      m == EmptyMeta.(content := Some(TextContent(f.bytes, decodeUtf8)))
    ensures KindOf(LowerCase(extName)) == Office ==>
      var o := OfficeSniffer.ExtractOffice(f, LowerCase(extName));
      (o.None? ==> m == EmptyMeta)
      && (o.Some? ==> m == EmptyMeta.(content := o.value.content, title := o.value.title, subject := o.value.subject,
                                      author := o.value.author, description := o.value.description,
                                      keywords := o.value.keywords))
    ensures KindOf(LowerCase(extName)) == Jpeg ==>
      var x := ExifSniffer.ExtractExif(f);
      (x.None? ==> m == EmptyMeta)
      && (x.Some? ==> m == EmptyMeta.(dateTaken := x.value.dateTaken, camera := x.value.camera,
                                      isScreenshot := x.value.isScreenshot))
    ensures KindOf(LowerCase(extName)) == Png ==>
      var p := PngSniffer.ExtractPng(f);
      (p.None? ==> m == EmptyMeta)
      && (p.Some? ==> m == EmptyMeta.(width := Some(p.value.width), height := Some(p.value.height),
                                      likelyScreenshot := p.value.likelyScreenshot))
  {
    var ext := LowerCase(extName);
    match KindOf(ext)
    case Pdf => PdfMeta(f)
    case Office => OfficeMeta(f, ext)
    case PlainText => TextMeta(f, decodeUtf8)
    case Jpeg => JpegMeta(f)
    case Png => PngMeta(f)
    case Other => EmptyMeta
  }

  // ---------------------------------------------------------------------------

  /** An empty PDF has no text and no pages. */
  lemma EmptyPdf(decodeUtf8: seq<Byte> -> string)
    ensures DeepScanFile(".pdf", Read([]), decodeUtf8) == EmptyMeta.(pageEstimate := Some(0))
  {
    assert LowerCase(".pdf") == ".pdf";
    assert PdfSniffer.Texts(Latin1([])) == [];
  }

  /** An empty text file yields empty content, not a missing one. */
  lemma EmptyText(decodeUtf8: seq<Byte> -> string)
    requires decodeUtf8([]) == []
    ensures DeepScanFile(".txt", Read([]), decodeUtf8) == EmptyMeta.(content := Some([]))
  {
    assert LowerCase(".txt") == ".txt";
  }

  /** Extensions are matched without regard to case. */
  lemma ExtensionCaseIgnored(ext: string, f: FileRead, decodeUtf8: seq<Byte> -> string)
    ensures DeepScanFile(ext, f, decodeUtf8) == DeepScanFile(LowerCase(ext), f, decodeUtf8)
  {
    LowerCaseIdempotent(ext);
  }

  lemma LowerCaseIdempotent(s: string)
    ensures LowerCase(LowerCase(s)) == LowerCase(s)
  {
    assert forall k :: 0 <= k < |s| ==> LowerCase(LowerCase(s))[k] == LowerCase(s)[k];
  }
}
