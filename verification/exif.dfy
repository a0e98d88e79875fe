/**
 * `extractBasicExif`: the first 64 KiB of a JPEG are scanned, as latin-1
 * text, for an EXIF-style timestamp, a camera vendor name and the names of
 * screenshot tools. No EXIF structure is parsed.
 */
module ExifSniffer {
  import opened Optional
  import opened Files
  import opened Text

  /** Size of the buffer the file's head is read into. */
  const Window: nat := 65536

  /** What the scan of a JPEG's head found; absent fields were not found. */
  datatype ExifInfo = ExifInfo(dateTaken: Option<string>, camera: Option<string>, isScreenshot: bool)

  /** The text that is scanned: the first `Window` bytes, zero-filled. */
  function HeadText(bytes: seq<Byte>): (s: string)
    ensures |s| == Window
    ensures forall k :: 0 <= k < Window ==> s[k] as int == if k < |bytes| then bytes[k] else 0
  {
    Latin1(ZeroPadded(bytes, Window))
  }

  // ---------------------------------------------------------------------------
  // Timestamp: four digits, colon, two, colon, two, space, then three
  // colon-separated pairs of digits

  /** The EXIF timestamp layout; `d` stands for an ASCII digit. */
  const ExifDateShape := "dddd:dd:dd dd:dd:dd"

  /** The layout reported to the renderer. */
  const ReportedDateShape := "dddd-dd-dd dd:dd:dd"

  predicate IsDigit(c: char) {
    '0' <= c <= '9'
  }

  predicate Fits(c: char, p: char) {
    if p == 'd' then IsDigit(c) else c == p
  }

  predicate Shaped(w: string, shape: string) {
    |w| == |shape| && forall k :: 0 <= k < |w| ==> Fits(w[k], shape[k])
  }

  predicate DateAt(s: string, i: int) {
    0 <= i && i + 19 <= |s| && Shaped(s[i..i + 19], ExifDateShape)
  }

  /** Start of the leftmost timestamp at or after `from`. */
  function FindDate(s: string, from: nat): (r: Option<nat>)
    ensures r.Some? ==> from <= r.value && DateAt(s, r.value)
    ensures r.Some? ==> forall i :: from <= i < r.value ==> !DateAt(s, i)
    ensures r.None? ==> forall i :: from <= i ==> !DateAt(s, i)
    decreases |s| - from
  {
    if from + 19 > |s| then None
    else if DateAt(s, from) then Some(from)
    else FindDate(s, from + 1)
  }

  /** The date's colons become dashes; every other character stays. */
  function FormatDate(d: string): (r: string)
    requires Shaped(d, ExifDateShape)
    ensures Shaped(r, ReportedDateShape)
    ensures forall k :: 0 <= k < |d| && k != 4 && k != 7 ==> r[k] == d[k]
  {
    d[..4] + "-" + d[5..7] + "-" + d[8..]
  }

  /** The inverse reading: a reported date back to the EXIF layout. */
  function UnformatDate(r: string): (d: string)
    requires Shaped(r, ReportedDateShape)
    ensures Shaped(d, ExifDateShape)
  {
    r[..4] + ":" + r[5..7] + ":" + r[8..]
  }

  lemma DateRoundTrip(d: string)
    requires Shaped(d, ExifDateShape)
    ensures UnformatDate(FormatDate(d)) == d
  {
    var r := UnformatDate(FormatDate(d));
    assert |r| == |d|;
    forall k | 0 <= k < |d|
      ensures r[k] == d[k]
    {
      assert Fits(d[k], ExifDateShape[k]);
    }
  }

  lemma DateRoundTripBack(r: string)
    requires Shaped(r, ReportedDateShape)
    ensures FormatDate(UnformatDate(r)) == r
  {
    var r' := FormatDate(UnformatDate(r));
    assert |r'| == |r|;
    forall k | 0 <= k < |r|
      ensures r'[k] == r[k]
    {
      assert Fits(r[k], ReportedDateShape[k]);
    }
  }

  /** `dateTaken`: the leftmost timestamp, reformatted. */
  function DateTaken(s: string): (r: Option<string>)
    ensures r.None? <==> forall i :: !DateAt(s, i)
    ensures r.Some? ==> Shaped(r.value, ReportedDateShape)
    ensures r.Some? ==> exists i :: DateAt(s, i) && (forall j :: 0 <= j < i ==> !DateAt(s, j))
                                    && UnformatDate(r.value) == s[i..i + 19]
  {
    match FindDate(s, 0)
    case None => None
    case Some(i) =>
      var d := s[i..i + 19];
      DateRoundTrip(d);
      Some(FormatDate(d))
  }

  // ---------------------------------------------------------------------------
  // Camera: a vendor name in any case, then up to 40 non-NUL characters

  const Vendors: seq<string> := ["Canon", "Nikon", "Sony", "Apple", "Samsung", "Google", "Fujifilm",
    "Olympus", "Panasonic", "LG", "OnePlus", "Xiaomi", "Huawei", "OPPO", "iPhone", "Pixel"]

  /** Case folding of the `i` flag. Characters outside ASCII never fold onto
      ASCII letters, so folding ASCII alone decides matches against the vendor names. */
  function Lower(c: char): char {
    if 'A' <= c <= 'Z' then (c as int + 32) as char else c
  }

  predicate IsAsciiLetter(c: char) {
    ('a' <= c <= 'z') || ('A' <= c <= 'Z')
  }

  /** `t` occurs at `i` up to ASCII case. */
  predicate TokenAt(s: string, i: int, t: string) {
    0 <= i && i + |t| <= |s| && forall k :: 0 <= k < |t| ==> Lower(s[i + k]) == Lower(t[k])
  }

  predicate VendorAt(s: string, i: int) {
    exists v :: 0 <= v < |Vendors| && TokenAt(s, i, Vendors[v])
  }

  /** The first alternative, from `v` on, that matches at `i`. */
  function VendorFrom(s: string, i: int, v: nat): (r: Option<nat>)
    requires v <= |Vendors|
    ensures r.Some? ==> v <= r.value < |Vendors| && TokenAt(s, i, Vendors[r.value])
    ensures r.Some? ==> forall w :: v <= w < r.value ==> !TokenAt(s, i, Vendors[w])
    ensures r.None? ==> forall w :: v <= w < |Vendors| ==> !TokenAt(s, i, Vendors[w])
    decreases |Vendors| - v
  {
    if v == |Vendors| then None
    else if TokenAt(s, i, Vendors[v]) then Some(v)
    else VendorFrom(s, i, v + 1)
  }

  /** Trying the alternatives in order finds one exactly when some vendor
      name matches. */
  lemma VendorFromAt(s: string, i: int)
    ensures VendorFrom(s, i, 0).Some? <==> VendorAt(s, i)
  {
    if VendorFrom(s, i, 0).Some? {
      var v := VendorFrom(s, i, 0).value;
      assert 0 <= v < |Vendors| && TokenAt(s, i, Vendors[v]);
    }
  }

  /** No vendor name starts at the end of the text or past it. */
  lemma NoVendorAtEnd(s: string, from: nat)
    requires from >= |s|
    ensures forall i :: from <= i ==> !VendorAt(s, i)
  {
    forall i, v | from <= i && 0 <= v < |Vendors|
      ensures !TokenAt(s, i, Vendors[v])
    {
      VendorShape(v);
    }
  }

  /** Start of the leftmost vendor name at or after `from`. */
  function NextVendor(s: string, from: nat): (r: Option<nat>)
    ensures r.Some? ==> from <= r.value && VendorAt(s, r.value)
    ensures r.Some? ==> forall i :: from <= i < r.value ==> !VendorAt(s, i)
    ensures r.None? ==> forall i :: from <= i ==> !VendorAt(s, i)
    decreases |s| - from
  {
    if from >= |s| then
      NoVendorAtEnd(s, from);
      None
    else
      VendorFromAt(s, from);
      if VendorFrom(s, from, 0).Some? then Some(from)
      else NextVendor(s, from + 1)
  }

  /** `n` non-NUL characters follow `j`, and a greedy repeat of at most `cap`
      of them could not take more. */
  predicate GreedyRun(s: string, j: int, n: int, cap: nat) {
    0 <= j && 0 <= n <= cap && j + n <= |s|
    && (forall k :: j <= k < j + n ==> s[k] != '\0')
    && (n == cap || j + n == |s| || s[j + n] == '\0')
  }

  /** `[^\0]{0,cap}`, greedy: how many non-NUL characters follow `j`, at most `cap`. */
  function NonNulRun(s: string, j: nat, cap: nat): (n: nat)
    requires j <= |s|
    ensures GreedyRun(s, j, n, cap)
    decreases cap
  {
    if cap == 0 || j == |s| || s[j] == '\0' then 0
    else 1 + NonNulRun(s, j + 1, cap - 1)
  }

  predicate PrintableAscii(c: char) {
    0x20 <= c as int <= 0x7E
  }

  /** Every character outside printable ASCII becomes a space. */
  function Printable(s: string): (r: string)
    ensures |r| == |s|
    ensures forall k :: 0 <= k < |s| ==> PrintableAscii(r[k])
    ensures forall k :: 0 <= k < |s| ==> r[k] == if PrintableAscii(s[k]) then s[k] else ' '
  {
    if s == [] then [] else [if PrintableAscii(s[0]) then s[0] else ' '] + Printable(s[1..])
  }

  /** Vendor names are one to nine characters long. */
  lemma VendorShape(v: nat)
    requires v < |Vendors|
    ensures 1 <= |Vendors[v]| <= 9
  {
  }

  lemma VendorLetters(v: nat, k: nat)
    requires v < |Vendors| && k < |Vendors[v]|
    ensures IsAsciiLetter(Vendors[v][k])
  {
  }

  /** The `n` characters from `i` on exist and are ASCII letters. */
  predicate LettersAt(s: string, i: nat, n: nat) {
    i + n <= |s| && forall k :: i <= k < i + n ==> IsAsciiLetter(s[k])
  }

  /** A matched vendor name is made of letters, whatever their case. */
  lemma TokenLetters(s: string, i: nat, v: nat)
    requires v < |Vendors| && TokenAt(s, i, Vendors[v])
    ensures LettersAt(s, i, |Vendors[v]|)
  {
    forall k | i <= k < i + |Vendors[v]|
      ensures IsAsciiLetter(s[k])
    {
      VendorLetters(v, k - i);
      assert Lower(s[k]) == Lower(Vendors[v][k - i]);
    }
  }

  /** Trimming a text that starts with `n` visible characters keeps them. */
  lemma TrimKeepsHead(x: string, n: nat)
    requires 1 <= n <= |x|
    requires forall k :: 0 <= k < n ==> !IsWs(x[k])
    ensures x[..n] <= Trim(x)
  {
    assert !IsWs(x[0]) && !IsWs(x[n - 1]);
    assert LeadingWs(x) == 0;
    var b := |x| - TrailingWs(x);
    assert n <= b;
    assert Trim(x) == x[0..b];
    assert x[..n] == x[0..b][..n];
  }

  /** Blanking non-printables leaves a head of letters as it was. */
  lemma PrintableKeepsLetters(w: string, n: nat)
    requires n <= |w|
    requires forall k :: 0 <= k < n ==> IsAsciiLetter(w[k])
    ensures Printable(w)[..n] == w[..n]
    ensures forall k :: 0 <= k < n ==> !IsWs(Printable(w)[k])
  {
    var x := Printable(w);
    forall k | 0 <= k < n
      ensures x[k] == w[k] && !IsWs(x[k])
    {
      assert IsAsciiLetter(w[k]);
    }
  }

  /** Trimming the blanked text keeps a head of letters and adds no character. */
  lemma CleanKeepsLetters(w: string, n: nat)
    requires 1 <= n <= |w|
    requires forall k :: 0 <= k < n ==> IsAsciiLetter(w[k])
    ensures w[..n] <= Trim(Printable(w))
    ensures forall k :: 0 <= k < |Trim(Printable(w))| ==> PrintableAscii(Trim(Printable(w))[k])
  {
    var x := Printable(w);
    PrintableKeepsLetters(w, n);
    TrimKeepsHead(x, n);
    TrimCharset(x, PrintableAscii);
  }

  /** `c` is the name `t` at `i` and the `n` characters a greedy non-NUL
      repeat of at most 40 takes after it, non-printables blanked, ends
      trimmed. */
  predicate CameraText(s: string, i: nat, t: string, n: int, c: string) {
    GreedyRun(s, i + |t|, n, 40) && c == Trim(Printable(s[i..i + |t| + n]))
  }

  /** The camera text for a vendor name `t` matched at `i`: the name and up to
      40 following non-NUL characters, non-printables blanked, ends trimmed,
      cut to 60 characters (a cut that never binds). */
  function CameraAt(s: string, i: nat, t: string): (c: string)
    requires 1 <= |t| <= 9 && LettersAt(s, i, |t|)
    ensures exists n :: CameraText(s, i, t, n, c)
    ensures |c| <= 49
    ensures forall k :: 0 <= k < |c| ==> PrintableAscii(c[k])
    ensures s[i..i + |t|] <= c
  {
    var run := NonNulRun(s, i + |t|, 40);
    var w := s[i..i + |t| + run];
    var c := Trim(Printable(w));
    assert w[..|t|] == s[i..i + |t|];
    CameraFacts(w, |t|, c);
    TakeAll(c, 60);
    assert CameraText(s, i, t, run, c);
    Take(c, 60)
  }

  /** The camera text keeps the vendor name it starts with and stays short. */
  lemma CameraFacts(w: string, n: nat, c: string)
    requires 1 <= n <= 9 && n <= |w| <= n + 40
    requires forall k :: 0 <= k < n ==> IsAsciiLetter(w[k])
    requires c == Trim(Printable(w))
    ensures |c| <= 49
    ensures forall k :: 0 <= k < |c| ==> PrintableAscii(c[k])
    ensures w[..n] <= c
  {
    CleanKeepsLetters(w, n);
  }

  /** The leftmost vendor name: its position and list index. */
  function FirstVendor(s: string): (r: Option<(nat, nat)>)
    ensures r.None? <==> forall i :: !VendorAt(s, i)
    ensures r.Some? ==> r.value.1 < |Vendors| && TokenAt(s, r.value.0, Vendors[r.value.1])
    ensures r.Some? ==> forall w :: 0 <= w < r.value.1 ==> !TokenAt(s, r.value.0, Vendors[w])
    ensures r.Some? ==> forall j :: 0 <= j < r.value.0 ==> !VendorAt(s, j)
    ensures r.Some? ==> 1 <= |Vendors[r.value.1]| <= 9 && r.value.0 + |Vendors[r.value.1]| <= |s|
    ensures r.Some? ==> LettersAt(s, r.value.0, |Vendors[r.value.1]|)
  {
    match NextVendor(s, 0)
    case None => None
    case Some(i) =>
      var v := VendorFrom(s, i, 0).value;
      VendorShape(v);
      TokenLetters(s, i, v);
      Some((i, v))
  }

  /** `camera`: the text at the leftmost vendor name. */
  function Camera(s: string): (r: Option<string>)
    ensures r.None? <==> forall i :: !VendorAt(s, i)
    ensures r.Some? <==> FirstVendor(s).Some?
    ensures r.Some? ==> r.value == CameraAt(s, FirstVendor(s).value.0, Vendors[FirstVendor(s).value.1])
    ensures r.Some? ==> |r.value| <= 49
    ensures r.Some? ==> forall k :: 0 <= k < |r.value| ==> PrintableAscii(r.value[k])
    ensures r.Some? ==> exists i: nat, v :: 0 <= v < |Vendors| && TokenAt(s, i, Vendors[v])
                                       && (forall j :: 0 <= j < i ==> !VendorAt(s, j))
                                       && s[i..i + |Vendors[v]|] <= r.value
  {
    match FirstVendor(s)
    case None => None
    case Some((i, v)) =>
      var c := CameraAt(s, i, Vendors[v]);
      CameraAtFirstVendor(s, i, v, c);
      Some(c)
  }

  /** A text that starts with the leftmost vendor match starts with some
      vendor name that no earlier position matches. */
  lemma CameraAtFirstVendor(s: string, i: nat, v: nat, c: string)
    requires v < |Vendors| && TokenAt(s, i, Vendors[v])
    requires forall j :: 0 <= j < i ==> !VendorAt(s, j)
    requires s[i..i + |Vendors[v]|] <= c
    ensures exists i: nat, v :: 0 <= v < |Vendors| && TokenAt(s, i, Vendors[v])
                             && (forall j :: 0 <= j < i ==> !VendorAt(s, j))
                             && s[i..i + |Vendors[v]|] <= c
  {
  }

  // ---------------------------------------------------------------------------

  /** `isScreenshot`: the name of a screenshot tool appears, case-sensitively. */
  predicate ScreenshotMarker(s: string) {
    Occurs(s, "Screenshot") || Occurs(s, "Snipping") || Occurs(s, "ShareX")
  }

  /** The three substring searches, tried in the source's order. */
  function IsScreenshot(s: string): (b: bool)
    ensures b <==> ScreenshotMarker(s)
  {
    FindFromOccurs(s, "Screenshot");
    FindFromOccurs(s, "Snipping");
    FindFromOccurs(s, "ShareX");
    FindFrom(s, "Screenshot", 0).Some? || FindFrom(s, "Snipping", 0).Some? || FindFrom(s, "ShareX", 0).Some?
  }

  /** `extractBasicExif`: `null` when the file cannot be opened or nothing was found. */
  function ExtractExif(f: FileRead): (r: Option<ExifInfo>)
    ensures f.Unreadable? ==> r.None?
    ensures f.Read? && r.None? ==> var s := HeadText(f.bytes);
      (forall i :: !DateAt(s, i)) && (forall i :: !VendorAt(s, i)) && !ScreenshotMarker(s)
    ensures f.Read? ==> (r.None? <==> var s := HeadText(f.bytes);
      (forall i :: !DateAt(s, i)) && (forall i :: !VendorAt(s, i)) && !ScreenshotMarker(s))
    ensures r.Some? ==> f.Read? && var s := HeadText(f.bytes);
      r.value == ExifInfo(DateTaken(s), Camera(s), ScreenshotMarker(s))
      && (r.value.dateTaken.Some? <==> exists i :: DateAt(s, i))
      && (r.value.camera.Some? <==> exists i :: VendorAt(s, i))
      && (r.value.isScreenshot <==> ScreenshotMarker(s))
  {
    match f
    case Unreadable(_) => None
    case Read(bytes) =>
      var s := HeadText(bytes);
      var info := ExifInfo(DateTaken(s), Camera(s), IsScreenshot(s));
      if info == ExifInfo(None, None, false) then None else Some(info)
  }

  /** Only the first `Window` bytes of the file are ever looked at. */
  lemma ExifReadsWindowOnly(bytes: seq<Byte>, tail: seq<Byte>)
    requires |bytes| >= Window
    ensures ExtractExif(Read(bytes + tail)) == ExtractExif(Read(bytes))
  {
    assert ZeroPadded(bytes + tail, Window) == ZeroPadded(bytes, Window);
  }
}
