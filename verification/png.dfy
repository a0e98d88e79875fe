/**
 * `extractPngDimensions`: the first 32 bytes of a PNG are read; when the
 * first two bytes look like the PNG signature, the IHDR width and height are
 * taken as big-endian 32-bit integers at offsets 16 and 20.
 */
module PngSniffer {
  import opened Optional
  import opened Files

  /** Size of the buffer the file's head is read into. */
  const HeadSize: nat := 32

  const Two32: nat := 0x1_0000_0000

  /** Widths at which the renderer suspects a screenshot. */
  const ScreenWidths: set<nat> := {1920, 2560, 1440, 3840}

  /** `{ width, height }`, with `likelyScreenshot` present only when true. */
  datatype PngInfo = PngInfo(width: nat, height: nat, likelyScreenshot: bool)

  /** `buf.readUInt32BE(off)`. */
  function ReadU32BE(w: seq<Byte>, off: nat): (n: nat)
    requires off + 4 <= |w|
    ensures n < Two32
  {
    var b0, b1, b2, b3: int := w[off], w[off + 1], w[off + 2], w[off + 3];
    ((b0 * 256 + b1) * 256 + b2) * 256 + b3
  }

  /** The four big-endian bytes of a 32-bit value. */
  function EncodeU32BE(n: nat): (b: seq<Byte>)
    requires n < Two32
    ensures |b| == 4
  {
    var q0 := n / 256;
    var q1 := q0 / 256;
    [q1 / 256, q1 % 256, q0 % 256, n % 256]
  }

  lemma ReadEncodeU32BE(n: nat)
    requires n < Two32
    ensures ReadU32BE(EncodeU32BE(n), 0) == n
  {
    var q0 := n / 256;
    var q1 := q0 / 256;
    assert n == q0 * 256 + n % 256;
    assert q0 == q1 * 256 + q0 % 256;
    assert q1 == (q1 / 256) * 256 + q1 % 256;
  }

  lemma EncodeReadU32BE(w: seq<Byte>, off: nat)
    requires off + 4 <= |w|
    ensures EncodeU32BE(ReadU32BE(w, off)) == w[off..off + 4]
  {
    var n := ReadU32BE(w, off);
    var b0, b1, b2: int := w[off], w[off + 1], w[off + 2];
    assert n / 256 == (b0 * 256 + b1) * 256 + b2;
    assert n / 256 / 256 == b0 * 256 + b1;
    assert n / 256 / 256 / 256 == b0;
  }

  /** The size test that sets `likelyScreenshot`. */
  predicate ScreenSized(width: nat, height: nat) {
    width in ScreenWidths && height > 900
  }

  /** `extractPngDimensions`: `null` when the file cannot be opened or does not
      start with bytes 0x89 0x50; a file shorter than the header reads as
      zero-filled. */
  function ExtractPng(f: FileRead): (r: Option<PngInfo>)
    ensures r.Some? <==> f.Read? && |f.bytes| >= 2 && f.bytes[0] == 0x89 && f.bytes[1] == 0x50
    ensures r.Some? ==> r.value.width < Two32 && r.value.height < Two32
    ensures r.Some? ==>
      EncodeU32BE(r.value.width) == ZeroPadded(f.bytes, HeadSize)[16..20]
      && EncodeU32BE(r.value.height) == ZeroPadded(f.bytes, HeadSize)[20..24]
    ensures r.Some? && |f.bytes| >= 24 ==>
      EncodeU32BE(r.value.width) == f.bytes[16..20] && EncodeU32BE(r.value.height) == f.bytes[20..24]
    ensures r.Some? && |f.bytes| <= 16 ==> r.value.width == 0 && r.value.height == 0
    ensures r.Some? ==> (r.value.likelyScreenshot <==> ScreenSized(r.value.width, r.value.height))
  {
    match f
    case Unreadable(_) => None
    case Read(bytes) =>
      var w := ZeroPadded(bytes, HeadSize);
      if w[0] == 0x89 && w[1] == 0x50 then
        var width := ReadU32BE(w, 16);
        var height := ReadU32BE(w, 20);
        EncodeReadU32BE(w, 16);
        EncodeReadU32BE(w, 20);
        assert |bytes| >= 24 ==> w[16..20] == bytes[16..20] && w[20..24] == bytes[20..24];
        Some(PngInfo(width, height, ScreenSized(width, height)))
      else None
  }

  /** The eight-byte PNG signature. */
  const Signature: seq<Byte> := [0x89, 0x50, 0x4E, 0x47, 0x0D, 0x0A, 0x1A, 0x0A]

  /** Start of a well-formed PNG: signature, IHDR length and type, then the
      dimensions and the five one-byte IHDR fields. */
  function Header(width: nat, height: nat, fields: seq<Byte>): (b: seq<Byte>)
    requires width < Two32 && height < Two32 && |fields| == 5
    ensures |b| == 29
  {
    Signature + [0, 0, 0, 13, 0x49, 0x48, 0x44, 0x52] + EncodeU32BE(width) + EncodeU32BE(height) + fields
  }

  /** Any PNG, whatever follows its header, reports the header's dimensions. */
  lemma HeaderDimensions(width: nat, height: nat, fields: seq<Byte>, rest: seq<Byte>)
    requires width < Two32 && height < Two32 && |fields| == 5
    ensures ExtractPng(Read(Header(width, height, fields) + rest))
         == Some(PngInfo(width, height, ScreenSized(width, height)))
  {
    var b := Header(width, height, fields) + rest;
    var r := ExtractPng(Read(b));
    assert b[0] == 0x89 && b[1] == 0x50;
    assert b[16..20] == EncodeU32BE(width) && b[20..24] == EncodeU32BE(height);
    ReadEncodeU32BE(width);
    ReadEncodeU32BE(height);
    EncodeInjective(r.value.width, width);
    EncodeInjective(r.value.height, height);
  }

  lemma EncodeInjective(m: nat, n: nat)
    requires m < Two32 && n < Two32 && EncodeU32BE(m) == EncodeU32BE(n)
    ensures m == n
  {
    ReadEncodeU32BE(m);
    ReadEncodeU32BE(n);
  }

  /** A full-HD screenshot is flagged. */
  lemma FullHdFlagged(fields: seq<Byte>)
    requires |fields| == 5
    ensures ExtractPng(Read(Header(1920, 1080, fields))).value.likelyScreenshot
  {
    HeaderDimensions(1920, 1080, fields, []);
    assert Header(1920, 1080, fields) + [] == Header(1920, 1080, fields);
  }
}
