/**
 * Shared building blocks for the content sniffers of CleanSweep's main process.
 *
 * Every sniffer decodes the file bytes with Node's latin-1 ('binary') decoding
 * before matching, so the scanning primitives here work over `string`s whose
 * characters are in 0..255. JavaScript regular expressions are re-expressed as
 * explicit leftmost-match searches.
 */
module Optional {

  /** A value that may be absent: JavaScript's `null` or a missing property. */
  datatype Option<T> = None | Some(value: T)
}

module Files {

  type Byte = b: int | 0 <= b < 256

  /** Outcome of reading a file: its bytes, or the message of the I/O error thrown. */
  datatype FileRead = Read(bytes: seq<Byte>) | Unreadable(message: string)

  /** V8's longest string on 64-bit platforms. Decoding a larger buffer into
      one string throws `ERR_STRING_TOO_LONG`, even though reading it succeeded. */
  const MaxStringLength: nat := 0x1fffffe8

  /** The message of that error. */
  const StringTooLongMessage: string := "Cannot create a string longer than 0x1fffffe8 characters"

  /** Whether the whole file can be decoded into one string. */
  predicate FitsInString(bytes: seq<Byte>) {
    |bytes| <= MaxStringLength
  }

  /** `buf.toString('binary')`: one character per byte. */
  function Latin1(bytes: seq<Byte>): (s: string)
    ensures |s| == |bytes|
    ensures forall i :: 0 <= i < |s| ==> s[i] as int == bytes[i]
  {
    seq(|bytes|, i requires 0 <= i < |bytes| => bytes[i] as char)
  }

  /** `buf.toString('ascii')`: Node clears the high bit of every byte. */
  function Ascii(bytes: seq<Byte>): (s: string)
    ensures |s| == |bytes|
    ensures forall i :: 0 <= i < |s| ==> s[i] as int == bytes[i] % 128
  {
    seq(|bytes|, i requires 0 <= i < |bytes| => (bytes[i] % 128) as char)
  }

  /** The contents of `Buffer.alloc(n)` after reading the first bytes of a file
      into it: the file's first n bytes, zero-filled when the file is shorter. */
  function ZeroPadded(bytes: seq<Byte>, n: nat): (w: seq<Byte>)
    ensures |w| == n
    ensures forall i :: 0 <= i < n && i < |bytes| ==> w[i] == bytes[i]
    ensures forall i :: |bytes| <= i < n ==> w[i] == 0
  {
    if |bytes| >= n then bytes[..n]
    else bytes + seq(n - |bytes|, _ => 0)
  }
}

module Text {
  import opened Optional

  /** JavaScript's `\s` (also what `trim` removes) on latin-1 characters: tab,
      line feed, vertical tab, form feed, carriage return, space and no-break space. */
  predicate IsWs(c: char): (b: bool)
    ensures b <==> c as int in {0x09, 0x0A, 0x0B, 0x0C, 0x0D, 0x20, 0xA0}
  {
    var n := c as int;
    (9 <= n <= 13) || n == 32 || n == 160
  }

  predicate IsAsciiAlnum(c: char) {
    ('a' <= c <= 'z') || ('A' <= c <= 'Z') || ('0' <= c <= '9')
  }

  predicate AllWs(w: string) {
    forall j :: 0 <= j < |w| ==> IsWs(w[j])
  }

  /** `w` occurs in `s` starting at index `i`. */
  predicate At(s: string, i: int, w: string) {
    0 <= i && i + |w| <= |s| && s[i..i + |w|] == w
  }

  /** `s.includes(w)`. */
  predicate Occurs(s: string, w: string) {
    exists i :: 0 <= i <= |s| && At(s, i, w)
  }

  /** Upper-case letters of latin-1 (ASCII and the accented capitals). */
  predicate IsUpper(c: char) {
    ('A' <= c <= 'Z') || (0xC0 <= c as int <= 0xDE && c as int != 0xD7)
  }

  /** `toLowerCase` on one character of latin-1. */
  function LowerChar(c: char): (l: char)
    ensures !IsUpper(l)
    ensures !IsUpper(c) ==> l == c
  {
    if IsUpper(c) then (c as int + 32) as char else c
  }

  /** `String.prototype.toLowerCase` on latin-1 text. */
  function LowerCase(s: string): (r: string)
    ensures |r| == |s|
    ensures forall k :: 0 <= k < |s| ==> r[k] == LowerChar(s[k])
  {
    if s == [] then [] else [LowerChar(s[0])] + LowerCase(s[1..])
  }

  /** First occurrence of `w` in `s` at or after index `j`: where the leftmost
      match of a literal pattern begins. */
  function FindFrom(s: string, w: string, j: nat): (r: Option<nat>)
    ensures r.Some? ==> j <= r.value && At(s, r.value, w)
    ensures r.Some? ==> forall m :: j <= m < r.value ==> !At(s, m, w)
    ensures r.None? ==> forall m :: j <= m ==> !At(s, m, w)
    decreases |s| - j
  {
    if j + |w| > |s| then None
    else if At(s, j, w) then Some(j)
    else FindFrom(s, w, j + 1)
  }

  lemma FindFromOccurs(s: string, w: string)
    ensures FindFrom(s, w, 0).Some? <==> Occurs(s, w)
  {
    var r := FindFrom(s, w, 0);
    if r.Some? {
      assert 0 <= r.value <= |s| && At(s, r.value, w);
    }
    if Occurs(s, w) {
      var i :| 0 <= i <= |s| && At(s, i, w);
      assert !r.None?;
    }
  }

  /** Number of whitespace characters at the start of `s`. */
  function LeadingWs(s: string): (k: nat)
    ensures k <= |s|
    ensures forall i :: 0 <= i < k ==> IsWs(s[i])
    ensures k < |s| ==> !IsWs(s[k])
  {
    if s == [] || !IsWs(s[0]) then 0 else 1 + LeadingWs(s[1..])
  }

  /** Number of whitespace characters at the end of `s`. */
  function TrailingWs(s: string): (k: nat)
    ensures k <= |s|
    ensures forall i :: |s| - k <= i < |s| ==> IsWs(s[i])
    ensures k < |s| ==> !IsWs(s[|s| - 1 - k])
  {
    if s == [] || !IsWs(s[|s| - 1]) then 0 else 1 + TrailingWs(s[..|s| - 1])
  }

  /** `String.prototype.trim`. */
  function Trim(s: string): (r: string)
    ensures |r| <= |s|
    ensures r == [] <==> AllWs(s)
    ensures r != [] ==> !IsWs(r[0]) && !IsWs(r[|r| - 1])
    ensures exists a, b :: 0 <= a <= b <= |s| && r == s[a..b] && AllWs(s[..a]) && AllWs(s[b..])
  {
    var a := LeadingWs(s);
    if a == |s| then
      assert s[a..a] == [] && AllWs(s[..a]) && AllWs(s[a..]);
      []
    else
      var t := TrailingWs(s);
      assert t < |s| - a;
      var b := |s| - t;
      assert AllWs(s[..a]) && AllWs(s[b..]);
      s[a..b]
  }

  /** `s.substring(0, n)`. */
  function Take<T>(s: seq<T>, n: nat): (r: seq<T>)
    ensures r <= s
    ensures |r| == if |s| <= n then |s| else n
  {
    if |s| <= n then s else s[..n]
  }

  /** A cut at or beyond the length changes nothing. */
  lemma TakeAll<T>(s: seq<T>, n: nat)
    requires |s| <= n
    ensures Take(s, n) == s
  {
  }

  /** `parts.join(sep)`. */
  function Join(parts: seq<string>, sep: string): string
  {
    if |parts| == 0 then []
    else if |parts| == 1 then parts[0]
    else parts[0] + sep + Join(parts[1..], sep)
  }

  /** Joining more parts only extends the joined text. */
  lemma {:induction false} JoinPrefix(p: seq<string>, q: seq<string>, sep: string)
    ensures Join(p, sep) <= Join(p + q, sep)
  {
    if |p| == 0 {
    } else if |p| == 1 {
      if |q| > 0 {
        assert (p + q)[1..] == q;
      } else {
        assert p + q == p;
      }
    } else {
      assert (p + q)[1..] == p[1..] + q;
      JoinPrefix(p[1..], q, sep);
    }
  }

  /** The total length of the parts laid end to end. */
  function RawLength(parts: seq<string>): nat
  {
    if |parts| == 0 then 0 else |parts[0]| + RawLength(parts[1..])
  }

  /** The non-whitespace characters of `s`, in order. */
  function Visible(s: string): string
  {
    if s == [] then [] else (if IsWs(s[0]) then [] else [s[0]]) + Visible(s[1..])
  }

  lemma {:induction false} VisibleConcat(a: string, b: string)
    ensures Visible(a + b) == Visible(a) + Visible(b)
  {
    if a == [] {
      assert a + b == b;
    } else {
      assert (a + b)[1..] == a[1..] + b;
      VisibleConcat(a[1..], b);
    }
  }

  lemma {:induction false} VisibleAllWs(w: string)
    requires AllWs(w)
    ensures Visible(w) == []
  {
    if w != [] {
      VisibleAllWs(w[1..]);
    }
  }

  lemma {:induction false} VisibleOfVisibleChar(s: string, i: nat)
    requires i < |s| && !IsWs(s[i])
    ensures Visible(s) != []
  {
    if i > 0 && IsWs(s[0]) {
      VisibleOfVisibleChar(s[1..], i - 1);
    }
  }

  /** Trimming never removes a visible character. */
  lemma TrimVisible(s: string)
    ensures Visible(Trim(s)) == Visible(s)
  {
    var a, b :| 0 <= a <= b <= |s| && Trim(s) == s[a..b] && AllWs(s[..a]) && AllWs(s[b..]);
    assert s == s[..a] + s[a..b] + s[b..];
    VisibleConcat(s[..a] + s[a..b], s[b..]);
    VisibleConcat(s[..a], s[a..b]);
    VisibleAllWs(s[..a]);
    VisibleAllWs(s[b..]);
  }

  /** Global whitespace-run replacement: every maximal whitespace run of at least
      `minRun` characters becomes `rep`; shorter runs are kept. */
  function Collapse(s: string, minRun: nat, rep: string): (r: string)
    requires minRun >= 1
    ensures s == [] ==> r == []
    ensures s != [] && !IsWs(s[0]) ==> r != [] && r[0] == s[0]
    decreases |s|
  {
    if s == [] then []
    else if !IsWs(s[0]) then [s[0]] + Collapse(s[1..], minRun, rep)
    else
      var k := LeadingWs(s);
      (if k >= minRun then rep else s[..k]) + Collapse(s[k..], minRun, rep)
  }

  /** The `k` characters of `s` from index `i` on exist and are all whitespace. */
  predicate WsRunAt(s: string, i: int, k: nat) {
    0 <= i && i + k <= |s| && forall j :: i <= j < i + k ==> IsWs(s[j])
  }

  /** No `k` consecutive characters of `s` are all whitespace. */
  ghost predicate NoWsRun(s: string, k: nat) {
    forall i :: !WsRunAt(s, i, k)
  }

  /** Collapsing whitespace keeps every visible character, in order. */
  lemma {:induction false} CollapseVisible(s: string, minRun: nat, rep: string)
    requires minRun >= 1
    requires AllWs(rep)
    ensures Visible(Collapse(s, minRun, rep)) == Visible(s)
    decreases |s|
  {
    if s == [] {
    } else if !IsWs(s[0]) {
      CollapseVisible(s[1..], minRun, rep);
      VisibleConcat([s[0]], Collapse(s[1..], minRun, rep));
      assert s == [s[0]] + s[1..];
      VisibleConcat([s[0]], s[1..]);
    } else {
      var k := LeadingWs(s);
      CollapseVisible(s[k..], minRun, rep);
      var piece := if k >= minRun then rep else s[..k];
      VisibleConcat(piece, Collapse(s[k..], minRun, rep));
      VisibleAllWs(piece);
      assert s == s[..k] + s[k..];
      VisibleConcat(s[..k], s[k..]);
      VisibleAllWs(s[..k]);
    }
  }

  /** Collapsing introduces no character outside those of `s` and `rep`. */
  lemma {:induction false} CollapseCharset(s: string, minRun: nat, rep: string, ok: char -> bool)
    requires minRun >= 1
    requires forall i :: 0 <= i < |s| ==> ok(s[i])
    requires forall i :: 0 <= i < |rep| ==> ok(rep[i])
    ensures forall i :: 0 <= i < |Collapse(s, minRun, rep)| ==> ok(Collapse(s, minRun, rep)[i])
    decreases |s|
  {
    if s == [] {
    } else if !IsWs(s[0]) {
      CollapseCharset(s[1..], minRun, rep, ok);
    } else {
      var k := LeadingWs(s);
      CollapseCharset(s[k..], minRun, rep, ok);
    }
  }

  /** With `minRun` 1 and a single space as replacement every whitespace
      character of the result is a plain space. */
  lemma {:induction false} CollapseToSpaces(s: string)
    ensures forall i :: 0 <= i < |Collapse(s, 1, " ")| && IsWs(Collapse(s, 1, " ")[i]) ==> Collapse(s, 1, " ")[i] == ' '
    decreases |s|
  {
    if s == [] {
    } else if !IsWs(s[0]) {
      CollapseToSpaces(s[1..]);
    } else {
      var k := LeadingWs(s);
      CollapseToSpaces(s[k..]);
    }
  }

  lemma NoWsRunConsVisible(c: char, rest: string, k: nat)
    requires k >= 1 && !IsWs(c) && NoWsRun(rest, k)
    ensures NoWsRun([c] + rest, k)
  {
    var t := [c] + rest;
    forall i
      ensures !WsRunAt(t, i, k)
    {
      if i == 0 {
        assert t[0] == c;
      } else if 1 <= i && i + k <= |t| {
        assert !WsRunAt(rest, i - 1, k);
        var j :| i - 1 <= j < i - 1 + k && !IsWs(rest[j]);
        assert t[j + 1] == rest[j];
      }
    }
  }

  lemma NoWsRunAfterShort(piece: string, rest: string, k: nat)
    requires |piece| < k && NoWsRun(rest, k)
    requires rest == [] || !IsWs(rest[0])
    ensures NoWsRun(piece + rest, k)
  {
    var t := piece + rest;
    forall i | 0 <= i && i + k <= |t|
      ensures !WsRunAt(t, i, k)
    {
      if i < |piece| {
        assert t[|piece|] == rest[0];
      } else {
        assert !WsRunAt(rest, i - |piece|, k);
        var j :| i - |piece| <= j < i - |piece| + k && !IsWs(rest[j]);
        assert t[j + |piece|] == rest[j];
      }
    }
  }

  /** After collapsing, no whitespace run reaches `k` characters, provided both
      the kept runs (shorter than `minRun`) and `rep` are shorter than `k`. */
  lemma {:induction false} CollapseBoundsRuns(s: string, minRun: nat, rep: string, k: nat)
    requires 1 <= minRun <= k
    requires |rep| < k
    ensures NoWsRun(Collapse(s, minRun, rep), k)
    decreases |s|
  {
    if s == [] {
    } else if !IsWs(s[0]) {
      CollapseBoundsRuns(s[1..], minRun, rep, k);
      NoWsRunConsVisible(s[0], Collapse(s[1..], minRun, rep), k);
    } else {
      var n := LeadingWs(s);
      CollapseBoundsRuns(s[n..], minRun, rep, k);
      var piece := if n >= minRun then rep else s[..n];
      NoWsRunAfterShort(piece, Collapse(s[n..], minRun, rep), k);
    }
  }

  lemma NoWsRunSlice(s: string, k: nat, a: nat, b: nat)
    requires a <= b <= |s| && NoWsRun(s, k)
    ensures NoWsRun(s[a..b], k)
  {
    forall i | 0 <= i && i + k <= b - a
      ensures !WsRunAt(s[a..b], i, k)
    {
      assert !WsRunAt(s, a + i, k);
      var j :| a + i <= j < a + i + k && !IsWs(s[j]);
      assert s[a..b][j - a] == s[j];
    }
  }

  /** Trimming keeps the bound on whitespace runs. */
  lemma TrimNoWsRun(s: string, k: nat)
    requires NoWsRun(s, k)
    ensures NoWsRun(Trim(s), k)
  {
    var a, b :| 0 <= a <= b <= |s| && Trim(s) == s[a..b] && AllWs(s[..a]) && AllWs(s[b..]);
    NoWsRunSlice(s, k, a, b);
  }

  /** Trimming introduces no new character. */
  lemma TrimCharset(s: string, ok: char -> bool)
    requires forall i :: 0 <= i < |s| ==> ok(s[i])
    ensures forall i :: 0 <= i < |Trim(s)| ==> ok(Trim(s)[i])
  {
    var a, b :| 0 <= a <= b <= |s| && Trim(s) == s[a..b] && AllWs(s[..a]) && AllWs(s[b..]);
    forall i | 0 <= i < |Trim(s)|
      ensures Trim(s)[i] == s[a + i]
    {
    }
  }

  /** Trimming keeps "every whitespace character is a plain space". */
  lemma TrimSpacesOnly(s: string)
    requires forall i :: 0 <= i < |s| && IsWs(s[i]) ==> s[i] == ' '
    ensures forall i :: 0 <= i < |Trim(s)| && IsWs(Trim(s)[i]) ==> Trim(s)[i] == ' '
  {
    var a, b :| 0 <= a <= b <= |s| && Trim(s) == s[a..b] && AllWs(s[..a]) && AllWs(s[b..]);
    forall i | 0 <= i < |Trim(s)|
      ensures Trim(s)[i] == s[a + i]
    {
    }
  }

  // ---------------------------------------------------------------------------
  // Words: the reference reading of "collapse every whitespace run to one
  // space, then trim"

  /** Number of non-whitespace characters at the start of `s`. */
  function LeadingVisible(s: string): (k: nat)
    ensures k <= |s|
    ensures forall i :: 0 <= i < k ==> !IsWs(s[i])
    ensures k < |s| ==> IsWs(s[k])
  {
    if s == [] || IsWs(s[0]) then 0 else 1 + LeadingVisible(s[1..])
  }

  /** A word: a non-empty text without whitespace. */
  predicate IsWord(w: string) {
    w != [] && forall i :: 0 <= i < |w| ==> !IsWs(w[i])
  }

  /** The maximal runs of non-whitespace characters of `s`, in order. */
  function Words(s: string): (ws: seq<string>)
    ensures forall j :: 0 <= j < |ws| ==> IsWord(ws[j])
    decreases |s|
  {
    if s == [] then []
    else if IsWs(s[0]) then Words(s[1..])
    else
      var k := LeadingVisible(s);
      [s[..k]] + Words(s[k..])
  }

  lemma {:induction false} WordsSkipWs(s: string, k: nat)
    requires k <= |s| && forall i :: 0 <= i < k ==> IsWs(s[i])
    ensures Words(s[k..]) == Words(s)
    decreases k
  {
    if k > 0 {
      assert s[1..][k - 1..] == s[k..];
      WordsSkipWs(s[1..], k - 1);
    }
  }

  /** Collapsing passes a run of visible characters through unchanged. */
  lemma {:induction false} CollapseVisibleRun(s: string, k: nat)
    requires k <= |s| && forall i :: 0 <= i < k ==> !IsWs(s[i])
    ensures Collapse(s, 1, " ") == s[..k] + Collapse(s[k..], 1, " ")
    decreases k
  {
    if k > 0 {
      CollapseVisibleRun(s[1..], k - 1);
      assert s[1..][k - 1..] == s[k..];
      assert s[..k] == [s[0]] + s[1..][..k - 1];
    }
  }

  /** A single space when `s` ends in whitespace, otherwise nothing. */
  function TrailSpace(s: string): string {
    if s != [] && IsWs(s[|s| - 1]) then " " else ""
  }

  lemma CollapseWsStep(s: string)
    requires s != [] && IsWs(s[0])
    ensures Collapse(s, 1, " ") == " " + Collapse(s[LeadingWs(s)..], 1, " ")
  {
  }

  lemma WordsVisibleStep(s: string)
    requires s != [] && !IsWs(s[0])
    ensures Words(s) == [s[..LeadingVisible(s)]] + Words(s[LeadingVisible(s)..])
  {
  }

  lemma JoinCons(w: string, ws: seq<string>, sep: string)
    requires ws != []
    ensures Join([w] + ws, sep) == w + sep + Join(ws, sep)
  {
    assert ([w] + ws)[1..] == ws;
  }

  lemma TrailSpaceSuffix(x: string, y: string, k: nat)
    requires k <= |x| && y == x[k..]
    ensures y != [] ==> TrailSpace(y) == TrailSpace(x)
  {
    if y != [] {
      assert x[|x| - 1] == y[|y| - 1];
    }
  }

  /** Collapsing a text that does not start with whitespace gives its words
      joined by single spaces, plus one space when the text ends in whitespace. */
  lemma {:induction false} CollapseWords(x: string)
    requires x == [] || !IsWs(x[0])
    ensures Collapse(x, 1, " ") == Join(Words(x), " ") + TrailSpace(x)
    decreases |x|, 1
  {
    if x != [] {
      var v := LeadingVisible(x);
      var w := x[..v];
      var rest := x[v..];
      CollapseVisibleRun(x, v);
      WordsVisibleStep(x);
      TrailSpaceSuffix(x, rest, v);
      if rest == [] {
        CollapseWordsLast(x, w, rest);
      } else {
        CollapseWsRun(rest);
        if Words(rest) == [] {
          assert Join([w], " ") == w;
        } else {
          JoinCons(w, Words(rest), " ");
          ConcatStep(Collapse(x, 1, " "), w, Collapse(rest, 1, " "), Collapse(rest, 1, " ")[1..],
                     Join(Words(rest), " "), TrailSpace(rest), Join(Words(x), " "));
        }
      }
    }
  }

  /** The same for a text that starts with whitespace: one leading space,
      then the words. */
  lemma {:induction false} CollapseWsRun(rest: string)
    requires rest != [] && IsWs(rest[0])
    ensures Words(rest) == [] ==> Collapse(rest, 1, " ") == " " && TrailSpace(rest) == " "
    ensures Words(rest) != [] ==> Collapse(rest, 1, " ") == " " + (Join(Words(rest), " ") + TrailSpace(rest))
    decreases |rest|, 0
  {
    var k := LeadingWs(rest);
    var y := rest[k..];
    CollapseWsStep(rest);
    WordsSkipWs(rest, k);
    if y == [] {
      CollapseWordsTrailing(rest, y);
    } else {
      CollapseWords(y);
      TrailSpaceSuffix(rest, y, k);
    }
  }

  lemma CollapseWordsLast(x: string, w: string, rest: string)
    requires x == w + rest && rest == [] && w != [] && !IsWs(w[|w| - 1])
    requires Collapse(x, 1, " ") == w + Collapse(rest, 1, " ")
    requires Words(x) == [w] + Words(rest)
    ensures Collapse(x, 1, " ") == Join(Words(x), " ") + TrailSpace(x)
  {
    assert x == w;
    assert Words(rest) == [];
    assert Join([w], " ") == w;
  }

  lemma CollapseWordsTrailing(rest: string, y: string)
    requires rest != [] && IsWs(rest[0]) && y == [] && AllWs(rest)
    requires Collapse(rest, 1, " ") == " " + Collapse(y, 1, " ")
    requires Words(y) == Words(rest)
    ensures Words(rest) == [] && Collapse(rest, 1, " ") == " " && TrailSpace(rest) == " "
  {
    assert Words(y) == [];
    assert IsWs(rest[|rest| - 1]);
  }

  lemma ConcatStep(cx: string, w: string, crest: string, cy: string, jy: string, t: string, jx: string)
    requires cx == w + crest && crest == " " + cy && cy == jy + t && jx == w + " " + jy
    ensures cx == jx + t
  {
  }

  /** Words joined by spaces start and end with a visible character. */
  lemma {:induction false} JoinWordsEnds(ws: seq<string>)
    requires forall j :: 0 <= j < |ws| ==> IsWord(ws[j])
    ensures Join(ws, " ") == [] <==> ws == []
    ensures Join(ws, " ") != [] ==> !IsWs(Join(ws, " ")[0]) && !IsWs(Join(ws, " ")[|Join(ws, " ")| - 1])
    decreases |ws|
  {
    if |ws| > 1 {
      JoinWordsEnds(ws[1..]);
      var j := Join(ws, " ");
      assert j == ws[0] + " " + Join(ws[1..], " ");
      assert j[0] == ws[0][0];
      assert j[|j| - 1] == Join(ws[1..], " ")[|Join(ws[1..], " ")| - 1];
    } else if |ws| == 1 {
      assert Join(ws, " ") == ws[0];
    }
  }

  lemma {:induction false} LeadingWsPadded(a: string, m: string)
    requires AllWs(a) && m != [] && !IsWs(m[0])
    ensures LeadingWs(a + m) == |a|
    decreases |a|
  {
    if a != [] {
      assert (a + m)[1..] == a[1..] + m;
      LeadingWsPadded(a[1..], m);
    }
  }

  lemma {:induction false} TrailingWsPadded(m: string, b: string)
    requires AllWs(b) && m != [] && !IsWs(m[|m| - 1])
    ensures TrailingWs(m + b) == |b|
    decreases |b|
  {
    if b != [] {
      assert (m + b)[..|m + b| - 1] == m + b[..|b| - 1];
      TrailingWsPadded(m, b[..|b| - 1]);
    }
  }

  /** Trimming removes exactly the whitespace around a text with visible ends. */
  lemma TrimPadded(a: string, m: string, b: string)
    requires AllWs(a) && AllWs(b)
    requires m != [] ==> !IsWs(m[0]) && !IsWs(m[|m| - 1])
    ensures Trim(a + m + b) == m
  {
    var s := a + m + b;
    if m == [] {
      assert AllWs(s) by {
        assert s == a + b;
      }
    } else {
      assert a + m + b == a + (m + b);
      LeadingWsPadded(a, m + b);
      assert a + m + b == (a + m) + b;
      TrailingWsPadded(a + m, b);
      assert s[|a|..|s| - |b|] == m;
    }
  }

  /** "Every whitespace run becomes one space, then trim" leaves exactly the
      words of the text, separated by single spaces. */
  lemma CollapseTrimWords(x: string)
    ensures Trim(Collapse(x, 1, " ")) == Join(Words(x), " ")
  {
    var k := LeadingWs(x);
    var y := x[k..];
    WordsSkipWs(x, k);
    CollapseWords(y);
    var lead := if k == 0 then "" else " ";
    var m, t := Join(Words(y), " "), TrailSpace(y);
    JoinWordsEnds(Words(y));
    CollapseLead(x, k, y, lead, m + t);
    TrimSpaced(Collapse(x, 1, " "), lead, m, t);
  }

  /** Trimming a text with visible ends padded by at most a space on each side. */
  lemma TrimSpaced(c: string, lead: string, m: string, t: string)
    requires lead == "" || lead == " "
    requires t == "" || t == " "
    requires m != [] ==> !IsWs(m[0]) && !IsWs(m[|m| - 1])
    requires c == lead + (m + t)
    ensures Trim(c) == m
  {
    assert c == lead + m + t;
    assert AllWs(lead) && AllWs(t);
    TrimPadded(lead, m, t);
  }

  lemma CollapseLead(x: string, k: nat, y: string, lead: string, c: string)
    requires k == LeadingWs(x) && y == x[k..] && lead == if k == 0 then "" else " "
    requires Collapse(y, 1, " ") == c
    ensures Collapse(x, 1, " ") == lead + c
  {
    if k == 0 {
      assert y == x;
      assert lead + c == c;
    } else {
      CollapseWsStep(x);
    }
  }

  /** Taking a prefix keeps the bound on whitespace runs. */
  lemma TakeNoWsRun(s: string, k: nat, n: nat)
    requires NoWsRun(s, k)
    ensures NoWsRun(Take(s, n), k)
  {
    NoWsRunSlice(s, k, 0, |Take(s, n)|);
    assert Take(s, n) == s[0..|Take(s, n)|];
  }
}
