/**
 * The PDF branch of the deep scan: `extractPdfText`, the 2000-character cap on
 * its result, and the `/Type /Page` marker count used as a page estimate.
 *
 * The text extractor looks for `stream\r?\n ... endstream` blocks, takes every
 * parenthesised run inside a block (the operands of the `Tj`/`TJ` text-showing
 * operators), undoes the backslash escapes, keeps runs holding an ASCII letter
 * or digit, joins them with spaces and collapses whitespace. Compressed streams
 * are opaque to it, as they are to the source.
 */
module PdfSniffer {
  import opened Optional
  import opened Files
  import opened Text

  /** Stream blocks are read while the collected texts, laid end to end without
      separators, hold fewer characters than this. */
  const TextBudget: nat := 2500
  /** The deep scan keeps at most this many leading characters of the text. */
  const ContentCap: nat := 2000

  // ---------------------------------------------------------------------------
  // Stream blocks: `stream`, an optional CR, LF, then any text up to the
  // first `endstream`

  /** Where the body of a `stream\r?\n` header at `i` begins. The optional `\r`
      is tried first; without a following `\n` the header does not match. */
  function StreamBodyStart(s: string, i: nat): (b: Option<nat>)
    ensures b.Some? ==> i + 7 <= b.value <= i + 8 && b.value <= |s|
    ensures b.Some? ==> At(s, i, "stream") && s[b.value - 1] == '\n'
    ensures At(s, i, "stream\r\n") ==> b == Some(i + 8)
    ensures At(s, i, "stream\n") ==> b == Some(i + 7)
    ensures b.None? ==> !At(s, i, "stream\r\n") && !At(s, i, "stream\n")
  {
    if At(s, i, "stream\r\n") then
      assert !At(s, i, "stream\n") by {
        assert s[i + 6] == s[i..i + 8][6];
        if i + 7 <= |s| {
          assert s[i..i + 7][6] == s[i + 6];
        }
      }
      assert s[i..i + 6] == s[i..i + 8][..6];
      assert s[i + 7] == s[i..i + 8][7];
      Some(i + 8)
    else if At(s, i, "stream\n") then
      assert s[i..i + 6] == s[i..i + 7][..6];
      assert s[i + 6] == s[i..i + 7][6];
      Some(i + 7)
    else None
  }

  /** The block matched at `i`: the start of its body and the index of the first
      `endstream` after it (the lazy `*?` stops at the first one). */
  function BlockAt(s: string, i: nat): (r: Option<(nat, nat)>)
    ensures r.Some? ==> i + 7 <= r.value.0 <= r.value.1 && At(s, r.value.1, "endstream")
    ensures r.Some? ==> forall m :: r.value.0 <= m < r.value.1 ==> !At(s, m, "endstream")
    ensures r.Some? ==> StreamBodyStart(s, i) == Some(r.value.0)
    ensures r.None? ==> StreamBodyStart(s, i).None?
                        || forall m :: StreamBodyStart(s, i).value <= m ==> !At(s, m, "endstream")
  {
    match StreamBodyStart(s, i)
    case None => None
    case Some(b) =>
      match FindFrom(s, "endstream", b)
      case None => None
      case Some(e) => Some((b, e))
  }

  /** Start of the leftmost block at or after `from`. */
  function NextBlock(s: string, from: nat): (r: Option<nat>)
    ensures r.Some? ==> from <= r.value && BlockAt(s, r.value).Some?
    ensures r.Some? ==> forall i :: from <= i < r.value ==> BlockAt(s, i).None?
    ensures r.None? ==> forall i :: from <= i ==> BlockAt(s, i).None?
    decreases |s| - from
  {
    if from >= |s| then None
    else if BlockAt(s, from).Some? then Some(from)
    else NextBlock(s, from + 1)
  }

  // ---------------------------------------------------------------------------
  // Parenthesised runs inside a block: `(`, then anything but `)`, then `)`

  /** Index of the `)` closing the run opened at `k`: the first `)` after it. */
  function RunAt(t: string, k: nat): (r: Option<nat>)
    ensures r.Some? ==> k < r.value < |t| && t[k] == '(' && t[r.value] == ')'
    ensures r.Some? ==> forall m :: k < m < r.value ==> t[m] != ')'
    ensures r.None? ==> k >= |t| || t[k] != '(' || forall m :: k < m < |t| ==> t[m] != ')'
  {
    if k < |t| && t[k] == '(' then
      match FindFrom(t, ")", k + 1)
      case None =>
        assert forall m :: k < m < |t| ==> t[m] != ')' by {
          forall m | k < m < |t|
            ensures t[m] != ')'
          {
            assert !At(t, m, ")");
            assert t[m..m + 1] == [t[m]];
          }
        }
        None
      case Some(c) =>
        assert t[c..c + 1] == ")";
        assert forall m :: k < m < c ==> t[m] != ')' by {
          forall m | k < m < c
            ensures t[m] != ')'
          {
            assert !At(t, m, ")");
            assert t[m..m + 1] == [t[m]];
          }
        }
        Some(c)
    else None
  }

  /** Start of the leftmost run at or after `from`. */
  function NextRun(t: string, from: nat): (r: Option<nat>)
    ensures r.Some? ==> from <= r.value && RunAt(t, r.value).Some?
    ensures r.Some? ==> forall k :: from <= k < r.value ==> RunAt(t, k).None?
    ensures r.None? ==> forall k :: from <= k ==> RunAt(t, k).None?
    decreases |t| - from
  {
    if from >= |t| then None
    else if RunAt(t, from).Some? then Some(from)
    else NextRun(t, from + 1)
  }

  /** Every occurrence of the two characters `a b` replaced by `rep`, scanning
      left to right without overlaps. */
  function ReplacePair(s: string, a: char, b: char, rep: string): (r: string)
    ensures a !in s ==> r == s
    ensures |rep| <= 2 ==> |r| <= |s|
  {
    if |s| < 2 then s
    else if s[0] == a && s[1] == b then rep + ReplacePair(s[2..], a, b, rep)
    else [s[0]] + ReplacePair(s[1..], a, b, rep)
  }

  /** The escape handling of a run: `\n` becomes a line feed, `\r` is dropped,
      then `\(`, `\)` and `\\` lose their backslash, in that order. */
  function Unescape(run: string): (r: string)
    ensures |r| <= |run|
    ensures '\\' !in run ==> r == run
  {
    var s1 := ReplacePair(run, '\\', 'n', "\n");
    var s2 := ReplacePair(s1, '\\', 'r', "");
    var s3 := ReplacePair(s2, '\\', '(', "(");
    var s4 := ReplacePair(s3, '\\', ')', ")");
    ReplacePair(s4, '\\', '\\', "\\")
  }

  /** The replacements run one after the other, so an escaped backslash
      followed by `n` becomes a backslash and a line feed: the first pass has
      already read the second backslash and the `n` as an escape. */
  lemma UnescapeInOrder(run: string)
    requires run == ['\\', '\\', 'n']
    ensures Unescape(run) == ['\\', '\n']
  {
    assert ReplacePair(run, '\\', 'n', "\n") == ['\\', '\n'];
    assert ReplacePair(['\\', '\n'], '\\', '\\', "\\") == ['\\', '\n'];
  }

  lemma ConsRegroup(x: string, u: string, v: string)
    requires x != []
    ensures [x[0]] + (x[1..] + u + v) == x + u + v
  {
    assert [x[0]] + x[1..] == x;
  }

  /** A pair preceded only by text without `a` is replaced, and the scan
      resumes right after it. */
  lemma {:induction false} ReplacePairAt(x: string, y: string, a: char, b: char, rep: string)
    requires a !in x
    ensures ReplacePair(x + [a, b] + y, a, b, rep) == x + rep + ReplacePair(y, a, b, rep)
    decreases |x|
  {
    var t := x + [a, b] + y;
    var r := ReplacePair(y, a, b, rep);
    if x == [] {
      assert t == [a, b] + y;
      assert t[2..] == y;
      ReplacePairHit(t, a, b, rep);
      assert x + rep + r == rep + r;
    } else {
      assert t[0] == x[0] && t[1..] == x[1..] + [a, b] + y;
      ReplacePairMiss(t, a, b, rep);
      ReplacePairAt(x[1..], y, a, b, rep);
      ConsRegroup(x, rep, r);
    }
  }

  /** A pair at the front is rewritten and the scan resumes after it. */
  lemma ReplacePairHit(t: string, a: char, b: char, rep: string)
    requires |t| >= 2 && t[0] == a && t[1] == b
    ensures ReplacePair(t, a, b, rep) == rep + ReplacePair(t[2..], a, b, rep)
  {
  }

  /** A front character that cannot start the pair is kept. */
  lemma ReplacePairMiss(t: string, a: char, b: char, rep: string)
    requires |t| >= 2 && (t[0] != a || t[1] != b)
    ensures ReplacePair(t, a, b, rep) == [t[0]] + ReplacePair(t[1..], a, b, rep)
  {
  }

  /** An `a` not followed by `b` is kept, and the scan resumes at the next
      character, so that character may start a pair of its own. */
  lemma {:induction false} ReplacePairSkip(x: string, y: string, a: char, b: char, rep: string)
    requires a !in x
    requires y == [] || y[0] != b
    ensures ReplacePair(x + [a] + y, a, b, rep) == x + [a] + ReplacePair(y, a, b, rep)
    decreases |x|
  {
    var t := x + [a] + y;
    var r := ReplacePair(y, a, b, rep);
    if x == [] {
      assert t == [a] + y;
      assert t[1..] == y;
      if y != [] {
        assert t[1] == y[0];
        ReplacePairMiss(t, a, b, rep);
      }
      assert x + [a] + r == [a] + r;
    } else {
      assert t[0] == x[0] && |t| >= 2 && t[1..] == x[1..] + [a] + y;
      ReplacePairMiss(t, a, b, rep);
      ReplacePairSkip(x[1..], y, a, b, rep);
      ConsRegroup(x, [a], r);
    }
  }

  /** What one escape decodes to. */
  function EscapeValue(c: char): string {
    match c
    case 'n' => "\n"
    case 'r' => ""
    case _ => [c]
  }

  /** A pass for escape `d` leaves text with one backslash, followed by `c`,
      unchanged when `d` is not `c`, provided what follows cannot pair with
      the kept backslash. */
  lemma PassKeeps(x: string, c: char, y: string, d: char, rep: string)
    requires '\\' !in x && '\\' !in y && c != d
    requires c == '\\' ==> y == [] || y[0] != d
    ensures ReplacePair(x + ['\\', c] + y, '\\', d, rep) == x + ['\\', c] + y
  {
    var cy := [c] + y;
    assert x + ['\\', c] + y == x + ['\\'] + cy;
    ReplacePairSkip(x, cy, '\\', d, rep);
    if c == '\\' {
      assert cy == [] + ['\\'] + y;
      ReplacePairSkip([], y, '\\', d, rep);
      assert ReplacePair(y, '\\', d, rep) == y;
    } else {
      assert '\\' !in cy;
      assert ReplacePair(cy, '\\', d, rep) == cy;
    }
  }

  /** Every escape decodes on its own: a single escape in text that holds no
      other backslash becomes its value, and nothing else changes. An escaped
      backslash decodes only when the next character does not start another
      escape, which UnescapeInOrder shows. */
  lemma UnescapeOne(x: string, c: char, y: string)
    requires '\\' !in x && '\\' !in y
    requires c in "nr()\\"
    requires c == '\\' ==> y == [] || y[0] !in "nr()"
    ensures Unescape(x + ['\\', c] + y) == x + EscapeValue(c) + y
  {
    if c != '\\' {
      assert '\\' !in x + EscapeValue(c) + y;
    }
    if c == 'n' {
      ReplacePairAt(x, y, '\\', 'n', "\n");
    } else if c == 'r' {
      PassKeeps(x, c, y, 'n', "\n");
      ReplacePairAt(x, y, '\\', 'r', "");
    } else if c == '(' {
      PassKeeps(x, c, y, 'n', "\n");
      PassKeeps(x, c, y, 'r', "");
      ReplacePairAt(x, y, '\\', '(', "(");
    } else if c == ')' {
      PassKeeps(x, c, y, 'n', "\n");
      PassKeeps(x, c, y, 'r', "");
      PassKeeps(x, c, y, '(', "(");
      ReplacePairAt(x, y, '\\', ')', ")");
    } else {
      PassKeeps(x, c, y, 'n', "\n");
      PassKeeps(x, c, y, 'r', "");
      PassKeeps(x, c, y, '(', "(");
      PassKeeps(x, c, y, ')', ")");
      ReplacePairAt(x, y, '\\', '\\', "\\");
    }
  }

  predicate HasAlnum(d: string) {
    exists i :: 0 <= i < |d| && IsAsciiAlnum(d[i])
  }

  /** A run is kept when something is left after trimming and it holds an
      ASCII letter or digit. */
  predicate Accepted(d: string) {
    Trim(d) != [] && HasAlnum(d)
  }

  /** An ASCII letter or digit already survives trimming, so acceptance is
      exactly "holds a letter or digit". */
  lemma AcceptedIffAlnum(d: string)
    ensures Accepted(d) <==> HasAlnum(d)
  {
    if HasAlnum(d) {
      var i :| 0 <= i < |d| && IsAsciiAlnum(d[i]);
      assert !IsWs(d[i]);
    }
  }

  /** The accepted, unescaped runs of a block, from index `from` on. */
  function BlockRuns(t: string, from: nat): (runs: seq<string>)
    ensures forall j :: 0 <= j < |runs| ==> HasAlnum(runs[j])
    decreases |t| - from
  {
    match NextRun(t, from)
    case None => []
    case Some(k) =>
      var c := RunAt(t, k).value;
      var d := Unescape(t[k + 1..c]);
      var head := if Accepted(d) then [d] else [];
      var rest := BlockRuns(t, c + 1);
      AlnumConcat(head, rest);
      head + rest
  }

  /** Two lists of texts that each hold a letter or digit stay so when joined. */
  lemma AlnumConcat(a: seq<string>, b: seq<string>)
    requires forall j :: 0 <= j < |a| ==> HasAlnum(a[j])
    requires forall j :: 0 <= j < |b| ==> HasAlnum(b[j])
    ensures forall j :: 0 <= j < |a + b| ==> HasAlnum((a + b)[j])
  {
    forall j | 0 <= j < |a + b|
      ensures HasAlnum((a + b)[j])
    {
      if j < |a| {
        assert (a + b)[j] == a[j];
      } else {
        assert (a + b)[j] == b[j - |a|];
      }
    }
  }

  /** The leftmost block at or after `from`, as the start of its body and the
      index of the `endstream` that closes it. */
  function NextBody(s: string, from: nat): (r: Option<(nat, nat)>)
    ensures r.Some? ==> from < r.value.0 <= r.value.1 && r.value.1 + 9 <= |s|
    ensures r.Some? ==> forall m :: r.value.0 <= m < r.value.1 ==> !At(s, m, "endstream")
  {
    match NextBlock(s, from)
    case None => None
    case Some(i) => BlockAt(s, i)
  }

  /** `NextBody` is the block the leftmost search finds, and there is none
      exactly when that search finds nothing. */
  lemma NextBodyIsBlock(s: string, from: nat)
    ensures NextBody(s, from).None? <==> NextBlock(s, from).None?
    ensures NextBody(s, from).Some? ==> NextBody(s, from) == BlockAt(s, NextBlock(s, from).value)
  {
  }

  /** The bodies of the stream blocks from `from` on, in order: each block
      resumes the search just after the `endstream` that closed the previous one. */
  function BlockBodies(s: string, from: nat): (bodies: seq<string>)
    ensures bodies == [] <==> NextBody(s, from).None?
    ensures bodies != [] ==> bodies[0] == s[NextBody(s, from).value.0..NextBody(s, from).value.1]
    decreases |s| - from
  {
    match NextBody(s, from)
    case None => []
    case Some(blk) => [s[blk.0..blk.1]] + BlockBodies(s, blk.1 + 9)
  }

  /** After the first body, the search resumes just past its `endstream`. */
  lemma BlockBodiesStep(s: string, from: nat)
    requires NextBody(s, from).Some?
    ensures BlockBodies(s, from) == [s[NextBody(s, from).value.0..NextBody(s, from).value.1]]
                                    + BlockBodies(s, NextBody(s, from).value.1 + 9)
  {
  }

  /** The outer loop of `extractPdfText` over the block bodies: a block is read
      while the texts gathered so far hold fewer than 2500 characters in all. */
  function Gather(bodies: seq<string>, acc: seq<string>): (texts: seq<string>)
    ensures acc <= texts
    ensures forall j :: |acc| <= j < |texts| ==> HasAlnum(texts[j])
  {
    if bodies == [] || RawLength(acc) >= TextBudget then acc
    else
      var more := BlockRuns(bodies[0], 0);
      var texts := Gather(bodies[1..], acc + more);
      assert forall j :: |acc| <= j < |acc + more| ==> HasAlnum((acc + more)[j]);
      texts
  }

  /** Every text of a document. */
  function Texts(s: string): (texts: seq<string>)
    ensures forall j :: 0 <= j < |texts| ==> HasAlnum(texts[j])
  {
    Gather(BlockBodies(s, 0), [])
  }

  /** The accepted runs of the given blocks, with no budget. */
  function AllRuns(bodies: seq<string>): seq<string>
  {
    if bodies == [] then [] else BlockRuns(bodies[0], 0) + AllRuns(bodies[1..])
  }

  /** Every run the reference yields is accepted, and it yields none exactly
      when no block holds an accepted run. */
  lemma {:induction false} AllRunsAccepted(bodies: seq<string>)
    ensures forall j :: 0 <= j < |AllRuns(bodies)| ==> HasAlnum(AllRuns(bodies)[j])
    ensures AllRuns(bodies) == [] <==> forall k :: 0 <= k < |bodies| ==> BlockRuns(bodies[k], 0) == []
    decreases |bodies|
  {
    if bodies != [] {
      AllRunsAccepted(bodies[1..]);
      AllRunsCons(bodies);
    }
    if AllRuns(bodies) == [] {
      forall k | 0 <= k < |bodies|
        ensures BlockRuns(bodies[k], 0) == []
      {
        AllRunsEmptyAt(bodies, k);
      }
    } else if forall k :: 0 <= k < |bodies| ==> BlockRuns(bodies[k], 0) == [] {
      AllRunsNone(bodies);
    }
  }

  /** The accepted runs of the first block, then those of the rest, are all accepted. */
  lemma AllRunsCons(bodies: seq<string>)
    requires bodies != []
    requires forall j :: 0 <= j < |AllRuns(bodies[1..])| ==> HasAlnum(AllRuns(bodies[1..])[j])
    ensures forall j :: 0 <= j < |AllRuns(bodies)| ==> HasAlnum(AllRuns(bodies)[j])
  {
    AllRunsUnfold(bodies);
    AlnumConcat(BlockRuns(bodies[0], 0), AllRuns(bodies[1..]));
  }

  /** The reference reads the first block, then the rest. */
  lemma AllRunsUnfold(bodies: seq<string>)
    requires bodies != []
    ensures AllRuns(bodies) == BlockRuns(bodies[0], 0) + AllRuns(bodies[1..])
  {
  }

  /** With no run at all, block `k` has none either. */
  lemma {:induction false} AllRunsEmptyAt(bodies: seq<string>, k: nat)
    requires AllRuns(bodies) == [] && k < |bodies|
    ensures BlockRuns(bodies[k], 0) == []
    decreases k
  {
    AllRunsUnfold(bodies);
    if k > 0 {
      AllRunsEmptyAt(bodies[1..], k - 1);
      assert bodies[1..][k - 1] == bodies[k];
    }
  }

  /** No block with a run means no run at all. */
  lemma {:induction false} AllRunsNone(bodies: seq<string>)
    requires forall k :: 0 <= k < |bodies| ==> BlockRuns(bodies[k], 0) == []
    ensures AllRuns(bodies) == []
    decreases |bodies|
  {
    if bodies != [] {
      var rest := bodies[1..];
      forall k | 0 <= k < |rest|
        ensures BlockRuns(rest[k], 0) == []
      {
        assert rest[k] == bodies[k + 1];
      }
      AllRunsNone(rest);
      assert BlockRuns(bodies[0], 0) == [];
      AllRunsUnfold(bodies);
    }
  }

  lemma {:induction false} RawLengthAppend(a: seq<string>, b: seq<string>)
    ensures RawLength(a + b) == RawLength(a) + RawLength(b)
    decreases |a|
  {
    if a != [] {
      assert (a + b)[1..] == a[1..] + b;
      RawLengthAppend(a[1..], b);
    } else {
      assert a + b == b;
    }
  }

  /** The budgeted loop reads a prefix of the unbudgeted runs, and all of them
      while their total stays under the budget. */
  lemma {:induction false} GatherPrefix(bodies: seq<string>, acc: seq<string>)
    ensures Gather(bodies, acc) <= acc + AllRuns(bodies)
    ensures RawLength(acc + AllRuns(bodies)) < TextBudget ==> Gather(bodies, acc) == acc + AllRuns(bodies)
    decreases |bodies|
  {
    if bodies == [] {
      assert acc + [] == acc;
    } else {
      var more := BlockRuns(bodies[0], 0);
      var rest := AllRuns(bodies[1..]);
      assert AllRuns(bodies) == more + rest;
      assert acc + (more + rest) == (acc + more) + rest;
      RawLengthAppend(acc, more + rest);
      if RawLength(acc) < TextBudget {
        GatherPrefix(bodies[1..], acc + more);
      }
    }
  }

  /** The runs of the first `k` blocks are those of the first block followed
      by the runs of the next `k - 1`. */
  lemma AllRunsTake(bodies: seq<string>, k: nat)
    requires 1 <= k <= |bodies|
    ensures AllRuns(bodies[..k]) == BlockRuns(bodies[0], 0) + AllRuns(bodies[1..][..k - 1])
  {
    var t := bodies[..k];
    assert t[0] == bodies[0];
    assert t[1..] == bodies[1..][..k - 1];
  }

  /** The characters gathered after reading the first `k` blocks. */
  function GatheredAfter(bodies: seq<string>, acc: seq<string>, k: nat): nat
    requires k <= |bodies|
  {
    RawLength(acc + AllRuns(bodies[..k]))
  }

  /** `k` is where the budgeted loop stops: before each of the first `k`
      blocks the texts held fewer than 2500 characters, and after them either
      no block is left or the budget is reached. */
  predicate BudgetCut(bodies: seq<string>, acc: seq<string>, k: nat) {
    k <= |bodies|
    && (forall k' :: 0 <= k' < k ==> GatheredAfter(bodies, acc, k') < TextBudget)
    && (k == |bodies| || GatheredAfter(bodies, acc, k) >= TextBudget)
  }

  /** Reading the first block moves the accumulated texts on by its runs. */
  lemma GatheredStep(bodies: seq<string>, acc: seq<string>, k: nat)
    requires 1 <= k <= |bodies|
    ensures GatheredAfter(bodies, acc, k) == GatheredAfter(bodies[1..], acc + BlockRuns(bodies[0], 0), k - 1)
  {
    AllRunsTake(bodies, k);
    assert acc + AllRuns(bodies[..k]) == acc + BlockRuns(bodies[0], 0) + AllRuns(bodies[1..][..k - 1]);
  }

  /** Nothing is gathered before the first block. */
  lemma GatheredNone(bodies: seq<string>, acc: seq<string>)
    ensures GatheredAfter(bodies, acc, 0) == RawLength(acc)
  {
    assert bodies[..0] == [];
    assert acc + AllRuns(bodies[..0]) == acc;
  }

  /** The texts after the first block's runs, regrouped. */
  lemma RunsRegroup(bodies: seq<string>, acc: seq<string>, k: nat)
    requires 1 <= k <= |bodies|
    ensures acc + BlockRuns(bodies[0], 0) + AllRuns(bodies[1..][..k - 1]) == acc + AllRuns(bodies[..k])
  {
    AllRunsTake(bodies, k);
  }

  /** Reading the first block with budget left moves the cut one block on. */
  lemma CutStep(bodies: seq<string>, acc: seq<string>, k1: nat)
    requires bodies != [] && RawLength(acc) < TextBudget
    requires BudgetCut(bodies[1..], acc + BlockRuns(bodies[0], 0), k1)
    ensures BudgetCut(bodies, acc, k1 + 1)
  {
    forall k' | 0 <= k' < k1 + 1
      ensures GatheredAfter(bodies, acc, k') < TextBudget
    {
      if k' == 0 {
        GatheredNone(bodies, acc);
      } else {
        GatheredStep(bodies, acc, k');
      }
    }
    if k1 + 1 < |bodies| {
      GatheredStep(bodies, acc, k1 + 1);
    }
  }

  /** The budgeted loop reads exactly the blocks before the cut, each whole. */
  lemma {:induction false} GatherCut(bodies: seq<string>, acc: seq<string>)
    ensures exists k: nat :: BudgetCut(bodies, acc, k) && Gather(bodies, acc) == acc + AllRuns(bodies[..k])
    decreases |bodies|
  {
    if bodies == [] || RawLength(acc) >= TextBudget {
      GatheredNone(bodies, acc);
      assert acc + AllRuns(bodies[..0]) == acc by {
        assert bodies[..0] == [];
      }
      assert BudgetCut(bodies, acc, 0);
    } else {
      var more := BlockRuns(bodies[0], 0);
      assert Gather(bodies, acc) == Gather(bodies[1..], acc + more);
      GatherCut(bodies[1..], acc + more);
      var k1: nat :| BudgetCut(bodies[1..], acc + more, k1)
                     && Gather(bodies[1..], acc + more) == acc + more + AllRuns(bodies[1..][..k1]);
      CutStep(bodies, acc, k1);
      RunsRegroup(bodies, acc, k1 + 1);
      assert BudgetCut(bodies, acc, k1 + 1) && Gather(bodies, acc) == acc + AllRuns(bodies[..k1 + 1]);
    }
  }

  /** With budget left, the loop gathers something exactly when some block
      holds an accepted run: blocks without one leave the budget untouched. */
  lemma {:induction false} GatherSomething(bodies: seq<string>, acc: seq<string>)
    requires RawLength(acc) < TextBudget
    ensures |Gather(bodies, acc)| > |acc| <==> AllRuns(bodies) != []
    decreases |bodies|
  {
    if bodies != [] {
      var more := BlockRuns(bodies[0], 0);
      assert AllRuns(bodies) == more + AllRuns(bodies[1..]);
      if more == [] {
        assert acc + more == acc;
        GatherSomething(bodies[1..], acc);
      } else {
        assert |Gather(bodies[1..], acc + more)| >= |acc + more|;
      }
    }
  }

  /** Once the gathered texts hold 2500 characters, no later block is read, even
      when its text would still fit under the 2000-character content cap. */
  lemma BudgetStops(bodies: seq<string>, acc: seq<string>)
    requires RawLength(acc) >= TextBudget
    ensures Gather(bodies, acc) == acc
  {
  }

  /** The texts of a document are a prefix of the accepted runs of all its
      blocks, and all of them when those hold fewer than 2500 characters. */
  lemma TextsPrefix(s: string)
    ensures Texts(s) <= AllRuns(BlockBodies(s, 0))
    ensures RawLength(AllRuns(BlockBodies(s, 0))) < TextBudget ==> Texts(s) == AllRuns(BlockBodies(s, 0))
    ensures exists k: nat :: BudgetCut(BlockBodies(s, 0), [], k) && Texts(s) == AllRuns(BlockBodies(s, 0)[..k])
    ensures Texts(s) != [] <==> AllRuns(BlockBodies(s, 0)) != []
  {
    var bodies := BlockBodies(s, 0);
    GatherPrefix(bodies, []);
    assert [] + AllRuns(bodies) == AllRuns(bodies);
    GatherCut(bodies, []);
    var k: nat :| BudgetCut(bodies, [], k) && Gather(bodies, []) == [] + AllRuns(bodies[..k]);
    assert [] + AllRuns(bodies[..k]) == AllRuns(bodies[..k]);
    assert RawLength([]) == 0;
    GatherSomething(bodies, []);
  }

  lemma {:induction false} JoinVisibleNonEmpty(texts: seq<string>)
    requires texts != [] && HasAlnum(texts[0])
    ensures Visible(Join(texts, " ")) != []
  {
    var i :| 0 <= i < |texts[0]| && IsAsciiAlnum(texts[0][i]);
    var j := Join(texts, " ");
    if |texts| == 1 {
      VisibleOfVisibleChar(texts[0], i);
    } else {
      assert j[i] == texts[0][i];
      VisibleOfVisibleChar(j, i);
    }
  }

  /** Whitespace normalisation: every whitespace run becomes one space, then
      the ends are trimmed. What is left is the words of the text separated by
      single spaces. */
  function Normalize(x: string): (r: string)
    ensures r == Join(Words(x), " ")
    ensures r != [] ==> !IsWs(r[0]) && !IsWs(r[|r| - 1])
    ensures NoWsRun(r, 2)
    ensures forall i :: 0 <= i < |r| && IsWs(r[i]) ==> r[i] == ' '
    ensures Visible(r) == Visible(x)
  {
    var collapsed := Collapse(x, 1, " ");
    var r := Trim(collapsed);
    CollapseVisible(x, 1, " ");
    TrimVisible(collapsed);
    CollapseBoundsRuns(x, 1, " ", 2);
    TrimNoWsRun(collapsed, 2);
    CollapseToSpaces(x);
    TrimSpacesOnly(collapsed);
    CollapseTrimWords(x);
    r
  }

  /** The last step of `extractPdfText`: the collected texts joined with
      spaces and normalised; `null` when nothing is left. */
  function JoinText(texts: seq<string>): (r: Option<string>)
    requires forall j :: 0 <= j < |texts| ==> HasAlnum(texts[j])
    ensures r.Some? <==> texts != []
    ensures r.Some? ==> r.value != [] && !IsWs(r.value[0]) && !IsWs(r.value[|r.value| - 1])
    ensures r.Some? ==> NoWsRun(r.value, 2)
    ensures r.Some? ==> forall i :: 0 <= i < |r.value| && IsWs(r.value[i]) ==> r.value[i] == ' '
    ensures r.Some? ==> Visible(r.value) == Visible(Join(texts, " "))
    ensures r.Some? ==> r.value == Join(Words(Join(texts, " ")), " ")
  {
    var joined := Join(texts, " ");
    var text := Normalize(joined);
    assert texts != [] ==> Visible(joined) != [] by {
      if texts != [] {
        JoinVisibleNonEmpty(texts);
      }
    }
    if text == [] then None else Some(text)
  }

  /** `extractPdfText`: the accepted runs of the document joined and
      normalised; `null` when there are none. */
  function ExtractText(s: string): (r: Option<string>)
    ensures r.Some? <==> Texts(s) != []
    ensures r.Some? <==> AllRuns(BlockBodies(s, 0)) != []
    ensures r.Some? ==> r.value != [] && !IsWs(r.value[0]) && !IsWs(r.value[|r.value| - 1])
    ensures r.Some? ==> NoWsRun(r.value, 2)
    ensures r.Some? ==> forall i :: 0 <= i < |r.value| && IsWs(r.value[i]) ==> r.value[i] == ' '
    ensures r.Some? ==> Visible(r.value) == Visible(Join(Texts(s), " "))
    ensures r.Some? ==> r.value == Join(Words(Join(Texts(s), " ")), " ")
  {
    TextsPrefix(s);
    JoinText(Texts(s))
  }

  lemma {:induction false} VisiblePrefix(a: string, b: string)
    requires a <= b
    ensures Visible(a) <= Visible(b)
  {
    assert b == a + b[|a|..];
    VisibleConcat(a, b[|a|..]);
  }

  /** The `content` field of a PDF: the extracted text cut to 2000
      characters, stated over the collected texts. */
  function TextContent(texts: seq<string>): (r: Option<string>)
    requires forall j :: 0 <= j < |texts| ==> HasAlnum(texts[j])
    ensures r.Some? <==> texts != []
    ensures r.Some? ==> 0 < |r.value| <= ContentCap && !IsWs(r.value[0])
    ensures r.Some? && |r.value| < ContentCap ==> !IsWs(r.value[|r.value| - 1])
    ensures r.Some? ==> NoWsRun(r.value, 2)
    ensures r.Some? ==> forall i :: 0 <= i < |r.value| && IsWs(r.value[i]) ==> r.value[i] == ' '
    ensures r.Some? ==> Visible(r.value) <= Visible(Join(texts, " "))
    ensures r.Some? ==> r.value == Take(Join(Words(Join(texts, " ")), " "), ContentCap)
  {
    match JoinText(texts)
    case None => None
    case Some(t) =>
      var c := Take(t, ContentCap);
      TakeNoWsRun(t, 2, ContentCap);
      VisiblePrefix(c, t);
      Some(c)
  }

  /** The `content` field of a PDF file's bytes. */
  function PdfContent(bytes: seq<Byte>): (r: Option<string>)
    ensures r.Some? <==> Texts(Latin1(bytes)) != []
    ensures r.Some? <==> AllRuns(BlockBodies(Latin1(bytes), 0)) != []
    ensures r.Some? ==> 0 < |r.value| <= ContentCap && !IsWs(r.value[0])
    ensures r.Some? && |r.value| < ContentCap ==> !IsWs(r.value[|r.value| - 1])
    ensures r.Some? ==> NoWsRun(r.value, 2)
    ensures r.Some? ==> forall i :: 0 <= i < |r.value| && IsWs(r.value[i]) ==> r.value[i] == ' '
    ensures r.Some? ==> Visible(r.value) <= Visible(Join(Texts(Latin1(bytes)), " "))
    ensures r.Some? ==> r.value == Take(Join(Words(Join(Texts(Latin1(bytes)), " ")), " "), ContentCap)
  {
    TextsPrefix(Latin1(bytes));
    TextContent(Texts(Latin1(bytes)))
  }

  // ---------------------------------------------------------------------------
  // Page estimate: non-overlapping page markers in the ASCII text

  /** `/Type` at `i`, only whitespace from `i + 5` to `j`, `/Page` at `j`, and
      one more character that is not `s`: a match of the marker pattern. */
  predicate MarkerShape(s: string, i: int, j: int) {
    At(s, i, "/Type") && i + 5 <= j && At(s, j, "/Page") && AllWs(s[i + 5..j]) && j + 5 < |s| && s[j + 5] != 's'
  }

  /** In a match, the whitespace run after `/Type` is the whole run there. */
  lemma MarkerGapUnique(s: string, i: nat, j: int)
    requires MarkerShape(s, i, j)
    ensures j == i + 5 + LeadingWs(s[i + 5..])
  {
    var t := s[i + 5..];
    var l := LeadingWs(t);
    assert s[j] == '/' by {
      assert s[j..j + 5] == "/Page";
      assert s[j..j + 5][0] == s[j];
    }
    assert t[j - i - 5] == s[j];
    assert forall k :: 0 <= k < j - i - 5 ==> s[i + 5..j][k] == t[k];
  }

  /** End of the marker match at `i`. Backing off the greedy `\s*` cannot help,
      so the whitespace run is taken whole; the trailing `[^s]` must consume one
      more character. */
  function MarkerEnd(s: string, i: nat): (e: Option<nat>)
    ensures e.Some? ==> i + 11 <= e.value <= |s|
    ensures e.Some? ==> MarkerShape(s, i, e.value - 6)
    ensures e.None? ==> forall j :: !MarkerShape(s, i, j)
  {
    if At(s, i, "/Type") then
      var j := i + 5 + LeadingWs(s[i + 5..]);
      assert AllWs(s[i + 5..j]) by {
        assert s[i + 5..j] == s[i + 5..][..j - i - 5];
      }
      forall j' | MarkerShape(s, i, j')
        ensures j' == j
      {
        MarkerGapUnique(s, i, j');
      }
      if At(s, j, "/Page") && j + 5 < |s| && s[j + 5] != 's' then Some(j + 6) else None
    else None
  }

  /** The scan finds a marker exactly when the text holds a match of the pattern. */
  lemma MarkerSomewhere(s: string)
    ensures (exists i :: MarkerEnd(s, i).Some?) <==> exists i, j :: MarkerShape(s, i, j)
  {
    if exists i, j :: MarkerShape(s, i, j) {
      var i, j :| MarkerShape(s, i, j);
      assert MarkerEnd(s, i).Some?;
    }
  }

  /** Number of non-overlapping markers from `from` on. */
  function CountMarkers(s: string, from: nat): (n: nat)
    ensures from <= |s| ==> 11 * n <= |s| - from
    decreases |s| - from
  {
    if from >= |s| then 0
    else
      match MarkerEnd(s, from)
      case Some(e) => 1 + CountMarkers(s, e)
      case None => CountMarkers(s, from + 1)
  }

  /** The count is positive exactly when some marker occurs at or after `from`. */
  lemma CountPositiveIffMarker(s: string, from: nat)
    ensures CountMarkers(s, from) > 0 <==> exists i :: from <= i && MarkerEnd(s, i).Some?
  {
    CountMarkersNext(s, from);
    match NextMarker(s, from)
    case None =>
    case Some(i) =>
      assert MarkerEnd(s, i).Some?;
  }

  /** Start of the leftmost marker match at or after `from`. */
  function NextMarker(s: string, from: nat): (r: Option<nat>)
    ensures r.Some? ==> from <= r.value && MarkerEnd(s, r.value).Some?
    ensures r.Some? ==> forall i :: from <= i < r.value ==> MarkerEnd(s, i).None?
    ensures r.None? ==> forall i :: from <= i ==> MarkerEnd(s, i).None?
    decreases |s| - from
  {
    if from >= |s| then None
    else if MarkerEnd(s, from).Some? then Some(from)
    else NextMarker(s, from + 1)
  }

  /** The starts of the matches a global match returns: the leftmost match,
      then the search resumes where that match ended. */
  function MarkerMatches(s: string, from: nat): (ms: seq<nat>)
    ensures forall k :: 0 <= k < |ms| ==> from <= ms[k] && MarkerEnd(s, ms[k]).Some?
    ensures forall k :: 0 < k < |ms| ==> MarkerEnd(s, ms[k - 1]).value <= ms[k]
    decreases |s| - from
  {
    match NextMarker(s, from)
    case None => []
    case Some(i) => [i] + MarkerMatches(s, MarkerEnd(s, i).value)
  }

  /** The count steps exactly like the global match: nothing when no match is
      left, otherwise one for the leftmost match plus the count after its end. */
  lemma {:induction false} CountMarkersNext(s: string, from: nat)
    ensures NextMarker(s, from).None? ==> CountMarkers(s, from) == 0
    ensures NextMarker(s, from).Some? ==>
      CountMarkers(s, from) == 1 + CountMarkers(s, MarkerEnd(s, NextMarker(s, from).value).value)
    decreases |s| - from
  {
    if from < |s| && MarkerEnd(s, from).None? {
      CountMarkersNext(s, from + 1);
    }
  }

  /** The count is the number of matches the global match returns. */
  lemma {:induction false} CountMarkersMatches(s: string, from: nat)
    ensures CountMarkers(s, from) == |MarkerMatches(s, from)|
    decreases |s| - from
  {
    CountMarkersNext(s, from);
    match NextMarker(s, from)
    case None =>
    case Some(i) =>
      CountMarkersMatches(s, MarkerEnd(s, i).value);
  }

  /** `pageEstimate`: markers counted over the ASCII decoding of the file. */
  function PageEstimate(bytes: seq<Byte>): (n: nat)
    ensures n == |MarkerMatches(Ascii(bytes), 0)|
    ensures 11 * n <= |bytes|
    ensures n > 0 <==> exists i :: MarkerEnd(Ascii(bytes), i).Some?
    ensures n > 0 <==> exists i, j :: MarkerShape(Ascii(bytes), i, j)
  {
    CountPositiveIffMarker(Ascii(bytes), 0);
    MarkerSomewhere(Ascii(bytes));
    CountMarkersMatches(Ascii(bytes), 0);
    CountMarkers(Ascii(bytes), 0)
  }

  /** A page marker followed by any character but `s` is counted, with or
      without space before `/Page`. */
  lemma PageMarkerExamples()
    ensures CountMarkers("/Type /Page\n", 0) == 1
    ensures CountMarkers("/Type/Page>", 0) == 1
  {
    assert MarkerEnd("/Type /Page\n", 0) == Some(12);
    assert MarkerEnd("/Type/Page>", 0) == Some(11);
  }

  /** A marker with no space before `/Page`, followed by a character other
      than `s`, ends eleven characters on. */
  lemma TightMarker(s: string, i: nat)
    requires At(s, i, "/Type") && At(s, i + 5, "/Page") && i + 10 < |s| && s[i + 10] != 's'
    ensures MarkerEnd(s, i) == Some(i + 11)
  {
    assert s[i + 5] == s[i + 5..i + 10][0];
    assert LeadingWs(s[i + 5..]) == 0;
  }

  /** No marker starts where the next character is not `T`. */
  lemma NoTypeAt(s: string, i: nat)
    requires i + 1 < |s| ==> s[i + 1] != 'T'
    ensures MarkerEnd(s, i).None?
  {
    if i + 5 <= |s| {
      assert s[i..i + 5][1] != 'T';
    }
  }

  /** Two markers each ended by a line feed both count. */
  lemma TwoMarkers(s: string)
    requires s == "/Type/Page\n/Type/Page\n"
    ensures CountMarkers(s, 0) == 2
  {
    assert s[0..5] == "/Type" && s[5..10] == "/Page";
    assert s[11..16] == "/Type" && s[16..21] == "/Page";
    TightMarker(s, 0);
    TightMarker(s, 11);
    assert CountMarkers(s, 22) == 0;
  }

  /** The character after `/Page` belongs to the match, so a second marker
      starting right there is hidden. */
  lemma HiddenMarker(s: string)
    requires s == "/Type/Page/Type/Page>"
    ensures CountMarkers(s, 0) == 1
  {
    assert s[0..5] == "/Type" && s[5..10] == "/Page";
    TightMarker(s, 0);
    NoTypeAt(s, 20);
    NoTypeAt(s, 19);
    NoTypeAt(s, 18);
    NoTypeAt(s, 17);
    NoTypeAt(s, 16);
    NoTypeAt(s, 15);
    NoTypeAt(s, 14);
    NoTypeAt(s, 13);
    NoTypeAt(s, 12);
    NoTypeAt(s, 11);
    assert CountMarkers(s, 21) == 0;
    assert CountMarkers(s, 16) == 0;
    assert CountMarkers(s, 11) == 0;
  }

  /** `/Type /Pages` (the page-tree root) is not a page, and a page marker that
      ends the file is missed. */
  lemma NonPageMarkers()
    ensures MarkerEnd("/Type /Pages", 0).None?
    ensures MarkerEnd("/Type /Page", 0).None?
  {
  }
}

module PdfExamples {
  import opened Optional
  import opened Text
  import opened PdfSniffer

  /** Collapsing is the identity on text whose whitespace is already single spaces. */
  lemma {:induction false} CollapseFixed(x: string)
    requires NoWsRun(x, 2)
    requires forall i :: 0 <= i < |x| && IsWs(x[i]) ==> x[i] == ' '
    ensures Collapse(x, 1, " ") == x
    decreases |x|
  {
    if x != [] {
      SingleSpacedTail(x);
      CollapseFixed(x[1..]);
      if IsWs(x[0]) {
        assert !WsRunAt(x, 0, 2);
        assert LeadingWs(x) == 1;
        assert x[0] == ' ';
        assert Collapse(x, 1, " ") == " " + Collapse(x[1..], 1, " ");
        assert x == [x[0]] + x[1..];
      } else {
        assert Collapse(x, 1, " ") == [x[0]] + Collapse(x[1..], 1, " ");
        assert x == [x[0]] + x[1..];
      }
    }
  }

  /** Dropping the first character keeps text single-spaced. */
  lemma SingleSpacedTail(x: string)
    requires x != [] && NoWsRun(x, 2)
    requires forall i :: 0 <= i < |x| && IsWs(x[i]) ==> x[i] == ' '
    ensures NoWsRun(x[1..], 2)
    ensures forall i :: 0 <= i < |x[1..]| && IsWs(x[1..][i]) ==> x[1..][i] == ' '
  {
    NoWsRunSlice(x, 2, 1, |x|);
    assert x[1..|x|] == x[1..];
    forall i | 0 <= i < |x[1..]|
      ensures x[1..][i] == x[i + 1]
    {
    }
  }

  /** Text that is already normal (single spaces, visible ends) is left as it is. */
  lemma NormalizeFixed(y: string)
    requires NoWsRun(y, 2)
    requires forall i :: 0 <= i < |y| && IsWs(y[i]) ==> y[i] == ' '
    requires y != [] ==> !IsWs(y[0]) && !IsWs(y[|y| - 1])
    ensures Normalize(y) == y
  {
    CollapseFixed(y);
    if y != [] {
      assert LeadingWs(y) == 0;
      assert TrailingWs(y) == 0;
    }
  }

  /** Normalising twice is normalising once. */
  lemma NormalizeIdempotent(x: string)
    ensures Normalize(Normalize(x)) == Normalize(x)
  {
    NormalizeFixed(Normalize(x));
  }

  lemma SingleBlockAt(s: string, t: string)
    requires s == "stream\n" + t + "endstream"
    requires forall m :: 7 <= m < 7 + |t| ==> !At(s, m, "endstream")
    ensures BlockAt(s, 0).Some? && BlockAt(s, 0).value.0 == 7 && BlockAt(s, 0).value.1 == 7 + |t|
    ensures s[7..7 + |t|] == t
  {
    assert s[0..7] == "stream\n";
    assert s[0..7][6] != "stream\r\n"[6];
    assert StreamBodyStart(s, 0) == Some(7);
    assert s[7 + |t|..|s|] == "endstream";
    assert At(s, 7 + |t|, "endstream");
    var e := FindFrom(s, "endstream", 7);
    assert e.Some? && e.value == 7 + |t|;
  }

  /** A document that is one stream block yields the accepted runs of its body. */
  lemma SingleBlock(s: string, t: string)
    requires s == "stream\n" + t + "endstream"
    requires forall m :: 7 <= m < 7 + |t| ==> !At(s, m, "endstream")
    ensures Texts(s) == BlockRuns(t, 0)
  {
    SingleBlockAt(s, t);
    assert NextBlock(s, 0) == Some(0);
    assert NextBlock(s, |s|) == None;
    assert BlockBodies(s, |s|) == [];
    assert BlockBodies(s, 0) == [t];
    assert RawLength([]) < TextBudget;
    assert Gather([t], []) == Gather([], [] + BlockRuns(t, 0));
    assert [] + BlockRuns(t, 0) == BlockRuns(t, 0);
  }

  /** A block body holding exactly one parenthesised run. */
  lemma SingleRun(t: string, r: string, rest: string)
    requires t == "(" + r + ")" + rest
    requires ')' !in r && '(' !in rest
    ensures BlockRuns(t, 0) == if Accepted(Unescape(r)) then [Unescape(r)] else []
  {
    var c := |r| + 1;
    assert t[c..c + 1] == ")";
    forall m | 1 <= m < c
      ensures !At(t, m, ")")
    {
      assert t[m] == r[m - 1];
    }
    assert At(t, c, ")");
    var f := FindFrom(t, ")", 1);
    assert f.Some? && f.value == c;
    assert RunAt(t, 0) == Some(c);
    assert t[1..c] == r;
    forall k | c + 1 <= k
      ensures RunAt(t, k).None?
    {
      if k < |t| {
        assert t == ("(" + r + ")") + rest;
        assert t[k] == rest[k - c - 1];
      }
    }
    assert NextRun(t, 0) == Some(0);
    assert NextRun(t, c + 1) == None;
  }

  lemma HelloAccepted(r: string)
    requires r == "Hello World"
    ensures Unescape(r) == r && Accepted(r)
  {
    assert '\\' !in r;
    assert IsAsciiAlnum(r[0]);
    AcceptedIffAlnum(r);
  }

  lemma HelloNormal(r: string)
    requires r == "Hello World"
    ensures Normalize(r) == r
  {
    assert forall j :: 0 <= j < |r| && IsWs(r[j]) ==> j == 5;
    forall i | 0 <= i && i + 2 <= |r|
      ensures !WsRunAt(r, i, 2)
    {
      assert !IsWs(r[i]) || !IsWs(r[i + 1]);
    }
    NormalizeFixed(r);
  }

  lemma HelloChars(r: string, rest: string)
    requires r == "Hello World" && rest == "Tj\n"
    ensures ')' !in r && '(' !in rest
  {
  }

  lemma HelloNoEndstream(s: string, t: string)
    requires t == "(Hello World)Tj\n"
    requires s == "stream\n" + t + "endstream"
    ensures forall m :: 7 <= m < 7 + |t| ==> !At(s, m, "endstream")
  {
    forall m | 7 <= m < 7 + |t|
      ensures !At(s, m, "endstream")
    {
      assert s[m] != 'e' || s[m + 1] != 'n';
    }
  }

  /** A stream holding one text-showing operator yields its operand. */
  lemma HelloWorld(s: string, t: string, r: string)
    requires r == "Hello World" && t == "(" + r + ")" + "Tj\n"
    requires s == "stream\n" + t + "endstream"
    ensures Texts(s) == [r]
    ensures ExtractText(s) == Some(r)
  {
    HelloNoEndstream(s, t);
    SingleBlock(s, t);
    HelloChars(r, "Tj\n");
    SingleRun(t, r, "Tj\n");
    HelloAccepted(r);
    assert Join([r], " ") == r;
    HelloNormal(r);
  }
}
