/** `replace` over a column of fixed-width strings: the rows are the
    consecutive `w`-byte pieces of one buffer, with no terminators, and the
    result is an ordinary string column in which every row gets its zero
    byte. As for variable-width strings, one search runs over the whole
    buffer. */
module ReplaceFixed {
  import opened Search
  import opened Columns
  import opened ReplaceSpec

  /** The number of rows of width `w` in a buffer of `n` bytes (a trailing
      piece shorter than `w` is not a row). */
  function RowCount(n: nat, w: nat): nat
    requires 0 < w
  {
    n / w
  }

  /** Where row `k` starts: `k * w`, written as a sum so that the proofs
      about the scan need no multiplication. */
  function RowStart(w: nat, k: nat): nat
  {
    if k == 0 then 0 else RowStart(w, k - 1) + w
  }

  lemma {:induction false} RowStartMul(w: nat, k: nat)
    ensures RowStart(w, k) == k * w
  {
    if k > 0 {
      RowStartMul(w, k - 1);
    }
  }

  /** Row `k` ends at `(k + 1) * w`, where row `k + 1` starts. */
  lemma RowEnd(w: nat, k: nat)
    ensures (k + 1) * w == RowStart(w, k) + w == RowStart(w, k + 1)
  {
    RowStartMul(w, k + 1);
  }

  /** Row `k` lies within the buffer. */
  lemma RowBounds(n: nat, w: nat, k: nat)
    requires 0 < w && k < RowCount(n, w)
    ensures RowStart(w, k) + w <= n
  {
    RowStartMul(w, k);
    MulMono(k + 1, n / w, w);
  }

  /** The rows end within the buffer; after the last one comes at most a
      piece shorter than `w`. */
  lemma RowsEnd(n: nat, w: nat)
    requires 0 < w
    ensures RowStart(w, RowCount(n, w)) <= n < RowStart(w, RowCount(n, w)) + w
  {
    RowStartMul(w, n / w);
  }

  lemma MulMono(a: nat, b: nat, w: nat)
    requires a <= b
    ensures a * w <= b * w
  {
  }

  /** Row `k` of a fixed-width column. */
  function FixedRow(data: seq<byte>, w: nat, k: nat): (r: seq<byte>)
    requires 0 < w && k < RowCount(|data|, w)
    ensures |r| == w
  {
    RowBounds(|data|, w, k);
    data[RowStart(w, k)..RowStart(w, k) + w]
  }

  /** The chunk written for row `k`: its text with the needle replaced and a
      zero byte after it. */
  function FixedChunk(data: seq<byte>, w: nat, needle: seq<byte>, repl: seq<byte>, one: bool, k: nat): seq<byte>
    requires 0 < w && k < RowCount(|data|, w)
  {
    Replace(FixedRow(data, w, k), needle, repl, one) + [0]
  }

  /** The chunks of all rows. */
  function FixedChunks(data: seq<byte>, w: nat, needle: seq<byte>, repl: seq<byte>, one: bool): (r: seq<seq<byte>>)
    requires 0 < w
    ensures |r| == RowCount(|data|, w)
  {
    seq(RowCount(|data|, w), k requires 0 <= k < RowCount(|data|, w) => FixedChunk(data, w, needle, repl, one, k))
  }

  /** `out` holds the chunk of every row. The fact about row `k` is brought
      in wherever `FixedChunk(.., k)` is mentioned. */
  ghost predicate FixedOut(data: seq<byte>, w: nat, needle: seq<byte>, repl: seq<byte>, one: bool, out: seq<seq<byte>>)
  {
    && 0 < w && |out| == RowCount(|data|, w)
    && forall k {:trigger FixedChunk(data, w, needle, repl, one, k)} :: 0 <= k < |out| ==>
         out[k] == FixedChunk(data, w, needle, repl, one, k)
  }

  /** The state of the scan over all rows at once: the rows before `i` are
      complete (their chunks make up `emitted` up to `partial`, their end
      offsets are `ro[..i]`), `partial` is what has been emitted of row `i`,
      and the rest of row `i` from `pos` on, replaced, completes its chunk
      together with the zero byte. */
  ghost predicate FixedScanning(data: seq<byte>, w: nat, needle: seq<byte>, repl: seq<byte>, one: bool,
                                out: seq<seq<byte>>, i: nat, pos: nat, partial: seq<byte>, emitted: seq<byte>,
                                ro: seq<nat>)
  {
    && |needle| > 0 && FixedOut(data, w, needle, repl, one, out)
    && i <= |out| && |ro| == |out| && ro[..i] == Ends(out[..i]) && pos <= |data|
    && emitted == Concat(out[..i]) + partial
    && (i < |out| ==>
          && RowStart(w, i) <= pos < RowStart(w, i) + w <= |data|
          && partial + ReplaceFrom(FixedRow(data, w, i), needle, repl, one, pos - RowStart(w, i)) + [0] == out[i])
    && (i == |out| ==> pos == RowStart(w, i) && partial == [])
  }

  /** Row `i` is decided from `q` on: its bytes from `q` to its end and a
      zero byte complete its chunk after `partial`. */
  ghost predicate FixedFinishing(data: seq<byte>, w: nat, needle: seq<byte>, repl: seq<byte>, one: bool,
                                 out: seq<seq<byte>>, i: nat, q: nat, partial: seq<byte>, emitted: seq<byte>,
                                 ro: seq<nat>)
  {
    && FixedOut(data, w, needle, repl, one, out)
    && i < |out| && |ro| == |out| && ro[..i] == Ends(out[..i])
    && RowStart(w, i) <= q <= RowStart(w, i) + w <= |data|
    && out[i] == partial + data[q..RowStart(w, i) + w] + [0]
    && emitted == Concat(out[..i]) + partial
  }

  lemma FixedOutChunks(data: seq<byte>, w: nat, needle: seq<byte>, repl: seq<byte>, one: bool)
    requires 0 < w
    ensures FixedOut(data, w, needle, repl, one, FixedChunks(data, w, needle, repl, one))
  {
  }

  /** The copy of the rest of row `i` (`COPY_REST_OF_CURRENT_STRING`): the
      bytes from `pos` to the row's end and a zero byte are written, the
      row's end offset is set, and the scan moves to the start of the next
      row. */
  method CopyRest(data: seq<byte>, w: nat, ghost needle: seq<byte>, ghost repl: seq<byte>, ghost one: bool,
                  ghost out: seq<seq<byte>>, i: nat, pos: nat, ghost partial: seq<byte>,
                  resData: seq<byte>, resOffsets: seq<nat>, resOffset: nat)
    returns (i': nat, pos': nat, resData': seq<byte>, resOffsets': seq<nat>, resOffset': nat)
    requires FixedFinishing(data, w, needle, repl, one, out, i, pos, partial, resData, resOffsets)
    requires resOffset == |resData|
    ensures i' == i + 1 && pos' == RowStart(w, i) + w <= |data| && resOffset' == |resData'| && |resOffsets'| == |out|
    ensures resData' == Concat(out[..i']) && resOffsets'[..i'] == Ends(out[..i'])
  {
    var rowEnd: nat := (i + 1) * w;
    RowEnd(w, i);
    var len: nat := rowEnd - pos;
    resData' := resData + data[pos..rowEnd] + [0];
    resOffset' := resOffset + len + 1;
    RestCompletes(out, i, partial, data[pos..rowEnd], resData, resOffsets, resOffset');
    resOffsets' := resOffsets[i := resOffset'];
    pos' := rowEnd;
    i' := i + 1;
  }

  lemma RestCompletes(out: seq<seq<byte>>, i: nat, partial: seq<byte>, rest: seq<byte>, emitted: seq<byte>,
                      ro: seq<nat>, v: nat)
    requires i < |out| && out[i] == partial + rest + [0] && emitted == Concat(out[..i]) + partial
    requires i < |ro| && ro[..i] == Ends(out[..i]) && v == |emitted| + |rest| + 1
    ensures emitted + rest + [0] == Concat(out[..i + 1])
    ensures ro[i := v][..i + 1] == Ends(out[..i + 1])
  {
    PackAppend(out, i, Concat(out[..i]), ro, out[i], v);
  }

  /** Starting row `i` at its first byte, with nothing of it emitted. */
  lemma FixedNextRow(data: seq<byte>, w: nat, needle: seq<byte>, repl: seq<byte>, one: bool, out: seq<seq<byte>>,
                     i: nat, pos: nat, emitted: seq<byte>, ro: seq<nat>)
    requires |needle| > 0 && FixedOut(data, w, needle, repl, one, out)
    requires i <= |out| && |ro| == |out| && ro[..i] == Ends(out[..i]) && emitted == Concat(out[..i])
    requires pos == RowStart(w, i) && pos <= |data|
    ensures FixedScanning(data, w, needle, repl, one, out, i, pos, [], emitted, ro)
  {
    if i < |out| {
      RowBounds(|data|, w, i);
      assert out[i] == FixedChunk(data, w, needle, repl, one, i);
      assert emitted == Concat(out[..i]) + [];
    }
  }

  /** Past the last row, what was emitted is the packed result. */
  lemma FixedDone(data: seq<byte>, w: nat, needle: seq<byte>, repl: seq<byte>, one: bool, out: seq<seq<byte>>,
                  i: nat, pos: nat, partial: seq<byte>, emitted: seq<byte>, ro: seq<nat>)
    requires FixedScanning(data, w, needle, repl, one, out, i, pos, partial, emitted, ro) && i == |out|
    ensures emitted == Concat(out) && ro == Ends(out)
  {
    assert out[..i] == out;
    assert ro[..i] == ro;
  }

  /** The next occurrence `found` lies at or past the end of row `i`: the
      rest of the row is kept as it is. */
  lemma FixedSkipRow(data: seq<byte>, w: nat, needle: seq<byte>, repl: seq<byte>, one: bool, out: seq<seq<byte>>,
                     i: nat, p: nat, lead: seq<byte>, emitted: seq<byte>, ro: seq<nat>, found: nat)
    requires FixedScanning(data, w, needle, repl, one, out, i, p, lead, emitted, ro)
    requires i < |out| && Find(data, needle, p) == found && RowStart(w, i) + w <= found
    ensures FixedFinishing(data, w, needle, repl, one, out, i, p, lead, emitted, ro)
  {
    var s, t := RowStart(w, i), RowStart(w, i) + w;
    var row := FixedRow(data, w, i);
    WindowCopy(data, row, s, t, p, found, p - s, needle, repl, one);
  }

  /** The next occurrence `found` crosses the end of row `i` (at `t`): the
      row holds no more occurrences and its rest is kept from `found` on. */
  lemma FixedCrossRow(data: seq<byte>, w: nat, needle: seq<byte>, repl: seq<byte>, one: bool, out: seq<seq<byte>>,
                      i: nat, p: nat, lead: seq<byte>, emitted: seq<byte>, ro: seq<nat>, found: nat, t: nat)
    requires FixedScanning(data, w, needle, repl, one, out, i, p, lead, emitted, ro)
    requires i < |out| && Find(data, needle, p) == found && t == RowStart(w, i) + w && found < t < found + |needle|
    ensures FixedFinishing(data, w, needle, repl, one, out, i, found, lead + data[p..found],
                           emitted + data[p..found], ro)
  {
    RowCrossing(data, FixedRow(data, w, i), RowStart(w, i), t, p, found, lead, out[i], needle, repl, one);
  }

  /** Within the window `row == data[s..t]`, the next occurrence at `found`
      runs past the window's end: the chunk `o` is what was emitted of the
      row followed by the window's bytes from `p` on. */
  lemma RowCrossing(data: seq<byte>, row: seq<byte>, s: nat, t: nat, p: nat, found: nat,
                    lead: seq<byte>, o: seq<byte>, needle: seq<byte>, repl: seq<byte>, one: bool)
    requires |needle| > 0 && s <= p <= t <= |data| && row == data[s..t]
    requires Find(data, needle, p) == found && found < t < found + |needle|
    requires lead + ReplaceFrom(row, needle, repl, one, p - s) + [0] == o
    ensures (lead + data[p..found]) + data[found..t] + [0] == o
  {
    WindowCopy(data, row, s, t, p, found, p - s, needle, repl, one);
    CrossStep(lead, data[p..t], data[p..found], data[found..t], o);
  }

  lemma CrossStep(lead: seq<byte>, mid: seq<byte>, x: seq<byte>, rest: seq<byte>, o: seq<byte>)
    requires lead + mid + [0] == o && mid == x + rest
    ensures (lead + x) + rest + [0] == o
  {
  }

  /** The next occurrence `found` ends (at `e`) before the end of row `i`
      (at `t`) and more may follow: it is replaced and the scan goes on
      inside the row after it. */
  lemma FixedReplaceInRow(data: seq<byte>, w: nat, needle: seq<byte>, repl: seq<byte>, one: bool,
                          out: seq<seq<byte>>, i: nat, p: nat, lead: seq<byte>, emitted: seq<byte>, ro: seq<nat>,
                          found: nat, e: nat, t: nat)
    requires FixedScanning(data, w, needle, repl, one, out, i, p, lead, emitted, ro)
    requires i < |out| && Find(data, needle, p) == found && t == RowStart(w, i) + w
    requires e == found + |needle| < t && !one
    ensures FixedScanning(data, w, needle, repl, one, out, i, e, lead + data[p..found] + repl,
                          emitted + data[p..found] + repl, ro)
  {
    var s := RowStart(w, i);
    RowAfterMatch(data, FixedRow(data, w, i), s, t, p, found, e, lead, out[i], needle, repl, one);
    Regroup(Concat(out[..i]), lead, data[p..found], repl);
  }

  /** Within the window `row == data[s..t]`, the occurrence at `found`,
      ending at `e` by the window's end, is replaced: the chunk `o` of the
      row is what was emitted of it, the replacement, and the rest of the
      window from `e` on, replaced further. */
  lemma RowAfterMatch(data: seq<byte>, row: seq<byte>, s: nat, t: nat, p: nat, found: nat, e: nat,
                      lead: seq<byte>, o: seq<byte>, needle: seq<byte>, repl: seq<byte>, one: bool)
    requires |needle| > 0 && s <= p <= t <= |data| && row == data[s..t] && !one
    requires Find(data, needle, p) == found && e == found + |needle| <= t
    requires lead + ReplaceFrom(row, needle, repl, one, p - s) + [0] == o
    ensures s <= e && (lead + data[p..found] + repl) + ReplaceFrom(row, needle, repl, one, e - s) + [0] == o
  {
    WindowMatch(data, row, s, t, p, found, e, p - s, e - s, needle, repl, one);
    RowStep(lead, ReplaceFrom(row, needle, repl, one, p - s), data[p..found], repl,
            ReplaceFrom(row, needle, repl, one, e - s), o);
  }

  /** Regrouping the chunk of a row once the occurrence at the front of
      `mid` is written. */
  lemma RowStep(lead: seq<byte>, mid: seq<byte>, x: seq<byte>, repl: seq<byte>, rest: seq<byte>, o: seq<byte>)
    requires lead + mid + [0] == o && mid == x + repl + rest
    ensures (lead + x + repl) + rest + [0] == o
  {
  }

  /** The next occurrence `found` ends (at `e`) by the end of row `i` (at
      `t`), and either only one occurrence is replaced or it ends exactly at
      the row's end: it is replaced and the rest of the row is kept. */
  lemma FixedReplaceLast(data: seq<byte>, w: nat, needle: seq<byte>, repl: seq<byte>, one: bool,
                         out: seq<seq<byte>>, i: nat, p: nat, lead: seq<byte>, emitted: seq<byte>, ro: seq<nat>,
                         found: nat, e: nat, t: nat)
    requires FixedScanning(data, w, needle, repl, one, out, i, p, lead, emitted, ro)
    requires i < |out| && Find(data, needle, p) == found && t == RowStart(w, i) + w
    requires e == found + |needle| <= t && (one || e == t)
    ensures FixedFinishing(data, w, needle, repl, one, out, i, e, lead + data[p..found] + repl,
                           emitted + data[p..found] + repl, ro)
  {
    var s := RowStart(w, i);
    RowLastMatch(data, FixedRow(data, w, i), s, t, p, found, e, lead, out[i], needle, repl, one);
    Regroup(Concat(out[..i]), lead, data[p..found], repl);
  }

  /** Within the window `row == data[s..t]`, the occurrence at `found`,
      ending at `e`, is replaced and is the last one replaced (with `one`,
      or as it ends at `t`): the chunk `o` is what was emitted of the row,
      the replacement, and the window's bytes from `e` on. */
  lemma RowLastMatch(data: seq<byte>, row: seq<byte>, s: nat, t: nat, p: nat, found: nat, e: nat,
                     lead: seq<byte>, o: seq<byte>, needle: seq<byte>, repl: seq<byte>, one: bool)
    requires |needle| > 0 && s <= p <= t <= |data| && row == data[s..t]
    requires Find(data, needle, p) == found && e == found + |needle| <= t && (one || e == t)
    requires lead + ReplaceFrom(row, needle, repl, one, p - s) + [0] == o
    ensures (lead + data[p..found] + repl) + data[e..t] + [0] == o
  {
    WindowMatch(data, row, s, t, p, found, e, p - s, e - s, needle, repl, one);
    if !one {
      assert Find(row, needle, e - s) == |row|;
      assert ReplaceFrom(row, needle, repl, one, e - s) == data[e..t];
    }
    RowStep(lead, ReplaceFrom(row, needle, repl, one, p - s), data[p..found], repl, data[e..t], o);
  }

  lemma Regroup(a: seq<byte>, b: seq<byte>, c: seq<byte>, d: seq<byte>)
    ensures (a + b) + c + d == a + (b + c + d)
  {
  }

  /** The inner loop of `VectorFixed`: every row from `i` on that ends by the
      occurrence `found` is completed with `CopyRest`; afterwards the scan
      stands in the row `found` lies in, or past the last row. */
  method SkipFixedRows(data: seq<byte>, w: nat, needle: seq<byte>, ghost repl: seq<byte>, ghost one: bool,
                       ghost out: seq<seq<byte>>, count: nat, found: nat,
                       i: nat, pos: nat, ghost partial: seq<byte>, resData: seq<byte>, resOffsets: seq<nat>,
                       resOffset: nat)
    returns (i': nat, pos': nat, ghost partial': seq<byte>, resData': seq<byte>, resOffsets': seq<nat>,
             resOffset': nat)
    requires FixedScanning(data, w, needle, repl, one, out, i, pos, partial, resData, resOffsets)
    requires count == |out| && resOffset == |resData| && pos <= found && Find(data, needle, pos) == found
    ensures FixedScanning(data, w, needle, repl, one, out, i', pos', partial', resData', resOffsets')
    ensures resOffset' == |resData'| && pos <= pos' <= found && Find(data, needle, pos') == found
    ensures i' < count ==> found < RowStart(w, i') + w
  {
    i', pos', partial', resData', resOffsets', resOffset' := i, pos, partial, resData, resOffsets, resOffset;
    RowEnd(w, i');
    while i' < count && (i' + 1) * w <= found
      invariant FixedScanning(data, w, needle, repl, one, out, i', pos', partial', resData', resOffsets')
      invariant resOffset' == |resData'| && pos <= pos' <= found && Find(data, needle, pos') == found
      invariant (i' + 1) * w == RowStart(w, i') + w
      decreases count - i'
    {
      FixedSkipRow(data, w, needle, repl, one, out, i', pos', partial', resData', resOffsets', found);
      ghost var p := pos';
      i', pos', resData', resOffsets', resOffset' :=
        CopyRest(data, w, needle, repl, one, out, i', pos', partial', resData', resOffsets', resOffset');
      partial' := [];
      FixedNextRow(data, w, needle, repl, one, out, i', pos', resData', resOffsets');
      FindSkip(data, needle, p, pos');
      RowEnd(w, i');
    }
  }

  /** The rest of one round of `VectorFixed`, once the rows that end by the
      occurrence `found` are complete and the scan stands at `p` in row `i`,
      the row `found` lies in: the bytes up to `found` are copied; an
      occurrence that ends by the row's end is replaced; with `one`, when
      the occurrence ends exactly at the row's end, or when it crosses into
      the next row, the rest of the row is copied and the row completed. */
  method FixedReplaceOrFinish(data: seq<byte>, w: nat, needle: seq<byte>, repl: seq<byte>, one: bool,
                              ghost out: seq<seq<byte>>, count: nat, found: nat, i: nat, p: nat,
                              ghost lead: seq<byte>, resData: seq<byte>, resOffsets: seq<nat>, resOffset: nat)
    returns (i': nat, pos': nat, ghost partial': seq<byte>, resData': seq<byte>, resOffsets': seq<nat>,
             resOffset': nat)
    requires FixedScanning(data, w, needle, repl, one, out, i, p, lead, resData, resOffsets)
    requires count == |out| && i < count && resOffset == |resData|
    requires p <= found && Find(data, needle, p) == found && found < RowStart(w, i) + w
    ensures FixedScanning(data, w, needle, repl, one, out, i', pos', partial', resData', resOffsets')
    ensures found < pos' <= |data| && resOffset' == |resData'|
  {
    var rowEnd: nat := (i + 1) * w;
    RowEnd(w, i);
    var copied := resData + data[p..found];
    if found + |needle| <= rowEnd {
      i', pos', partial', resData', resOffsets', resOffset' :=
        FixedMatch(data, w, needle, repl, one, out, found, i, p, lead, resData, copied, resOffsets,
                   resOffset + (found - p), rowEnd);
    } else {
      FixedCrossRow(data, w, needle, repl, one, out, i, p, lead, resData, resOffsets, found, rowEnd);
      i', pos', resData', resOffsets', resOffset' :=
        CompleteRow(data, w, needle, repl, one, out, i, found, lead + data[p..found], copied, resOffsets,
                    resOffset + (found - p));
      partial' := [];
    }
  }

  /** The occurrence `found` ends by the end of row `i` (at `rowEnd`): the
      replacement is written after the copied bytes (`resData`, which is
      `acc` and the bytes from `p` to `found`); with `one`, or when the
      occurrence ends exactly at the row's end, the row is completed. */
  method FixedMatch(data: seq<byte>, w: nat, needle: seq<byte>, repl: seq<byte>, one: bool,
                    ghost out: seq<seq<byte>>, found: nat, i: nat, p: nat, ghost lead: seq<byte>,
                    ghost acc: seq<byte>, resData: seq<byte>, resOffsets: seq<nat>, resOffset: nat, rowEnd: nat)
    returns (i': nat, pos': nat, ghost partial': seq<byte>, resData': seq<byte>, resOffsets': seq<nat>,
             resOffset': nat)
    requires FixedScanning(data, w, needle, repl, one, out, i, p, lead, acc, resOffsets)
    requires i < |out| && p <= found && Find(data, needle, p) == found && rowEnd == RowStart(w, i) + w
    requires found + |needle| <= rowEnd && resData == acc + data[p..found] && resOffset == |resData|
    ensures FixedScanning(data, w, needle, repl, one, out, i', pos', partial', resData', resOffsets')
    ensures found < pos' <= |data| && resOffset' == |resData'|
  {
    resData' := resData + repl;
    resOffset' := resOffset + |repl|;
    pos' := found + |needle|;
    partial' := lead + data[p..found] + repl;
    i', resOffsets' := i, resOffsets;
    if one || pos' == rowEnd {
      FixedReplaceLast(data, w, needle, repl, one, out, i, p, lead, acc, resOffsets, found, pos', rowEnd);
      i', pos', resData', resOffsets', resOffset' :=
        CompleteRow(data, w, needle, repl, one, out, i, pos', partial', resData', resOffsets', resOffset');
      partial' := [];
    } else {
      FixedReplaceInRow(data, w, needle, repl, one, out, i, p, lead, acc, resOffsets, found, pos', rowEnd);
    }
  }

  /** `CopyRest` inside the scan: row `i` is completed and the scan starts
      the next row. */
  method CompleteRow(data: seq<byte>, w: nat, ghost needle: seq<byte>, ghost repl: seq<byte>, ghost one: bool,
                     ghost out: seq<seq<byte>>, i: nat, pos: nat, ghost partial: seq<byte>,
                     resData: seq<byte>, resOffsets: seq<nat>, resOffset: nat)
    returns (i': nat, pos': nat, resData': seq<byte>, resOffsets': seq<nat>, resOffset': nat)
    requires |needle| > 0 && FixedFinishing(data, w, needle, repl, one, out, i, pos, partial, resData, resOffsets)
    requires resOffset == |resData|
    ensures FixedScanning(data, w, needle, repl, one, out, i', pos', [], resData', resOffsets')
    ensures pos' == RowStart(w, i) + w && resOffset' == |resData'|
  {
    RowEnd(w, i);
    i', pos', resData', resOffsets', resOffset' :=
      CopyRest(data, w, needle, repl, one, out, i, pos, partial, resData, resOffsets, resOffset);
    FixedNextRow(data, w, needle, repl, one, out, i', pos', resData', resOffsets');
  }

  /** One round of the scan in `VectorFixed`: the searcher finds the next
      occurrence `found` from `pos`; every row that ends by it is completed;
      if none is left the scan stops (`stop`), and otherwise the round goes
      on in the row `found` lies in. */
  method FixedRound(data: seq<byte>, w: nat, needle: seq<byte>, repl: seq<byte>, one: bool,
                    ghost out: seq<seq<byte>>, count: nat, i: nat, pos: nat, ghost partial: seq<byte>,
                    resData: seq<byte>, resOffsets: seq<nat>, resOffset: nat)
    returns (i': nat, pos': nat, ghost partial': seq<byte>, resData': seq<byte>, resOffsets': seq<nat>,
             resOffset': nat, stop: bool)
    requires pos < |data| && count == |out| && resOffset == |resData|
    requires FixedScanning(data, w, needle, repl, one, out, i, pos, partial, resData, resOffsets)
    ensures stop ==> resData' == Concat(out) && resOffsets' == Ends(out)
    ensures !stop ==> FixedScanning(data, w, needle, repl, one, out, i', pos', partial', resData', resOffsets')
    ensures !stop ==> pos < pos' <= |data| && resOffset' == |resData'|
  {
    var found: nat := Find(data, needle, pos);
    i', pos', partial', resData', resOffsets', resOffset' :=
      SkipFixedRows(data, w, needle, repl, one, out, count, found, i, pos, partial, resData, resOffsets, resOffset);
    if i' == count {
      FixedDone(data, w, needle, repl, one, out, i', pos', partial', resData', resOffsets');
      return i', pos', partial', resData', resOffsets', resOffset', true;
    }
    stop := false;
    i', pos', partial', resData', resOffsets', resOffset' :=
      FixedReplaceOrFinish(data, w, needle, repl, one, out, count, found, i', pos', partial', resData', resOffsets',
                           resOffset');
  }

  /** `vectorFixed`: the column of `|data| / w` rows of width `w` becomes a
      string column whose row `k` is row `k` with the needle replaced. */
  method VectorFixed(data: seq<byte>, w: nat, needle: seq<byte>, repl: seq<byte>, one: bool)
    returns (resData: seq<byte>, resOffsets: seq<nat>)
    requires 0 < w
    ensures Valid(StringColumn(resData, resOffsets)) && |resOffsets| == |data| / w
    ensures forall k :: 0 <= k < |data| / w ==>
      Row(StringColumn(resData, resOffsets), k) == Replace(FixedRow(data, w, k), needle, repl, one)
  {
    resData, resOffsets := WriteFixedChunks(data, w, needle, repl, one);
    FixedColumn(data, w, needle, repl, one, resData, resOffsets);
  }

  /** The chunks packed from the rows of a fixed-width column form a
      well-formed string column with one row per fixed-width row. */
  lemma FixedColumn(data: seq<byte>, w: nat, needle: seq<byte>, repl: seq<byte>, one: bool,
                    resData: seq<byte>, resOffsets: seq<nat>)
    requires 0 < w
    requires resData == Concat(FixedChunks(data, w, needle, repl, one))
    requires resOffsets == Ends(FixedChunks(data, w, needle, repl, one))
    ensures Valid(StringColumn(resData, resOffsets)) && |resOffsets| == |data| / w
    ensures forall k :: 0 <= k < |data| / w ==>
      Row(StringColumn(resData, resOffsets), k) == Replace(FixedRow(data, w, k), needle, repl, one)
  {
    var out := FixedChunks(data, w, needle, repl, one);
    var n := RowCount(|data|, w);
    var rows := seq(n, k requires 0 <= k < n => Replace(FixedRow(data, w, k), needle, repl, one));
    PackRows(rows, out);
    assert Pack(out) == StringColumn(resData, resOffsets);
  }

  /** The kernel proper: it fills the result buffer and offsets with the
      chunks of all rows. */
  method WriteFixedChunks(data: seq<byte>, w: nat, needle: seq<byte>, repl: seq<byte>, one: bool)
    returns (resData: seq<byte>, resOffsets: seq<nat>)
    requires 0 < w
    ensures resData == Concat(FixedChunks(data, w, needle, repl, one))
    ensures resOffsets == Ends(FixedChunks(data, w, needle, repl, one))
  {
    ghost var out := FixedChunks(data, w, needle, repl, one);
    FixedOutChunks(data, w, needle, repl, one);
    var count: nat := |data| / w;
    resData := [];
    resOffsets := seq(count, _ => 0);
    var resOffset: nat := 0;
    var i: nat := 0;
    var pos: nat := 0;
    if needle == [] {
      resData, resOffsets := CopyRows(data, w, repl, one, out, count, resOffsets);
      return;
    }
    FixedNextRow(data, w, needle, repl, one, out, 0, 0, [], resOffsets);
    ghost var partial: seq<byte> := [];
    var stop: bool := false;
    while pos < |data|
      invariant FixedScanning(data, w, needle, repl, one, out, i, pos, partial, resData, resOffsets)
      invariant resOffset == |resData| && !stop
      decreases |data| - pos
    {
      i, pos, partial, resData, resOffsets, resOffset, stop :=
        FixedRound(data, w, needle, repl, one, out, count, i, pos, partial, resData, resOffsets, resOffset);
      if stop {
        break;
      }
    }
    if !stop {
      FixedDone(data, w, needle, repl, one, out, i, pos, partial, resData, resOffsets);
    }
  }

  /** With an empty needle every row is copied and given its zero byte. */
  method CopyRows(data: seq<byte>, w: nat, ghost repl: seq<byte>, ghost one: bool, ghost out: seq<seq<byte>>,
                  count: nat, resOffsets0: seq<nat>)
    returns (resData: seq<byte>, resOffsets: seq<nat>)
    requires FixedOut(data, w, [], repl, one, out) && count == |out| == |resOffsets0|
    ensures resData == Concat(out) && resOffsets == Ends(out)
  {
    resData, resOffsets := [], resOffsets0;
    var resOffset: nat := 0;
    var i: nat := 0;
    var pos: nat := 0;
    while i < count
      invariant i <= count && resData == Concat(out[..i]) && resOffset == |resData|
      invariant |resOffsets| == count && resOffsets[..i] == Ends(out[..i]) && pos == RowStart(w, i)
      decreases count - i
    {
      EmptyNeedleRow(data, w, repl, one, out, i, resData, resOffsets);
      i, pos, resData, resOffsets, resOffset :=
        CopyRest(data, w, [], repl, one, out, i, pos, [], resData, resOffsets, resOffset);
      RowEnd(w, i - 1);
    }
    assert out[..i] == out;
    assert resOffsets[..i] == resOffsets;
  }

  /** With an empty needle, the chunk of row `i` is the row and a zero
      byte. */
  lemma EmptyNeedleRow(data: seq<byte>, w: nat, repl: seq<byte>, one: bool, out: seq<seq<byte>>,
                       i: nat, emitted: seq<byte>, ro: seq<nat>)
    requires FixedOut(data, w, [], repl, one, out) && i < |out| && |ro| == |out|
    requires ro[..i] == Ends(out[..i]) && emitted == Concat(out[..i])
    ensures FixedFinishing(data, w, [], repl, one, out, i, RowStart(w, i), [], emitted, ro)
  {
    RowBounds(|data|, w, i);
    assert out[i] == FixedChunk(data, w, [], repl, one, i);
    assert emitted == Concat(out[..i]) + [];
  }
}
