/** What replacing does to a whole string column, row by row, and the
    facts the column kernels need about a scan that runs over all rows of
    the column at once. */
module ReplaceColumn {
  import opened Search
  import opened Columns
  import opened ReplaceSpec

  /** `out` holds, for each row of `c`, the chunk that row is replaced
      into: the row's text with the needle replaced, followed by its zero
      terminator. The fact about row `k` is brought in wherever `Row(c, k)`
      is mentioned. */
  ghost predicate ReplacedChunks(c: StringColumn, needle: seq<byte>, repl: seq<byte>, one: bool, out: seq<seq<byte>>)
  {
    && Valid(c) && |out| == |c.offsets|
    && forall k {:trigger Row(c, k)} :: 0 <= k < |out| ==> out[k] == Replace(Row(c, k), needle, repl, one) + [0]
  }

  /** The replaced chunks of the rows of a well-formed column. */
  lemma ReplacedRows(c: StringColumn, needle: seq<byte>, repl: seq<byte>, one: bool) returns (out: seq<seq<byte>>)
    requires Valid(c)
    ensures ReplacedChunks(c, needle, repl, one, out)
  {
    out := seq(|c.offsets|, k requires 0 <= k < |c.offsets| => Replace(Row(c, k), needle, repl, one) + [0]);
  }

  /** The column packed from the replaced chunks (`data` and `offsets`) is
      well-formed, has as many rows as `c`, and its row `k` is row `k` of
      `c` with the needle replaced. */
  lemma ReplacedColumn(c: StringColumn, needle: seq<byte>, repl: seq<byte>, one: bool, out: seq<seq<byte>>,
                       data: seq<byte>, offsets: seq<nat>)
    requires ReplacedChunks(c, needle, repl, one, out) && data == Concat(out) && offsets == Ends(out)
    ensures Valid(StringColumn(data, offsets)) && |offsets| == |c.offsets|
    ensures forall k :: 0 <= k < |c.offsets| ==>
      Row(StringColumn(data, offsets), k) == Replace(Row(c, k), needle, repl, one)
  {
    var rows := seq(|out|, k requires 0 <= k < |out| => Replace(Row(c, k), needle, repl, one));
    PackRows(rows, out);
    assert Pack(out) == StringColumn(data, offsets);
  }

  /** With an empty needle every row is kept as it is, so the packed chunks
      are the input column itself. */
  lemma EmptyNeedleRows(c: StringColumn, repl: seq<byte>, one: bool, out: seq<seq<byte>>)
    requires ReplacedChunks(c, [], repl, one, out)
    ensures c.chars == Concat(out) && c.offsets == Ends(out)
  {
    forall k | 0 <= k < |out| ensures out[k] == Chunks(c)[k] {
      assert out[k] == Row(c, k) + [0] == Chunk(c, k);
    }
    assert out == Chunks(c);
    PackChunks(c);
  }

  /** At the start of row `k` nothing of it has been emitted yet and the
      whole row remains to be replaced. */
  lemma RowFresh(c: StringColumn, needle: seq<byte>, repl: seq<byte>, one: bool,
                 out: seq<seq<byte>>, k: nat, p: nat, lead: seq<byte>)
    requires Valid(c) && |needle| > 0 && k < |out| && k < |c.offsets|
    requires out[k] == Replace(Row(c, k), needle, repl, one) + [0]
    requires p == Start(c.offsets, k) && lead == []
    ensures p < c.offsets[k]
    ensures lead + ReplaceFrom(Row(c, k), needle, repl, one, p - Start(c.offsets, k)) + [0] == out[k]
  {
    StartBounds(c, k);
    assert lead + ReplaceFrom(Row(c, k), needle, repl, one, 0) == Replace(Row(c, k), needle, repl, one);
  }

  /** Row `i` is the window of the buffer between its start and its
      terminator. */
  lemma RowWindow(c: StringColumn, i: nat, s: nat, t: nat)
    requires Valid(c) && i < |c.offsets| && s == Start(c.offsets, i) && t == c.offsets[i] - 1
    ensures s <= t < |c.chars| && c.chars[t] == 0
    ensures Row(c, i) == c.chars[s..t]
  {
    StartBounds(c, i);
  }

  /** When the next occurrence from `p` lies at or past the end of row `i`,
      the rest of the row, terminator included, is copied unchanged; `a` is
      `p` within the row. */
  lemma RowCopied(c: StringColumn, needle: seq<byte>, repl: seq<byte>, one: bool,
                  out: seq<seq<byte>>, i: nat, p: nat, a: nat, lead: seq<byte>, m: nat)
    requires Valid(c) && |needle| > 0 && |out| == |c.offsets|
    requires i < |c.offsets| && Start(c.offsets, i) <= p < c.offsets[i] && a == p - Start(c.offsets, i)
    requires lead + ReplaceFrom(Row(c, i), needle, repl, one, a) + [0] == out[i]
    requires p <= |c.chars| && Find(c.chars, needle, p) == m && c.offsets[i] <= m
    ensures out[i] == lead + c.chars[p..c.offsets[i]]
  {
    var s, t := Start(c.offsets, i), c.offsets[i] - 1;
    RowWindow(c, i, s, t);
    WindowCopy(c.chars, Row(c, i), s, t, p, m, a, needle, repl, one);
    assert c.chars[p..c.offsets[i]] == c.chars[p..t] + [0];
  }

  /** Emitting `out[i]` as the copy `data[p..q]` after `lead` extends the
      packed prefix by one row, whose end offset `v` is written into the
      offsets `ro`. */
  lemma RowEmitted(data: seq<byte>, out: seq<seq<byte>>, i: nat, acc: seq<byte>, pos: nat, p: nat, q: nat,
                   lead: seq<byte>, ro: seq<nat>, v: nat)
    requires i < |out| && pos <= p <= q <= |data|
    requires Concat(out[..i]) + lead == acc + data[pos..p]
    requires out[i] == lead + data[p..q]
    requires i < |ro| && ro[..i] == Ends(out[..i]) && v == |acc| + (q - pos)
    ensures Concat(out[..i + 1]) == acc + data[pos..q]
    ensures ro[i := v][..i + 1] == Ends(out[..i + 1])
  {
    PackSnoc(out, i);
    calc {
      Concat(out[..i + 1]);
      Concat(out[..i]) + (lead + data[p..q]);
      (Concat(out[..i]) + lead) + data[p..q];
      acc + data[pos..p] + data[p..q];
      { assert data[pos..p] + data[p..q] == data[pos..q]; }
      acc + data[pos..q];
    }
    SetOffset(ro, i, v, Ends(out[..i]));
  }

  /** Where the scan resumes inside row `i`: what was copied up to the
      occurrence `m` belongs to the row's emitted part. */
  lemma RowResumed(data: seq<byte>, out: seq<seq<byte>>, i: nat, acc: seq<byte>,
                   pos: nat, p: nat, m: nat, lead: seq<byte>, partial: seq<byte>, emitted: seq<byte>)
    requires i <= |out| && pos <= p <= m <= |data|
    requires Concat(out[..i]) + lead == acc + data[pos..p]
    requires emitted == acc + data[pos..m] && partial == lead + data[p..m]
    ensures emitted == Concat(out[..i]) + partial
  {
    calc {
      Concat(out[..i]) + partial;
      (Concat(out[..i]) + lead) + data[p..m];
      acc + data[pos..p] + data[p..m];
      { assert data[pos..p] + data[p..m] == data[pos..m]; }
      acc + data[pos..m];
    }
  }

  /** The occurrence at `m` ends (at `e`) inside row `i`, before its
      terminator: it is replaced, and after it either the rest of the row is
      copied (replace-one) or the scan goes on after the occurrence; `a` and
      `f` are `p` and `e` within the row. */
  lemma RowReplaced(c: StringColumn, needle: seq<byte>, repl: seq<byte>, one: bool, out: seq<seq<byte>>,
                    i: nat, p: nat, a: nat, lead: seq<byte>, m: nat, e: nat, f: nat, partial: seq<byte>)
    requires Valid(c) && |needle| > 0 && |out| == |c.offsets|
    requires i < |c.offsets| && Start(c.offsets, i) <= p < c.offsets[i] && a == p - Start(c.offsets, i)
    requires lead + ReplaceFrom(Row(c, i), needle, repl, one, a) + [0] == out[i]
    requires p <= |c.chars| && Find(c.chars, needle, p) == m && e == m + |needle| && e < c.offsets[i]
    requires f == e - Start(c.offsets, i) && partial == lead + c.chars[p..m]
    ensures Start(c.offsets, i) <= e
    ensures one ==> out[i] == partial + repl + c.chars[e..c.offsets[i]]
    ensures !one ==> partial + repl + ReplaceFrom(Row(c, i), needle, repl, one, f) + [0] == out[i]
  {
    var s, t := Start(c.offsets, i), c.offsets[i] - 1;
    RowWindow(c, i, s, t);
    var w := Row(c, i);
    WindowMatch(c.chars, w, s, t, p, m, e, a, f, needle, repl, one);
    var rest := if one then c.chars[e..t] else ReplaceFrom(w, needle, repl, one, f);
    var mid := ReplaceFrom(w, needle, repl, one, a);
    assert mid == c.chars[p..m] + repl + rest;
    Regroup(lead, c.chars[p..m], repl, rest, partial, mid);
    assert out[i] == partial + repl + rest + [0];
    if one {
      assert c.chars[e..c.offsets[i]] == c.chars[e..t] + [0];
      assert out[i] == partial + repl + c.chars[e..c.offsets[i]];
    }
  }

  /** The next occurrence from `p` crosses the end of row `i`: the rest of
      the row from `m` on is copied unchanged. */
  lemma RowCrossed(c: StringColumn, needle: seq<byte>, repl: seq<byte>, one: bool, out: seq<seq<byte>>,
                   i: nat, p: nat, a: nat, lead: seq<byte>, m: nat, partial: seq<byte>)
    requires Valid(c) && |needle| > 0 && |out| == |c.offsets|
    requires i < |c.offsets| && Start(c.offsets, i) <= p < c.offsets[i] && a == p - Start(c.offsets, i)
    requires lead + ReplaceFrom(Row(c, i), needle, repl, one, a) + [0] == out[i]
    requires p <= |c.chars| && Find(c.chars, needle, p) == m && m < c.offsets[i] <= m + |needle|
    requires partial == lead + c.chars[p..m]
    ensures out[i] == partial + c.chars[m..c.offsets[i]]
  {
    var s, t := Start(c.offsets, i), c.offsets[i] - 1;
    RowWindow(c, i, s, t);
    WindowCopy(c.chars, Row(c, i), s, t, p, m, a, needle, repl, one);
    CopyTail(lead, c.chars, p, m, t, partial);
  }

  /** The copied rest of a row, terminator included, split at `m`. */
  lemma CopyTail(lead: seq<byte>, data: seq<byte>, p: nat, m: nat, t: nat, partial: seq<byte>)
    requires p <= m <= t < |data| && data[t] == 0 && partial == lead + data[p..m]
    ensures lead + data[p..t] + [0] == partial + data[m..t + 1]
  {
    assert data[p..t] + [0] == data[p..m] + data[m..t + 1];
  }

  lemma Regroup(lead: seq<byte>, x: seq<byte>, repl: seq<byte>, rest: seq<byte>, partial: seq<byte>, mid: seq<byte>)
    requires partial == lead + x && mid == x + repl + rest
    ensures lead + mid + [0] == partial + repl + rest + [0]
  {
  }

  /** Finishing row `i` by appending `rest` completes its chunk, whose end
      offset `v` is written into the offsets `ro`. */
  lemma RowFinished(out: seq<seq<byte>>, i: nat, partial: seq<byte>, rest: seq<byte>, emitted: seq<byte>,
                    ro: seq<nat>, v: nat)
    requires i < |out| && emitted == Concat(out[..i]) + partial && out[i] == partial + rest
    requires i < |ro| && ro[..i] == Ends(out[..i]) && v == |emitted + rest|
    ensures emitted + rest == Concat(out[..i + 1])
    ensures ro[i := v][..i + 1] == Ends(out[..i + 1])
  {
    PackSnoc(out, i);
    SetOffset(ro, i, v, Ends(out[..i]));
  }

  /** The state of the kernels' scan over all rows at once: the rows before
      `i` are complete (their chunks make up `emitted` up to `partial`, and
      their end offsets are `ro[..i]`), `partial` is what has been emitted of
      row `i`, and the rest of row `i` from `pos` on, replaced, completes its
      chunk. Once every row is complete, `emitted` and `ro` are the packed
      result. */
  ghost predicate Scanning(c: StringColumn, needle: seq<byte>, repl: seq<byte>, one: bool, out: seq<seq<byte>>,
                           i: nat, pos: nat, partial: seq<byte>, emitted: seq<byte>, ro: seq<nat>)
  {
    && |needle| > 0 && ReplacedChunks(c, needle, repl, one, out)
    && i <= |c.offsets| && |ro| == |c.offsets| && ro[..i] == Ends(out[..i])
    && emitted == Concat(out[..i]) + partial
    && (i < |c.offsets| ==>
          && Start(c.offsets, i) <= pos < c.offsets[i] <= |c.chars|
          && partial + ReplaceFrom(Row(c, i), needle, repl, one, pos - Start(c.offsets, i)) + [0] == out[i])
    && (i == |c.offsets| ==> pos == |c.chars| && partial == [] && emitted == Concat(out) && ro == Ends(out))
  }

  /** Row `i` is decided from `q` on: the bytes from `q` to the row's end
      complete its chunk after `partial`. */
  ghost predicate Finishing(c: StringColumn, needle: seq<byte>, repl: seq<byte>, one: bool, out: seq<seq<byte>>,
                            i: nat, q: nat, partial: seq<byte>, emitted: seq<byte>, ro: seq<nat>)
  {
    && |needle| > 0 && ReplacedChunks(c, needle, repl, one, out)
    && i < |c.offsets| && |ro| == |c.offsets| && ro[..i] == Ends(out[..i])
    && Start(c.offsets, i) <= q <= c.offsets[i] <= |c.chars|
    && out[i] == partial + c.chars[q..c.offsets[i]]
    && emitted == Concat(out[..i]) + partial
  }

  /** The scan starts at the first row with nothing emitted. */
  lemma ScanStart(c: StringColumn, needle: seq<byte>, repl: seq<byte>, one: bool, out: seq<seq<byte>>, ro: seq<nat>)
    requires |needle| > 0 && ReplacedChunks(c, needle, repl, one, out) && |ro| == |c.offsets|
    ensures Scanning(c, needle, repl, one, out, 0, 0, [], [], ro)
  {
    if |c.offsets| > 0 {
      RowFresh(c, needle, repl, one, out, 0, 0, []);
    } else {
      assert out == [] && ro == [];
    }
  }

  /** Moving to the next row once row `i` is complete. */
  lemma NextRow(c: StringColumn, needle: seq<byte>, repl: seq<byte>, one: bool, out: seq<seq<byte>>,
                i: nat, emitted: seq<byte>, ro: seq<nat>)
    requires |needle| > 0 && ReplacedChunks(c, needle, repl, one, out)
    requires i < |c.offsets| && |ro| == |c.offsets| && ro[..i + 1] == Ends(out[..i + 1])
    requires emitted == Concat(out[..i + 1])
    ensures Scanning(c, needle, repl, one, out, i + 1, c.offsets[i], [], emitted, ro)
  {
    StartBounds(c, i);
    if i + 1 < |c.offsets| {
      RowFresh(c, needle, repl, one, out, i + 1, c.offsets[i], []);
      assert emitted == Concat(out[..i + 1]) + [];
    } else {
      assert out[..i + 1] == out;
      assert ro[..i + 1] == ro;
    }
  }

  /** The occurrence `found` lies at or past the end of row `i`: the whole
      rest of row `i` is copied, `ro` holds its end offset, and the scan goes
      on in the next row, where the occurrence is still the next one. */
  lemma SkipRow(c: StringColumn, needle: seq<byte>, repl: seq<byte>, one: bool, out: seq<seq<byte>>,
                acc: seq<byte>, pos: nat, found: nat, i: nat, p: nat, lead: seq<byte>, ro: seq<nat>)
    requires pos <= p <= found && found <= |c.chars| && Find(c.chars, needle, p) == found
    requires Scanning(c, needle, repl, one, out, i, p, lead, acc + c.chars[pos..p], ro)
    requires i < |c.offsets| && c.offsets[i] <= found && ro[i] == |acc| + (c.offsets[i] - pos)
    ensures Scanning(c, needle, repl, one, out, i + 1, c.offsets[i], [], acc + c.chars[pos..c.offsets[i]], ro)
    ensures pos <= c.offsets[i] <= found && Find(c.chars, needle, c.offsets[i]) == found
  {
    RowCopied(c, needle, repl, one, out, i, p, p - Start(c.offsets, i), lead, found);
    RowEmitted(c.chars, out, i, acc, pos, p, c.offsets[i], lead, ro, ro[i]);
    assert ro[i := ro[i]] == ro;
    FindSkip(c.chars, needle, p, c.offsets[i]);
    NextRow(c, needle, repl, one, out, i, acc + c.chars[pos..c.offsets[i]], ro);
  }

  /** Every row from the current one on ends after the scan position. */
  lemma RowsAhead(c: StringColumn, needle: seq<byte>, repl: seq<byte>, one: bool, out: seq<seq<byte>>,
                  i: nat, pos: nat, partial: seq<byte>, emitted: seq<byte>, ro: seq<nat>)
    requires Scanning(c, needle, repl, one, out, i, pos, partial, emitted, ro)
    ensures i <= |c.offsets| == |ro|
    ensures forall k :: i <= k < |c.offsets| ==> pos < c.offsets[k]
  {
  }

  /** The scan state reads the result offsets only up to the current row. */
  lemma ScanningOffsets(c: StringColumn, needle: seq<byte>, repl: seq<byte>, one: bool, out: seq<seq<byte>>,
                        i: nat, pos: nat, partial: seq<byte>, emitted: seq<byte>, ro: seq<nat>, ro': seq<nat>)
    requires Scanning(c, needle, repl, one, out, i, pos, partial, emitted, ro)
    requires |ro'| == |ro| && ro'[..i] == ro[..i]
    ensures Scanning(c, needle, repl, one, out, i, pos, partial, emitted, ro')
  {
    if i == |c.offsets| {
      assert ro' == ro'[..i];
      assert ro == ro[..i];
    }
  }

  /** Rows `i0` up to `i` all end by the occurrence `found`, and `ro` holds
      each one's end offset, counted from `|acc|` at `pos`: every one of them
      is complete, and the scan stands at the end of row `i - 1` (at `pos`
      when no row was skipped) with the occurrence still the next one. */
  lemma SkipRows(c: StringColumn, needle: seq<byte>, repl: seq<byte>, one: bool, out: seq<seq<byte>>,
                 acc: seq<byte>, pos: nat, found: nat, i0: nat, partial: seq<byte>, ro0: seq<nat>,
                 i: nat, ro: seq<nat>)
    returns (p: nat, lead: seq<byte>)
    requires pos <= found <= |c.chars| && Find(c.chars, needle, pos) == found
    requires Scanning(c, needle, repl, one, out, i0, pos, partial, acc, ro0)
    requires i0 <= i <= |c.offsets| && |ro| == |ro0| && ro[..i0] == ro0[..i0]
    requires forall k :: i0 <= k < i ==> c.offsets[k] <= found && ro[k] == |acc| + (c.offsets[k] - pos)
    ensures p == (if i == i0 then pos else c.offsets[i - 1]) && lead == (if i == i0 then partial else [])
    ensures pos <= p <= found && Find(c.chars, needle, p) == found
    ensures Scanning(c, needle, repl, one, out, i, p, lead, acc + c.chars[pos..p], ro)
  {
    assert acc + c.chars[pos..pos] == acc;
    ScanningOffsets(c, needle, repl, one, out, i0, pos, partial, acc, ro0, ro);
    p, lead := SkipRowsFrom(c, needle, repl, one, out, acc, pos, found, i0, pos, partial, i, ro);
  }

  lemma {:induction false} SkipRowsFrom(c: StringColumn, needle: seq<byte>, repl: seq<byte>, one: bool,
                                        out: seq<seq<byte>>, acc: seq<byte>, pos: nat, found: nat,
                                        j: nat, q: nat, lead0: seq<byte>, i: nat, ro: seq<nat>)
    returns (p: nat, lead: seq<byte>)
    requires pos <= q <= found && found <= |c.chars| && Find(c.chars, needle, q) == found
    requires Scanning(c, needle, repl, one, out, j, q, lead0, acc + c.chars[pos..q], ro)
    requires j <= i <= |c.offsets|
    requires forall k :: j <= k < i ==> c.offsets[k] <= found && ro[k] == |acc| + (c.offsets[k] - pos)
    ensures p == (if i == j then q else c.offsets[i - 1]) && lead == (if i == j then lead0 else [])
    ensures pos <= p <= found && Find(c.chars, needle, p) == found
    ensures Scanning(c, needle, repl, one, out, i, p, lead, acc + c.chars[pos..p], ro)
    decreases i - j
  {
    if j == i {
      p, lead := q, lead0;
    } else {
      SkipRow(c, needle, repl, one, out, acc, pos, found, j, q, lead0, ro);
      p, lead := SkipRowsFrom(c, needle, repl, one, out, acc, pos, found, j + 1, c.offsets[j], [], i, ro);
    }
  }

  /** Row `i` is complete once the bytes from `q` to its end are emitted:
      its end offset `v` is written and the scan moves to the next row. */
  lemma FinishRow(c: StringColumn, needle: seq<byte>, repl: seq<byte>, one: bool, out: seq<seq<byte>>,
                  i: nat, q: nat, partial: seq<byte>, emitted: seq<byte>, ro: seq<nat>, v: nat)
    requires Finishing(c, needle, repl, one, out, i, q, partial, emitted, ro)
    requires v == |emitted + c.chars[q..c.offsets[i]]|
    ensures Scanning(c, needle, repl, one, out, i + 1, c.offsets[i], [], emitted + c.chars[q..c.offsets[i]], ro[i := v])
  {
    RowFinished(out, i, partial, c.chars[q..c.offsets[i]], emitted, ro, v);
    NextRow(c, needle, repl, one, out, i, emitted + c.chars[q..c.offsets[i]], ro[i := v]);
  }

  /** The next occurrence `found` ends (at `e`) before the terminator of row
      `i`: it is replaced, and the scan goes on inside the row after it. */
  lemma ReplaceInRow(c: StringColumn, needle: seq<byte>, repl: seq<byte>, one: bool, out: seq<seq<byte>>,
                     acc: seq<byte>, pos: nat, found: nat, i: nat, p: nat, lead: seq<byte>, ro: seq<nat>,
                     e: nat, partial: seq<byte>)
    requires pos <= p <= found && found <= |c.chars| && Find(c.chars, needle, p) == found
    requires Scanning(c, needle, repl, one, out, i, p, lead, acc + c.chars[pos..p], ro)
    requires i < |c.offsets| && e == found + |needle| && e < c.offsets[i]
    requires partial == lead + c.chars[p..found] + repl && !one
    ensures pos < e < c.offsets[i] <= |c.chars|
    ensures Scanning(c, needle, repl, one, out, i, e, partial, acc + c.chars[pos..found] + repl, ro)
  {
    var before := lead + c.chars[p..found];
    RowResumed(c.chars, out, i, acc, pos, p, found, lead, before, acc + c.chars[pos..found]);
    RowReplaced(c, needle, repl, one, out, i, p, p - Start(c.offsets, i), lead, found, e,
                e - Start(c.offsets, i), before);
    AppendAssoc(Concat(out[..i]), before, repl);
  }

  /** With `one`, the first occurrence `found` of row `i` ends (at `e`)
      before the row's terminator: it is replaced and the rest of the row is
      copied. */
  lemma ReplaceOnceInRow(c: StringColumn, needle: seq<byte>, repl: seq<byte>, one: bool, out: seq<seq<byte>>,
                         acc: seq<byte>, pos: nat, found: nat, i: nat, p: nat, lead: seq<byte>, ro: seq<nat>,
                         e: nat, partial: seq<byte>)
    requires pos <= p <= found && found <= |c.chars| && Find(c.chars, needle, p) == found
    requires Scanning(c, needle, repl, one, out, i, p, lead, acc + c.chars[pos..p], ro)
    requires i < |c.offsets| && e == found + |needle| && e < c.offsets[i]
    requires partial == lead + c.chars[p..found] + repl && one
    ensures pos < e < c.offsets[i] <= |c.chars|
    ensures Finishing(c, needle, repl, one, out, i, e, partial, acc + c.chars[pos..found] + repl, ro)
  {
    var before := lead + c.chars[p..found];
    RowResumed(c.chars, out, i, acc, pos, p, found, lead, before, acc + c.chars[pos..found]);
    RowReplaced(c, needle, repl, one, out, i, p, p - Start(c.offsets, i), lead, found, e,
                e - Start(c.offsets, i), before);
    AppendAssoc(Concat(out[..i]), before, repl);
  }

  /** The next occurrence `found` crosses the end of row `i`: the row holds
      no more occurrences and its rest is copied from `found` on. */
  lemma CrossRow(c: StringColumn, needle: seq<byte>, repl: seq<byte>, one: bool, out: seq<seq<byte>>,
                 acc: seq<byte>, pos: nat, found: nat, i: nat, p: nat, lead: seq<byte>, ro: seq<nat>,
                 partial: seq<byte>)
    requires pos <= p <= found && found <= |c.chars| && Find(c.chars, needle, p) == found
    requires Scanning(c, needle, repl, one, out, i, p, lead, acc + c.chars[pos..p], ro)
    requires i < |c.offsets| && found < c.offsets[i] <= found + |needle|
    requires partial == lead + c.chars[p..found]
    ensures pos < c.offsets[i] <= |c.chars|
    ensures Finishing(c, needle, repl, one, out, i, found, partial, acc + c.chars[pos..found], ro)
  {
    RowResumed(c.chars, out, i, acc, pos, p, found, lead, partial, acc + c.chars[pos..found]);
    RowCrossed(c, needle, repl, one, out, i, p, p - Start(c.offsets, i), lead, found, partial);
  }

  /** Every row is complete: what was emitted is the packed result. */
  lemma ScanEnd(c: StringColumn, needle: seq<byte>, repl: seq<byte>, one: bool, out: seq<seq<byte>>,
                acc: seq<byte>, pos: nat, found: nat, i: nat, p: nat, lead: seq<byte>, ro: seq<nat>)
    requires pos <= p <= found <= |c.chars| && i == |c.offsets|
    requires Scanning(c, needle, repl, one, out, i, p, lead, acc + c.chars[pos..p], ro)
    ensures acc + c.chars[pos..found] == Concat(out) && ro == Ends(out)
  {
    assert p == |c.chars| == found;
  }

  /** The scan ran to the end of the buffer: every row is complete. */
  lemma ScanDone(c: StringColumn, needle: seq<byte>, repl: seq<byte>, one: bool, out: seq<seq<byte>>,
                 i: nat, pos: nat, partial: seq<byte>, emitted: seq<byte>, ro: seq<nat>)
    requires Scanning(c, needle, repl, one, out, i, pos, partial, emitted, ro) && |c.chars| <= pos
    ensures emitted == Concat(out) && ro == Ends(out)
  {
  }
}
