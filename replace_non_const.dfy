/** `replace` over a column of strings whose needle differs from row to row
    (the needles are themselves a string column): every row is searched on
    its own, with its own needle. */
module ReplaceNonConst {
  import opened Search
  import opened Columns
  import opened ReplaceSpec

  /** The searcher-driven replacement in one buffer: find the next
      occurrence, copy the bytes before it, write the replacement and resume
      after it; with `one`, copy everything after the first occurrence and
      stop. */
  method ReplaceSearched(data: seq<byte>, needle: seq<byte>, repl: seq<byte>, one: bool) returns (res: seq<byte>)
    requires |needle| > 0
    ensures res == Replace(data, needle, repl, one)
  {
    ghost var target := Replace(data, needle, repl, one);
    res := [];
    var pos: nat := 0;
    while pos < |data|
      invariant pos <= |data|
      invariant res + ReplaceFrom(data, needle, repl, one, pos) == target
      decreases |data| - pos
    {
      var found: nat := Find(data, needle, pos);
      if found == |data| {
        SearchExhausted(data, needle, repl, one, pos, res, target);
        res := res + data[pos..found];
        break;
      }
      var e: nat := found + |needle|;
      SearchFound(data, needle, repl, one, pos, found, e, res, target);
      res := res + data[pos..found] + repl;
      pos := e;
      if one {
        res := res + data[pos..];
        break;
      }
    }
  }

  /** No occurrence is left from `pos` on: the rest is copied as it is. */
  lemma SearchExhausted(data: seq<byte>, needle: seq<byte>, repl: seq<byte>, one: bool, pos: nat,
                        res: seq<byte>, target: seq<byte>)
    requires |needle| > 0 && pos <= |data| && Find(data, needle, pos) == |data|
    requires res + ReplaceFrom(data, needle, repl, one, pos) == target
    ensures res + data[pos..|data|] == target
  {
    assert data[pos..|data|] == data[pos..];
  }

  /** The next occurrence from `pos` is at `found` and ends at `e`: the
      bytes before it and the replacement are written, and what is left is
      the copied rest (`one`) or the replacement from `e` on. */
  lemma SearchFound(data: seq<byte>, needle: seq<byte>, repl: seq<byte>, one: bool, pos: nat, found: nat, e: nat,
                    res: seq<byte>, target: seq<byte>)
    requires |needle| > 0 && pos <= |data| && Find(data, needle, pos) == found < |data| && e == found + |needle|
    requires res + ReplaceFrom(data, needle, repl, one, pos) == target
    ensures pos < e <= |data|
    ensures one ==> res + data[pos..found] + repl + data[e..] == target
    ensures !one ==> res + data[pos..found] + repl + ReplaceFrom(data, needle, repl, one, e) == target
  {
    ReplaceFromNext(data, needle, repl, one, pos, found, e);
  }

  /** The chunks written for the rows of `c`, as the kernel searches them:
      row `k` together with its terminating zero byte, with row `k` of
      `needles` replaced. */
  function SearchedChunks(c: StringColumn, needles: StringColumn, repl: seq<byte>, one: bool): (r: seq<seq<byte>>)
    requires Valid(c) && Valid(needles) && |needles.offsets| == |c.offsets|
    ensures |r| == |c.offsets|
  {
    seq(|c.offsets|, k requires 0 <= k < |c.offsets| => SearchedChunkOf(c, needles, repl, one, k))
  }

  /** Chunk `k` of `c`, terminator included, with row `k` of `needles`
      replaced. */
  function SearchedChunkOf(c: StringColumn, needles: StringColumn, repl: seq<byte>, one: bool, k: nat): seq<byte>
    requires Valid(c) && Valid(needles) && k < |c.offsets| == |needles.offsets|
  {
    Replace(Chunk(c, k), Row(needles, k), repl, one)
  }

  /** The chunks the kernel is meant to write: the text of row `k` with row
      `k` of `needles` replaced, followed by the terminating zero byte. */
  function RowChunks(c: StringColumn, needles: StringColumn, repl: seq<byte>, one: bool): (r: seq<seq<byte>>)
    requires Valid(c) && Valid(needles) && |needles.offsets| == |c.offsets|
    ensures |r| == |c.offsets|
  {
    seq(|c.offsets|, k requires 0 <= k < |c.offsets| => RowChunkOf(c, needles, repl, one, k))
  }

  /** Row `k` of `c` with row `k` of `needles` replaced, then a zero
      byte. */
  function RowChunkOf(c: StringColumn, needles: StringColumn, repl: seq<byte>, one: bool, k: nat): seq<byte>
    requires Valid(c) && Valid(needles) && k < |c.offsets| == |needles.offsets|
  {
    Replace(Row(c, k), Row(needles, k), repl, one) + [0]
  }

  /** `vectorNonConstNeedle` as written: the search for row `i`'s needle
      runs over the whole chunk of row `i`, its terminating zero byte
      included; an empty needle copies the chunk. */
  method VectorNonConstNeedle(c: StringColumn, needles: StringColumn, repl: seq<byte>, one: bool)
    returns (resData: seq<byte>, resOffsets: seq<nat>)
    requires Valid(c) && Valid(needles) && |needles.offsets| == |c.offsets|
    ensures resData == Concat(SearchedChunks(c, needles, repl, one))
    ensures resOffsets == Ends(SearchedChunks(c, needles, repl, one))
  {
    ghost var out := SearchedChunks(c, needles, repl, one);
    var n: nat := |c.offsets|;
    resData := [];
    resOffsets := seq(n, _ => 0);
    var resOffset: nat := 0;
    for i: nat := 0 to n
      invariant resData == Concat(out[..i]) && resOffset == |resData|
      invariant |resOffsets| == n && resOffsets[..i] == Ends(out[..i])
    {
      var replaced := SearchedChunk(c, needles, repl, one, i);
      PackAppend(out, i, resData, resOffsets, replaced, resOffset + |replaced|);
      resData := resData + replaced;
      resOffset := resOffset + |replaced|;
      resOffsets := resOffsets[i := resOffset];
    }
    assert out[..n] == out;
  }

  /** `vectorNonConstNeedle` as intended: row `i`'s needle is searched for
      in the text of row `i` only, and the terminating zero byte is written
      after it. The result is a well-formed column whose row `k` is row `k`
      of `c` with row `k` of `needles` replaced. */
  method VectorNonConstNeedleInRow(c: StringColumn, needles: StringColumn, repl: seq<byte>, one: bool)
    returns (resData: seq<byte>, resOffsets: seq<nat>)
    requires Valid(c) && Valid(needles) && |needles.offsets| == |c.offsets|
    ensures Valid(StringColumn(resData, resOffsets)) && |resOffsets| == |c.offsets|
    ensures forall k :: 0 <= k < |c.offsets| ==>
      Row(StringColumn(resData, resOffsets), k) == Replace(Row(c, k), Row(needles, k), repl, one)
  {
    resData, resOffsets := WriteRowChunks(c, needles, repl, one);
    RowChunksColumn(c, needles, repl, one, resData, resOffsets);
  }

  /** The loop over the rows of `VectorNonConstNeedleInRow`. */
  method WriteRowChunks(c: StringColumn, needles: StringColumn, repl: seq<byte>, one: bool)
    returns (resData: seq<byte>, resOffsets: seq<nat>)
    requires Valid(c) && Valid(needles) && |needles.offsets| == |c.offsets|
    ensures resData == Concat(RowChunks(c, needles, repl, one))
    ensures resOffsets == Ends(RowChunks(c, needles, repl, one))
  {
    ghost var out := RowChunks(c, needles, repl, one);
    var n: nat := |c.offsets|;
    resData := [];
    resOffsets := seq(n, _ => 0);
    var resOffset: nat := 0;
    for i: nat := 0 to n
      invariant resData == Concat(out[..i]) && resOffset == |resData|
      invariant |resOffsets| == n && resOffsets[..i] == Ends(out[..i])
    {
      var replaced := RowChunk(c, needles, repl, one, i);
      PackAppend(out, i, resData, resOffsets, replaced, resOffset + |replaced|);
      resData := resData + replaced;
      resOffset := resOffset + |replaced|;
      resOffsets := resOffsets[i := resOffset];
    }
    assert out[..n] == out;
  }

  /** Row `i` as the kernel writes it: its chunk, terminator included,
      searched for row `i` of `needles`. */
  method SearchedChunk(c: StringColumn, needles: StringColumn, repl: seq<byte>, one: bool, i: nat)
    returns (chunk: seq<byte>)
    requires Valid(c) && Valid(needles) && i < |c.offsets| == |needles.offsets|
    ensures chunk == SearchedChunkOf(c, needles, repl, one, i)
  {
    StartBounds(c, i);
    StartBounds(needles, i);
    chunk := c.chars[Start(c.offsets, i)..c.offsets[i]];
    var needle := needles.chars[Start(needles.offsets, i)..needles.offsets[i] - 1];
    if |needle| > 0 {
      chunk := ReplaceSearched(chunk, needle, repl, one);
    }
  }

  /** Row `i` as it is meant to be written: the row's text searched for row
      `i` of `needles`, then its terminator. */
  method RowChunk(c: StringColumn, needles: StringColumn, repl: seq<byte>, one: bool, i: nat)
    returns (chunk: seq<byte>)
    requires Valid(c) && Valid(needles) && i < |c.offsets| == |needles.offsets|
    ensures chunk == RowChunkOf(c, needles, repl, one, i)
  {
    StartBounds(c, i);
    StartBounds(needles, i);
    var row := c.chars[Start(c.offsets, i)..c.offsets[i] - 1];
    var needle := needles.chars[Start(needles.offsets, i)..needles.offsets[i] - 1];
    if |needle| > 0 {
      row := ReplaceSearched(row, needle, repl, one);
    }
    chunk := row + [0];
  }

  /** The intended chunks pack into a well-formed column whose row `k` is
      row `k` of `c` with row `k` of `needles` replaced. */
  lemma RowChunksColumn(c: StringColumn, needles: StringColumn, repl: seq<byte>, one: bool,
                        data: seq<byte>, offsets: seq<nat>)
    requires Valid(c) && Valid(needles) && |needles.offsets| == |c.offsets|
    requires data == Concat(RowChunks(c, needles, repl, one)) && offsets == Ends(RowChunks(c, needles, repl, one))
    ensures Valid(StringColumn(data, offsets)) && |offsets| == |c.offsets|
    ensures forall k :: 0 <= k < |c.offsets| ==>
      Row(StringColumn(data, offsets), k) == Replace(Row(c, k), Row(needles, k), repl, one)
  {
    var out := RowChunks(c, needles, repl, one);
    var rows := seq(|c.offsets|, k requires 0 <= k < |c.offsets| => Replace(Row(c, k), Row(needles, k), repl, one));
    PackRows(rows, out);
    assert Pack(out) == StringColumn(data, offsets);
  }

  /** A needle whose last byte is not zero cannot take in a row's
      terminator: replacing in the chunk is replacing in the row and keeping
      the terminator. */
  lemma KeepsTerminator(row: seq<byte>, needle: seq<byte>, repl: seq<byte>, one: bool)
    requires needle == [] || needle[|needle| - 1] != 0
    ensures Replace(row + [0], needle, repl, one) == Replace(row, needle, repl, one) + [0]
  {
    if needle != [] {
      KeepsTerminatorFrom(row, row + [0], needle, repl, one, 0);
    }
  }

  lemma {:induction false} KeepsTerminatorFrom(row: seq<byte>, data: seq<byte>, needle: seq<byte>, repl: seq<byte>,
                                               one: bool, from: nat)
    requires |needle| > 0 && needle[|needle| - 1] != 0 && data == row + [0] && from <= |row|
    ensures ReplaceFrom(data, needle, repl, one, from) == ReplaceFrom(row, needle, repl, one, from) + [0]
    decreases |row| - from
  {
    var m := Find(data, needle, from);
    FindInWindow(data, needle, 0, from, |row|);
    assert data[0..|row|] == row;
    if m < |data| {
      var e := MatchBeforeTerminator(row, data, needle, m);
      ReplaceFromNext(data, needle, repl, one, from, m, e);
      ReplaceFromNext(row, needle, repl, one, from, m, e);
      if one {
        assert data[e..] == row[e..] + [0];
      } else {
        KeepsTerminatorFrom(row, data, needle, repl, one, e);
      }
      assert data[from..m] == row[from..m];
    } else {
      assert data[from..] == row[from..] + [0];
    }
  }

  /** An occurrence of a needle that does not end in a zero byte ends
      before the terminator. */
  lemma MatchBeforeTerminator(row: seq<byte>, data: seq<byte>, needle: seq<byte>, m: nat) returns (e: nat)
    requires |needle| > 0 && needle[|needle| - 1] != 0 && data == row + [0] && OccursAt(data, needle, m)
    ensures e == m + |needle| <= |row|
  {
    e := m + |needle|;
    OccursAtSlice(data, needle, m);
    assert data[e - 1] == needle[|needle| - 1];
  }

  /** When no needle ends in a zero byte, the kernel as written writes the
      intended chunks. */
  lemma SearchedChunksAgree(c: StringColumn, needles: StringColumn, repl: seq<byte>, one: bool)
    requires Valid(c) && Valid(needles) && |needles.offsets| == |c.offsets|
    requires forall k :: 0 <= k < |c.offsets| ==> Row(needles, k) == [] || Row(needles, k)[|Row(needles, k)| - 1] != 0
    ensures SearchedChunks(c, needles, repl, one) == RowChunks(c, needles, repl, one)
  {
    forall k | 0 <= k < |c.offsets|
      ensures SearchedChunks(c, needles, repl, one)[k] == RowChunks(c, needles, repl, one)[k]
    {
      KeepsTerminator(Row(c, k), Row(needles, k), repl, one);
    }
  }

  /** A needle that ends in a zero byte matches the terminator of a row:
      with one empty row and the needle "\0", the kernel as written replaces
      the terminator itself, and what it writes is not a well-formed
      column. */
  lemma TerminatorReplaced()
    ensures var c := StringColumn([0], [1]);
            var needles := StringColumn([0, 0], [2]);
            && Valid(c) && Valid(needles) && Row(needles, 0) == [0]
            && SearchedChunks(c, needles, [120], false) == [[120]]
            && !Valid(Pack(SearchedChunks(c, needles, [120], false)))
  {
    var c := StringColumn([0], [1]);
    var needles := StringColumn([0, 0], [2]);
    var chunk := Chunk(c, 0);
    assert chunk == [0];
    assert Row(needles, 0) == [0];
    assert OccursAt(chunk, [0], 0) by {
      OccursAtSlice(chunk, [0], 0);
    }
    assert Find(chunk, [0], 0) == 0;
    ReplaceFromNext(chunk, [0], [120], false, 0, 0, 1);
    assert ReplaceFrom(chunk, [0], [120], false, 1) == [];
    assert Replace(chunk, [0], [120], false) == [120];
    var out := SearchedChunks(c, needles, [120], false);
    assert out == [[120]];
    assert Concat(out) == [120] by {
      assert out[..0] == [];
    }
  }
}
