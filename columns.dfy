/** The layout of a string column: the bytes of all rows in one buffer, each
    row followed by a zero byte, and for each row the offset just past its
    zero byte. */
module Columns {
  import opened Search

  datatype StringColumn = StringColumn(chars: seq<byte>, offsets: seq<nat>)

  /** Where row `i` starts: the previous row's end offset, or 0 for the first
      row (StringUtil::offsetAt). */
  function Start(offsets: seq<nat>, i: nat): nat
    requires i < |offsets|
  {
    if i == 0 then 0 else offsets[i - 1]
  }

  /** Offsets strictly increase, the last one is the buffer's size, and every
      row ends in a zero byte. */
  predicate Valid(c: StringColumn)
  {
    && (forall i, j :: 0 <= i < j < |c.offsets| ==> c.offsets[i] < c.offsets[j])
    && (forall i :: 0 <= i < |c.offsets| ==> 0 < c.offsets[i] <= |c.chars| && c.chars[c.offsets[i] - 1] == 0)
    && |c.chars| == (if c.offsets == [] then 0 else c.offsets[|c.offsets| - 1])
  }

  lemma StartBounds(c: StringColumn, i: nat)
    requires Valid(c) && i < |c.offsets|
    ensures Start(c.offsets, i) < c.offsets[i] <= |c.chars|
  {
  }

  /** Row `i` with its terminating zero byte. */
  function Chunk(c: StringColumn, i: nat): (r: seq<byte>)
    requires Valid(c) && i < |c.offsets|
    ensures |r| > 0 && r[|r| - 1] == 0
  {
    StartBounds(c, i);
    c.chars[Start(c.offsets, i)..c.offsets[i]]
  }

  /** The value of row `i`, without its terminating zero byte. */
  function Row(c: StringColumn, i: nat): (r: seq<byte>)
    requires Valid(c) && i < |c.offsets|
    ensures Chunk(c, i) == r + [0]
  {
    StartBounds(c, i);
    c.chars[Start(c.offsets, i)..c.offsets[i] - 1]
  }

  /** The chunks of a column, in row order. */
  function Chunks(c: StringColumn): (r: seq<seq<byte>>)
    requires Valid(c)
    ensures |r| == |c.offsets|
  {
    seq(|c.offsets|, i requires 0 <= i < |c.offsets| => Chunk(c, i))
  }

  /** The buffer made by writing `chunks` one after the other. */
  function Concat(chunks: seq<seq<byte>>): seq<byte>
  {
    if chunks == [] then [] else Concat(chunks[..|chunks| - 1]) + chunks[|chunks| - 1]
  }

  /** The end offset of each chunk in `Concat(chunks)`. */
  function Ends(chunks: seq<seq<byte>>): (r: seq<nat>)
    ensures |r| == |chunks|
  {
    if chunks == [] then [] else Ends(chunks[..|chunks| - 1]) + [|Concat(chunks)|]
  }

  /** The column whose rows are `chunks`, each already carrying its zero byte:
      this is how the kernels fill `res_data` and `res_offsets`, one chunk
      after the other. */
  function Pack(chunks: seq<seq<byte>>): StringColumn
  {
    StringColumn(Concat(chunks), Ends(chunks))
  }

  /** Writing one more chunk extends the buffer by it and the offsets by its
      end. */
  lemma PackSnoc(chunks: seq<seq<byte>>, i: nat)
    requires i < |chunks|
    ensures Concat(chunks[..i + 1]) == Concat(chunks[..i]) + chunks[i]
    ensures Ends(chunks[..i + 1]) == Ends(chunks[..i]) + [|Concat(chunks[..i + 1])|]
  {
    assert chunks[..i + 1][..i] == chunks[..i];
  }

  predicate Terminated(chunk: seq<byte>)
  {
    |chunk| > 0 && chunk[|chunk| - 1] == 0
  }

  /** Appending one zero-terminated chunk to a well-formed column keeps it
      well-formed. */
  lemma AppendChunkValid(p: StringColumn, x: seq<byte>, q: StringColumn)
    requires Valid(p) && Terminated(x)
    requires q == StringColumn(p.chars + x, p.offsets + [|p.chars| + |x|])
    ensures Valid(q)
  {
    forall i | 0 <= i < |p.offsets| ensures q.chars[q.offsets[i] - 1] == 0 {
      assert q.chars[q.offsets[i] - 1] == p.chars[p.offsets[i] - 1];
    }
  }

  /** Appending a chunk leaves the earlier chunks as they were, and the new
      last chunk is the one appended. */
  lemma AppendChunkChunks(p: StringColumn, x: seq<byte>, q: StringColumn)
    requires Valid(p) && Terminated(x)
    requires q == StringColumn(p.chars + x, p.offsets + [|p.chars| + |x|])
    requires Valid(q)
    ensures forall i :: 0 <= i < |p.offsets| ==> Chunk(q, i) == Chunk(p, i)
    ensures Chunk(q, |p.offsets|) == x
  {
    forall i | 0 <= i < |p.offsets| ensures Chunk(q, i) == Chunk(p, i) {
      StartBounds(p, i);
      assert Start(q.offsets, i) == Start(p.offsets, i);
      assert q.chars[Start(p.offsets, i)..p.offsets[i]] == p.chars[Start(p.offsets, i)..p.offsets[i]];
    }
    assert q.chars[|p.chars|..] == x;
  }

  /** Packing zero-terminated chunks gives a well-formed column whose chunks
      are exactly the ones packed. */
  lemma {:induction false} PackValid(chunks: seq<seq<byte>>)
    requires forall k :: 0 <= k < |chunks| ==> Terminated(chunks[k])
    ensures Valid(Pack(chunks))
    ensures forall k :: 0 <= k < |chunks| ==> Chunk(Pack(chunks), k) == chunks[k]
  {
    if chunks != [] {
      var n := |chunks| - 1;
      PackValid(chunks[..n]);
      PackValidStep(chunks, n);
    }
  }

  lemma PackValidStep(chunks: seq<seq<byte>>, n: nat)
    requires n + 1 == |chunks| && Terminated(chunks[n])
    requires Valid(Pack(chunks[..n]))
    requires forall k :: 0 <= k < n ==> Chunk(Pack(chunks[..n]), k) == chunks[..n][k]
    ensures Valid(Pack(chunks))
    ensures forall k :: 0 <= k < |chunks| ==> Chunk(Pack(chunks), k) == chunks[k]
  {
    var p := Pack(chunks[..n]);
    var q := PackSnocColumn(chunks, n);
    AppendChunkValid(p, chunks[n], q);
    AppendChunkChunks(p, chunks[n], q);
    forall k | 0 <= k < |chunks| ensures Chunk(q, k) == chunks[k] {
      if k < n {
        assert Chunk(q, k) == Chunk(p, k) == chunks[..n][k];
      }
    }
  }

  /** Packing one more chunk appends it to the buffer and its end to the
      offsets. */
  lemma PackSnocColumn(chunks: seq<seq<byte>>, n: nat) returns (q: StringColumn)
    requires n + 1 == |chunks|
    ensures q == Pack(chunks)
    ensures q == StringColumn(Pack(chunks[..n]).chars + chunks[n],
                              Pack(chunks[..n]).offsets + [|Pack(chunks[..n]).chars| + |chunks[n]|])
  {
    PackSnoc(chunks, n);
    assert chunks[..n + 1] == chunks;
    q := Pack(chunks);
  }

  /** Packing rows, each followed by a zero byte, gives a well-formed column
      with one row per packed row, holding exactly that row. */
  lemma PackRows(rows: seq<seq<byte>>, out: seq<seq<byte>>)
    requires |out| == |rows| && forall k :: 0 <= k < |rows| ==> out[k] == rows[k] + [0]
    ensures Valid(Pack(out)) && |Pack(out).offsets| == |rows|
    ensures forall k :: 0 <= k < |rows| ==> Row(Pack(out), k) == rows[k]
  {
    forall k | 0 <= k < |out| ensures Terminated(out[k]) {
      assert out[k] == rows[k] + [0];
    }
    PackValid(out);
    var r := Pack(out);
    forall k | 0 <= k < |rows| ensures Row(r, k) == rows[k] {
      assert Chunk(r, k) == out[k];
      var x := Row(r, k);
      assert x + [0] == rows[k] + [0];
      assert x == (x + [0])[..|x|];
      assert rows[k] == (rows[k] + [0])[..|rows[k]|];
    }
  }

  /** Setting the offset of row `i` once the rows before it are set. */
  lemma SetOffset(ro: seq<nat>, i: nat, v: nat, ends: seq<nat>)
    requires i < |ro| && ro[..i] == ends
    ensures ro[i := v][..i + 1] == ends + [v]
  {
    assert ro[i := v][..i] == ro[..i];
  }

  /** Writing chunk `i` after the first `i` chunks, and its end offset at
      index `i`, gives the first `i + 1` chunks and their end offsets. */
  lemma PackAppend(out: seq<seq<byte>>, i: nat, data: seq<byte>, ro: seq<nat>, x: seq<byte>, v: nat)
    requires i < |out| && x == out[i] && data == Concat(out[..i])
    requires i < |ro| && ro[..i] == Ends(out[..i]) && v == |data| + |x|
    ensures data + x == Concat(out[..i + 1])
    ensures ro[i := v][..i + 1] == Ends(out[..i + 1])
  {
    PackSnoc(out, i);
    SetOffset(ro, i, v, Ends(out[..i]));
  }

  /** A well-formed column is the packing of its own chunks. */
  lemma {:induction false} PackChunks(c: StringColumn)
    requires Valid(c)
    ensures Pack(Chunks(c)) == c
  {
    var cs := Chunks(c);
    forall i | 0 <= i <= |cs| ensures Concat(cs[..i]) == c.chars[..if i == 0 then 0 else c.offsets[i - 1]]
                                 && Ends(cs[..i]) == c.offsets[..i] {
      PackPrefix(c, i);
    }
    assert cs[..|cs|] == cs;
    assert c.offsets[..|c.offsets|] == c.offsets;
  }

  lemma {:induction false} PackPrefix(c: StringColumn, i: nat)
    requires Valid(c) && i <= |c.offsets|
    ensures Concat(Chunks(c)[..i]) == c.chars[..if i == 0 then 0 else c.offsets[i - 1]]
    ensures Ends(Chunks(c)[..i]) == c.offsets[..i]
  {
    if i > 0 {
      var cs := Chunks(c);
      PackPrefix(c, i - 1);
      PackSnoc(cs, i - 1);
      StartBounds(c, i - 1);
      var s := Start(c.offsets, i - 1);
      PrefixSplit(c.chars, s, c.offsets[i - 1]);
      PrefixSnoc(c.offsets, i);
    }
  }

  lemma PrefixSplit(d: seq<byte>, s: nat, e: nat)
    requires s <= e <= |d|
    ensures d[..s] + d[s..e] == d[..e]
  {
  }

  lemma PrefixSnoc(o: seq<nat>, i: nat)
    requires 0 < i <= |o|
    ensures o[..i - 1] + [o[i - 1]] == o[..i]
  {
  }
}
