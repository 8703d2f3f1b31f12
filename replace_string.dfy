module ReplaceString {
  import opened Search
  import opened Columns
  import opened ReplaceSpec
  import opened ReplaceColumn

  function ScanRest(data: seq<byte>, needle: seq<byte>, repl: seq<byte>, one: bool, i: nat, done: bool): seq<byte>
    requires |needle| > 0 && i <= |data|
  {
    if done then data[i..] else ReplaceFrom(data, needle, repl, one, i)
  }

  method Constant(data: seq<byte>, needle: seq<byte>, repl: seq<byte>, one: bool) returns (res: seq<byte>)
    ensures res == Replace(data, needle, repl, one)
  {
    if needle == [] {
      return data;
    }
    ghost var target := Replace(data, needle, repl, one);
    res := [];
    var replaceCnt := 0;
    var i: nat := 0;
    ghost var done := false;
    while i < |data|
      invariant 0 <= i <= |data|
      invariant done == (one && replaceCnt > 0)
      invariant res + ScanRest(data, needle, repl, one, i, done) == target
    {
      var isMatch := false;
      if !(i + |needle| > |data| || (one && replaceCnt > 0)) {
        isMatch := MatchesAt(data, needle, i);
      }
      if isMatch {
        ghost var prevRes, prevI := res, i;
        replaceCnt := replaceCnt + 1;
        done := one;
        res := res + repl;
        i := i + |needle|;
        ScanMatch(data, needle, repl, one, prevI, prevRes, i, done, res, target);
      } else {
        ghost var prevRes, prevI := res, i;
        res := res + [data[i]];
        i := i + 1;
        ScanSkip(data, needle, repl, one, prevI, i, done, prevRes, res, target);
      }
    }
  }

  /** The byte-by-byte comparison of the needle against `data` at offset `i`. */
  method MatchesAt(data: seq<byte>, needle: seq<byte>, i: nat) returns (isMatch: bool)
    requires i + |needle| <= |data|
    ensures isMatch == OccursAt(data, needle, i)
  {
    isMatch := true;
    var j := 0;
    while isMatch && j < |needle|
      invariant 0 <= j <= |needle|
      invariant isMatch == (data[i..i + j] == needle[..j])
    {
      if data[i + j] != needle[j] {
        isMatch := false;
      }
      j := j + 1;
    }
    if isMatch {
      assert data[i..i + |needle|] == needle;
    }
    OccursAtSlice(data, needle, i);
  }

  lemma ScanMatch(data: seq<byte>, needle: seq<byte>, repl: seq<byte>, one: bool, i: nat,
                  res: seq<byte>, i': nat, done': bool, res': seq<byte>, target: seq<byte>)
    requires |needle| > 0 && i < |data| && OccursAt(data, needle, i)
    requires res + ScanRest(data, needle, repl, one, i, false) == target
    requires res' == res + repl && i' == i + |needle| && done' == one
    ensures i' <= |data|
    ensures res' + ScanRest(data, needle, repl, one, i', done') == target
  {
    ReplaceFromMatch(data, needle, repl, one, i);
    if one {
      var rest := data[i'..];
      assert ScanRest(data, needle, repl, one, i, false) == repl + rest;
      AppendAssoc(res, repl, rest);
    } else {
      var rest := ReplaceFrom(data, needle, repl, one, i');
      assert ScanRest(data, needle, repl, one, i, false) == repl + rest;
      AppendAssoc(res, repl, rest);
    }
  }

  lemma ScanSkip(data: seq<byte>, needle: seq<byte>, repl: seq<byte>, one: bool, i: nat, i': nat, done: bool,
                 res: seq<byte>, res': seq<byte>, target: seq<byte>)
    requires |needle| > 0 && i < |data| && (done || !OccursAt(data, needle, i))
    requires res + ScanRest(data, needle, repl, one, i, done) == target
    requires res' == res + [data[i]] && i' == i + 1
    ensures i' <= |data|
    ensures res' + ScanRest(data, needle, repl, one, i', done) == target
  {
    if done {
      var rest := data[i'..];
      assert ScanRest(data, needle, repl, one, i, done) == [data[i]] + rest;
      AppendAssoc(res, [data[i]], rest);
    } else {
      ReplaceFromSkip(data, needle, repl, one, i);
      var rest := ReplaceFrom(data, needle, repl, one, i');
      assert ScanRest(data, needle, repl, one, i, done) == [data[i]] + rest;
      AppendAssoc(res, [data[i]], rest);
    }
  }

  /** `replace` over a column of strings with a constant needle: one search
      runs over the whole buffer, and each occurrence is either replaced
      (when it ends before the terminator of the row it starts in) or, when
      it crosses into the next row, ignored, and the rest of its row is
      copied. The column is `c.chars` with the row ends `c.offsets`. */
  method Vector(c: StringColumn, needle: seq<byte>, repl: seq<byte>, one: bool)
    returns (resData: seq<byte>, resOffsets: seq<nat>)
    requires Valid(c)
    ensures Valid(StringColumn(resData, resOffsets)) && |resOffsets| == |c.offsets|
    ensures forall k :: 0 <= k < |c.offsets| ==>
      Row(StringColumn(resData, resOffsets), k) == Replace(Row(c, k), needle, repl, one)
  {
    ghost var out := ReplacedRows(c, needle, repl, one);
    var n: nat := |c.offsets|;
    if needle == [] {
      EmptyNeedleRows(c, repl, one, out);
      ReplacedColumn(c, needle, repl, one, out, c.chars, c.offsets);
      return c.chars, c.offsets;
    }
    var resOffset: nat := 0;
    resData := [];
    resOffsets := seq(n, _ => 0);
    var i: nat := 0;
    var pos: nat := 0;
    ghost var partial: seq<byte> := [];
    ScanStart(c, needle, repl, one, out, resOffsets);
    var stop: bool := false;
    while pos < |c.chars|
      invariant Scanning(c, needle, repl, one, out, i, pos, partial, resData, resOffsets)
      invariant i <= n && pos <= |c.chars| && resOffset == |resData| && !stop
      decreases |c.chars| - pos
    {
      i, pos, partial, resData, resOffsets, resOffset, stop :=
        Round(c, needle, repl, one, out, i, pos, partial, resData, resOffsets, resOffset);
      if stop {
        break;
      }
    }
    if !stop {
      ScanDone(c, needle, repl, one, out, i, pos, partial, resData, resOffsets);
    }
    ReplacedColumn(c, needle, repl, one, out, resData, resOffsets);
  }

  /** One round of the scan in `Vector`: the searcher finds the next
      occurrence `found` from `pos`; the bytes up to it are copied; every row
      that ends by it is closed; if none is left the scan stops (`stop`),
      and otherwise the occurrence is replaced or the rest of its row
      copied. */
  method Round(c: StringColumn, needle: seq<byte>, repl: seq<byte>, one: bool, ghost out: seq<seq<byte>>,
               i: nat, pos: nat, ghost partial: seq<byte>, resData: seq<byte>, resOffsets: seq<nat>, resOffset: nat)
    returns (i': nat, pos': nat, ghost partial': seq<byte>, resData': seq<byte>, resOffsets': seq<nat>, resOffset': nat,
             stop: bool)
    requires pos < |c.chars| && Scanning(c, needle, repl, one, out, i, pos, partial, resData, resOffsets)
    requires resOffset == |resData|
    ensures stop ==> resData' == Concat(out) && resOffsets' == Ends(out)
    ensures !stop ==> Scanning(c, needle, repl, one, out, i', pos', partial', resData', resOffsets')
    ensures !stop ==> pos < pos' <= |c.chars| && i' <= |c.offsets| && resOffset' == |resData'|
  {
    var found: nat := Find(c.chars, needle, pos);
    resData' := resData + c.chars[pos..found];
    RowsAhead(c, needle, repl, one, out, i, pos, partial, resData, resOffsets);
    i', resOffsets' := CloseRows(c.offsets, found, pos, resOffset, i, resOffsets);
    ghost var p: nat, lead: seq<byte> :=
      SkipRows(c, needle, repl, one, out, resData, pos, found, i, partial, resOffsets, i', resOffsets');
    resOffset' := resOffset + (found - pos);
    if i' == |c.offsets| {
      ScanEnd(c, needle, repl, one, out, resData, pos, found, i', p, lead, resOffsets');
      return i', pos, [], resData', resOffsets', resOffset', true;
    }
    stop := false;
    i', pos', partial', resData', resOffsets', resOffset' :=
      ReplaceOrFinish(c, needle, repl, one, out, found, pos, i', resData', resOffsets', resOffset', resData, lead, p);
  }

  /** The rest of one round of `Vector`, once the rows that end by the
      occurrence `found` are settled and the scan stands at `p` in row `i`,
      the row `found` lies in: an occurrence that ends before the row's
      terminator is replaced; with `one`, or when the occurrence crosses
      into the next row, the rest of the row is copied and its end offset
      written. `pos` is where the round started and `acc` what was emitted
      before it. */
  method ReplaceOrFinish(c: StringColumn, needle: seq<byte>, repl: seq<byte>, one: bool, ghost out: seq<seq<byte>>,
                         found: nat, pos: nat, i: nat, resData: seq<byte>, resOffsets: seq<nat>, resOffset: nat,
                         ghost acc: seq<byte>, ghost lead: seq<byte>, ghost p: nat)
    returns (i': nat, pos': nat, ghost partial': seq<byte>, resData': seq<byte>, resOffsets': seq<nat>, resOffset': nat)
    requires pos <= p <= found && found <= |c.chars| && Find(c.chars, needle, p) == found
    requires Scanning(c, needle, repl, one, out, i, p, lead, acc + c.chars[pos..p], resOffsets)
    requires i < |c.offsets| && found < c.offsets[i]
    requires resData == acc + c.chars[pos..found] && resOffset == |resData|
    ensures Scanning(c, needle, repl, one, out, i', pos', partial', resData', resOffsets')
    ensures pos < pos' <= |c.chars| && i' <= |c.offsets| && resOffset' == |resData'|
  {
    i', resOffsets' := i, resOffsets;
    partial' := lead + c.chars[p..found];
    var canFinish: bool := false;
    if found + |needle| < c.offsets[i] {
      partial' := partial' + repl;
      resData' := resData + repl;
      resOffset' := resOffset + |repl|;
      pos' := found + |needle|;
      if one {
        ReplaceOnceInRow(c, needle, repl, one, out, acc, pos, found, i, p, lead, resOffsets, pos', partial');
        canFinish := true;
      } else {
        ReplaceInRow(c, needle, repl, one, out, acc, pos, found, i, p, lead, resOffsets, pos', partial');
      }
    } else {
      CrossRow(c, needle, repl, one, out, acc, pos, found, i, p, lead, resOffsets, partial');
      resData', resOffset' := resData, resOffset;
      pos' := found;
      canFinish := true;
    }
    if canFinish {
      ghost var emitted: seq<byte> := resData';
      resData' := resData' + c.chars[pos'..c.offsets[i]];
      resOffset' := resOffset' + (c.offsets[i] - pos');
      FinishRow(c, needle, repl, one, out, i, pos', partial', emitted, resOffsets, resOffset');
      resOffsets' := resOffsets[i := resOffset'];
      pos' := c.offsets[i];
      partial' := [];
      i' := i + 1;
    }
  }

  /** The inner loop of `Vector`: every row from `i0` on that ends at or
      before the occurrence `found` is copied unchanged from `pos` on, so its
      end offset, counted from `resOffset` at `pos`, is written; the first
      row that ends after `found` (if any) is row `i`. */
  method CloseRows(offsets: seq<nat>, found: nat, pos: nat, resOffset: nat, i0: nat, offsets0: seq<nat>)
    returns (i: nat, resOffsets: seq<nat>)
    requires i0 <= |offsets| == |offsets0|
    requires forall k :: i0 <= k < |offsets| ==> pos <= offsets[k]
    ensures i0 <= i <= |offsets| && |resOffsets| == |offsets| && resOffsets[..i0] == offsets0[..i0]
    ensures forall k :: i0 <= k < i ==> offsets[k] <= found && resOffsets[k] == resOffset + (offsets[k] - pos)
    ensures i < |offsets| ==> found < offsets[i]
  {
    i, resOffsets := i0, offsets0;
    var n: nat := |offsets|;
    while i < n && offsets[i] <= found
      invariant i0 <= i <= n && |resOffsets| == n && resOffsets[..i0] == offsets0[..i0]
      invariant forall k :: i0 <= k < i ==> offsets[k] <= found && resOffsets[k] == resOffset + (offsets[k] - pos)
      decreases n - i
    {
      var v: nat := resOffset + (offsets[i] - pos);
      resOffsets := resOffsets[i := v];
      i := i + 1;
    }
  }
}
