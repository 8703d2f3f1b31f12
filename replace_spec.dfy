/** What `replaceOne` and `replaceAll` mean for one string: the occurrences
    of the needle, found left to right without overlapping, are replaced by
    the replacement; with `one`, only the first of them is. */
module ReplaceSpec {
  import opened Search

  /** `data[from..]` with the occurrences that start at or after `from`
      replaced. */
  function ReplaceFrom(data: seq<byte>, needle: seq<byte>, repl: seq<byte>, one: bool, from: nat): seq<byte>
    requires |needle| > 0 && from <= |data|
    decreases |data| - from, 1
  {
    var m := Find(data, needle, from);
    if m == |data| then data[from..] else ReplaceAt(data, needle, repl, one, from, m)
  }

  /** `data[from..]` replaced, when the next occurrence is the one at `m`:
      the bytes before it, the replacement, and then the text after the
      occurrence, copied as it is with `one` and replaced further without. */
  function ReplaceAt(data: seq<byte>, needle: seq<byte>, repl: seq<byte>, one: bool, from: nat, m: nat): seq<byte>
    requires |needle| > 0 && from <= m && m + |needle| <= |data|
    decreases |data| - from, 0
  {
    data[from..m] + repl
      + (if one then data[m + |needle|..] else ReplaceFrom(data, needle, repl, one, m + |needle|))
  }

  /** The result of replacing `needle` by `repl` in `data`; the empty needle
      leaves `data` as it is. */
  function Replace(data: seq<byte>, needle: seq<byte>, repl: seq<byte>, one: bool): (r: seq<byte>)
    ensures needle == [] ==> r == data
  {
    if needle == [] then data else ReplaceFrom(data, needle, repl, one, 0)
  }

  /** One step of a byte-by-byte scan: at an index where the needle does not
      occur, the byte is copied and the scan moves on by one. */
  lemma ReplaceFromSkip(data: seq<byte>, needle: seq<byte>, repl: seq<byte>, one: bool, i: nat)
    requires |needle| > 0 && i < |data| && !OccursAt(data, needle, i)
    ensures ReplaceFrom(data, needle, repl, one, i) == [data[i]] + ReplaceFrom(data, needle, repl, one, i + 1)
  {
    var m := Find(data, needle, i + 1);
    assert Find(data, needle, i) == m;
    if m == |data| {
      SkipUnmatched(data, needle, repl, one, i);
    } else {
      SkipToMatch(data, needle, repl, one, i, m);
    }
  }

  lemma SkipUnmatched(data: seq<byte>, needle: seq<byte>, repl: seq<byte>, one: bool, i: nat)
    requires |needle| > 0 && i < |data| && Find(data, needle, i) == |data| == Find(data, needle, i + 1)
    ensures ReplaceFrom(data, needle, repl, one, i) == [data[i]] + ReplaceFrom(data, needle, repl, one, i + 1)
  {
    assert ReplaceFrom(data, needle, repl, one, i) == data[i..];
    assert ReplaceFrom(data, needle, repl, one, i + 1) == data[i + 1..];
    assert data[i..] == [data[i]] + data[i + 1..];
  }

  lemma SkipToMatch(data: seq<byte>, needle: seq<byte>, repl: seq<byte>, one: bool, i: nat, m: nat)
    requires |needle| > 0 && i < m < |data| && Find(data, needle, i) == m == Find(data, needle, i + 1)
    ensures ReplaceFrom(data, needle, repl, one, i) == [data[i]] + ReplaceFrom(data, needle, repl, one, i + 1)
  {
    assert ReplaceFrom(data, needle, repl, one, i) == ReplaceAt(data, needle, repl, one, i, m);
    assert ReplaceFrom(data, needle, repl, one, i + 1) == ReplaceAt(data, needle, repl, one, i + 1, m);
    var rest := if one then data[m + |needle|..] else ReplaceFrom(data, needle, repl, one, m + |needle|);
    assert data[i..m] == [data[i]] + data[i + 1..m];
    ConsAssoc(data[i], data[i..m], data[i + 1..m], repl, rest);
  }

  lemma AppendAssoc(a: seq<byte>, b: seq<byte>, c: seq<byte>)
    ensures (a + b) + c == a + (b + c)
  {
  }

  lemma ConsAssoc(x: byte, a: seq<byte>, b: seq<byte>, c: seq<byte>, d: seq<byte>)
    requires a == [x] + b
    ensures a + c + d == [x] + (b + c + d)
  {
  }

  /** One step of a byte-by-byte scan: where the needle occurs, the
      replacement is written and the scan resumes after the occurrence. */
  lemma ReplaceFromMatch(data: seq<byte>, needle: seq<byte>, repl: seq<byte>, one: bool, i: nat)
    requires |needle| > 0 && i < |data| && OccursAt(data, needle, i)
    ensures ReplaceFrom(data, needle, repl, one, i)
        == repl + (if one then data[i + |needle|..] else ReplaceFrom(data, needle, repl, one, i + |needle|))
  {
    assert Find(data, needle, i) == i;
    assert ReplaceFrom(data, needle, repl, one, i) == ReplaceAt(data, needle, repl, one, i, i);
    assert data[i..i] + repl == repl;
  }

  /** `ReplaceFrom` when the next occurrence from `from` is at `m` and ends
      at `e`. */
  lemma ReplaceFromNext(data: seq<byte>, needle: seq<byte>, repl: seq<byte>, one: bool, from: nat, m: nat, e: nat)
    requires |needle| > 0 && from <= |data| && Find(data, needle, from) == m < |data| && e == m + |needle|
    ensures e <= |data|
    ensures ReplaceFrom(data, needle, repl, one, from)
      == data[from..m] + repl + (if one then data[e..] else ReplaceFrom(data, needle, repl, one, e))
  {
  }

  /** The replaced text of a window `w == data[s..t]` from a point `p` on
      (`a` in the window), read off the searcher's answer `m` over the whole
      of `data`: when the occurrence at `m` ends (at `e`) inside the window, it
      is the window's own next occurrence and is replaced; `f` is `e` in the
      window. */
  lemma WindowMatch(data: seq<byte>, w: seq<byte>, s: nat, t: nat, p: nat, m: nat, e: nat, a: nat, f: nat,
                    needle: seq<byte>, repl: seq<byte>, one: bool)
    requires |needle| > 0 && s <= p <= t <= |data| && w == data[s..t]
    requires m == Find(data, needle, p) && e == m + |needle| && e <= t && a == p - s && f == e - s
    ensures f <= |w|
    ensures ReplaceFrom(w, needle, repl, one, a)
      == data[p..m] + repl + (if one then data[e..t] else ReplaceFrom(w, needle, repl, one, f))
  {
    FindInWindow(data, needle, s, p, t);
    var b := m - s;
    assert Find(w, needle, a) == b < |w|;
    ReplaceFromNext(w, needle, repl, one, a, b, f);
    SliceOfSlice(data, s, t, a, b, p, m);
    var head := data[p..m] + repl;
    assert w[a..b] + repl == head;
    if one {
      assert w[f..] == w[f..t - s];
      SliceOfSlice(data, s, t, f, t - s, e, t);
      assert ReplaceFrom(w, needle, repl, one, a) == head + data[e..t];
    } else {
      assert ReplaceFrom(w, needle, repl, one, a) == head + ReplaceFrom(w, needle, repl, one, f);
    }
  }

  /** When the occurrence at `m` crosses the end of the window, the window
      holds no occurrence from `p` on and its rest is kept as it is. */
  lemma WindowCopy(data: seq<byte>, w: seq<byte>, s: nat, t: nat, p: nat, m: nat, a: nat,
                   needle: seq<byte>, repl: seq<byte>, one: bool)
    requires |needle| > 0 && s <= p <= t <= |data| && w == data[s..t]
    requires m == Find(data, needle, p) && m + |needle| > t && a == p - s
    ensures ReplaceFrom(w, needle, repl, one, a) == data[p..t]
  {
    FindInWindow(data, needle, s, p, t);
    assert Find(w, needle, a) == t - s;
    SliceOfSlice(data, s, t, a, t - s, p, t);
  }

  /** Occurrences are replaced left to right and never overlap: the first
      occurrence is replaced, and the text after it is processed on its own,
      so no byte of a replaced occurrence takes part in another. */
  lemma {:induction false} ReplaceLeftToRight(data: seq<byte>, needle: seq<byte>, repl: seq<byte>, k: nat)
    requires |needle| > 0 && k == Find(data, needle, 0) && k < |data|
    ensures Replace(data, needle, repl, false)
      == data[..k] + repl + Replace(data[k + |needle|..], needle, repl, false)
  {
    var e := k + |needle|;
    ReplaceFromNext(data, needle, repl, false, 0, k, e);
    ReplaceFromSuffix(data, needle, repl, false, e);
    assert data[0..k] == data[..k];
    assert Replace(data, needle, repl, false) == data[..k] + repl + ReplaceFrom(data, needle, repl, false, e);
  }

  /** Processing `data` from `from` is processing the suffix `data[from..]`
      from its start. */
  lemma {:induction false} ReplaceFromSuffix(data: seq<byte>, needle: seq<byte>, repl: seq<byte>, one: bool, from: nat)
    requires |needle| > 0 && from <= |data|
    ensures ReplaceFrom(data, needle, repl, one, from) == Replace(data[from..], needle, repl, one)
  {
    FindInWindow(data, needle, from, from, |data|);
    SuffixFrom(data, needle, repl, one, from, from, 0);
  }

  lemma {:induction false} SuffixFrom(data: seq<byte>, needle: seq<byte>, repl: seq<byte>, one: bool, s: nat, p: nat, q: nat)
    requires |needle| > 0 && s <= p <= |data| && q == p - s
    ensures ReplaceFrom(data, needle, repl, one, p) == ReplaceFrom(data[s..], needle, repl, one, q)
    decreases |data| - p
  {
    var m := Find(data, needle, p);
    var w := data[s..];
    assert data[s..|data|] == w;
    if m < |data| {
      var e := m + |needle|;
      var f := e - s;
      ReplaceFromNext(data, needle, repl, one, p, m, e);
      WindowMatch(data, w, s, |data|, p, m, e, q, f, needle, repl, one);
      var head := data[p..m] + repl;
      if one {
        assert data[e..|data|] == data[e..];
        assert ReplaceFrom(w, needle, repl, one, q) == head + data[e..];
      } else {
        SuffixFrom(data, needle, repl, one, s, e, f);
        assert ReplaceFrom(w, needle, repl, one, q) == head + ReplaceFrom(data, needle, repl, one, e);
      }
    } else {
      WindowCopy(data, w, s, |data|, p, m, q, needle, repl, one);
    }
  }

  /** With `one`, exactly the first occurrence is replaced. */
  lemma ReplaceFirstOnly(data: seq<byte>, needle: seq<byte>, repl: seq<byte>, k: nat)
    requires |needle| > 0 && k == Find(data, needle, 0) && k < |data|
    ensures Replace(data, needle, repl, true) == data[..k] + repl + data[k + |needle|..]
  {
    ReplaceFromNext(data, needle, repl, true, 0, k, k + |needle|);
    assert data[0..k] == data[..k];
  }

  /** Where the needle does not occur, nothing is replaced. */
  lemma NoOccurrenceUnchanged(data: seq<byte>, needle: seq<byte>, repl: seq<byte>, one: bool)
    requires forall k: nat :: !OccursAt(data, needle, k)
    ensures Replace(data, needle, repl, one) == data
  {
  }

  /** Replacing the needle by itself changes nothing. */
  lemma {:induction false} ReplaceBySelf(data: seq<byte>, needle: seq<byte>, one: bool, from: nat)
    requires |needle| > 0 && from <= |data|
    ensures ReplaceFrom(data, needle, needle, one, from) == data[from..]
    decreases |data| - from
  {
    var m := Find(data, needle, from);
    if m < |data| {
      var e := m + |needle|;
      OccursAtSlice(data, needle, m);
      if !one {
        ReplaceBySelf(data, needle, one, e);
      }
      assert data[from..m] + data[m..e] + data[e..] == data[from..];
    }
  }
}
