/** Bytes and the substring searcher that every kernel relies on.

    The repository searches with a Volnitsky searcher over a whole buffer; what
    the kernels rely on is only its result: the position of the first occurrence
    of the needle at or after the starting point, or the end of the buffer when
    there is none. `Find` is that result. */
module Search {
  import opened Wrappers

  newtype byte = x: int | 0 <= x < 256

  /** `needle` occurs in `data` starting at index `k`. */
  predicate OccursAt(data: seq<byte>, needle: seq<byte>, k: nat)
  {
    k + |needle| <= |data| && MatchFrom(data, needle, k, 0)
  }

  /** The bytes of `needle` from index `j` on equal those of `data` from
      `k + j` on, compared one by one as `memcmp` does. */
  predicate MatchFrom(data: seq<byte>, needle: seq<byte>, k: nat, j: nat)
    requires k + |needle| <= |data|
    decreases |needle| - j
  {
    j >= |needle| || (data[k + j] == needle[j] && MatchFrom(data, needle, k, j + 1))
  }

  lemma {:induction false} MatchFromSlice(data: seq<byte>, needle: seq<byte>, k: nat, j: nat)
    requires k + |needle| <= |data| && j <= |needle|
    ensures MatchFrom(data, needle, k, j) <==> data[k + j..k + |needle|] == needle[j..]
    decreases |needle| - j
  {
    if j < |needle| {
      MatchFromSlice(data, needle, k, j + 1);
      assert data[k + j..k + |needle|] == [data[k + j]] + data[k + j + 1..k + |needle|];
      assert needle[j..] == [needle[j]] + needle[j + 1..];
    }
  }

  /** An occurrence is a slice of `data` equal to the needle. */
  lemma OccursAtSlice(data: seq<byte>, needle: seq<byte>, k: nat)
    ensures OccursAt(data, needle, k) <==> k + |needle| <= |data| && data[k..k + |needle|] == needle
  {
    if k + |needle| <= |data| {
      MatchFromSlice(data, needle, k, 0);
    }
  }

  /** The searcher: the first index at or after `from` where `needle` occurs,
      or `|data|` when it does not occur there. */
  function Find(data: seq<byte>, needle: seq<byte>, from: nat): (m: nat)
    requires from <= |data|
    ensures from <= m <= |data|
    ensures m < |data| ==> OccursAt(data, needle, m)
    decreases |data| - from
  {
    if from == |data| then |data|
    else if OccursAt(data, needle, from) then from
    else Find(data, needle, from + 1)
  }

  /** The occurrence `Find` reports is the first one: the needle occurs
      nowhere between the starting point and it. */
  lemma {:induction false} FindFirst(data: seq<byte>, needle: seq<byte>, from: nat)
    requires from <= |data|
    ensures forall k :: from <= k < Find(data, needle, from) ==> !OccursAt(data, needle, k)
    decreases |data| - from
  {
    if from < |data| && !OccursAt(data, needle, from) {
      FindFirst(data, needle, from + 1);
    }
  }

  /** `Find` is determined by what it promises: any index at or after `from`
      that is an occurrence (or the end) with no occurrence before it is the
      one `Find` returns. */
  lemma {:induction false} FindUnique(data: seq<byte>, needle: seq<byte>, from: nat, m: nat)
    requires from <= m <= |data|
    requires m < |data| ==> OccursAt(data, needle, m)
    requires forall k :: from <= k < m ==> !OccursAt(data, needle, k)
    ensures Find(data, needle, from) == m
    decreases |data| - from
  {
    if from < m {
      assert !OccursAt(data, needle, from);
      FindUnique(data, needle, from + 1, m);
    }
  }

  /** Restarting the search anywhere between the old start and the occurrence
      it found finds the same occurrence. */
  lemma FindSkip(data: seq<byte>, needle: seq<byte>, from: nat, from': nat)
    requires from <= |data| && from <= from' <= Find(data, needle, from)
    ensures Find(data, needle, from') == Find(data, needle, from)
  {
    FindFirst(data, needle, from);
    FindUnique(data, needle, from', Find(data, needle, from));
  }

  /** A slice of the window `data[s..t]` is the slice of `data` shifted by `s`. */
  lemma SliceOfSlice(data: seq<byte>, s: nat, t: nat, a: nat, b: nat, lo: nat, hi: nat)
    requires s <= t <= |data| && a <= b <= t - s && lo == s + a && hi == s + b
    ensures data[s..t][a..b] == data[lo..hi]
  {
    var x, y := data[s..t][a..b], data[lo..hi];
    assert forall j :: 0 <= j < |x| ==> x[j] == y[j];
  }

  /** An occurrence inside the window `data[s..t]` is an occurrence in `data`
      that ends by `t`, and conversely. */
  lemma OccursInWindow(data: seq<byte>, needle: seq<byte>, s: nat, t: nat, k: nat)
    requires s <= t <= |data|
    ensures OccursAt(data[s..t], needle, k) <==> (OccursAt(data, needle, s + k) && s + k + |needle| <= t)
  {
    OccursAtSlice(data[s..t], needle, k);
    OccursAtSlice(data, needle, s + k);
    if k + |needle| <= t - s {
      SliceOfSlice(data, s, t, k, k + |needle|, s + k, s + k + |needle|);
    }
  }

  /** The searcher run over a whole buffer answers for every window of it: if
      the first occurrence after `p` ends inside the window `data[s..t]`, it is
      the first occurrence in the window; otherwise the window holds none after
      `p`. This is why the column kernels may search all rows at once and only
      check that a match does not cross the end of its row. */
  lemma {:induction false} FindInWindow(data: seq<byte>, needle: seq<byte>, s: nat, p: nat, t: nat)
    requires |needle| > 0
    requires s <= p <= t <= |data|
    ensures var m := Find(data, needle, p);
      Find(data[s..t], needle, p - s) == if m + |needle| <= t then m - s else t - s
  {
    var m := Find(data, needle, p);
    var w := data[s..t];
    FindFirst(data, needle, p);
    if m + |needle| <= t {
      forall k | p - s <= k < m - s ensures !OccursAt(w, needle, k) {
        OccursInWindow(data, needle, s, t, k);
      }
      OccursInWindow(data, needle, s, t, m - s);
      FindUnique(w, needle, p - s, m - s);
    } else {
      forall k | p - s <= k < t - s ensures !OccursAt(w, needle, k) {
        OccursInWindow(data, needle, s, t, k);
      }
      FindUnique(w, needle, p - s, t - s);
    }
  }

  /** The answer of `std::string::find`: the first index of `needle` in
      `hay`, where the empty needle is found at 0 even in the empty string. */
  function StringFind(hay: seq<byte>, needle: seq<byte>): (r: Option<nat>)
    ensures r.Some? ==> OccursAt(hay, needle, r.value)
    ensures r.Some? ==> forall k: nat :: k < r.value ==> !OccursAt(hay, needle, k)
    ensures r.None? ==> forall k: nat :: !OccursAt(hay, needle, k)
  {
    if needle == [] then Some(0)
    else
      FindFirst(hay, needle, 0);
      var m := Find(hay, needle, 0);
      if m == |hay| then None else Some(m)
  }
}
