/** The `position` function (PositionImpl): the 1-based position, counted in
    characters, of the first occurrence of a needle in a haystack, or 0 when
    there is none. The case-sensitive variants are modelled: ASCII counts
    bytes, UTF-8 counts the bytes that start a character. */
module Position {
  import opened Wrappers
  import opened Search
  import opened Columns

  /** CH_ESCAPE_CHAR, the backslash: the only escape character `position`
      accepts. */
  const EscapeChar: byte := 92

  datatype Encoding = Ascii | Utf8

  /** A UTF-8 continuation octet, 10xxxxxx (UTF8::isContinuationOctet). */
  predicate IsContinuation(b: byte)
  {
    0x80 <= b < 0xC0
  }

  /** The number of UTF-8 characters in `s`: its bytes that are not
      continuation octets. */
  function CodePoints(s: seq<byte>): nat
  {
    if s == [] then 0
    else CodePoints(s[..|s| - 1]) + (if IsContinuation(s[|s| - 1]) then 0 else 1)
  }

  /** Characters between two points of a string, as each variant's
      `countChars` counts them. */
  function Chars(enc: Encoding, s: seq<byte>): nat
  {
    match enc
    case Ascii => |s|
    case Utf8 => CodePoints(s)
  }

  /** Counting is additive: the characters of a concatenation are those of
      its parts. */
  lemma {:induction false} CharsAppend(enc: Encoding, a: seq<byte>, b: seq<byte>)
    ensures Chars(enc, a + b) == Chars(enc, a) + Chars(enc, b)
    decreases |b|
  {
    if enc == Utf8 && b != [] {
      var n := |b| - 1;
      assert (a + b)[..|a + b| - 1] == a + b[..n];
      assert (a + b)[|a + b| - 1] == b[n];
      CharsAppend(enc, a, b[..n]);
    } else if b == [] {
      assert a + b == a;
    }
  }

  /** A string never holds more characters than bytes. */
  lemma {:induction false} CharsAtMostBytes(enc: Encoding, s: seq<byte>)
    ensures Chars(enc, s) <= |s|
    decreases |s|
  {
    if enc == Utf8 && s != [] {
      CharsAtMostBytes(enc, s[..|s| - 1]);
    }
  }

  /** On 7-bit text the two counts agree: every byte is a character. */
  lemma {:induction false} SevenBitChars(s: seq<byte>)
    requires forall k :: 0 <= k < |s| ==> s[k] < 0x80
    ensures Chars(Utf8, s) == Chars(Ascii, s)
    decreases |s|
  {
    if s != [] {
      SevenBitChars(s[..|s| - 1]);
    }
  }

  /** The UTF-8 encoding of one code point (below 0x110000): a lead byte
      followed by 0 to 3 continuation octets. */
  function EncodeCodePoint(cp: nat): (r: seq<byte>)
    requires cp < 0x110000
    ensures 1 <= |r| <= 4 && !IsContinuation(r[0])
    ensures forall k :: 1 <= k < |r| ==> IsContinuation(r[k])
  {
    if cp < 0x80 then [cp as byte]
    else if cp < 0x800 then [(0xC0 + cp / 0x40) as byte, (0x80 + cp % 0x40) as byte]
    else if cp < 0x10000 then
      [(0xE0 + cp / 0x1000) as byte, (0x80 + cp / 0x40 % 0x40) as byte, (0x80 + cp % 0x40) as byte]
    else
      [(0xF0 + cp / 0x40000) as byte, (0x80 + cp / 0x1000 % 0x40) as byte,
       (0x80 + cp / 0x40 % 0x40) as byte, (0x80 + cp % 0x40) as byte]
  }

  predicate CodePointsValid(cps: seq<nat>)
  {
    forall k :: 0 <= k < |cps| ==> cps[k] < 0x110000
  }

  /** The UTF-8 encoding of a sequence of code points. */
  function Encode(cps: seq<nat>): seq<byte>
    requires CodePointsValid(cps)
  {
    if cps == [] then [] else Encode(cps[..|cps| - 1]) + EncodeCodePoint(cps[|cps| - 1])
  }

  /** A lead byte followed by continuation octets is one character. */
  lemma {:induction false} OneLead(s: seq<byte>, n: nat)
    requires 0 < n <= |s| && !IsContinuation(s[0])
    requires forall k :: 1 <= k < |s| ==> IsContinuation(s[k])
    ensures CodePoints(s[..n]) == 1
    decreases n
  {
    if n > 1 {
      assert s[..n][..n - 1] == s[..n - 1];
      OneLead(s, n - 1);
    }
  }

  /** The UTF-8 count of an encoded text is its number of code points. */
  lemma {:induction false} EncodedChars(cps: seq<nat>)
    requires CodePointsValid(cps)
    ensures Chars(Utf8, Encode(cps)) == |cps|
    decreases |cps|
  {
    if cps != [] {
      var n := |cps| - 1;
      var e := EncodeCodePoint(cps[n]);
      EncodedChars(cps[..n]);
      OneLead(e, |e|);
      assert e[..|e|] == e;
      CharsAppend(Utf8, Encode(cps[..n]), e);
    }
  }

  /** The answer of `position` for one haystack and one needle: 0 when the
      needle does not occur, else 1 plus the characters before its first
      occurrence. */
  function PositionOf(enc: Encoding, hay: seq<byte>, needle: seq<byte>): nat
  {
    match StringFind(hay, needle)
    case None => 0
    case Some(k) => 1 + Chars(enc, hay[..k])
  }

  /** The empty needle is found at the very beginning. */
  lemma PositionEmptyNeedle(enc: Encoding, hay: seq<byte>)
    ensures PositionOf(enc, hay, []) == 1
  {
  }

  /** The answer is 0 exactly when a non-empty needle occurs nowhere. */
  lemma PositionZero(enc: Encoding, hay: seq<byte>, needle: seq<byte>)
    ensures PositionOf(enc, hay, needle) == 0 <==> needle != [] && forall k: nat :: !OccursAt(hay, needle, k)
  {
    var r := StringFind(hay, needle);
    if r.Some? {
      assert OccursAt(hay, needle, r.value);
    }
  }

  /** A first occurrence at byte `k` gives the answer 1 plus the characters
      of the `k` bytes before it. */
  lemma PositionOfFirst(enc: Encoding, hay: seq<byte>, needle: seq<byte>, k: nat)
    requires OccursAt(hay, needle, k) && forall j: nat :: j < k ==> !OccursAt(hay, needle, j)
    ensures PositionOf(enc, hay, needle) == 1 + Chars(enc, hay[..k])
  {
  }

  /** A non-zero answer names a first occurrence. */
  lemma PositionFound(enc: Encoding, hay: seq<byte>, needle: seq<byte>) returns (k: nat)
    requires PositionOf(enc, hay, needle) > 0
    ensures OccursAt(hay, needle, k) && forall j: nat :: j < k ==> !OccursAt(hay, needle, j)
    ensures PositionOf(enc, hay, needle) == 1 + Chars(enc, hay[..k])
  {
    k := StringFind(hay, needle).value;
  }

  /** Counting characters in UTF-8 never gives a later position than
      counting bytes, and it gives the same one on 7-bit text. */
  lemma Utf8PositionAtMostAscii(hay: seq<byte>, needle: seq<byte>)
    ensures PositionOf(Utf8, hay, needle) <= PositionOf(Ascii, hay, needle)
    ensures (forall k :: 0 <= k < |hay| ==> hay[k] < 0x80) ==>
              PositionOf(Utf8, hay, needle) == PositionOf(Ascii, hay, needle)
  {
    match StringFind(hay, needle)
    case None =>
    case Some(k) =>
      CharsAtMostBytes(Utf8, hay[..k]);
      if forall j :: 0 <= j < |hay| ==> hay[j] < 0x80 {
        SevenBitChars(hay[..k]);
      }
  }

  /** `position` accepts only the default escape character, no match_type
      and no collator. */
  predicate PlainSearch(escape: byte, matchType: string, collator: Option<Collator>)
  {
    escape == EscapeChar && matchType == [] && collator.None?
  }

  /** countChars: bytes for ASCII; for UTF-8 a walk over the bytes counting
      those that are not continuation octets. */
  method CountChars(enc: Encoding, data: seq<byte>, b: nat, e: nat) returns (n: nat)
    requires b <= e <= |data|
    ensures n == Chars(enc, data[b..e])
  {
    if enc == Ascii {
      return e - b;
    }
    n := 0;
    var it: nat := b;
    while it != e
      invariant b <= it <= e && n == CodePoints(data[b..it])
      decreases e - it
    {
      assert data[b..it + 1][..it - b] == data[b..it];
      if !IsContinuation(data[it]) {
        n := n + 1;
      }
      it := it + 1;
    }
  }

  /** constantConstant: `std::string::find` on the haystack, then the
      characters before the occurrence. */
  method ConstantConstant(enc: Encoding, data: seq<byte>, needle: seq<byte>,
                          escape: byte, matchType: string, collator: Option<Collator>)
    returns (r: Result<nat>)
    ensures !PlainSearch(escape, matchType, collator) ==> r == Err(NotImplemented)
    ensures PlainSearch(escape, matchType, collator) ==> r == Ok(PositionOf(enc, data, needle))
  {
    if !PlainSearch(escape, matchType, collator) {
      return Err(NotImplemented);
    }
    match StringFind(data, needle)
    case None =>
      r := Ok(0);
    case Some(k) =>
      var n := CountChars(enc, data, 0, k);
      r := Ok(1 + n);
  }

  /** The per-row step of vectorVector and constantVector: an empty needle
      is at position 1; otherwise the small-haystack searcher runs over the
      haystack and answers its length when the needle is absent. */
  method SearchOne(enc: Encoding, hay: seq<byte>, needle: seq<byte>) returns (n: nat)
    ensures n == PositionOf(enc, hay, needle)
  {
    if |needle| == 0 {
      return 1;
    }
    var pos := Find(hay, needle, 0);
    if pos != |hay| {
      var m := CountChars(enc, hay, 0, pos);
      n := 1 + m;
    } else {
      n := 0;
    }
  }

  /** The bytes between the previous row's end offset and the zero byte of
      row `i` are that row. */
  lemma RowSlice(c: StringColumn, i: nat, prev: nat)
    requires Valid(c) && i < |c.offsets| && prev == RowBegin(c.offsets, i)
    ensures prev < c.offsets[i] <= |c.chars| && c.chars[prev..c.offsets[i] - 1] == Row(c, i)
  {
    StartBounds(c, i);
  }

  /** The answer for row `k` of a haystack column. */
  function RowPosition(enc: Encoding, c: StringColumn, needle: seq<byte>, k: nat): nat
    requires Valid(c) && k < |c.offsets|
  {
    PositionOf(enc, Row(c, k), needle)
  }

  /** The answer for row `k`, with that row's own needle. */
  function PairPosition(enc: Encoding, hay: StringColumn, needles: StringColumn, k: nat): nat
    requires Valid(hay) && Valid(needles) && k < |hay.offsets| && k < |needles.offsets|
  {
    PositionOf(enc, Row(hay, k), Row(needles, k))
  }

  /** The answer for needle row `k` in one haystack. */
  function NeedlePosition(enc: Encoding, hay: seq<byte>, needles: StringColumn, k: nat): nat
    requires Valid(needles) && k < |needles.offsets|
  {
    PositionOf(enc, hay, Row(needles, k))
  }

  /** `res` holds the answers of the first `|res|` pairs of rows. */
  ghost predicate PairsAnswered(enc: Encoding, hay: StringColumn, needles: StringColumn, res: seq<nat>)
  {
    && Valid(hay) && Valid(needles) && |res| <= |hay.offsets| && |res| <= |needles.offsets|
    && (forall k :: 0 <= k < |res| ==> res[k] == PairPosition(enc, hay, needles, k))
  }

  lemma PairNext(enc: Encoding, hay: StringColumn, needles: StringColumn, res: seq<nat>, x: nat)
    requires PairsAnswered(enc, hay, needles, res) && |res| < |hay.offsets| && |res| < |needles.offsets|
    requires x == PositionOf(enc, Row(hay, |res|), Row(needles, |res|))
    ensures PairsAnswered(enc, hay, needles, res + [x])
  {
  }

  /** `res` holds the answers of the first `|res|` needle rows. */
  ghost predicate NeedlesAnswered(enc: Encoding, hay: seq<byte>, needles: StringColumn, res: seq<nat>)
  {
    && Valid(needles) && |res| <= |needles.offsets|
    && (forall k :: 0 <= k < |res| ==> res[k] == NeedlePosition(enc, hay, needles, k))
  }

  lemma NeedleNext(enc: Encoding, hay: seq<byte>, needles: StringColumn, res: seq<nat>, x: nat)
    requires NeedlesAnswered(enc, hay, needles, res) && |res| < |needles.offsets|
    requires x == PositionOf(enc, hay, Row(needles, |res|))
    ensures NeedlesAnswered(enc, hay, needles, res + [x])
  {
  }

  /** vectorVector: each haystack row searched for its own needle row. */
  method VectorVector(enc: Encoding, hay: StringColumn, needles: StringColumn,
                      escape: byte, matchType: string, collator: Option<Collator>)
    returns (r: Result<seq<nat>>)
    requires Valid(hay) && Valid(needles) && |needles.offsets| == |hay.offsets|
    ensures !PlainSearch(escape, matchType, collator) ==> r == Err(NotImplemented)
    ensures PlainSearch(escape, matchType, collator) ==>
              r.Ok? && |r.value| == |hay.offsets| &&
              forall k :: 0 <= k < |hay.offsets| ==> r.value[k] == PairPosition(enc, hay, needles, k)
  {
    if !PlainSearch(escape, matchType, collator) {
      return Err(NotImplemented);
    }
    var res: seq<nat> := [];
    var prevHay: nat := 0;
    var prevNeedle: nat := 0;
    var i: nat := 0;
    while i < |hay.offsets|
      invariant i <= |hay.offsets| && |res| == i && PairsAnswered(enc, hay, needles, res)
      invariant prevHay == RowBegin(hay.offsets, i) && prevNeedle == RowBegin(needles.offsets, i)
    {
      RowSlice(hay, i, prevHay);
      RowSlice(needles, i, prevNeedle);
      var n := SearchOne(enc, hay.chars[prevHay..hay.offsets[i] - 1],
                         needles.chars[prevNeedle..needles.offsets[i] - 1]);
      PairNext(enc, hay, needles, res, n);
      res := res + [n];
      prevHay := hay.offsets[i];
      prevNeedle := needles.offsets[i];
      i := i + 1;
    }
    r := Ok(res);
  }

  /** constantVector: one haystack searched for each needle row. */
  method ConstantVector(enc: Encoding, hay: seq<byte>, needles: StringColumn,
                        escape: byte, matchType: string, collator: Option<Collator>)
    returns (r: Result<seq<nat>>)
    requires Valid(needles)
    ensures !PlainSearch(escape, matchType, collator) ==> r == Err(NotImplemented)
    ensures PlainSearch(escape, matchType, collator) ==>
              r.Ok? && |r.value| == |needles.offsets| &&
              forall k :: 0 <= k < |needles.offsets| ==> r.value[k] == NeedlePosition(enc, hay, needles, k)
  {
    if !PlainSearch(escape, matchType, collator) {
      return Err(NotImplemented);
    }
    var res: seq<nat> := [];
    var prevNeedle: nat := 0;
    var i: nat := 0;
    while i < |needles.offsets|
      invariant i <= |needles.offsets| && |res| == i && NeedlesAnswered(enc, hay, needles, res)
      invariant prevNeedle == RowBegin(needles.offsets, i)
    {
      RowSlice(needles, i, prevNeedle);
      var n := SearchOne(enc, hay, needles.chars[prevNeedle..needles.offsets[i] - 1]);
      NeedleNext(enc, hay, needles, res, n);
      res := res + [n];
      prevNeedle := needles.offsets[i];
      i := i + 1;
    }
    r := Ok(res);
  }

  /** The searcher finds the empty needle at once. */
  lemma FindEmptyNeedle(data: seq<byte>, needle: seq<byte>, from: nat)
    requires from < |data|
    ensures needle == [] ==> Find(data, needle, from) == from
  {
  }

  /** The search over the whole buffer answers for the window
      `data[s..t]`, which the byte at `t` ends, once it has started at or
      before `s` and found `found` at or after `s`: the window's answer is
      1 plus the characters before `found` when the occurrence ends inside
      the window, else 0. */
  lemma WindowPosition(enc: Encoding, data: seq<byte>, needle: seq<byte>, pos: nat, s: nat, t: nat, found: nat)
    requires pos <= s <= t < |data| && found == Find(data, needle, pos) && s <= found
    ensures found + |needle| <= t ==> PositionOf(enc, data[s..t], needle) == 1 + Chars(enc, data[s..found])
    ensures found + |needle| > t ==> PositionOf(enc, data[s..t], needle) == 0
  {
    FindSkip(data, needle, pos, s);
    FindEmptyNeedle(data, needle, s);
    if needle != [] {
      FindInWindow(data, needle, s, s, t);
      if found + |needle| <= t {
        assert data[s..t][..found - s] == data[s..found];
      }
    }
  }

  /** A row that ends before the next occurrence in the whole buffer holds
      no occurrence: its answer is 0. */
  lemma RowBeforeMatch(enc: Encoding, c: StringColumn, needle: seq<byte>, pos: nat, found: nat, k: nat)
    requires Valid(c) && k < |c.offsets| && pos <= Start(c.offsets, k)
    requires pos <= |c.chars| && found == Find(c.chars, needle, pos) && c.offsets[k] <= found
    ensures RowPosition(enc, c, needle, k) == 0
  {
    StartBounds(c, k);
    WindowPosition(enc, c.chars, needle, pos, Start(c.offsets, k), c.offsets[k] - 1, found);
  }

  /** The next occurrence starts in row `k`: the row's answer is 1 plus the
      characters before it when it ends before the row's zero byte, else
      0. */
  lemma RowAtMatch(enc: Encoding, c: StringColumn, needle: seq<byte>, pos: nat, found: nat, k: nat)
    requires Valid(c) && k < |c.offsets| && pos <= Start(c.offsets, k) <= found < c.offsets[k]
    requires pos <= |c.chars| && found == Find(c.chars, needle, pos)
    ensures found + |needle| < c.offsets[k] ==>
              RowPosition(enc, c, needle, k) == 1 + Chars(enc, c.chars[Start(c.offsets, k)..found])
    ensures found + |needle| >= c.offsets[k] ==> RowPosition(enc, c, needle, k) == 0
  {
    StartBounds(c, k);
    WindowPosition(enc, c.chars, needle, pos, Start(c.offsets, k), c.offsets[k] - 1, found);
  }

  /** Where row `i` starts, for `i` up to the number of rows: row `n` (one
      past the last) starts at the end of the buffer. */
  function RowBegin(offsets: seq<nat>, i: nat): nat
    requires i <= |offsets|
  {
    if i == 0 then 0 else offsets[i - 1]
  }

  /** The scan of vectorConstant has answered the first `i` rows and stands
      at the start of row `i`. */
  ghost predicate Scanned(enc: Encoding, c: StringColumn, needle: seq<byte>, res: seq<nat>, i: nat, pos: nat)
  {
    && Answered(enc, c, needle, res) && |res| == i
    && pos == RowBegin(c.offsets, i) && pos <= |c.chars|
  }

  /** `res` holds the answers of the first `|res|` rows. */
  ghost predicate Answered(enc: Encoding, c: StringColumn, needle: seq<byte>, res: seq<nat>)
  {
    && Valid(c) && |res| <= |c.offsets|
    && (forall k :: 0 <= k < |res| ==> res[k] == RowPosition(enc, c, needle, k))
  }

  /** Appending the answer of the next row. */
  lemma AnswerNext(enc: Encoding, c: StringColumn, needle: seq<byte>, res: seq<nat>, x: nat)
    requires Answered(enc, c, needle, res) && |res| < |c.offsets|
    requires x == RowPosition(enc, c, needle, |res|)
    ensures Answered(enc, c, needle, res + [x])
  {
  }

  /** vectorConstant: one search over the whole buffer; each occurrence is
      assigned to the row it starts in, rows it skips answer 0, and a match
      that runs into the row's zero byte or past it answers 0. */
  method VectorConstant(enc: Encoding, c: StringColumn, needle: seq<byte>,
                        escape: byte, matchType: string, collator: Option<Collator>)
    returns (r: Result<seq<nat>>)
    requires Valid(c)
    ensures !PlainSearch(escape, matchType, collator) ==> r == Err(NotImplemented)
    ensures PlainSearch(escape, matchType, collator) ==>
              r.Ok? && |r.value| == |c.offsets| &&
              forall k :: 0 <= k < |c.offsets| ==> r.value[k] == RowPosition(enc, c, needle, k)
  {
    if !PlainSearch(escape, matchType, collator) {
      return Err(NotImplemented);
    }
    var res: seq<nat> := [];
    var pos: nat := 0;
    var i: nat := 0;
    while pos < |c.chars|
      invariant Scanned(enc, c, needle, res, i, pos)
      decreases |c.chars| - pos
    {
      var found := Find(c.chars, needle, pos);
      if found == |c.chars| {
        break;
      }
      res, i, pos := Round(enc, c, needle, res, i, pos, found);
    }
    res := ZeroRest(enc, c, needle, res, i, pos);
    r := Ok(res);
  }

  /** One round of vectorConstant's outer loop: the occurrence `found` is
      assigned to the row it starts in, and the scan moves to the next
      row. */
  method Round(enc: Encoding, c: StringColumn, needle: seq<byte>, res: seq<nat>, i: nat, pos: nat, found: nat)
    returns (res': seq<nat>, i': nat, pos': nat)
    requires Scanned(enc, c, needle, res, i, pos) && pos < |c.chars|
    requires found == Find(c.chars, needle, pos) < |c.chars|
    ensures Scanned(enc, c, needle, res', i', pos') && pos < pos'
  {
    RowsNotDone(c, i, pos);
    var j;
    res', j := SkipRows(enc, c, needle, pos, found, res, i);
    var x: nat;
    if found + |needle| < c.offsets[j] {
      var m := CountChars(enc, c.chars, Start(c.offsets, j), found);
      x := 1 + m;
    } else {
      x := 0;
    }
    AnswerNext(enc, c, needle, res', x);
    res' := res' + [x];
    StartBounds(c, j);
    pos' := c.offsets[j];
    i' := j + 1;
  }

  /** Standing before the end of the buffer, the scan has rows left. */
  lemma RowsNotDone(c: StringColumn, i: nat, pos: nat)
    requires Valid(c) && i <= |c.offsets| && pos == RowBegin(c.offsets, i) && pos < |c.chars|
    ensures i < |c.offsets| && pos == Start(c.offsets, i)
  {
  }

  /** Once no occurrence is left after `pos`, every remaining row answers
      0 (the final memset). */
  method ZeroRest(enc: Encoding, c: StringColumn, needle: seq<byte>, res: seq<nat>, i: nat, pos: nat)
    returns (res': seq<nat>)
    requires Scanned(enc, c, needle, res, i, pos) && Find(c.chars, needle, pos) == |c.chars|
    ensures |res'| == |c.offsets|
    ensures forall k :: 0 <= k < |c.offsets| ==> res'[k] == RowPosition(enc, c, needle, k)
  {
    res' := res;
    var j: nat := i;
    while j < |c.offsets|
      invariant i <= j <= |c.offsets| && |res'| == j && pos <= RowBegin(c.offsets, j)
      invariant Answered(enc, c, needle, res')
    {
      RowBeforeMatch(enc, c, needle, pos, |c.chars|, j);
      AnswerNext(enc, c, needle, res', 0);
      res' := res' + [0];
      j := j + 1;
    }
  }

  /** The rows that end at or before the occurrence `found` answer 0; the
      scan stops at the row the occurrence starts in, whose answer is then
      decided. */
  method SkipRows(enc: Encoding, c: StringColumn, needle: seq<byte>, pos: nat, found: nat,
                  res: seq<nat>, i: nat)
    returns (res': seq<nat>, i': nat)
    requires Answered(enc, c, needle, res) && i < |c.offsets| && pos == Start(c.offsets, i) && |res| == i
    requires found == Find(c.chars, needle, pos) < |c.chars|
    ensures i <= i' < |c.offsets| && |res'| == i'
    ensures Start(c.offsets, i') <= found < c.offsets[i']
    ensures Answered(enc, c, needle, res')
    ensures found + |needle| < c.offsets[i'] ==>
              RowPosition(enc, c, needle, i') == 1 + Chars(enc, c.chars[Start(c.offsets, i')..found])
    ensures found + |needle| >= c.offsets[i'] ==> RowPosition(enc, c, needle, i') == 0
  {
    res', i' := res, i;
    while c.offsets[i'] <= found
      invariant i <= i' < |c.offsets| && |res'| == i' && pos <= Start(c.offsets, i') <= found
      invariant Answered(enc, c, needle, res')
      decreases |c.offsets| - i'
    {
      RowBeforeMatch(enc, c, needle, pos, found, i');
      AnswerNext(enc, c, needle, res', 0);
      res' := res' + [0];
      i' := i' + 1;
    }
    RowAtMatch(enc, c, needle, pos, found, i');
  }
}
