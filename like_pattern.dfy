/** The two LIKE-pattern helpers of the string-search functions:
    likePatternIsStrstr, which recognises a pattern `%needle%` that is a
    plain substring search, and replaceEscapeChar, which rewrites a pattern
    written with a custom ESCAPE character into one escaped with a
    backslash. Their meaning is stated against a token reading of SQL LIKE
    patterns. */
module LikePattern {
  import opened Wrappers

  /** CH_ESCAPE_CHAR. */
  const Backslash: char := '\\'

  /** A LIKE pattern read as tokens: `%` matches any run of characters, `_`
      any one character, a literal itself. */
  datatype Token = AnyRun | AnyOne | Lit(c: char)

  function Cons(t: Token, rest: Option<seq<Token>>): Option<seq<Token>>
  {
    match rest
    case None => None
    case Some(ts) => Some([t] + ts)
  }

  /** The tokens of pattern `p` under escape character `esc`: the escape
      makes the next character a literal; `%` and `_` are wildcards. A
      pattern ending in a lone escape has no reading here (None). */
  function Tokens(p: string, esc: char): Option<seq<Token>>
    decreases |p|
  {
    if p == [] then Some([])
    else if p[0] == esc then (if |p| == 1 then None else Cons(Lit(p[1]), Tokens(p[2..], esc)))
    else if p[0] == '%' then Cons(AnyRun, Tokens(p[1..], esc))
    else if p[0] == '_' then Cons(AnyOne, Tokens(p[1..], esc))
    else Cons(Lit(p[0]), Tokens(p[1..], esc))
  }

  /** `s` matches the tokens `ts`. */
  predicate Matches(s: string, ts: seq<Token>)
    decreases |ts|, |s|
  {
    if ts == [] then s == []
    else match ts[0]
      case AnyRun => Matches(s, ts[1..]) || (s != [] && Matches(s[1..], ts))
      case AnyOne => s != [] && Matches(s[1..], ts[1..])
      case Lit(c) => s != [] && s[0] == c && Matches(s[1..], ts[1..])
  }

  /** The literal tokens of a string. */
  function Lits(x: string): (r: seq<Token>)
    ensures |r| == |x|
  {
    if x == [] then [] else [Lit(x[0])] + Lits(x[1..])
  }

  /** `x` occurs in `s` at index `k`. */
  predicate HasAt(s: string, x: string, k: nat)
  {
    k + |x| <= |s| && s[k..k + |x|] == x
  }

  ghost predicate Contains(s: string, x: string)
  {
    exists k: nat :: HasAt(s, x, k)
  }

  // ---------------------------------------------------------------------
  // likePatternIsStrstr

  function Prepend(a: string, r: Option<string>): Option<string>
  {
    match r
    case None => None
    case Some(x) => Some(a + x)
  }

  /** The interior of a `%...%` pattern read as a needle: a backslash takes
      the next character literally, a bare `%` or `_` or a backslash at the
      end means it is no plain needle. */
  function Unescape(s: string): Option<string>
    decreases |s|
  {
    if s == [] then Some([])
    else if s[0] == '%' || s[0] == '_' then None
    else if s[0] == Backslash then (if |s| == 1 then None else Prepend([s[1]], Unescape(s[2..])))
    else Prepend([s[0]], Unescape(s[1..]))
  }

  /** The needle a LIKE pattern searches for, when it is one. */
  function StrstrNeedle(pattern: string): Option<string>
  {
    if |pattern| < 2 || pattern[0] != '%' || pattern[|pattern| - 1] != '%' then None
    else Unescape(pattern[1..|pattern| - 1])
  }

  /** likePatternIsStrstr: whether the pattern is a plain substring search,
      and the needle when it is. */
  method LikePatternIsStrstr(pattern: string) returns (isStrstr: bool, res: string)
    ensures isStrstr == StrstrNeedle(pattern).Some?
    ensures isStrstr ==> res == StrstrNeedle(pattern).value
  {
    res := "";
    if |pattern| < 2 || pattern[0] != '%' || pattern[|pattern| - 1] != '%' {
      return false, res;
    }
    var pos: nat := 1;
    var end: nat := |pattern| - 1;
    assert Prepend(res, Unescape(pattern[pos..end])) == Unescape(pattern[1..end]) by {
      PrependEmpty(Unescape(pattern[1..end]));
    }
    while pos < end
      invariant 1 <= pos <= end
      invariant Prepend(res, Unescape(pattern[pos..end])) == Unescape(pattern[1..end])
      decreases end - pos
    {
      var c := pattern[pos];
      UnescapeAt(pattern, pos, end);
      if c == '%' || c == '_' {
        return false, res;
      } else if c == Backslash {
        pos := pos + 1;
        if pos == end {
          return false, res;
        }
        PrependStep(res, pattern[pos], Unescape(pattern[pos + 1..end]));
        res := res + [pattern[pos]];
      } else {
        PrependStep(res, c, Unescape(pattern[pos + 1..end]));
        res := res + [c];
      }
      pos := pos + 1;
    }
    assert pattern[pos..end] == [];
    return true, res;
  }

  lemma PrependEmpty(r: Option<string>)
    ensures Prepend("", r) == r
  {
    if r.Some? {
      assert "" + r.value == r.value;
    }
  }

  lemma PrependStep(a: string, c: char, r: Option<string>)
    ensures Prepend(a + [c], r) == Prepend(a, Prepend([c], r))
  {
    if r.Some? {
      assert (a + [c]) + r.value == a + ([c] + r.value);
    }
  }

  /** One step of the walk over the interior `pattern[pos..end]`. */
  lemma UnescapeAt(pattern: string, pos: nat, end: nat)
    requires pos < end <= |pattern|
    ensures var c := pattern[pos];
      Unescape(pattern[pos..end]) ==
        if c == '%' || c == '_' then None
        else if c == Backslash then
          (if pos + 1 == end then None else Prepend([pattern[pos + 1]], Unescape(pattern[pos + 2..end])))
        else Prepend([c], Unescape(pattern[pos + 1..end]))
  {
    var s := pattern[pos..end];
    assert s[0] == pattern[pos];
    assert s[1..] == pattern[pos + 1..end];
    if pos + 1 < end {
      assert s[1] == pattern[pos + 1];
      assert s[2..] == pattern[pos + 2..end];
    }
  }

  /** The first token of a pattern and the pattern it leaves. */
  lemma FirstToken(p: string, esc: char)
    requires Tokens(p, esc).Some? && Tokens(p, esc).value != []
    ensures p != [] && (p[0] == esc ==> |p| >= 2)
    ensures var ts, n := Tokens(p, esc).value, if p[0] == esc then 2 else 1;
      && ts[0] == (if p[0] == esc then Lit(p[1]) else if p[0] == '%' then AnyRun
                   else if p[0] == '_' then AnyOne else Lit(p[0]))
      && Tokens(p[n..], esc) == Some(ts[1..])
  {
  }

  /** Literals followed by a trailing `%`, split at the first token. */
  lemma LitsHead(x: string, ts: seq<Token>)
    requires ts == Lits(x) + [AnyRun]
    ensures ts != []
    ensures x == [] ==> ts == [AnyRun]
    ensures x != [] ==> ts[0] == Lit(x[0]) && ts[1..] == Lits(x[1..]) + [AnyRun]
  {
    if x != [] {
      assert Lits(x) == [Lit(x[0])] + Lits(x[1..]);
    }
  }

  lemma {:induction false} UnescapeTokens(s: string, x: string)
    requires Unescape(s) == Some(x)
    ensures Tokens(s + "%", Backslash) == Some(Lits(x) + [AnyRun])
    decreases |s|
  {
    var p := s + "%";
    if s == [] {
      assert p == "%" && p[1..] == [] && x == [] && Lits(x) == [];
      assert Tokens(p, Backslash) == Cons(AnyRun, Some([]));
      assert [AnyRun] + [] == Lits(x) + [AnyRun];
    } else if s[0] == Backslash {
      var y := Unescape(s[2..]).value;
      assert p[0] == Backslash && p[1] == s[1];
      assert p[2..] == s[2..] + "%";
      UnescapeTokens(s[2..], y);
      assert x == [s[1]] + y;
      assert Lits(x) == [Lit(s[1])] + Lits(y);
      assert [Lit(s[1])] + (Lits(y) + [AnyRun]) == Lits(x) + [AnyRun];
    } else {
      var y := Unescape(s[1..]).value;
      assert p[0] == s[0];
      assert p[1..] == s[1..] + "%";
      UnescapeTokens(s[1..], y);
      assert x == [s[0]] + y;
      assert Lits(x) == [Lit(s[0])] + Lits(y);
      assert [Lit(s[0])] + (Lits(y) + [AnyRun]) == Lits(x) + [AnyRun];
    }
  }

  lemma {:induction false} TokensUnescape(s: string, x: string)
    requires Tokens(s, Backslash) == Some(Lits(x) + [AnyRun])
    ensures |s| > 0 && s[|s| - 1] == '%' && Unescape(s[..|s| - 1]) == Some(x)
    decreases |s|
  {
    var ts := Lits(x) + [AnyRun];
    LitsHead(x, ts);
    FirstToken(s, Backslash);
    if s[0] == Backslash {
      TokensUnescape(s[2..], x[1..]);
      assert s[..|s| - 1][2..] == s[2..][..|s[2..]| - 1];
      assert s[..|s| - 1][1] == s[1];
      assert x == [s[1]] + x[1..];
    } else if s[0] == '%' {
      assert Tokens(s[1..], Backslash) == Some([]);
      assert s[1..] == [];
      assert s[..|s| - 1] == [];
    } else {
      TokensUnescape(s[1..], x[1..]);
      assert s[..|s| - 1][1..] == s[1..][..|s[1..]| - 1];
      assert s[..|s| - 1][0] == s[0];
      assert x == [s[0]] + x[1..];
    }
  }

  /** A pattern is a plain substring search for `x` exactly when it reads
      as: any run, the literals of `x`, any run. */
  lemma StrstrIffTokens(pattern: string, x: string)
    ensures StrstrNeedle(pattern) == Some(x) <==> Tokens(pattern, Backslash) == Some([AnyRun] + Lits(x) + [AnyRun])
  {
    if StrstrNeedle(pattern) == Some(x) {
      StrstrTokens(pattern, x);
    }
    if Tokens(pattern, Backslash) == Some([AnyRun] + Lits(x) + [AnyRun]) {
      TokensStrstr(pattern, x);
    }
  }

  lemma StrstrTokens(pattern: string, x: string)
    requires StrstrNeedle(pattern) == Some(x)
    ensures Tokens(pattern, Backslash) == Some([AnyRun] + Lits(x) + [AnyRun])
  {
    var inner := pattern[1..|pattern| - 1];
    UnescapeTokens(inner, x);
    assert pattern[1..] == inner + "%";
    assert Tokens(pattern, Backslash) == Cons(AnyRun, Tokens(pattern[1..], Backslash));
    assert [AnyRun] + (Lits(x) + [AnyRun]) == [AnyRun] + Lits(x) + [AnyRun];
  }

  lemma TokensStrstr(pattern: string, x: string)
    requires Tokens(pattern, Backslash) == Some([AnyRun] + Lits(x) + [AnyRun])
    ensures StrstrNeedle(pattern) == Some(x)
  {
    var ts := [AnyRun] + Lits(x) + [AnyRun];
    FirstToken(pattern, Backslash);
    assert ts[0] == AnyRun;
    assert pattern[0] == '%';
    assert ts[1..] == Lits(x) + [AnyRun];
    TokensUnescape(pattern[1..], x);
    assert pattern[|pattern| - 1] == pattern[1..][|pattern[1..]| - 1];
    assert pattern[1..][..|pattern[1..]| - 1] == pattern[1..|pattern| - 1];
  }

  /** Any string matches a lone `%`. */
  lemma {:induction false} MatchesAnyRun(s: string)
    ensures Matches(s, [AnyRun])
    decreases |s|
  {
    if s != [] {
      MatchesAnyRun(s[1..]);
    }
  }

  /** A string matches literals followed by a trailing `%` exactly when it
      starts with them. */
  lemma {:induction false} MatchesPrefix(s: string, x: string)
    ensures Matches(s, Lits(x) + [AnyRun]) <==> |x| <= |s| && s[..|x|] == x
    decreases |x|
  {
    if x == [] {
      assert Lits(x) + [AnyRun] == [AnyRun];
      MatchesAnyRun(s);
    } else {
      assert (Lits(x) + [AnyRun])[1..] == Lits(x[1..]) + [AnyRun];
      if s != [] {
        MatchesPrefix(s[1..], x[1..]);
        if |x| <= |s| && s[..|x|] == x {
          assert s[1..][..|x| - 1] == s[..|x|][1..];
        }
        if |x| - 1 <= |s| - 1 && s[1..][..|x| - 1] == x[1..] && s[0] == x[0] {
          assert s[..|x|] == [s[0]] + s[1..][..|x| - 1];
        }
      }
    }
  }

  /** A string matches `%x%` exactly when it contains `x`. */
  lemma {:induction false} MatchesContains(s: string, x: string)
    ensures Matches(s, [AnyRun] + Lits(x) + [AnyRun]) <==> Contains(s, x)
    decreases |s|
  {
    var ts := [AnyRun] + Lits(x) + [AnyRun];
    assert ts[1..] == Lits(x) + [AnyRun];
    MatchesPrefix(s, x);
    if s != [] {
      MatchesContains(s[1..], x);
      if Contains(s[1..], x) {
        var k: nat :| HasAt(s[1..], x, k);
        assert s[k + 1..k + 1 + |x|] == s[1..][k..k + |x|];
        assert HasAt(s, x, k + 1);
      }
      if Contains(s, x) {
        var k: nat :| HasAt(s, x, k);
        if k > 0 {
          assert s[1..][k - 1..k - 1 + |x|] == s[k..k + |x|];
          assert HasAt(s[1..], x, k - 1);
        } else {
          assert s[..|x|] == x;
        }
      }
    } else if Contains(s, x) {
      var k: nat :| HasAt(s, x, k);
      assert s[..|x|] == x;
    }
    if |x| <= |s| && s[..|x|] == x {
      assert HasAt(s, x, 0);
    }
  }

  /** The substring search a pattern is reduced to answers exactly as the
      LIKE pattern does. */
  lemma StrstrMeaning(pattern: string, s: string)
    requires StrstrNeedle(pattern).Some?
    ensures Tokens(pattern, Backslash).Some?
    ensures Matches(s, Tokens(pattern, Backslash).value) <==> Contains(s, StrstrNeedle(pattern).value)
  {
    var x := StrstrNeedle(pattern).value;
    StrstrIffTokens(pattern, x);
    MatchesContains(s, x);
  }

  /** A needle written into a pattern: `%`, `_` and the backslash get a
      backslash in front. */
  function EscapeNeedle(x: string): string
  {
    if x == [] then []
    else (if x[0] == '%' || x[0] == '_' || x[0] == Backslash then [Backslash, x[0]] else [x[0]])
         + EscapeNeedle(x[1..])
  }

  lemma {:induction false} UnescapeEscaped(x: string)
    ensures Unescape(EscapeNeedle(x)) == Some(x)
    decreases |x|
  {
    if x != [] {
      UnescapeEscaped(x[1..]);
      var e := EscapeNeedle(x);
      if x[0] == '%' || x[0] == '_' || x[0] == Backslash {
        assert e[2..] == EscapeNeedle(x[1..]);
      } else {
        assert e[1..] == EscapeNeedle(x[1..]);
      }
      assert x == [x[0]] + x[1..];
    }
  }

  /** Every needle is recognised in the pattern written for it. */
  lemma StrstrRoundTrip(x: string)
    ensures StrstrNeedle("%" + EscapeNeedle(x) + "%") == Some(x)
  {
    var p := "%" + EscapeNeedle(x) + "%";
    assert p[1..|p| - 1] == EscapeNeedle(x);
    UnescapeEscaped(x);
  }

  // ---------------------------------------------------------------------
  // replaceEscapeChar

  /** replaceEscapeChar as written: a doubled escape becomes one escape
      character, an escape before a backslash is dropped, any other escape
      becomes a backslash, a backslash is doubled, the rest is copied. */
  function EscapeRewrite(p: string, esc: char): string
    decreases |p|
  {
    if p == [] then []
    else if p[0] == esc then
      if |p| >= 2 && p[1] == esc then [esc] + EscapeRewrite(p[2..], esc)
      else if |p| >= 2 && p[1] == Backslash then EscapeRewrite(p[1..], esc)
      else [Backslash] + EscapeRewrite(p[1..], esc)
    else if p[0] == Backslash then [Backslash, Backslash] + EscapeRewrite(p[1..], esc)
    else [p[0]] + EscapeRewrite(p[1..], esc)
  }

  /** replaceEscapeChar: the walk over the pattern with one character of
      look-ahead. */
  method ReplaceEscapeChar(orig: string, esc: char) returns (r: string)
    ensures r == EscapeRewrite(orig, esc)
  {
    r := "";
    var i: nat := 0;
    while i < |orig|
      invariant i <= |orig| && r + EscapeRewrite(orig[i..], esc) == EscapeRewrite(orig, esc)
      decreases |orig| - i
    {
      var c := orig[i];
      RewriteAt(orig, i, esc);
      if c == esc {
        if i + 1 != |orig| && orig[i + 1] == esc {
          Shift(r, [esc], EscapeRewrite(orig[i + 2..], esc), EscapeRewrite(orig, esc));
          i := i + 1;
          r := r + [esc];
        } else if i + 1 != |orig| && orig[i + 1] == Backslash {
          i := i + 1;
          continue;
        } else {
          Shift(r, [Backslash], EscapeRewrite(orig[i + 1..], esc), EscapeRewrite(orig, esc));
          r := r + [Backslash];
        }
      } else if c == Backslash {
        Shift(r, [Backslash, Backslash], EscapeRewrite(orig[i + 1..], esc), EscapeRewrite(orig, esc));
        r := r + [Backslash, Backslash];
      } else {
        Shift(r, [c], EscapeRewrite(orig[i + 1..], esc), EscapeRewrite(orig, esc));
        r := r + [c];
      }
      i := i + 1;
    }
    assert orig[i..] == [];
    assert r + [] == r;
  }

  lemma Shift(r: string, x: string, rest: string, target: string)
    requires r + (x + rest) == target
    ensures (r + x) + rest == target
  {
  }

  /** One step of the walk: what the rewrite of `orig[i..]` starts with,
      and where it goes on. */
  lemma RewriteAt(orig: string, i: nat, esc: char)
    requires i < |orig|
    ensures var c := orig[i];
      EscapeRewrite(orig[i..], esc) ==
        if c == esc then
          if i + 1 < |orig| && orig[i + 1] == esc then [esc] + EscapeRewrite(orig[i + 2..], esc)
          else if i + 1 < |orig| && orig[i + 1] == Backslash then EscapeRewrite(orig[i + 1..], esc)
          else [Backslash] + EscapeRewrite(orig[i + 1..], esc)
        else if c == Backslash then [Backslash, Backslash] + EscapeRewrite(orig[i + 1..], esc)
        else [c] + EscapeRewrite(orig[i + 1..], esc)
  {
    var p := orig[i..];
    assert p[0] == orig[i];
    assert p[1..] == orig[i + 1..];
    if i + 1 < |orig| {
      assert p[1] == orig[i + 1];
      assert p[2..] == orig[i + 2..];
    }
  }

  /** The rewrite with a doubled escape turned into an escaped escape
      character, so that an escape `%` or `_` stays a literal. */
  function EscapeRewriteFixed(p: string, esc: char): string
    decreases |p|
  {
    if p == [] then []
    else if p[0] == esc then
      if |p| >= 2 && p[1] == esc then [Backslash, esc] + EscapeRewriteFixed(p[2..], esc)
      else if |p| >= 2 && p[1] == Backslash then EscapeRewriteFixed(p[1..], esc)
      else [Backslash] + EscapeRewriteFixed(p[1..], esc)
    else if p[0] == Backslash then [Backslash, Backslash] + EscapeRewriteFixed(p[1..], esc)
    else [p[0]] + EscapeRewriteFixed(p[1..], esc)
  }

  /** The corrected rewrite keeps the pattern's meaning: read with a
      backslash escape, it gives the tokens the original gives with its own
      escape character. */
  lemma {:induction false} RewriteFixedKeepsTokens(p: string, esc: char)
    requires esc != Backslash
    ensures Tokens(EscapeRewriteFixed(p, esc), Backslash) == Tokens(p, esc)
    decreases |p|
  {
    if p != [] {
      var r := EscapeRewriteFixed(p, esc);
      if p[0] == esc && |p| >= 2 && p[1] == esc {
        RewriteFixedKeepsTokens(p[2..], esc);
        assert r[2..] == EscapeRewriteFixed(p[2..], esc);
      } else if p[0] == esc && |p| >= 2 && p[1] == Backslash {
        RewriteFixedKeepsTokens(p[2..], esc);
        assert r == [Backslash, Backslash] + EscapeRewriteFixed(p[2..], esc);
        assert r[2..] == EscapeRewriteFixed(p[2..], esc);
      } else if p[0] == esc && |p| >= 2 {
        RewriteFixedKeepsTokens(p[2..], esc);
        assert r == [Backslash, p[1]] + EscapeRewriteFixed(p[2..], esc);
        assert r[2..] == EscapeRewriteFixed(p[2..], esc);
      } else if p[0] == esc {
        assert r == [Backslash];
      } else if p[0] == Backslash {
        RewriteFixedKeepsTokens(p[1..], esc);
        assert r[2..] == EscapeRewriteFixed(p[1..], esc);
      } else {
        RewriteFixedKeepsTokens(p[1..], esc);
        assert r[1..] == EscapeRewriteFixed(p[1..], esc);
      }
    }
  }

  /** As written, the rewrite keeps the meaning for every escape character
      other than the wildcards `%` and `_`. */
  lemma {:induction false} RewriteKeepsTokens(p: string, esc: char)
    requires esc != Backslash && esc != '%' && esc != '_'
    ensures Tokens(EscapeRewrite(p, esc), Backslash) == Tokens(p, esc)
    decreases |p|
  {
    if p != [] {
      var r := EscapeRewrite(p, esc);
      if p[0] == esc && |p| >= 2 && p[1] == esc {
        RewriteKeepsTokens(p[2..], esc);
        assert r[1..] == EscapeRewrite(p[2..], esc);
      } else if p[0] == esc && |p| >= 2 && p[1] == Backslash {
        RewriteKeepsTokens(p[2..], esc);
        assert r == [Backslash, Backslash] + EscapeRewrite(p[2..], esc);
        assert r[2..] == EscapeRewrite(p[2..], esc);
      } else if p[0] == esc && |p| >= 2 {
        RewriteKeepsTokens(p[2..], esc);
        assert r == [Backslash, p[1]] + EscapeRewrite(p[2..], esc);
        assert r[2..] == EscapeRewrite(p[2..], esc);
      } else if p[0] == esc {
        assert r == [Backslash];
      } else if p[0] == Backslash {
        RewriteKeepsTokens(p[1..], esc);
        assert r[2..] == EscapeRewrite(p[1..], esc);
      } else {
        RewriteKeepsTokens(p[1..], esc);
        assert r[1..] == EscapeRewrite(p[1..], esc);
      }
    }
  }

  /** With ESCAPE '%', the pattern `%%` is a literal percent sign, but the
      rewrite turns it into a bare `%`, which matches anything. */
  lemma DoubledWildcardEscape()
    ensures Tokens("%%", '%') == Some([Lit('%')])
    ensures EscapeRewrite("%%", '%') == "%"
    ensures Tokens("%", Backslash) == Some([AnyRun])
    ensures Matches("a", [AnyRun]) && !Matches("a", [Lit('%')])
  {
    var pp, p := "%%", "%";
    assert pp[0] == '%' && pp[1] == '%' && pp[2..] == [];
    assert Tokens(pp, '%') == Cons(Lit('%'), Some([]));
    assert [Lit('%')] + [] == [Lit('%')];
    assert p[0] == '%' && p[1..] == [];
    assert EscapeRewrite(pp, '%') == [('%')] + EscapeRewrite([], '%');
    assert Tokens(p, Backslash) == Cons(AnyRun, Some([]));
    assert [AnyRun] + [] == [AnyRun];
    var a := "a";
    assert a[1..] == [];
    assert Matches(a[1..], [AnyRun]);
  }
}
