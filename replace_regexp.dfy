/** The replacement template of replaceRegexpAll / replaceRegexpOne
    (ReplaceRegexpImpl::createInstructions): a template such as `\2-\1` is
    read into literal pieces of text and substitutions of capture groups,
    and a substitution of a group the regexp does not have is refused. */
module ReplaceRegexp {
  import opened Wrappers

  /** A template instruction: insert a text, or insert capture group `group`
      (createInstructions' instruction pairs (-1, text) and (group, "")). */
  datatype Instruction = Literal(text: string) | Substitution(group: nat)

  /** The first half of createInstructions' instruction pair: the group
      number, or -1 for a literal. */
  function Id(ins: Instruction): int
  {
    match ins
    case Literal(_) => -1
    case Substitution(g) => g
  }

  predicate IsDigit(c: char)
  {
    '0' <= c <= '9'
  }

  function DigitValue(c: char): nat
    requires IsDigit(c)
  {
    c as int - '0' as int
  }

  /** One unit of the template: a character to insert, or a group
      reference `\d`. */
  datatype Piece = Char(c: char) | Group(d: nat)

  /** The units of a template: a backslash before a digit is a group
      reference, before any other character it makes that character
      literal; a backslash at the very end is itself literal. */
  function Pieces(s: string): seq<Piece>
    decreases |s|
  {
    if s == [] then []
    else if s[0] == '\\' && |s| >= 2 then
      (if IsDigit(s[1]) then [Group(DigitValue(s[1]))] else [Char(s[1])]) + Pieces(s[2..])
    else [Char(s[0])] + Pieces(s[1..])
  }

  /** The literal pending in `now`, if any, as instructions. */
  function Flush(now: string): seq<Instruction>
  {
    if now == [] then [] else [Literal(now)]
  }

  /** Instructions for the units `ps`, with the characters `now` read
      before them and not yet emitted: runs of characters become one
      literal, each group reference a substitution. */
  function Build(ps: seq<Piece>, now: string): seq<Instruction>
    decreases |ps|
  {
    if ps == [] then Flush(now)
    else match ps[0]
      case Char(c) => Build(ps[1..], now + [c])
      case Group(d) => Flush(now) + [Substitution(d)] + Build(ps[1..], [])
  }

  /** The instructions of a template. */
  function Instructions(s: string): seq<Instruction>
  {
    Build(Pieces(s), [])
  }

  /** The first instruction, from index `k` on, whose number is not below
      `numCaptures`. */
  function FirstBad(ins: seq<Instruction>, numCaptures: int, k: nat): Option<int>
    requires k <= |ins|
    decreases |ins| - k
  {
    if k == |ins| then None
    else if Id(ins[k]) >= numCaptures then Some(Id(ins[k]))
    else FirstBad(ins, numCaptures, k + 1)
  }

  /** What createInstructions answers for a template and the number of
      captures of the regexp (the whole match counts as capture 0). */
  function CreateResult(s: string, numCaptures: int): Result<seq<Instruction>>
  {
    var ins := Instructions(s);
    match FirstBad(ins, numCaptures, 0)
    case Some(id) => Err(BadArguments(id))
    case None => Ok(ins)
  }

  /** createInstructions: one walk over the template collecting literal
      text in `now`, then a check of every instruction's number. */
  method CreateInstructions(s: string, numCaptures: int) returns (r: Result<seq<Instruction>>)
    ensures r == CreateResult(s, numCaptures)
  {
    var instructions: seq<Instruction> := [];
    var now: string := "";
    var i: nat := 0;
    while i < |s|
      invariant i <= |s| && instructions + Build(Pieces(s[i..]), now) == Instructions(s)
      decreases |s| - i
    {
      PiecesAt(s, i);
      if s[i] == '\\' && i + 1 < |s| {
        if IsDigit(s[i + 1]) {
          GroupStep(instructions, now, DigitValue(s[i + 1]), Pieces(s[i + 2..]));
          instructions := instructions + Flush(now) + [Substitution(DigitValue(s[i + 1]))];
          now := "";
        } else {
          now := now + [s[i + 1]];
        }
        i := i + 1;
      } else {
        now := now + [s[i]];
      }
      i := i + 1;
    }
    assert s[i..] == [];
    instructions := instructions + Flush(now);
    var k: nat := 0;
    while k < |instructions|
      invariant k <= |instructions|
      invariant FirstBad(instructions, numCaptures, 0) == FirstBad(instructions, numCaptures, k)
      decreases |instructions| - k
    {
      if Id(instructions[k]) >= numCaptures {
        return Err(BadArguments(Id(instructions[k])));
      }
      k := k + 1;
    }
    r := Ok(instructions);
  }

  /** The unit of the template that starts at index `i`. */
  lemma PiecesAt(s: string, i: nat)
    requires i < |s|
    ensures s[i] == '\\' && i + 1 < |s| ==>
              Pieces(s[i..]) == (if IsDigit(s[i + 1]) then [Group(DigitValue(s[i + 1]))] else [Char(s[i + 1])])
                                + Pieces(s[i + 2..])
    ensures !(s[i] == '\\' && i + 1 < |s|) ==> Pieces(s[i..]) == [Char(s[i])] + Pieces(s[i + 1..])
  {
    var t := s[i..];
    assert t[0] == s[i] && t[1..] == s[i + 1..];
    if i + 1 < |s| {
      assert t[1] == s[i + 1] && t[2..] == s[i + 2..];
    }
  }

  lemma BuildGroup(now: string, d: nat, rest: seq<Piece>)
    ensures Build([Group(d)] + rest, now) == Flush(now) + [Substitution(d)] + Build(rest, [])
  {
    assert ([Group(d)] + rest)[1..] == rest;
  }

  lemma GroupStep(acc: seq<Instruction>, now: string, d: nat, rest: seq<Piece>)
    ensures acc + Build([Group(d)] + rest, now) == acc + Flush(now) + [Substitution(d)] + Build(rest, [])
  {
    BuildGroup(now, d, rest);
  }

  // ---------------------------------------------------------------------
  // Properties

  /** Literal instructions carry text, and no two of them are adjacent. */
  ghost predicate WellFormed(ins: seq<Instruction>)
  {
    && (forall k :: 0 <= k < |ins| ==> ins[k].Literal? ==> ins[k].text != [])
    && (forall k :: 0 < k < |ins| ==> !(ins[k - 1].Literal? && ins[k].Literal?))
  }

  lemma {:induction false} BuildWellFormed(ps: seq<Piece>, now: string)
    ensures WellFormed(Build(ps, now))
    decreases |ps|
  {
    if ps != [] {
      match ps[0]
      case Char(c) =>
        BuildWellFormed(ps[1..], now + [c]);
      case Group(d) =>
        BuildWellFormed(ps[1..], []);
        var rest := Build(ps[1..], []);
        var r := Flush(now) + [Substitution(d)] + rest;
        var n := |Flush(now)|;
        forall k | 0 <= k < |r| && r[k].Literal? ensures r[k].text != [] {
          if k > n {
            assert r[k] == rest[k - n - 1];
          }
        }
        forall k | 0 < k < |r| ensures !(r[k - 1].Literal? && r[k].Literal?) {
          if k > n + 1 {
            assert r[k] == rest[k - n - 1] && r[k - 1] == rest[k - n - 2];
          }
        }
    }
  }

  /** Every template gives well-formed instructions. */
  lemma InstructionsWellFormed(s: string)
    ensures WellFormed(Instructions(s))
  {
    BuildWellFormed(Pieces(s), []);
  }

  /** `\d` is a substitution of group d, wherever the text after it leads. */
  lemma EscapedDigit(d: char, rest: string)
    requires IsDigit(d)
    ensures Instructions(['\\', d] + rest) == [Substitution(DigitValue(d))] + Instructions(rest)
  {
    var s := ['\\', d] + rest;
    assert s[2..] == rest;
    assert Pieces(s) == [Group(DigitValue(d))] + Pieces(rest);
    BuildGroup([], DigitValue(d), Pieces(rest));
  }

  /** `\x` for a non-digit x is the character x, starting a literal. */
  lemma EscapedChar(x: char, rest: string)
    requires !IsDigit(x)
    ensures var ins := Instructions(['\\', x] + rest);
      ins != [] && ins[0].Literal? && ins[0].text != [] && ins[0].text[0] == x
  {
    PiecesEscaped(x, rest);
    var ps := [Char(x)] + Pieces(rest);
    assert ps[1..] == Pieces(rest);
    assert [] + [x] == [x];
    assert Build(ps, []) == Build(Pieces(rest), [x]);
    BuildStartsWith(Pieces(rest), [x]);
  }

  lemma {:induction false} BuildStartsWith(ps: seq<Piece>, now: string)
    requires now != []
    ensures var ins := Build(ps, now);
      ins != [] && ins[0].Literal? && |now| <= |ins[0].text| && ins[0].text[..|now|] == now
    decreases |ps|
  {
    if ps != [] {
      match ps[0]
      case Char(c) =>
        BuildStartsWith(ps[1..], now + [c]);
        var t := Build(ps, now)[0].text;
        assert t[..|now|] == t[..|now + [c]|][..|now|];
      case Group(d) =>
    }
  }

  /** Whatever precedes it, a backslash at the end of a template is read
      as a literal backslash: the last instruction is a literal ending with
      it. */
  lemma TrailingBackslash(s: string)
    requires s != [] && s[|s| - 1] == '\\'
    ensures var ins := Instructions(s);
      ins != [] && ins[|ins| - 1].Literal? && ins[|ins| - 1].text != [] &&
      ins[|ins| - 1].text[|ins[|ins| - 1].text| - 1] == '\\'
  {
    LastPiece(s);
    BuildEndsWith(Pieces(s), []);
  }

  lemma {:induction false} LastPiece(s: string)
    requires s != [] && s[|s| - 1] == '\\'
    ensures Pieces(s) != [] && Pieces(s)[|Pieces(s)| - 1] == Char('\\')
    decreases |s|
  {
    if s[0] == '\\' && |s| >= 2 {
      if |s| > 2 {
        LastPiece(s[2..]);
      } else {
        assert s[2..] == [];
      }
    } else if |s| > 1 {
      LastPiece(s[1..]);
    } else {
      assert s[1..] == [];
    }
  }

  lemma {:induction false} BuildEndsWith(ps: seq<Piece>, now: string)
    requires ps != [] && ps[|ps| - 1].Char?
    ensures var ins := Build(ps, now);
      ins != [] && ins[|ins| - 1].Literal? && ins[|ins| - 1].text != [] &&
      ins[|ins| - 1].text[|ins[|ins| - 1].text| - 1] == ps[|ps| - 1].c
    decreases |ps|
  {
    if |ps| == 1 {
      assert ps[1..] == [];
    } else {
      assert ps[1..][|ps| - 2] == ps[|ps| - 1];
      match ps[0]
      case Char(c) =>
        BuildEndsWith(ps[1..], now + [c]);
      case Group(d) =>
        BuildEndsWith(ps[1..], []);
    }
  }

  /** The template is refused exactly when some instruction's number
      reaches the number of captures, and the error names the first such
      number; with at least one capture only a substitution can be the
      culprit. */
  lemma {:induction false} RefusedExactly(ins: seq<Instruction>, numCaptures: int, k: nat)
    requires k <= |ins|
    ensures FirstBad(ins, numCaptures, k).Some? <==> exists j :: k <= j < |ins| && Id(ins[j]) >= numCaptures
    ensures FirstBad(ins, numCaptures, k).Some? ==>
              exists j :: k <= j < |ins| && Id(ins[j]) >= numCaptures && FirstBad(ins, numCaptures, k).value == Id(ins[j])
                          && forall i :: k <= i < j ==> Id(ins[i]) < numCaptures
    ensures numCaptures >= 0 && FirstBad(ins, numCaptures, k).Some? ==> FirstBad(ins, numCaptures, k).value >= numCaptures
    decreases |ins| - k
  {
    if k < |ins| && Id(ins[k]) < numCaptures {
      RefusedExactly(ins, numCaptures, k + 1);
    }
  }

  /** The template text for a literal: a backslash is written escaped,
      every other character as itself. */
  function EscapeText(t: string): string
  {
    if t == [] then [] else (if t[0] == '\\' then "\\\\" else [t[0]]) + EscapeText(t[1..])
  }

  function DigitChar(g: nat): char
    requires g <= 9
  {
    ('0' as int + g) as char
  }

  predicate SmallGroups(ins: seq<Instruction>)
  {
    forall k :: 0 <= k < |ins| ==> ins[k].Substitution? ==> ins[k].group <= 9
  }

  /** The template that reads as `ins`. */
  function Template(ins: seq<Instruction>): string
    requires SmallGroups(ins)
  {
    if ins == [] then []
    else
      (match ins[0]
       case Literal(t) => EscapeText(t)
       case Substitution(g) => ['\\', DigitChar(g)])
      + Template(ins[1..])
  }

  function CharPieces(t: string): seq<Piece>
  {
    if t == [] then [] else [Char(t[0])] + CharPieces(t[1..])
  }

  lemma PiecesPlain(c: char, u: string)
    requires c != '\\'
    ensures Pieces([c] + u) == [Char(c)] + Pieces(u)
  {
    assert ([c] + u)[1..] == u;
  }

  lemma PiecesEscaped(c: char, u: string)
    requires !IsDigit(c)
    ensures Pieces(['\\', c] + u) == [Char(c)] + Pieces(u)
  {
    assert (['\\', c] + u)[2..] == u;
  }

  lemma PiecesGroup(g: nat, u: string)
    requires g <= 9
    ensures Pieces(['\\', DigitChar(g)] + u) == [Group(g)] + Pieces(u)
  {
    assert (['\\', DigitChar(g)] + u)[2..] == u;
  }

  lemma {:induction false} PiecesEscapeText(t: string, rest: string)
    ensures Pieces(EscapeText(t) + rest) == CharPieces(t) + Pieces(rest)
    decreases |t|
  {
    if t == [] {
      assert EscapeText(t) + rest == rest;
    } else {
      EscapeTextStep(t, rest);
      PiecesEscapeText(t[1..], rest);
      ConsAssoc(Char(t[0]), CharPieces(t[1..]), Pieces(rest));
    }
  }

  /** The first character of a literal's template text reads as itself. */
  lemma EscapeTextStep(t: string, rest: string)
    requires t != []
    ensures Pieces(EscapeText(t) + rest) == [Char(t[0])] + Pieces(EscapeText(t[1..]) + rest)
  {
    var u := EscapeText(t[1..]) + rest;
    if t[0] == '\\' {
      assert EscapeText(t) + rest == ['\\', '\\'] + u;
      PiecesEscaped('\\', u);
    } else {
      assert EscapeText(t) + rest == [t[0]] + u;
      PiecesPlain(t[0], u);
    }
  }

  lemma ConsAssoc<T>(x: T, a: seq<T>, b: seq<T>)
    ensures [x] + (a + b) == ([x] + a) + b
  {
  }

  lemma {:induction false} BuildChars(t: string, rest: seq<Piece>, now: string)
    ensures Build(CharPieces(t) + rest, now) == Build(rest, now + t)
    decreases |t|
  {
    if t == [] {
      assert CharPieces(t) + rest == rest;
      assert now + t == now;
    } else {
      assert (CharPieces(t) + rest)[1..] == CharPieces(t[1..]) + rest;
      BuildChars(t[1..], rest, now + [t[0]]);
      assert now + [t[0]] + t[1..] == now + t;
    }
  }

  /** Reading a template back: the template written for well-formed
      instructions reads as those instructions, starting with no pending
      text. */
  lemma {:induction false} TemplateRoundTrip(ins: seq<Instruction>)
    requires WellFormed(ins) && SmallGroups(ins)
    ensures Instructions(Template(ins)) == ins
    decreases |ins|
  {
    if ins != [] {
      var rest := ins[1..];
      assert WellFormed(rest) by {
        forall k | 0 < k < |rest| ensures !(rest[k - 1].Literal? && rest[k].Literal?) {
          assert rest[k - 1] == ins[k] && rest[k] == ins[k + 1];
        }
      }
      assert SmallGroups(rest);
      TemplateRoundTrip(rest);
      match ins[0]
      case Literal(t) =>
        PiecesEscapeText(t, Template(rest));
        BuildChars(t, Pieces(Template(rest)), []);
        assert [] + t == t;
        LiteralThenRest(t, rest);
      case Substitution(g) =>
        PiecesGroup(g, Template(rest));
        var s := Template(ins);
        assert Build(Pieces(s), []) == Flush([]) + [Substitution(g)] + Build(Pieces(Template(rest)), []);
        assert ins == [Substitution(g)] + rest;
    }
  }

  /** A literal `t` read with the rest of a well-formed list, which does not
      start with a literal, is emitted whole before it. */
  lemma LiteralThenRest(t: string, rest: seq<Instruction>)
    requires t != [] && SmallGroups(rest) && Instructions(Template(rest)) == rest
    requires rest != [] ==> rest[0].Substitution?
    ensures Build(Pieces(Template(rest)), t) == [Literal(t)] + rest
  {
    if rest == [] {
      assert Template(rest) == [];
    } else {
      var g := rest[0].group;
      var tail := Pieces(Template(rest[1..]));
      assert Template(rest) == ['\\', DigitChar(g)] + Template(rest[1..]);
      PiecesGroup(g, Template(rest[1..]));
      BuildGroup(t, g, tail);
      BuildGroup([], g, tail);
    }
  }
}
