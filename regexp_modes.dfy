/** The RE2 mode-modifier prefix the regexp functions put in front of a
    pattern (getRE2ModeModifiers): the default options are case sensitive,
    one-line and without dot-nl; a case-insensitive collator and the letters
    of MySQL's match_type change them; the changed options are written as
    `(?` plus `m`, `i`, `s` in that order plus `)`. */
module RegexpModes {
  import opened Wrappers

  /** The three RE2 options the modifiers can change. */
  datatype Options = Options(caseSensitive: bool, oneLine: bool, dotNl: bool)

  /** getDefaultRe2Options. */
  const Default := Options(true, true, false)

  /** The match_type letters: `i` case insensitive, `c` case sensitive,
      `s` dot matches newline, `m` multi-line. */
  predicate IsModeLetter(c: char)
  {
    c == 'i' || c == 'c' || c == 's' || c == 'm'
  }

  predicate ValidModes(matchType: string)
  {
    forall k :: 0 <= k < |matchType| ==> IsModeLetter(matchType[k])
  }

  predicate BinaryCollator(collator: Option<Collator>)
  {
    collator.Some? && collator.value.binary
  }

  /** Whether a letter decides case sensitivity: `c` always does, `i` unless
      the collator is binary. */
  predicate DecidesCase(c: char, collator: Option<Collator>)
  {
    c == 'c' || (c == 'i' && !BinaryCollator(collator))
  }

  /** Case sensitivity after `matchType`: the last letter that decides it
      wins; with none, the collator's, sensitive unless it is
      case-insensitive. */
  function CaseSensitive(matchType: string, collator: Option<Collator>): bool
  {
    if matchType == [] then !(collator.Some? && collator.value.caseInsensitive)
    else if DecidesCase(matchType[|matchType| - 1], collator) then matchType[|matchType| - 1] == 'c'
    else CaseSensitive(matchType[..|matchType| - 1], collator)
  }

  /** The options a valid match_type selects. */
  function ModesOf(matchType: string, collator: Option<Collator>): Options
  {
    Options(CaseSensitive(matchType, collator), 'm' !in matchType, 's' in matchType)
  }

  /** The modifier string for a set of options: empty for the defaults. */
  function Render(o: Options): string
  {
    if o == Default then ""
    else "(?" + (if o.oneLine then "" else "m") + (if o.caseSensitive then "" else "i")
         + (if o.dotNl then "s" else "") + ")"
  }

  /** What getRE2ModeModifiers answers: an error for any letter outside
      `icsm`, else the rendering of the options selected. */
  function ModeModifiers(matchType: string, collator: Option<Collator>): Result<string>
  {
    if ValidModes(matchType) then Ok(Render(ModesOf(matchType, collator)))
    else Err(IncorrectArguments)
  }

  /** getRE2ModeModifiers: the options start from the defaults, a
      case-insensitive collator clears case sensitivity, the letters of
      match_type apply left to right, and the options are written out. */
  method GetRE2ModeModifiers(matchType: string, collator: Option<Collator>) returns (r: Result<string>)
    ensures r == ModeModifiers(matchType, collator)
  {
    var caseSensitive, oneLine, dotNl := true, true, false;
    if collator.Some? && collator.value.caseInsensitive {
      caseSensitive := false;
    }
    var k: nat := 0;
    while k < |matchType|
      invariant k <= |matchType| && ValidModes(matchType[..k])
      invariant Options(caseSensitive, oneLine, dotNl) == ModesOf(matchType[..k], collator)
    {
      var c := matchType[k];
      if !IsModeLetter(c) {
        InvalidAt(matchType, k);
        return Err(IncorrectArguments);
      }
      ModesStep(matchType, k, collator);
      if c == 'i' {
        if collator.None? || !collator.value.binary {
          caseSensitive := false;
        }
      } else if c == 'c' {
        caseSensitive := true;
      } else if c == 's' {
        dotNl := true;
      } else {
        oneLine := false;
      }
      k := k + 1;
    }
    assert matchType[..k] == matchType;
    var modifiers := WriteModifiers(Options(caseSensitive, oneLine, dotNl));
    r := Ok(modifiers);
  }

  /** A letter outside `icsm` makes the whole match_type invalid. */
  lemma InvalidAt(matchType: string, k: nat)
    requires k < |matchType| && !IsModeLetter(matchType[k])
    ensures forall collator :: ModeModifiers(matchType, collator) == Err(IncorrectArguments)
  {
  }

  /** Applying letter `k` of a valid prefix to the options it selects gives
      the options of the prefix one letter longer. */
  lemma ModesStep(matchType: string, k: nat, collator: Option<Collator>)
    requires k < |matchType| && ValidModes(matchType[..k]) && IsModeLetter(matchType[k])
    ensures ValidModes(matchType[..k + 1])
    ensures var o, c := ModesOf(matchType[..k], collator), matchType[k];
      ModesOf(matchType[..k + 1], collator) ==
        if c == 'i' then (if BinaryCollator(collator) then o else o.(caseSensitive := false))
        else if c == 'c' then o.(caseSensitive := true)
        else if c == 's' then o.(dotNl := true)
        else o.(oneLine := false)
  {
    assert matchType[..k + 1] == matchType[..k] + [matchType[k]];
    assert matchType[..k + 1][..k] == matchType[..k];
  }

  /** The tail of getRE2ModeModifiers: nothing for the defaults, else the
      letters of the changed options between `(?` and `)`. */
  method WriteModifiers(o: Options) returns (modifiers: string)
    ensures modifiers == Render(o)
  {
    if !o.oneLine || o.dotNl || !o.caseSensitive {
      modifiers := "(?";
      if !o.oneLine {
        modifiers := modifiers + "m";
      }
      if !o.caseSensitive {
        modifiers := modifiers + "i";
      }
      if o.dotNl {
        modifiers := modifiers + "s";
      }
      modifiers := modifiers + ")";
    } else {
      modifiers := "";
    }
  }

  /** The answer is an error exactly when some letter is not one of
      `icsm`, and the error is IncorrectArguments. */
  lemma InvalidLetterThrows(matchType: string, collator: Option<Collator>)
    ensures ModeModifiers(matchType, collator).Err? <==>
              exists k :: 0 <= k < |matchType| && !IsModeLetter(matchType[k])
    ensures ModeModifiers(matchType, collator).Err? ==>
              ModeModifiers(matchType, collator).error == IncorrectArguments
  {
  }

  /** The prefix is empty exactly when the options are case sensitive,
      one-line and not dot-nl. */
  lemma EmptyExactlyForDefaults(matchType: string, collator: Option<Collator>)
    requires ValidModes(matchType)
    ensures ModeModifiers(matchType, collator) == Ok("") <==>
              CaseSensitive(matchType, collator) && 'm' !in matchType && 's' !in matchType
  {
    var o := ModesOf(matchType, collator);
    if o != Default {
      assert Render(o)[0] == '(';
    }
  }

  /** A later `c` makes the search case sensitive and a later `i` (under a
      collator that is not binary) makes it insensitive, whatever came
      before. */
  lemma {:induction false} LaterLetterWins(a: string, b: string, collator: Option<Collator>)
    requires exists k :: 0 <= k < |b| && DecidesCase(b[k], collator)
    ensures CaseSensitive(a + b, collator) == CaseSensitive(b, collator)
    decreases |b|
  {
    var n := |b| - 1;
    assert (a + b)[..|a + b| - 1] == a + b[..n];
    assert (a + b)[|a + b| - 1] == b[n];
    if !DecidesCase(b[n], collator) {
      var k :| 0 <= k < |b| && DecidesCase(b[k], collator);
      assert b[..n][k] == b[k];
      LaterLetterWins(a, b[..n], collator);
    }
  }

  /** The last letter deciding case sensitivity is what counts. */
  lemma LastLetter(a: string, x: char, collator: Option<Collator>)
    ensures x == 'c' ==> CaseSensitive(a + [x], collator)
    ensures x == 'i' && !BinaryCollator(collator) ==> !CaseSensitive(a + [x], collator)
    ensures x == 'i' && BinaryCollator(collator) ==> CaseSensitive(a + [x], collator) == CaseSensitive(a, collator)
  {
    assert (a + [x])[..|a|] == a;
  }

  /** Without a deciding letter the collator decides: a case-insensitive
      collator gives `i`, any other gives case sensitivity. */
  lemma {:induction false} CollatorDecides(matchType: string, collator: Option<Collator>)
    requires forall k :: 0 <= k < |matchType| ==> !DecidesCase(matchType[k], collator)
    ensures CaseSensitive(matchType, collator) == !(collator.Some? && collator.value.caseInsensitive)
    decreases |matchType|
  {
    if matchType != [] {
      var n := |matchType| - 1;
      assert forall k :: 0 <= k < n ==> matchType[..n][k] == matchType[k];
      CollatorDecides(matchType[..n], collator);
    }
  }

  /** Reading a modifier prefix back: the letters present switch the
      options away from their defaults. */
  function ParseModifiers(s: string): Option<Options>
  {
    if s == "" then Some(Default)
    else if |s| >= 3 && s[..2] == "(?" && s[|s| - 1] == ')' then
      var body := s[2..|s| - 1];
      Some(Options('i' !in body, 'm' !in body, 's' in body))
    else None
  }

  /** The prefix determines the options: reading it back gives the options
      it was written from, so no two option sets share a prefix. */
  lemma RenderRoundTrip(o: Options)
    ensures ParseModifiers(Render(o)) == Some(o)
  {
    if o != Default {
      var s := Render(o);
      var body := (if o.oneLine then "" else "m") + (if o.caseSensitive then "" else "i")
                  + (if o.dotNl then "s" else "");
      assert s == "(?" + body + ")";
      assert s[2..|s| - 1] == body;
      assert s[..2] == "(?";
    }
  }

  /** The prefix is `(?`, one letter per option that differs from the
      defaults, and `)`; the letters are m, i, s and appear in that order. */
  lemma RenderOrder(o: Options)
    requires o != Default
    ensures Render(o)[..2] == "(?" && Render(o)[|Render(o)| - 1] == ')'
    ensures |Render(o)| == 3 + (if o.oneLine then 0 else 1) + (if o.caseSensitive then 0 else 1)
                             + (if o.dotNl then 1 else 0)
    ensures forall k :: 2 <= k < |Render(o)| - 1 ==> Render(o)[k] in "mis"
    ensures !o.oneLine ==> Render(o)[2] == 'm'
    ensures o.dotNl ==> Render(o)[|Render(o)| - 2] == 's'
    ensures !o.oneLine && !o.caseSensitive ==> Render(o)[2] == 'm' && Render(o)[3] == 'i'
    ensures !o.caseSensitive && o.dotNl ==> Render(o)[|Render(o)| - 3] == 'i' && Render(o)[|Render(o)| - 2] == 's'
    ensures !o.oneLine && o.dotNl ==> Render(o)[2] == 'm' && Render(o)[|Render(o)| - 2] == 's'
  {
    var body := (if o.oneLine then "" else "m") + (if o.caseSensitive then "" else "i")
                + (if o.dotNl then "s" else "");
    assert Render(o) == "(?" + body + ")";
    forall k | 2 <= k < |Render(o)| - 1 ensures Render(o)[k] in "mis" {
      assert Render(o)[k] == body[k - 2];
    }
  }
}
