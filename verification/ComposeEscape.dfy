/**
 The dollar escaping of internal/dockerx/compose.go, and what docker compose's own
 interpolation makes of its output (Compose Specification, section Interpolation:
 "$$" is a literal dollar, any other "$" starts a variable reference or is an error).
 */
module ComposeEscape {

  const DOLLAR := '$'

  /** escapeComposeInterpolation: a lone "$" is doubled, a "$$" passes through. */
  function Escape(s: string): string {
    if s == "" then ""
    else if s[0] != DOLLAR then [s[0]] + Escape(s[1..])
    else if |s| > 1 && s[1] == DOLLAR then [DOLLAR, DOLLAR] + Escape(s[2..])
    else [DOLLAR, DOLLAR] + Escape(s[1..])
  }

  lemma EscapeAt(s: string, i: nat)
    requires i < |s|
    ensures Escape(s[i..]) ==
            if s[i] != DOLLAR then [s[i]] + Escape(s[i + 1..])
            else if i + 1 < |s| && s[i + 1] == DOLLAR then [DOLLAR, DOLLAR] + Escape(s[i + 2..])
            else [DOLLAR, DOLLAR] + Escape(s[i + 1..])
  {
    var tail := s[i..];
    assert tail[1..] == s[i + 1..];
    if |tail| > 1 {
      assert tail[2..] == s[i + 2..];
    }
  }

  lemma Regroup(a: string, b: string, c: string)
    ensures a + (b + c) == (a + b) + c
  {}

  lemma EscapeEmpty()
    ensures Escape("") == ""
  {}

  method EscapeComposeInterpolation(s: string) returns (b: string)
    ensures b == Escape(s)
  {
    hide Escape;
    b := "";
    var i := 0;
    assert s[0..] == s;
    while i < |s|
      invariant 0 <= i <= |s|
      invariant b + Escape(s[i..]) == Escape(s)
    {
      EscapeAt(s, i);
      if s[i] != DOLLAR {
        Regroup(b, [s[i]], Escape(s[i + 1..]));
        b := b + [s[i]];
        i := i + 1;
      } else if i + 1 < |s| && s[i + 1] == DOLLAR {
        Regroup(b, [DOLLAR, DOLLAR], Escape(s[i + 2..]));
        b := b + [DOLLAR, DOLLAR];
        i := i + 2;
      } else {
        Regroup(b, [DOLLAR, DOLLAR], Escape(s[i + 1..]));
        b := b + [DOLLAR, DOLLAR];
        i := i + 1;
      }
    }
    assert s[i..] == "";
    EscapeEmpty();
  }

  /** What compose does with a text: its literal value, or a place where it would
      consult the environment (or refuse the file). */
  datatype Outcome = Literal(text: string) | Reference

  function Prepend(c: char, o: Outcome): Outcome {
    match o
    case Literal(text) => Literal([c] + text)
    case Reference => Reference
  }

  /** Compose's left-to-right scan. */
  function Interpolate(s: string): Outcome {
    if s == "" then Literal("")
    else if s[0] != DOLLAR then Prepend(s[0], Interpolate(s[1..]))
    else if |s| > 1 && s[1] == DOLLAR then Prepend(DOLLAR, Interpolate(s[2..]))
    else Reference
  }

  /** Some two neighbouring characters are both dollars. */
  predicate HasDoubled(s: string) {
    exists i :: 0 <= i < |s| - 1 && s[i] == DOLLAR && s[i + 1] == DOLLAR
  }

  /** The length of the run of dollars that s starts with. */
  function Run(s: string): (n: nat)
    ensures n <= |s|
    ensures forall j :: 0 <= j < n ==> s[j] == DOLLAR
    ensures n < |s| ==> s[n] != DOLLAR
  {
    if s == "" || s[0] != DOLLAR then 0 else 1 + Run(s[1..])
  }

  /** Every maximal run of dollars in s has even length. */
  predicate EvenRuns(s: string) {
    forall i :: 0 <= i < |s| && (i == 0 || s[i - 1] != DOLLAR) ==> Run(s[i..]) % 2 == 0
  }

  lemma {:induction false} EvenRunsSkip(c: char, s: string)
    requires c != DOLLAR && EvenRuns(s)
    ensures EvenRuns([c] + s)
  {
    var t := [c] + s;
    forall i | 0 <= i < |t| && (i == 0 || t[i - 1] != DOLLAR)
      ensures Run(t[i..]) % 2 == 0
    {
      if i > 0 {
        assert t[i..] == s[i - 1..];
      }
    }
  }

  lemma RunDoubled(s: string)
    ensures Run([DOLLAR, DOLLAR] + s) == 2 + Run(s)
  {
    var t := [DOLLAR, DOLLAR] + s;
    assert t[1..] == [DOLLAR] + s && t[1..][1..] == s;
  }

  lemma {:induction false} EvenRunsDoubled(s: string)
    requires EvenRuns(s)
    ensures EvenRuns([DOLLAR, DOLLAR] + s)
  {
    hide Run;
    var t := [DOLLAR, DOLLAR] + s;
    forall i | 0 <= i < |t| && (i == 0 || t[i - 1] != DOLLAR)
      ensures Run(t[i..]) % 2 == 0
    {
      assert t[0] == DOLLAR && t[1] == DOLLAR;
      if i == 0 {
        RunDoubled(s);
        assert t[0..] == t;
        assert s == "" || s[0..] == s;
        assert Run("") == 0;
      } else {
        assert t[i..] == s[i - 2..] && t[i - 1] == s[i - 3];
      }
    }
  }

  /** Only even runs of dollars survive escaping. */
  lemma {:induction false} EscapedRunsAreEven(s: string)
    ensures EvenRuns(Escape(s))
  {
    if s == "" {
    } else if s[0] != DOLLAR {
      EscapedRunsAreEven(s[1..]);
      EvenRunsSkip(s[0], Escape(s[1..]));
    } else {
      var rest := if |s| > 1 && s[1] == DOLLAR then s[2..] else s[1..];
      EscapedRunsAreEven(rest);
      EvenRunsDoubled(Escape(rest));
    }
  }

  lemma EvenRunsAfter(s: string, k: nat)
    requires EvenRuns(s) && k <= |s| && (k == 0 || s[k - 1] != DOLLAR || Run(s[k..]) % 2 == 0)
    ensures EvenRuns(s[k..])
  {
    hide Run;
    var t := s[k..];
    forall i | 0 <= i < |t| && (i == 0 || t[i - 1] != DOLLAR) ensures Run(t[i..]) % 2 == 0 {
      assert t[i..] == s[i + k..];
    }
  }

  lemma PairFirst(s: string)
    requires EvenRuns(s) && s != "" && s[0] == DOLLAR
    ensures |s| > 1 && s[1] == DOLLAR && Run(s[2..]) % 2 == 0
  {
    assert s[0..] == s && Run(s) == 1 + Run(s[1..]);
    assert s[1..][1..] == s[2..];
  }

  /** A text with even runs only is read as a literal: the scan meets dollars in pairs. */
  lemma {:induction false} EvenRunsAreLiteral(s: string)
    requires EvenRuns(s)
    ensures Interpolate(s).Literal?
  {
    hide Run, EvenRuns;
    if s == "" {
    } else if s[0] != DOLLAR {
      EvenRunsAfter(s, 1);
      EvenRunsAreLiteral(s[1..]);
    } else {
      PairFirst(s);
      EvenRunsAfter(s, 2);
      EvenRunsAreLiteral(s[2..]);
    }
  }

  lemma NoRuns()
    ensures EvenRuns("")
  {}

  lemma {:induction false} LiteralRunsAreEven(s: string)
    requires Interpolate(s).Literal?
    ensures EvenRuns(s)
  {
    hide Run, EvenRuns;
    if s == "" {
      NoRuns();
    } else if s[0] != DOLLAR {
      LiteralRunsAreEven(s[1..]);
      EvenRunsSkip(s[0], s[1..]);
      assert s == [s[0]] + s[1..];
    } else {
      LiteralRunsAreEven(s[2..]);
      assert s == [DOLLAR, DOLLAR] + s[2..];
      EvenRunsDoubled(s[2..]);
    }
  }

  /** And only such a text is. */
  lemma {:induction false} LiteralIffEvenRuns(s: string)
    ensures Interpolate(s).Literal? <==> EvenRuns(s)
  {
    hide Run, EvenRuns;
    if EvenRuns(s) {
      EvenRunsAreLiteral(s);
    } else if Interpolate(s).Literal? {
      LiteralRunsAreEven(s);
    }
  }

  /** Compose never reaches a variable reference in an escaped text, whatever the text. This
      is about a string that YAML reads as it is written; ComposeFile is about a whole file. */
  lemma {:induction false} NoReferenceSurvives(s: string)
    ensures Interpolate(Escape(s)).Literal?
  {
    EscapedRunsAreEven(s);
    EvenRunsAreLiteral(Escape(s));
  }

  lemma {:induction false} EscapeIdempotent(s: string)
    ensures Escape(Escape(s)) == Escape(s)
  {
    var e := Escape(s);
    if s == "" {
    } else if s[0] != DOLLAR {
      EscapeIdempotent(s[1..]);
      assert e[1..] == Escape(s[1..]);
    } else {
      var rest := if |s| > 1 && s[1] == DOLLAR then s[2..] else s[1..];
      EscapeIdempotent(rest);
      assert e[2..] == Escape(rest);
    }
  }

  lemma {:induction false} EvenIsFixed(s: string)
    requires EvenRuns(s)
    ensures Escape(s) == s
  {
    hide Run, EvenRuns;
    if s == "" {
    } else if s[0] != DOLLAR {
      EvenRunsAfter(s, 1);
      EvenIsFixed(s[1..]);
    } else {
      PairFirst(s);
      EvenRunsAfter(s, 2);
      EvenIsFixed(s[2..]);
    }
  }

  /** Escaping leaves exactly the texts alone whose dollars stand in even runs. */
  lemma {:induction false} FixedIff(s: string)
    ensures Escape(s) == s <==> EvenRuns(s)
  {
    if EvenRuns(s) {
      EvenIsFixed(s);
    } else {
      EscapedRunsAreEven(s);
    }
  }

  lemma {:induction false} DoubledTail(s: string)
    requires s != ""
    ensures HasDoubled(s) <==> (|s| > 1 && s[0] == DOLLAR && s[1] == DOLLAR) || HasDoubled(s[1..])
  {
    if HasDoubled(s) {
      var i :| 0 <= i < |s| - 1 && s[i] == DOLLAR && s[i + 1] == DOLLAR;
      assert i > 0 ==> s[1..][i - 1] == DOLLAR && s[1..][i - 1 + 1] == DOLLAR;
    }
    if HasDoubled(s[1..]) {
      var i :| 0 <= i < |s[1..]| - 1 && s[1..][i] == DOLLAR && s[1..][i + 1] == DOLLAR;
      assert s[i + 1] == DOLLAR && s[i + 1 + 1] == DOLLAR;
    }
  }

  lemma {:induction false} RunLength(s: string)
    ensures Interpolate(Escape(s)).Literal?
    ensures |Interpolate(Escape(s)).text| <= |s|
    ensures !HasDoubled(s) ==> Interpolate(Escape(s)).text == s
    ensures HasDoubled(s) ==> |Interpolate(Escape(s)).text| < |s|
  {
    NoReferenceSurvives(s);
    var e := Escape(s);
    if s == "" {
    } else {
      DoubledTail(s);
      if s[0] != DOLLAR {
        RunLength(s[1..]);
        assert e[1..] == Escape(s[1..]);
      } else {
        var rest := if |s| > 1 && s[1] == DOLLAR then s[2..] else s[1..];
        RunLength(rest);
        assert e[2..] == Escape(rest);
      }
    }
  }

  /** Compose reads such a text back exactly when it holds no "$$": such a pair is passed
      through and compose halves it. */
  lemma RunsWhatWasValidated(s: string)
    ensures Interpolate(Escape(s)) == Literal(s) <==> !HasDoubled(s)
  {
    RunLength(s);
  }
}
