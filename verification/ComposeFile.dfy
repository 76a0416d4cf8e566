/**
 A compose file as its YAML is read: the text is cut into keys, string values and layout
 (indentation, punctuation, quotes, comments). Docker compose decodes the YAML first and
 interpolates string values only, never keys (Compose Specification, section Interpolation).
 internal/dockerx/compose.go escapes the text of the whole file before any of that.
 */
module ComposeFile {
  import opened ComposeEscape

  /** A stretch of a key or a value: a character that stands for itself, or an escape or fold
      of YAML, written raw and read as text. No escape is written with a dollar. */
  datatype Unit = Plain(c: char) | Coded(raw: string, text: string) {
    predicate Valid() {
      Coded? ==> raw != "" && DOLLAR !in raw
    }

    function Written(): string {
      if Plain? then [c] else raw
    }

    function Meant(): string {
      if Plain? then [c] else text
    }
  }

  type Scalar = us: seq<Unit> | forall i :: 0 <= i < |us| ==> us[i].Valid()
  const LONE := Plain(DOLLAR)

  /** The text of a scalar in the file. */
  function Written(us: Scalar): string {
    if us == [] then "" else us[0].Written() + Written(us[1..])
  }

  /** What YAML reads it as. */
  function Decoded(us: Scalar): string {
    if us == [] then "" else us[0].Meant() + Decoded(us[1..])
  }

  /** The number of characters that escaping a scalar takes off its front. */
  function Step(us: Scalar): (n: nat)
    requires us != []
    ensures 1 <= n <= |us|
  {
    if |us| > 1 && us[0] == LONE && us[1] == LONE then 2 else 1
  }

  /** What becomes of a scalar when the file around it is escaped. */
  function EscapeScalar(us: Scalar): Scalar {
    if us == [] then []
    else if us[0] != LONE then [us[0]] + EscapeScalar(us[1..])
    else [LONE, LONE] + EscapeScalar(us[Step(us)..])
  }

  // ----- escaping the text is escaping the scalars in it -----

  predicate EndsInDollar(s: string) {
    s != "" && s[|s| - 1] == DOLLAR
  }

  predicate StartsWithDollar(s: string) {
    s != "" && s[0] == DOLLAR
  }

  /** The number of characters that one step of the escaping takes. */
  function Width(s: string): (n: nat)
    requires s != ""
    ensures 1 <= n <= |s|
  {
    if |s| > 1 && s[0] == DOLLAR && s[1] == DOLLAR then 2 else 1
  }

  function Front(s: string): string
    requires s != ""
  {
    if s[0] == DOLLAR then [DOLLAR, DOLLAR] else [s[0]]
  }

  lemma EscapeFront(s: string)
    requires s != ""
    ensures Escape(s) == Front(s) + Escape(s[Width(s)..])
  {}

  lemma SameWidth(a: string, b: string)
    requires a != "" && !(EndsInDollar(a) && StartsWithDollar(b))
    ensures Width(a + b) == Width(a) && Front(a + b) == Front(a) && (a + b)[Width(a)..] == a[Width(a)..] + b
    ensures !(EndsInDollar(a[Width(a)..]) && StartsWithDollar(b))
  {}

  lemma {:induction false} EscapeJoined(a: string, b: string)
    requires !(EndsInDollar(a) && StartsWithDollar(b))
    ensures Escape(a + b) == Escape(a) + Escape(b)
  {
    hide Escape, EndsInDollar, StartsWithDollar, Front, Width;
    if a == "" {
      EscapeEmpty();
      assert a + b == b && Escape(a) == "";
    } else {
      var n := Width(a);
      SameWidth(a, b);
      EscapeJoined(a[n..], b);
      EscapeFront(a);
      EscapeFront(a + b);
      Regroup(Front(a), Escape(a[n..]), Escape(b));
    }
  }

  lemma {:induction false} NothingToEscape(s: string)
    requires DOLLAR !in s
    ensures Escape(s) == s
  {
    if s != "" {
      NothingToEscape(s[1..]);
    }
  }

  lemma {:induction false} WrittenPrefix(a: Scalar, us: Scalar)
    ensures Written(a + us) == Written(a) + Written(us)
  {
    if a == [] {
      assert a + us == us;
    } else {
      assert (a + us)[1..] == a[1..] + us;
      WrittenPrefix(a[1..], us);
    }
  }

  lemma {:induction false} DecodedPrefix(a: Scalar, us: Scalar)
    ensures Decoded(a + us) == Decoded(a) + Decoded(us)
  {
    if a == [] {
      assert a + us == us;
    } else {
      assert (a + us)[1..] == a[1..] + us;
      DecodedPrefix(a[1..], us);
    }
  }

  /** The escaped text of a scalar is the text of the escaped scalar. */
  lemma {:induction false} EscapeWritten(us: Scalar)
    ensures Escape(Written(us)) == Written(EscapeScalar(us))
  {
    if us != [] {
      var rest := us[Step(us)..];
      EscapeWritten(rest);
      if us[0] != LONE {
        NothingToEscape(us[0].Written());
        EscapeJoined(us[0].Written(), Written(rest));
      } else {
        WrittenPrefix([LONE, LONE], EscapeScalar(rest));
        if Step(us) == 2 {
          assert us == [LONE, LONE] + rest;
          WrittenPrefix([LONE, LONE], rest);
        } else {
          EscapeJoined("$", Written(rest));
        }
      }
    }
  }

  lemma EscapedFront(us: Scalar)
    requires us != []
    ensures us[0] == LONE ==> Decoded(EscapeScalar(us)) == "$$" + Decoded(EscapeScalar(us[Step(us)..]))
    ensures us[0] != LONE ==> Decoded(EscapeScalar(us)) == us[0].Meant() + Decoded(EscapeScalar(us[1..]))
  {
    if us[0] == LONE {
      DecodedPrefix([LONE, LONE], EscapeScalar(us[Step(us)..]));
      assert Decoded([LONE, LONE]) == "$$";
    } else {
      assert EscapeScalar(us)[1..] == EscapeScalar(us[1..]);
    }
  }

  // ----- keys -----

  /** Plain dollars without a partner: each is doubled. */
  function Lone(us: Scalar): nat {
    if us == [] then 0 else (if us[0] == LONE && Step(us) == 1 then 1 else 0) + Lone(us[Step(us)..])
  }

  lemma {:induction false} Grows(us: Scalar)
    ensures |Written(EscapeScalar(us))| == |Written(us)| + Lone(us)
    ensures |Decoded(EscapeScalar(us))| == |Decoded(us)| + Lone(us)
    ensures Lone(us) == 0 ==> EscapeScalar(us) == us
  {
    if us != [] {
      var rest := us[Step(us)..];
      Grows(rest);
      if us[0] == LONE {
        WrittenPrefix([LONE, LONE], EscapeScalar(rest));
        DecodedPrefix([LONE, LONE], EscapeScalar(rest));
        if Step(us) == 2 {
          assert us == [LONE, LONE] + rest;
          WrittenPrefix([LONE, LONE], rest);
          DecodedPrefix([LONE, LONE], rest);
        }
      }
    }
  }

  /** Compose keeps a key as it was validated exactly when its dollars stand in even runs in
      the file: it never halves what the escaping has doubled there. */
  lemma {:induction false} KeyKeptIff(us: Scalar)
    ensures Decoded(EscapeScalar(us)) == Decoded(us) <==> EvenRuns(Written(us))
  {
    Grows(us);
    EscapeWritten(us);
    FixedIff(Written(us));
  }

  // ----- values -----

  function Dollars(s: string): nat {
    if s == "" then 0 else (if s[0] == DOLLAR then 1 else 0) + Dollars(s[1..])
  }

  lemma {:induction false} DollarsJoined(a: string, b: string)
    ensures Dollars(a + b) == Dollars(a) + Dollars(b)
  {
    if a == "" {
      assert a + b == b;
    } else {
      assert (a + b)[1..] == a[1..] + b;
      DollarsJoined(a[1..], b);
    }
  }

  lemma {:induction false} NoDollars(s: string)
    ensures Dollars(s) == 0 <==> DOLLAR !in s
  {
    if s != "" {
      NoDollars(s[1..]);
    }
  }

  /** Dollars that only an escape sequence spells. */
  function Hidden(us: Scalar): nat {
    if us == [] then 0 else (if us[0].Coded? then Dollars(us[0].text) else 0) + Hidden(us[1..])
  }

  function Pairs(us: Scalar): nat {
    if us == [] then 0 else Step(us) - 1 + Pairs(us[Step(us)..])
  }

  lemma {:induction false} DollarsEscaped(us: Scalar)
    ensures Dollars(Decoded(EscapeScalar(us))) == 2 * Lone(us) + 2 * Pairs(us) + Hidden(us)
  {
    if us != [] {
      var rest := us[Step(us)..];
      DollarsEscaped(rest);
      EscapedFront(us);
      if us[0] == LONE {
        DollarsJoined("$$", Decoded(EscapeScalar(rest)));
        assert Step(us) == 2 ==> us[1..][1..] == rest;
      } else {
        DollarsJoined(us[0].Meant(), Decoded(EscapeScalar(rest)));
      }
    }
  }

  /** Compose halves the dollars of what it reads as a literal. */
  lemma {:induction false} Halved(s: string)
    requires Interpolate(s).Literal?
    ensures 2 * |Interpolate(s).text| == 2 * |s| - Dollars(s)
  {
    if s != "" {
      if s[0] != DOLLAR {
        Halved(s[1..]);
      } else {
        assert s[1..][1..] == s[2..];
        Halved(s[2..]);
      }
    }
  }

  lemma {:induction false} HiddenIff(us: Scalar)
    ensures Hidden(us) == 0 <==> forall i :: 0 <= i < |us| && us[i].Coded? ==> DOLLAR !in us[i].text
  {
    if us != [] {
      HiddenIff(us[1..]);
      assert forall i :: 0 < i < |us| ==> us[i] == us[1..][i - 1];
      assert forall i :: 0 <= i < |us[1..]| ==> us[1..][i] == us[i + 1];
      if us[0].Coded? {
        NoDollars(us[0].text);
      }
    }
  }

  lemma {:induction false} DoubledAfter(a: string, b: string)
    requires DOLLAR !in a
    ensures HasDoubled(a + b) <==> HasDoubled(b)
  {
    if a == "" {
      assert a + b == b;
    } else {
      assert (a + b)[1..] == a[1..] + b;
      DoubledTail(a + b);
      DoubledAfter(a[1..], b);
    }
  }

  lemma {:induction false} PairsIff(us: Scalar)
    ensures Pairs(us) == 0 <==> !HasDoubled(Written(us))
  {
    if us != [] {
      var rest := us[Step(us)..];
      PairsIff(rest);
      if us[0] != LONE {
        DoubledAfter(us[0].Written(), Written(rest));
      } else {
        DoubledTail(Written(us));
        assert Written(us)[1..] == Written(us[1..]);
      }
    }
  }

  lemma {:induction false} LiteralAfter(a: string, b: string)
    requires DOLLAR !in a && Interpolate(b).Literal?
    ensures Interpolate(a + b) == Literal(a + Interpolate(b).text)
  {
    if a == "" {
      assert a + b == b;
    } else {
      assert (a + b)[1..] == a[1..] + b;
      LiteralAfter(a[1..], b);
    }
  }

  lemma PairAfter(s: string)
    requires Interpolate(s).Literal?
    ensures Interpolate("$$" + s) == Literal("$" + Interpolate(s).text)
  {
    assert ("$$" + s)[2..] == s;
  }

  lemma DecodedFront(us: Scalar)
    requires us != []
    ensures Decoded(us) == us[0].Meant() + Decoded(us[1..])
  {}

  lemma NothingRead()
    ensures EscapeScalar([]) == [] && Decoded([]) == "" && Interpolate("") == Literal("")
  {}

  lemma {:induction false} ValueKept(us: Scalar)
    requires Pairs(us) == 0 && Hidden(us) == 0
    ensures Interpolate(Decoded(EscapeScalar(us))) == Literal(Decoded(us))
  {
    hide Decoded, EscapeScalar, Interpolate;
    if us == [] {
      NothingRead();
    } else {
      assert Step(us) == 1;
      var rest := us[1..];
      ValueKept(rest);
      EscapedFront(us);
      DecodedFront(us);
      if us[0] == LONE {
        PairAfter(Decoded(EscapeScalar(rest)));
      } else {
        NoDollars(us[0].Meant());
        LiteralAfter(us[0].Meant(), Decoded(EscapeScalar(rest)));
      }
    }
  }

  predicate NoCodedDollar(us: Scalar) {
    forall i :: 0 <= i < |us| && us[i].Coded? ==> DOLLAR !in us[i].text
  }

  /** A value runs as it was validated exactly when it holds no "$$" and no escape of YAML
      that spells a dollar. */
  lemma {:induction false} ValueKeptIff(us: Scalar)
    ensures Interpolate(Decoded(EscapeScalar(us))) == Literal(Decoded(us)) <==>
            NoCodedDollar(us) && !HasDoubled(Written(us))
  {
    HiddenIff(us);
    PairsIff(us);
    if Pairs(us) == 0 && Hidden(us) == 0 {
      ValueKept(us);
    } else if Interpolate(Decoded(EscapeScalar(us))).Literal? {
      Grows(us);
      DollarsEscaped(us);
      Halved(Decoded(EscapeScalar(us)));
    }
  }

  // ----- references -----

  /** The scalar without its plain dollars. */
  function Stripped(us: Scalar): Scalar {
    if us == [] then [] else (if us[0] == LONE then [] else [us[0]]) + Stripped(us[1..])
  }

  /** Whether the dollars of s come in even runs when an odd number of them may stand in front. */
  predicate Even(s: string, odd: bool) {
    if s == "" then !odd
    else if s[0] == DOLLAR then Even(s[1..], !odd)
    else !odd && Even(s[1..], false)
  }

  lemma {:induction false} LiteralIffEven(s: string)
    ensures Interpolate(s).Literal? <==> Even(s, false)
  {
    if s != "" {
      if s[0] != DOLLAR {
        LiteralIffEven(s[1..]);
      } else if |s| > 1 && s[1] == DOLLAR {
        LiteralIffEven(s[2..]);
        assert s[1..][1..] == s[2..];
      }
    }
  }

  lemma {:induction false} EvenAfter(a: string, b: string, b': string, odd: bool)
    requires Even(b, false) == Even(b', false) && Even(b, true) == Even(b', true)
    ensures Even(a + b, odd) == Even(a + b', odd)
  {
    if a == "" {
      assert a + b == b && a + b' == b';
    } else {
      assert (a + b)[1..] == a[1..] + b && (a + b')[1..] == a[1..] + b';
      EvenAfter(a[1..], b, b', if a[0] == DOLLAR then !odd else false);
    }
  }

  lemma EvenAfterTwo(s: string, odd: bool)
    ensures Even("$$" + s, odd) == Even(s, odd)
  {
    assert ("$$" + s)[1..] == "$" + s && ("$" + s)[1..] == s;
    assert Even("$" + s, !odd) == Even(s, odd);
  }

  lemma StrippedFront(us: Scalar)
    requires us != []
    ensures us[0] == LONE ==> Stripped(us) == Stripped(us[Step(us)..])
    ensures us[0] != LONE ==> Decoded(Stripped(us)) == us[0].Meant() + Decoded(Stripped(us[1..]))
  {
    if us[0] == LONE {
      assert Step(us) == 2 ==> us[1..][1..] == us[2..];
    } else {
      assert Stripped(us)[1..] == Stripped(us[1..]);
    }
  }

  lemma NothingStripped()
    ensures EscapeScalar([]) == [] == Stripped([])
  {}

  lemma {:induction false} EscapedAsStripped(us: Scalar, odd: bool)
    ensures Even(Decoded(EscapeScalar(us)), odd) == Even(Decoded(Stripped(us)), odd)
  {
    hide Even, Decoded, EscapeScalar, Stripped;
    if us == [] {
      NothingStripped();
    } else {
      var rest := us[Step(us)..];
      EscapedAsStripped(rest, false);
      EscapedAsStripped(rest, true);
      EscapedFront(us);
      StrippedFront(us);
      if us[0] == LONE {
        EvenAfterTwo(Decoded(EscapeScalar(rest)), odd);
      } else {
        EvenAfter(us[0].Meant(), Decoded(EscapeScalar(rest)), Decoded(Stripped(rest)), odd);
      }
    }
  }

  /** Compose looks nothing up in an escaped value exactly when the dollars that escapes of
      YAML spell come in even runs, plain dollars left out. */
  lemma {:induction false} NoReferenceIff(us: Scalar)
    ensures Interpolate(Decoded(EscapeScalar(us))).Literal? <==> EvenRuns(Decoded(Stripped(us)))
  {
    LiteralIffEven(Decoded(EscapeScalar(us)));
    EscapedAsStripped(us, false);
    LiteralIffEven(Decoded(Stripped(us)));
    LiteralIffEvenRuns(Decoded(Stripped(us)));
  }

  // ----- the file -----

  datatype Piece = Layout(raw: string) | Key(units: Scalar) | Value(units: Scalar) {
    function Text(): string {
      if Layout? then raw else Written(units)
    }

    function Escaped(): Piece {
      match this
      case Layout(raw) => Layout(Escape(raw))
      case Key(us) => Key(EscapeScalar(us))
      case Value(us) => Value(EscapeScalar(us))
    }

    /** What YAML makes of it: validation looks at this. */
    function Read(): Outcome {
      if Layout? then Literal("") else Literal(Decoded(units))
    }

    /** What compose runs. */
    function Run(): Outcome {
      if Value? then Interpolate(Decoded(units)) else Read()
    }
  }

  function Text(ps: seq<Piece>): string {
    if ps == [] then "" else ps[0].Text() + Text(ps[1..])
  }

  function Escaped(ps: seq<Piece>): seq<Piece> {
    seq(|ps|, i requires 0 <= i < |ps| => ps[i].Escaped())
  }

  /** No dollars meet where two pieces meet. */
  predicate Separated(ps: seq<Piece>) {
    forall i :: 0 <= i < |ps| ==> !(EndsInDollar(ps[i].Text()) && StartsWithDollar(Text(ps[i + 1..])))
  }

  lemma EscapePiece(p: Piece)
    ensures Escape(p.Text()) == p.Escaped().Text()
  {
    if !p.Layout? {
      EscapeWritten(p.units);
    }
  }

  lemma SeparatedRest(ps: seq<Piece>)
    requires Separated(ps) && ps != []
    ensures Separated(ps[1..]) && !(EndsInDollar(ps[0].Text()) && StartsWithDollar(Text(ps[1..])))
  {
    hide EndsInDollar, StartsWithDollar, Text;
    var rest := ps[1..];
    assert forall i :: 0 <= i < |rest| ==> rest[i] == ps[i + 1] && rest[i + 1..] == ps[i + 1 + 1..];
  }

  /** The code escapes the text of the file; that is to escape each piece of it. */
  lemma {:induction false} EscapeText(ps: seq<Piece>)
    requires Separated(ps)
    ensures Escape(Text(ps)) == Text(Escaped(ps))
  {
    hide Escape, EndsInDollar, StartsWithDollar, Separated, Written, EscapeScalar;
    if ps == [] {
      EscapeEmpty();
    } else {
      var rest := ps[1..];
      SeparatedRest(ps);
      EscapeText(rest);
      assert Escaped(ps)[1..] == Escaped(rest);
      EscapeJoined(ps[0].Text(), Text(rest));
      EscapePiece(ps[0]);
    }
  }

  predicate KeptAsRead(p: Piece) {
    match p
    case Layout(_) => true
    case Key(us) => EvenRuns(Written(us))
    case Value(us) => NoCodedDollar(us) && !HasDoubled(Written(us))
  }

  /** The escaped file runs as it was validated exactly when the dollars of its keys come in
      even runs, and its values hold neither "$$" nor an escape that spells a dollar. */
  lemma RunsAsValidatedIff(ps: seq<Piece>)
    requires Separated(ps)
    ensures Escape(Text(ps)) == Text(Escaped(ps))
    ensures (forall i :: 0 <= i < |ps| ==> Escaped(ps)[i].Run() == ps[i].Read()) <==>
            (forall i :: 0 <= i < |ps| ==> KeptAsRead(ps[i]))
  {
    hide Escape, EvenRuns, EscapeScalar, HasDoubled, Interpolate;
    EscapeText(ps);
    forall i | 0 <= i < |ps| ensures Escaped(ps)[i].Run() == ps[i].Read() <==> KeptAsRead(ps[i]) {
      match ps[i]
      case Layout(_) =>
      case Key(us) => KeyKeptIff(us);
      case Value(us) => ValueKeptIff(us);
    }
  }

  /** Compose looks up no variable in the escaped file exactly when in no value the dollars
      spelled by escapes form an odd run, plain dollars left out. */
  lemma ExpandsNothingIff(ps: seq<Piece>)
    requires Separated(ps)
    ensures Escape(Text(ps)) == Text(Escaped(ps))
    ensures (forall i :: 0 <= i < |ps| ==> Escaped(ps)[i].Run().Literal?) <==>
            (forall i :: 0 <= i < |ps| && ps[i].Value? ==> EvenRuns(Decoded(Stripped(ps[i].units))))
  {
    hide Escape, EvenRuns, EscapeScalar, HasDoubled, Interpolate;
    EscapeText(ps);
    forall i | 0 <= i < |ps|
      ensures Escaped(ps)[i].Run().Literal? <==> (ps[i].Value? ==> EvenRuns(Decoded(Stripped(ps[i].units))))
    {
      if ps[i].Value? {
        NoReferenceIff(ps[i].units);
      }
    }
  }

  lemma {:induction false} StrippedIsClear(us: Scalar)
    requires NoCodedDollar(us)
    ensures DOLLAR !in Decoded(Stripped(us))
  {
    if us != [] {
      assert forall i :: 0 <= i < |us[1..]| ==> us[1..][i] == us[i + 1];
      StrippedIsClear(us[1..]);
      if us[0] == LONE {
        assert Stripped(us) == Stripped(us[1..]);
      } else {
        assert Stripped(us)[1..] == Stripped(us[1..]) && DOLLAR !in us[0].Meant();
      }
    }
  }

  /** In particular when no escape spells a dollar: the code doubles every dollar it sees. */
  lemma PlainDollarsNeverExpand(us: Scalar)
    requires NoCodedDollar(us)
    ensures Interpolate(Decoded(EscapeScalar(us))).Literal?
  {
    StrippedIsClear(us);
    NothingToEscape(Decoded(Stripped(us)));
    FixedIff(Decoded(Stripped(us)));
    NoReferenceIff(us);
  }

  // ----- the two ways it fails without a "$$" -----

  /** The key a$b runs as a$$b. */
  lemma KeyChanged() returns (k: Scalar)
    ensures Written(k) == Decoded(k) == "a$b" && !HasDoubled(Written(k))
    ensures Decoded(EscapeScalar(k)) == "a$$b"
  {
    var b: Scalar := [Plain('b')];
    var db: Scalar := [LONE] + b;
    k := [Plain('a')] + db;
    assert k[1..] == db && db[1..] == b;
    assert Written(b) == Decoded(b) == "b" && EscapeScalar(b) == b;
    assert Written(db) == Decoded(db) == "$b";
    DecodedPrefix([LONE, LONE], b);
    assert Decoded([LONE, LONE]) == "$$" && EscapeScalar(db) == [LONE, LONE] + b;
    assert EscapeScalar(k) == [Plain('a')] + EscapeScalar(db) && EscapeScalar(k)[1..] == EscapeScalar(db);
  }

  lemma InBraces() returns (us: Scalar)
    ensures Written(us) == Decoded(us) == "{P}"
  {
    var c: Scalar := [Plain('}')];
    var pc: Scalar := [Plain('P')] + c;
    us := [Plain('{')] + pc;
    assert us[1..] == pc && pc[1..] == c;
    assert Written(c) == Decoded(c) == "}" && Written(pc) == Decoded(pc) == "P}";
  }

  /** "\x24{P}" holds no dollar in the file, is left alone by the escaping, and read as a
      reference. */
  lemma EscapedDollarExpanded() returns (v: Scalar)
    ensures Written(v) == "\\x24{P}" && Escape(Written(v)) == Written(v)
    ensures Decoded(v) == "${P}" && Interpolate(Decoded(EscapeScalar(v))) == Reference
  {
    var rest := InBraces();
    v := [Coded("\\x24", "$")] + rest;
    assert v[1..] == rest;
    NothingToEscape(Written(v));
    EscapeWritten(v);
    Grows(v);
  }
}
