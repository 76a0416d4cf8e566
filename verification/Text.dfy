/**
 The string operations of the Go standard library that the modelled code uses:
 strconv.Itoa/Atoi, strings.Split/Join/Cut/TrimSpace/ToLower and the suffix tests.
 */
module Text {

  datatype Option<+T> = None | Some(value: T)

  predicate IsDigit(c: char) {
    '0' <= c <= '9'
  }

  predicate AllDigits(s: string) {
    forall i :: 0 <= i < |s| ==> IsDigit(s[i])
  }

  function Digit(d: nat): (c: char)
    requires d < 10
    ensures IsDigit(c) && c as int - '0' as int == d
  {
    ('0' as int + d) as char
  }

  /** strconv.Itoa on a non-negative number. */
  function Itoa(n: nat): string {
    if n < 10 then [Digit(n)] else Itoa(n / 10) + [Digit(n % 10)]
  }

  /** strconv.Itoa on any number. */
  function Decimal(n: int): string {
    if n < 0 then "-" + Itoa(-n) else Itoa(n)
  }

  /** The number a string of decimal digits denotes. */
  function DigitsValue(s: string): nat
    requires AllDigits(s)
  {
    if s == "" then 0 else DigitsValue(s[..|s| - 1]) * 10 + (s[|s| - 1] as int - '0' as int)
  }

  /** strconv.Atoi in base 10: an optional sign, then at least one digit. The range
      error beyond 64 bits is left to the callers, which all bound the result. */
  function Atoi(s: string): Option<int> {
    var signed := s != "" && (s[0] == '-' || s[0] == '+');
    var digits := if signed then s[1..] else s;
    if digits == "" || !AllDigits(digits) then None
    else if signed && s[0] == '-' then Some(-(DigitsValue(digits) as int))
    else Some(DigitsValue(digits))
  }

  lemma {:induction false} ItoaDigits(n: nat)
    ensures Itoa(n) != "" && AllDigits(Itoa(n)) && DigitsValue(Itoa(n)) == n
  {
    if n >= 10 {
      ItoaDigits(n / 10);
      assert Itoa(n)[..|Itoa(n)| - 1] == Itoa(n / 10);
    } else {
      assert Itoa(n)[..0] == "";
    }
  }

  lemma AtoiItoa(n: nat)
    ensures Atoi(Itoa(n)) == Some(n)
  {
    ItoaDigits(n);
  }

  lemma {:induction false} DigitsSplit(a: string, b: string)
    requires AllDigits(a) && AllDigits(b)
    ensures AllDigits(a + b) && (DigitsValue(a) == 0 ==> DigitsValue(a + b) == DigitsValue(b))
  {
    if b == "" {
      assert a + b == a;
    } else {
      var c := b[..|b| - 1];
      assert (a + b)[..|a + b| - 1] == a + c && (a + b)[|a + b| - 1] == b[|b| - 1];
      DigitsSplit(a, c);
    }
  }

  function Zeros(k: nat): string {
    seq(k, _ => '0')
  }

  lemma {:induction false} ZerosValue(k: nat)
    ensures AllDigits(Zeros(k)) && DigitsValue(Zeros(k)) == 0
  {
    if k > 0 {
      assert Zeros(k)[..k - 1] == Zeros(k - 1);
      ZerosValue(k - 1);
    }
  }

  lemma {:induction false} AllZeros(s: string)
    requires AllDigits(s) && DigitsValue(s) == 0
    ensures s == Zeros(|s|)
  {
    if s != "" {
      AllZeros(s[..|s| - 1]);
      assert s == s[..|s| - 1] + [s[|s| - 1]];
    }
  }

  /** A string of digits is the number it denotes, with zeros in front. */
  lemma {:induction false} DigitsAre(s: string) returns (k: nat)
    requires AllDigits(s) && DigitsValue(s) > 0
    ensures s == Zeros(k) + Itoa(DigitsValue(s))
  {
    var n := |s| - 1;
    var front := s[..n];
    assert s == front + [s[n]];
    if DigitsValue(front) > 0 {
      k := DigitsAre(front);
      assert Itoa(DigitsValue(s)) == Itoa(DigitsValue(front)) + [s[n]];
    } else {
      AllZeros(front);
      k := n;
      assert Itoa(DigitsValue(s)) == [s[n]];
    }
  }

  function SpelledWith(plus: bool, k: nat, n: nat): string {
    (if plus then "+" else "") + (Zeros(k) + Itoa(n))
  }

  /** The number in decimal, perhaps with zeros or a plus in front. */
  ghost predicate Spelled(s: string, n: nat) {
    exists plus: bool, k: nat :: s == SpelledWith(plus, k, n)
  }

  lemma AtoiSpelled(plus: bool, k: nat, n: nat)
    ensures Atoi(SpelledWith(plus, k, n)) == Some(n)
  {
    hide DigitsValue, Itoa;
    ItoaDigits(n);
    ZerosValue(k);
    DigitsSplit(Zeros(k), Itoa(n));
    var digits := Zeros(k) + Itoa(n);
    var s := SpelledWith(plus, k, n);
    if plus {
      assert s[1..] == digits;
    } else {
      assert s == digits && IsDigit(s[0]);
    }
  }

  /** strconv.Atoi reads exactly the decimal spellings of a positive number. */
  lemma AtoiIff(s: string, n: nat)
    requires n > 0
    ensures Atoi(s) == Some(n) <==> Spelled(s, n)
  {
    hide Itoa, DigitsValue;
    if Spelled(s, n) {
      var plus: bool, k: nat :| s == SpelledWith(plus, k, n);
      AtoiSpelled(plus, k, n);
    }
    if Atoi(s) == Some(n) {
      var signed := s[0] == '-' || s[0] == '+';
      var digits := if signed then s[1..] else s;
      var k := DigitsAre(digits);
      assert s == SpelledWith(signed, k, n);
    }
  }

  lemma ItoaInjective(a: nat, b: nat)
    ensures Itoa(a) == Itoa(b) ==> a == b
  {
    ItoaDigits(a);
    ItoaDigits(b);
  }

  /** unicode.IsSpace. */
  predicate IsSpace(c: char) {
    var n := c as int;
    || 0x09 <= n <= 0x0D || n == 0x20 || n == 0x85 || n == 0xA0 || n == 0x1680
    || 0x2000 <= n <= 0x200A || n == 0x2028 || n == 0x2029 || n == 0x202F || n == 0x205F || n == 0x3000
  }

  function TrimLeft(s: string): (r: string) {
    if s != "" && IsSpace(s[0]) then TrimLeft(s[1..]) else s
  }

  function TrimRight(s: string): (r: string) {
    if s != "" && IsSpace(s[|s| - 1]) then TrimRight(s[..|s| - 1]) else s
  }

  function TrimSpace(s: string): string {
    TrimRight(TrimLeft(s))
  }

  /** Trimming leaves alone what starts and ends with an ASCII letter or digit. */
  predicate IsWordChar(c: char) {
    IsDigit(c) || 'a' <= c <= 'z'
  }

  lemma TrimSpaceIdle(s: string)
    requires s != "" ==> IsWordChar(s[0]) && IsWordChar(s[|s| - 1])
    ensures TrimSpace(s) == s
  {}

  predicate AllSpace(s: string) {
    forall i :: 0 <= i < |s| ==> IsSpace(s[i])
  }

  lemma {:induction false} TrimLeftBlank(s: string)
    ensures TrimLeft(s) == "" <==> AllSpace(s)
    ensures TrimLeft(s) != "" ==> !IsSpace(TrimLeft(s)[0])
  {
    hide IsSpace;
    if s != "" && IsSpace(s[0]) {
      TrimLeftBlank(s[1..]);
      assert forall i :: 0 < i < |s| ==> s[i] == s[1..][i - 1];
    }
  }

  lemma {:induction false} TrimRightStops(s: string)
    requires s != "" && !IsSpace(s[0])
    ensures TrimRight(s) != ""
  {
    hide IsSpace;
    if IsSpace(s[|s| - 1]) {
      TrimRightStops(s[..|s| - 1]);
    }
  }

  /** Nothing is left of a string exactly when it is all white space. */
  lemma BlankIff(s: string)
    ensures TrimSpace(s) == "" <==> AllSpace(s)
  {
    hide IsSpace;
    TrimLeftBlank(s);
    if TrimLeft(s) != "" {
      TrimRightStops(TrimLeft(s));
    }
  }

  /** No white space at either end. */
  predicate Tight(s: string) {
    s != "" ==> !IsSpace(s[0]) && !IsSpace(s[|s| - 1])
  }

  ghost predicate Padded(s: string, core: string) {
    exists l, r :: AllSpace(l) && AllSpace(r) && s == l + core + r
  }

  lemma {:induction false} TrimLeftOff(l: string, s: string)
    requires AllSpace(l)
    ensures TrimLeft(l + s) == TrimLeft(s)
  {
    if l == "" {
      assert l + s == s;
    } else {
      assert (l + s)[1..] == l[1..] + s && (l + s)[0] == l[0];
      TrimLeftOff(l[1..], s);
    }
  }

  lemma {:induction false} TrimRightOff(s: string, r: string)
    requires AllSpace(r)
    ensures TrimRight(s + r) == TrimRight(s)
  {
    if r == "" {
      assert s + r == s;
    } else {
      var n := |r| - 1;
      assert (s + r)[..|s + r| - 1] == s + r[..n] && (s + r)[|s + r| - 1] == r[n];
      TrimRightOff(s, r[..n]);
    }
  }

  lemma AllSpaceJoined(a: string, b: string)
    ensures AllSpace("")
    ensures |a| == 1 && IsSpace(a[0]) && AllSpace(b) ==> AllSpace(a + b)
    ensures AllSpace(a) && |b| == 1 && IsSpace(b[0]) ==> AllSpace(a + b)
  {
    hide IsSpace;
  }

  lemma {:induction false} TrimLeftParts(s: string) returns (l: string)
    ensures AllSpace(l) && s == l + TrimLeft(s)
  {
    hide IsSpace, AllSpace;
    if s != "" && IsSpace(s[0]) {
      var rest := TrimLeftParts(s[1..]);
      l := [s[0]] + rest;
      AllSpaceJoined([s[0]], rest);
      assert s == [s[0]] + (rest + TrimLeft(s[1..])) == l + TrimLeft(s[1..]);
    } else {
      l := "";
      AllSpaceJoined("", "");
    }
  }

  lemma {:induction false} TrimRightParts(s: string) returns (r: string)
    ensures AllSpace(r) && s == TrimRight(s) + r
    ensures TrimRight(s) != "" ==> !IsSpace(TrimRight(s)[|TrimRight(s)| - 1])
  {
    hide IsSpace, AllSpace;
    if s != "" && IsSpace(s[|s| - 1]) {
      var n := |s| - 1;
      var rest := TrimRightParts(s[..n]);
      r := rest + [s[n]];
      AllSpaceJoined(rest, [s[n]]);
      assert s == (TrimRight(s[..n]) + rest) + [s[n]] == TrimRight(s[..n]) + r;
    } else {
      r := "";
      AllSpaceJoined("", "");
    }
  }

  lemma TightTrimmed(core: string, r: string)
    requires Tight(core) && AllSpace(r)
    ensures TrimRight(TrimLeft(core + r)) == core
  {
    hide IsSpace;
    if core == "" {
      TrimLeftBlank(core + r);
      assert core + r == r;
    } else {
      assert (core + r)[0] == core[0];
      TrimRightOff(core, r);
    }
  }

  /** strings.TrimSpace takes off all the white space at the ends, and nothing else. */
  lemma TrimSpaceIff(s: string, core: string)
    ensures TrimSpace(s) == core <==> Tight(core) && Padded(s, core)
  {
    hide IsSpace, TrimLeft, TrimRight;
    if Tight(core) && Padded(s, core) {
      var l, r :| AllSpace(l) && AllSpace(r) && s == l + core + r;
      assert s == l + (core + r);
      TrimLeftOff(l, core + r);
      TightTrimmed(core, r);
    }
    if TrimSpace(s) == core {
      var l := TrimLeftParts(s);
      var r := TrimRightParts(TrimLeft(s));
      TrimLeftBlank(s);
      assert s == l + core + r;
      assert core != "" ==> core[0] == TrimLeft(s)[0];
    }
  }

  function LowerChar(c: char): char {
    if 'A' <= c <= 'Z' then (c as int + 32) as char else c
  }

  function ToLower(s: string): string {
    seq(|s|, i requires 0 <= i < |s| => LowerChar(s[i]))
  }

  lemma ToLowerIdle(s: string)
    requires forall i :: 0 <= i < |s| ==> 'a' <= s[i] <= 'z'
    ensures ToLower(s) == s
  {}

  /** What reads as a lower-case word in lower case: the word with any of its letters in
      upper case. */
  lemma ToLowerIff(s: string, word: string)
    requires forall i :: 0 <= i < |word| ==> 'a' <= word[i] <= 'z'
    ensures ToLower(s) == word <==>
            |s| == |word| && forall i :: 0 <= i < |s| ==> s[i] == word[i] || (s[i] < 'a' && s[i] as int + 32 == word[i] as int)
  {
    if ToLower(s) == word {
      assert forall i :: 0 <= i < |s| ==> LowerChar(s[i]) == word[i];
    }
  }

  predicate HasPrefix(s: string, p: string) {
    |p| <= |s| && s[..|p|] == p
  }

  predicate HasSuffix(s: string, p: string) {
    |p| <= |s| && s[|s| - |p|..] == p
  }

  /** The index of the first c in s, or |s|. */
  function IndexOf(s: string, c: char): (i: nat)
    ensures i <= |s|
    ensures i < |s| ==> s[i] == c
    ensures forall j :: 0 <= j < i ==> s[j] != c
  {
    if s == "" || s[0] == c then 0 else 1 + IndexOf(s[1..], c)
  }

  /** The index of the last c in s, or -1. */
  function LastIndexOf(s: string, c: char): (i: int)
    ensures -1 <= i < |s|
    ensures 0 <= i ==> s[i] == c
    ensures forall j :: i < j < |s| ==> s[j] != c
  {
    if s == "" || s[|s| - 1] == c then |s| - 1 else LastIndexOf(s[..|s| - 1], c)
  }

  lemma CutFirst(a: string, c: char, b: string)
    requires c !in a
    ensures var s := a + [c] + b; IndexOf(s, c) == |a| && s[..|a|] == a && s[|a| + 1..] == b
  {
    var s := a + [c] + b;
    assert forall j :: 0 <= j < |a| ==> s[j] == a[j] && s[j] in a;
    assert s[|a|] == c;
  }

  lemma CutLast(a: string, c: char, b: string)
    requires c !in b
    ensures var s := a + [c] + b; LastIndexOf(s, c) == |a| && s[..|a|] == a && s[|a| + 1..] == b
  {
    var s := a + [c] + b;
    assert forall j :: |a| < j < |s| ==> s[j] == b[j - |a| - 1] && s[j] in b;
    assert s[|a|] == c;
  }

  /** strings.Split on a one-character separator: always at least one piece. */
  function Split(s: string, sep: char): (r: seq<string>)
    ensures |r| >= 1
  {
    if s == "" then [""]
    else
      var rest := Split(s[1..], sep);
      if s[0] == sep then [""] + rest else [[s[0]] + rest[0]] + rest[1..]
  }

  /** strings.Join. */
  function Join(parts: seq<string>, sep: char): string {
    if parts == [] then ""
    else if |parts| == 1 then parts[0]
    else parts[0] + [sep] + Join(parts[1..], sep)
  }

  /** The results of parse that are not None, in order. */
  function FilterMap<T>(parse: string -> Option<T>, entries: seq<string>): seq<T> {
    if entries == [] then []
    else (match parse(entries[0]) case Some(v) => [v] case None => []) + FilterMap(parse, entries[1..])
  }

  lemma {:induction false} FilterMapConcat<T>(parse: string -> Option<T>, a: seq<string>, b: seq<string>)
    ensures FilterMap(parse, a + b) == FilterMap(parse, a) + FilterMap(parse, b)
  {
    if a == [] {
      assert a + b == b;
    } else {
      assert (a + b)[1..] == a[1..] + b;
      FilterMapConcat(parse, a[1..], b);
    }
  }

  lemma {:induction false} FilterMapAll<T>(parse: string -> Option<T>, entries: seq<string>, values: seq<T>)
    requires |entries| == |values|
    requires forall i :: 0 <= i < |entries| ==> parse(entries[i]) == Some(values[i])
    ensures FilterMap(parse, entries) == values
  {
    if entries != [] {
      FilterMapAll(parse, entries[1..], values[1..]);
    }
  }

  lemma {:induction false} FilterMapMember<T>(parse: string -> Option<T>, entries: seq<string>, v: T)
    requires v in FilterMap(parse, entries)
    ensures exists i :: 0 <= i < |entries| && parse(entries[i]) == Some(v)
  {
    if entries != [] && parse(entries[0]) != Some(v) {
      FilterMapMember(parse, entries[1..], v);
      var i :| 0 <= i < |entries| - 1 && parse(entries[1..][i]) == Some(v);
      assert parse(entries[i + 1]) == Some(v);
    }
  }

  lemma {:induction false} SplitConcat(a: string, b: string, sep: char)
    ensures Split(a + [sep] + b, sep) == Split(a, sep) + Split(b, sep)
  {
    var s := a + [sep] + b;
    if a == "" {
      assert s[1..] == b;
    } else {
      assert s[1..] == a[1..] + [sep] + b;
      SplitConcat(a[1..], b, sep);
    }
  }

  lemma {:induction false} SplitWhole(s: string, sep: char)
    requires sep !in s
    ensures Split(s, sep) == [s]
  {
    if s != "" {
      assert s[0] in s && s == [s[0]] + s[1..];
      SplitWhole(s[1..], sep);
    }
  }

  lemma {:induction false} SplitJoin(parts: seq<string>, sep: char)
    requires parts != []
    requires forall i :: 0 <= i < |parts| ==> sep !in parts[i]
    ensures Split(Join(parts, sep), sep) == parts
  {
    SplitWhole(parts[0], sep);
    if |parts| > 1 {
      SplitConcat(parts[0], Join(parts[1..], sep), sep);
      SplitJoin(parts[1..], sep);
    }
  }
}
