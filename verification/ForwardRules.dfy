/**
 Forwarding rules (internal/portfwd/portfwd.go): their keys, their validation, and the
 desired state that a list of rules stands for.
 */
module ForwardRules {
  import opened Text

  datatype Rule = Rule(
    hostIP: string, hostPort: int, proto: string, targetIP: string, targetPort: int,
    container: string, owner: string, name: string, source: string, manualId: int, note: string,
    requireLogin: bool, tls: bool)

  datatype RuleError = UnsupportedProto | BadHostPort | BadContainerPort | NoAddress | LoginNeedsTcp | TlsNeedsTcp

  /** Rule.Validate. */
  function Validate(r: Rule): Option<RuleError> {
    if r.proto != "tcp" && r.proto != "udp" then Some(UnsupportedProto)
    else if r.hostPort < 1 || r.hostPort > 65535 then Some(BadHostPort)
    else if r.targetPort < 1 || r.targetPort > 65535 then Some(BadContainerPort)
    else if TrimSpace(r.targetIP) == "" then Some(NoAddress)
    else if r.requireLogin && r.proto == "udp" then Some(LoginNeedsTcp)
    else if r.tls && r.proto == "udp" then Some(TlsNeedsTcp)
    else None
  }

  predicate Servable(r: Rule) {
    Validate(r) == None
  }

  /** A rule is accepted exactly when it names tcp or udp, both ports are real ones, its
      address is not blank, and login and TLS are asked of tcp only. */
  lemma ServableIff(r: Rule)
    ensures Servable(r) <==>
              && (r.proto == "tcp" || (r.proto == "udp" && !r.requireLogin && !r.tls))
              && 1 <= r.hostPort <= 65535 && 1 <= r.targetPort <= 65535
              && exists i :: 0 <= i < |r.targetIP| && !IsSpace(r.targetIP[i])
  {
    BlankIff(r.targetIP);
  }

  /** What is wrong with a rule when it is reported so, and the order in which it is looked for. */
  predicate Fault(e: RuleError, r: Rule) {
    match e
    case UnsupportedProto => !(r.proto == "tcp" || r.proto == "udp")
    case BadHostPort => !(1 <= r.hostPort <= 65535)
    case BadContainerPort => !(1 <= r.targetPort <= 65535)
    case NoAddress => AllSpace(r.targetIP)
    case LoginNeedsTcp => r.requireLogin && r.proto != "tcp"
    case TlsNeedsTcp => r.tls && r.proto != "tcp"
  }

  function Rank(e: RuleError): nat {
    match e
    case UnsupportedProto => 0
    case BadHostPort => 1
    case BadContainerPort => 2
    case NoAddress => 3
    case LoginNeedsTcp => 4
    case TlsNeedsTcp => 5
  }

  /** The error names the first of the rule's faults. */
  lemma FirstFault(r: Rule, e: RuleError)
    ensures Validate(r) == Some(e) <==> Fault(e, r) && forall d :: Rank(d) < Rank(e) ==> !Fault(d, r)
  {
    hide TrimSpace, AllSpace;
    BlankIff(r.targetIP);
    assert Validate(r).Some? ==> Fault(Validate(r).value, r);
    if Fault(e, r) && (forall d :: Rank(d) < Rank(e) ==> !Fault(d, r)) {
      assert forall d :: Fault(d, r) ==> Rank(d) >= Rank(e);
    }
  }

  /** The address a rule binds: an empty one means every interface. */
  function Host(r: Rule): string {
    if r.hostIP == "" then "0.0.0.0" else r.hostIP
  }

  /** net.JoinHostPort. */
  function JoinHostPort(host: string, port: string): string {
    if ':' in host then "[" + host + "]" + ":" + port else host + ":" + port
  }

  /** Rule.Key. */
  function Key(r: Rule): string {
    r.proto + "/" + JoinHostPort(Host(r), Decimal(r.hostPort))
  }

  lemma Bracketed(h: string)
    ensures var b := "[" + h + "]"; b[1..|b| - 1] == h && (':' in h ==> ':' in b)
  {
    var b := "[" + h + "]";
    if ':' in h {
      var i :| 0 <= i < |h| && h[i] == ':';
      assert b[i + 1] == ':';
    }
  }

  lemma JoinHostPortInjective(h: string, p: nat, g: string, q: nat)
    requires JoinHostPort(h, Itoa(p)) == JoinHostPort(g, Itoa(q))
    ensures h == g && p == q
  {
    hide Itoa;
    ItoaDigits(p);
    ItoaDigits(q);
    var hh := if ':' in h then "[" + h + "]" else h;
    var gg := if ':' in g then "[" + g + "]" else g;
    CutLast(hh, ':', Itoa(p));
    CutLast(gg, ':', Itoa(q));
    assert JoinHostPort(h, Itoa(p)) == hh + ":" + Itoa(p) && JoinHostPort(g, Itoa(q)) == gg + ":" + Itoa(q);
    ItoaInjective(p, q);
    assert hh == gg;
    Bracketed(h);
    Bracketed(g);
  }

  lemma ServableProto(r: Rule)
    requires Servable(r)
    ensures '/' !in r.proto && r.hostPort >= 0
  {
    hide TrimSpace;
  }

  predicate EveryInterface(address: string) {
    address == "" || address == "0.0.0.0"
  }

  predicate SameAddress(a: string, b: string) {
    a == b || (EveryInterface(a) && EveryInterface(b))
  }

  /** Two servable rules have one key exactly when they bind the same protocol, address
      and port - IPv6 literals included, and with "" the same as 0.0.0.0. */
  lemma KeyIsSocket(r: Rule, s: Rule)
    requires Servable(r) && Servable(s)
    ensures Key(r) == Key(s) <==> r.proto == s.proto && SameAddress(r.hostIP, s.hostIP) && r.hostPort == s.hostPort
  {
    hide TrimSpace, Itoa, JoinHostPort, Validate;
    ServableProto(r);
    ServableProto(s);
    CutFirst(r.proto, '/', JoinHostPort(Host(r), Decimal(r.hostPort)));
    CutFirst(s.proto, '/', JoinHostPort(Host(s), Decimal(s.hostPort)));
    if Key(r) == Key(s) {
      JoinHostPortInjective(Host(r), r.hostPort, Host(s), s.hostPort);
    }
  }

  predicate SameTarget(r: Rule, s: Rule) {
    r.targetIP == s.targetIP && r.targetPort == s.targetPort
  }

  /** Apply reads each rule with its protocol trimmed and lowered. */
  function Normal(r: Rule): Rule {
    r.(proto := ToLower(TrimSpace(r.proto)))
  }

  /** Apart from the protocol a rule is read as it is; the protocol in any letter case and with
      any white space around it. */
  lemma NormalIff(r: Rule, word: string)
    requires word == "tcp" || word == "udp"
    ensures Normal(r) == r.(proto := Normal(r).proto)
    ensures Normal(r).proto == word <==> exists core :: Tight(core) && Padded(r.proto, core) && ToLower(core) == word
  {
    hide TrimSpace, ToLower, Tight, Padded;
    TrimSpaceIff(r.proto, TrimSpace(r.proto));
    forall core | Tight(core) && Padded(r.proto, core) ensures core == TrimSpace(r.proto) {
      TrimSpaceIff(r.proto, core);
    }
  }

  datatype Problem = Invalid(rule: Rule, error: RuleError) | Clash(first: Rule, second: Rule) | StartFailed(rule: Rule)

  predicate AllServable(want: map<string, Rule>) {
    forall key :: key in want ==> Servable(want[key]) && Key(want[key]) == key
  }

  /** The desired state: for each key, the first servable rule that has it. */
  function Wanted(rules: seq<Rule>): (want: map<string, Rule>)
    ensures AllServable(want)
  {
    if rules == [] then map[]
    else
      var n := |rules| - 1;
      var before := Wanted(rules[..n]);
      var r := Normal(rules[n]);
      if !Servable(r) || Key(r) in before then before else before[Key(r) := r]
  }

  /** What Apply reports about the rules themselves. */
  function RuleProblems(rules: seq<Rule>): seq<Problem> {
    if rules == [] then []
    else
      var n := |rules| - 1;
      var r := Normal(rules[n]);
      RuleProblems(rules[..n]) +
      if !Servable(r) then [Invalid(r, Validate(r).value)]
      else if Key(r) in Wanted(rules[..n]) && !SameTarget(Wanted(rules[..n])[Key(r)], r)
      then [Clash(Wanted(rules[..n])[Key(r)], r)]
      else []
  }

  /** Rule i is the first servable one with this key. */
  predicate IsFirst(rules: seq<Rule>, i: int, key: string) {
    && 0 <= i < |rules| && Servable(Normal(rules[i])) && Key(Normal(rules[i])) == key
    && forall j :: 0 <= j < i && Servable(Normal(rules[j])) ==> Key(Normal(rules[j])) != key
  }

  predicate Absent(rules: seq<Rule>, key: string) {
    forall i :: 0 <= i < |rules| && Servable(Normal(rules[i])) ==> Key(Normal(rules[i])) != key
  }

  lemma FirstPrefix(rules: seq<Rule>, n: nat, key: string)
    requires n < |rules|
    ensures forall i :: IsFirst(rules[..n], i, key) ==> IsFirst(rules, i, key)
    ensures Absent(rules[..n], key) && Servable(Normal(rules[n])) && Key(Normal(rules[n])) == key ==> IsFirst(rules, n, key)
    ensures Absent(rules[..n], key) && !(Servable(Normal(rules[n])) && Key(Normal(rules[n])) == key) ==> Absent(rules[..n + 1], key)
  {
    hide Servable, Key, Normal;
    assert forall j :: 0 <= j < n ==> rules[..n][j] == rules[j];
  }

  lemma NothingAbsent(key: string)
    ensures Absent([], key)
  {}

  /** The desired state maps a key to the first servable rule that has it, and has no
      entry for a key that no servable rule has. */
  lemma {:induction false} WantedIsFirst(rules: seq<Rule>, key: string)
    ensures key in Wanted(rules) ==> exists i :: 0 <= i < |rules| && IsFirst(rules, i, key) && Wanted(rules)[key] == Normal(rules[i])
    ensures key !in Wanted(rules) ==> Absent(rules, key)
  {
    hide Servable, Key, Normal, Absent, IsFirst;
    if rules == [] {
      NothingAbsent(key);
    } else {
      var n := |rules| - 1;
      WantedIsFirst(rules[..n], key);
      FirstPrefix(rules, n, key);
      assert rules[..n + 1] == rules;
      if key in Wanted(rules[..n]) {
        var i :| 0 <= i < n && IsFirst(rules[..n], i, key) && Wanted(rules[..n])[key] == Normal(rules[..n][i]);
        assert IsFirst(rules, i, key) && rules[..n][i] == rules[i];
      }
    }
  }

  /** Rule j is servable and asks for the key of an earlier one, the first with that key, with
      another target. */
  predicate Clashes(rules: seq<Rule>, i: int, j: int) {
    && 0 <= i < j < |rules| && Servable(Normal(rules[j]))
    && IsFirst(rules, i, Key(Normal(rules[j]))) && !SameTarget(Normal(rules[i]), Normal(rules[j]))
  }

  /** What is worth reporting about the rules. */
  ghost predicate Reportable(rules: seq<Rule>, p: Problem) {
    match p
    case Invalid(r, e) => exists i :: 0 <= i < |rules| && Normal(rules[i]) == r && Validate(r) == Some(e)
    case Clash(f, r) => exists i, j :: Clashes(rules, i, j) && Normal(rules[i]) == f && Normal(rules[j]) == r
    case StartFailed(_) => false
  }

  lemma OnlyFirst(rules: seq<Rule>, i: int, j: int, key: string)
    requires IsFirst(rules, i, key) && IsFirst(rules, j, key)
    ensures i == j
  {
    hide Servable, Key, Normal;
  }

  lemma PrefixFirst(rules: seq<Rule>, n: nat, i: int, key: string)
    requires n <= |rules| && i < n
    ensures IsFirst(rules[..n], i, key) <==> IsFirst(rules, i, key)
  {
    hide Servable, Key, Normal;
    assert forall j :: 0 <= j < n ==> rules[..n][j] == rules[j];
  }

  lemma NeverStarts(rules: seq<Rule>, q: Rule)
    ensures !Reportable(rules, StartFailed(q)) && forall n :: 0 <= n <= |rules| ==> !Reportable(rules[..n], StartFailed(q))
  {}

  lemma LastInvalid(rules: seq<Rule>, q: Rule, e: RuleError)
    requires rules != []
    ensures var n := |rules| - 1; var r := Normal(rules[n]);
            Reportable(rules, Invalid(q, e)) <==>
              Reportable(rules[..n], Invalid(q, e)) || (!Servable(r) && q == r && Some(e) == Validate(r))
  {
    hide Validate, Key, Normal;
    var n := |rules| - 1;
    assert forall i :: 0 <= i < n ==> rules[..n][i] == rules[i];
    if Reportable(rules, Invalid(q, e)) {
      var i :| 0 <= i < |rules| && Normal(rules[i]) == q && Validate(q) == Some(e);
      assert i == n || rules[..n][i] == rules[i];
    }
    if Reportable(rules[..n], Invalid(q, e)) {
      var i :| 0 <= i < n && Normal(rules[..n][i]) == q && Validate(q) == Some(e);
      assert Normal(rules[i]) == q;
    }
  }

  lemma FirstIsWanted(rules: seq<Rule>, i: int, key: string)
    requires IsFirst(rules, i, key)
    ensures key in Wanted(rules) && Wanted(rules)[key] == Normal(rules[i])
  {
    hide Servable, Key, Normal, Wanted;
    WantedIsFirst(rules, key);
    if key in Wanted(rules) {
      var j :| 0 <= j < |rules| && IsFirst(rules, j, key) && Wanted(rules)[key] == Normal(rules[j]);
      OnlyFirst(rules, i, j, key);
    }
  }

  lemma LastClash(rules: seq<Rule>, f: Rule, q: Rule)
    requires rules != []
    ensures var n := |rules| - 1; var r, want := Normal(rules[n]), Wanted(rules[..n]);
            Reportable(rules, Clash(f, q)) <==>
              (|| Reportable(rules[..n], Clash(f, q))
               || (Servable(r) && Key(r) in want && !SameTarget(want[Key(r)], r) && f == want[Key(r)] && q == r))
  {
    hide Servable, Key, Normal, Wanted, SameTarget, IsFirst, Absent;
    var n := |rules| - 1;
    var before, r, want := rules[..n], Normal(rules[n]), Wanted(rules[..n]);
    WantedIsFirst(before, Key(r));
    if i, j :| Clashes(rules, i, j) && Normal(rules[i]) == f && Normal(rules[j]) == q {
      PrefixFirst(rules, n, i, Key(q));
      if j < n {
        assert Clashes(before, i, j);
      } else {
        FirstIsWanted(before, i, Key(q));
      }
    }
    if i, j :| Clashes(before, i, j) && Normal(before[i]) == f && Normal(before[j]) == q {
      PrefixFirst(rules, n, i, Key(q));
      assert Clashes(rules, i, j);
    }
    if Servable(r) && Key(r) in want && !SameTarget(want[Key(r)], r) && f == want[Key(r)] && q == r {
      var i :| 0 <= i < n && IsFirst(before, i, Key(r)) && want[Key(r)] == Normal(before[i]);
      PrefixFirst(rules, n, i, Key(r));
      assert Clashes(rules, i, n);
    }
  }

  /** What the last rule adds. */
  lemma LastReport(rules: seq<Rule>, p: Problem)
    requires rules != []
    ensures var n := |rules| - 1; var r := Normal(rules[n]);
            Reportable(rules, p) <==>
              (|| Reportable(rules[..n], p)
               || (!Servable(r) && p == Invalid(r, Validate(r).value))
               || (Servable(r) && Key(r) in Wanted(rules[..n]) && !SameTarget(Wanted(rules[..n])[Key(r)], r)
                   && p == Clash(Wanted(rules[..n])[Key(r)], r)))
  {
    hide Validate, Key, Normal, Wanted, SameTarget, Reportable;
    var n := |rules| - 1;
    var r := Normal(rules[n]);
    match p
    case StartFailed(q) => NeverStarts(rules, q);
    case Invalid(q, e) => LastInvalid(rules, q, e);
    case Clash(f, q) => LastClash(rules, f, q);
  }

  lemma NothingClashes()
    ensures forall i, j :: !Clashes([], i, j)
  {}

  /** Apply reports exactly the invalid rules, each with its first fault, and the rules that
      ask for the key of an earlier one with another target. */
  lemma {:induction false} ReportedIff(rules: seq<Rule>, p: Problem)
    ensures p in RuleProblems(rules) <==> Reportable(rules, p)
  {
    hide Servable, Key, Normal, Wanted, SameTarget, Clashes;
    if rules != [] {
      ReportedIff(rules[..|rules| - 1], p);
      LastReport(rules, p);
    } else {
      NothingClashes();
    }
  }

  predicate AllValid(rules: seq<Rule>) {
    forall i :: 0 <= i < |rules| ==> Servable(Normal(rules[i]))
  }

  predicate TargetsAgree(rules: seq<Rule>) {
    forall i, j :: 0 <= i < j < |rules| && Key(Normal(rules[i])) == Key(Normal(rules[j]))
      ==> SameTarget(Normal(rules[i]), Normal(rules[j]))
  }

  /** When the earlier rules are fine, the last one agrees with all of them exactly when it
      agrees with the wanted one. */
  lemma LastAgrees(rules: seq<Rule>)
    requires rules != []
    ensures var n := |rules| - 1; var r := Normal(rules[n]); var want := Wanted(rules[..n]);
            AllValid(rules[..n]) && TargetsAgree(rules[..n]) ==>
              ((Key(r) in want ==> SameTarget(want[Key(r)], r)) <==>
               (forall i :: 0 <= i < n && Key(Normal(rules[i])) == Key(r) ==> SameTarget(Normal(rules[i]), r)))
  {
    hide Servable, Key, Normal, Wanted;
    var n := |rules| - 1;
    var before := rules[..n];
    var r := Normal(rules[n]);
    WantedIsFirst(before, Key(r));
    if AllValid(before) && TargetsAgree(before) && Key(r) in Wanted(before) {
      var f :| 0 <= f < |before| && IsFirst(before, f, Key(r)) && Wanted(before)[Key(r)] == Normal(before[f]);
      forall i | 0 <= i < n && Key(Normal(rules[i])) == Key(r)
        ensures SameTarget(Normal(rules[i]), Normal(rules[f]))
      {
        assert before[i] == rules[i] && before[f] == rules[f];
        assert i < f || i == f || f < i;
      }
    }
  }

  /** Apply has nothing to report about the rules exactly when all of them are valid and
      those that share a key share their target. */
  lemma {:induction false} NoProblemsIff(rules: seq<Rule>)
    ensures RuleProblems(rules) == [] <==> AllValid(rules) && TargetsAgree(rules)
  {
    hide Servable, Key, Normal, SameTarget;
    if rules != [] {
      var n := |rules| - 1;
      var before := rules[..n];
      var r := Normal(rules[n]);
      NoProblemsIff(before);
      assert forall i :: 0 <= i < n ==> before[i] == rules[i];
      if Servable(r) {
        LastAgrees(rules);
      }
    }
  }

  /** No two servable rules with one key that differ. */
  predicate NoClash(rules: seq<Rule>) {
    forall r, s :: r in rules && s in rules && Servable(Normal(r)) && Servable(Normal(s)) && Key(Normal(r)) == Key(Normal(s))
      ==> Normal(r) == Normal(s)
  }

  predicate Within(a: seq<Rule>, b: seq<Rule>) {
    forall r :: r in a ==> r in b
  }

  lemma PermutedWithin(a: seq<Rule>, b: seq<Rule>)
    requires multiset(a) == multiset(b)
    ensures Within(a, b)
  {
    forall r | r in a ensures r in b {
      assert r in multiset(a);
      assert r in multiset(b);
    }
  }

  /** A wanted rule is a normalised member of the list. */
  lemma WantedMember(rules: seq<Rule>, key: string) returns (r: Rule)
    requires key in Wanted(rules)
    ensures r in rules && Wanted(rules)[key] == Normal(r) && Servable(Normal(r)) && Key(Normal(r)) == key
  {
    WantedIsFirst(rules, key);
    var i :| 0 <= i < |rules| && IsFirst(rules, i, key) && Wanted(rules)[key] == Normal(rules[i]);
    r := rules[i];
  }

  lemma WantedWithin(a: seq<Rule>, b: seq<Rule>, key: string)
    requires Within(a, b) && Within(b, a) && NoClash(a) && key in Wanted(a)
    ensures key in Wanted(b) && Wanted(b)[key] == Wanted(a)[key]
  {
    hide Servable, Key, Normal, Wanted;
    var r := WantedMember(a, key);
    assert r in b;
    var i :| 0 <= i < |b| && b[i] == r;
    WantedIsFirst(b, key);
    assert key in Wanted(b);
    var s := WantedMember(b, key);
    assert s in a;
  }

  /** The desired state does not depend on the order of rules that do not clash. */
  lemma WantedOrderFree(a: seq<Rule>, b: seq<Rule>)
    requires multiset(a) == multiset(b) && NoClash(a)
    ensures Wanted(a) == Wanted(b)
  {
    hide Servable, Key, Normal, Wanted;
    PermutedWithin(a, b);
    PermutedWithin(b, a);
    assert NoClash(b);
    forall key | key in Wanted(a) ensures key in Wanted(b) && Wanted(b)[key] == Wanted(a)[key] {
      WantedWithin(a, b, key);
    }
    forall key | key in Wanted(b) ensures key in Wanted(a) {
      WantedWithin(b, a, key);
    }
  }
}
