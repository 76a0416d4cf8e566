/**
 The listener reconciler of internal/portfwd/portfwd.go: Manager.Apply brings the live
 listeners to the desired state although binds may fail, Close ends them for good.
 Binding a socket is modelled as succeeding exactly for the keys in a given set.
 */
module PortManager {
  import opened Text
  import opened ForwardRules

  /** The fields a live entry takes over from the wanted rule. */
  function Refresh(live: Rule, r: Rule): Rule {
    live.(container := r.container, owner := r.owner, name := r.name, requireLogin := r.requireLogin,
          note := r.note, source := r.source, manualId := r.manualId)
  }

  /** One running listener; stopped once its socket is closed. */
  class Entry {
    var rule: Rule
    var stopped: bool

    constructor (rule: Rule)
      ensures this.rule == rule && !stopped
    {
      this.rule := rule;
      stopped := false;
    }

    method Stop()
      modifies this`stopped
      ensures stopped
    {
      stopped := true;
    }

    method RefreshFrom(r: Rule)
      modifies this`rule
      ensures rule == Refresh(old(rule), r)
    {
      rule := rule.(container := r.container);
      rule := rule.(owner := r.owner);
      rule := rule.(name := r.name);
      rule := rule.(requireLogin := r.requireLogin);
      rule := rule.(note := r.note);
      rule := rule.(source := r.source);
      rule := rule.(manualId := r.manualId);
    }
  }

  /** Whether a listener for old can go on serving r. */
  predicate Keeps(live: Rule, r: Rule) {
    SameTarget(live, r) && live.tls == r.tls
  }

  predicate CanStart(key: string, r: Rule, bindable: set<string>, certificate: bool) {
    key in bindable && (r.tls ==> certificate)
  }

  predicate Kept(view: map<string, Rule>, want: map<string, Rule>, key: string) {
    key in view && key in want && Keeps(view[key], want[key])
  }

  /** The live rules after Apply, as a function of the live rules before. */
  function Reconcile(view: map<string, Rule>, want: map<string, Rule>, bindable: set<string>, certificate: bool): map<string, Rule> {
    map key | key in want && (Kept(view, want, key) || CanStart(key, want[key], bindable, certificate)) ::
      if Kept(view, want, key) then Refresh(view[key], want[key]) else want[key]
  }

  /** A manager as its callers see it, and what they can do to it. */
  datatype Model = Model(view: map<string, Rule>, closed: bool, certificate: bool)

  datatype Op = DoApply(rules: seq<Rule>, bindable: set<string>) | DoClose | DoSetTLS(installed: bool)

  function StepModel(m: Model, op: Op): Model {
    match op
    case DoApply(rules, bindable) => if m.closed then m else m.(view := Reconcile(m.view, Wanted(rules), bindable, m.certificate))
    case DoClose => m.(view := map[], closed := true)
    case DoSetTLS(installed) => m.(certificate := installed)
  }

  function RunModel(m: Model, ops: seq<Op>): Model {
    if ops == [] then m else StepModel(RunModel(m, ops[..|ops| - 1]), ops[|ops| - 1])
  }

  lemma {:induction false} StaysClosed(m: Model, ops: seq<Op>)
    requires m.closed && m.view == map[]
    ensures RunModel(m, ops).closed && RunModel(m, ops).view == map[]
  {
    if ops != [] {
      StaysClosed(m, ops[..|ops| - 1]);
    }
  }

  /** Once DoClose has been performed, nothing performed later leaves a live rule. */
  lemma {:induction false} ClosedInModel(m: Model, ops: seq<Op>, i: nat)
    requires i < |ops| && ops[i].DoClose?
    ensures RunModel(m, ops).closed && RunModel(m, ops).view == map[]
  {
    hide Reconcile;
    if i < |ops| - 1 {
      ClosedInModel(m, ops[..|ops| - 1], i);
    }
  }

  lemma ClosedAfter(m: Model, ops: seq<Op>)
    requires m.closed ==> m.view == map[]
    ensures m.closed || (exists i :: 0 <= i < |ops| && ops[i].DoClose?) ==> RunModel(m, ops).closed && RunModel(m, ops).view == map[]
  {
    if m.closed {
      StaysClosed(m, ops);
    }
    if i :| 0 <= i < |ops| && ops[i].DoClose? {
      ClosedInModel(m, ops, i);
    }
  }

  /** What became of the entry that was live under key. */
  ghost predicate Settled(view: map<string, Rule>, want: map<string, Rule>, key: string, e: Entry)
    reads e
    requires key in view
  {
    if Kept(view, want, key) then e.rule == Refresh(view[key], want[key]) && !e.stopped else e.stopped
  }

  /** No entry is listed under two keys. */
  predicate NoneTwice(entries: map<string, Entry>) {
    forall k, l :: k in entries && l in entries && entries[k] == entries[l] ==> k == l
  }

  /** The table lists what has not been visited or is kept, under the same entries as before. */
  ghost predicate Listed(entries: map<string, Entry>, before: map<string, Entry>, rest: set<string>,
                         view: map<string, Rule>, want: map<string, Rule>)
    requires rest <= before.Keys
  {
    && (forall key :: key in entries <==> key in rest || Kept(view, want, key))
    && (forall key :: key in entries ==> key in before && entries[key] == before[key])
  }

  ghost predicate Unvisited(before: map<string, Entry>, rest: set<string>, view: map<string, Rule>)
    requires rest <= before.Keys == view.Keys
    reads before.Values
  {
    forall key :: key in rest ==> before[key].rule == view[key] && !before[key].stopped
  }

  ghost predicate Visited(before: map<string, Entry>, rest: set<string>, view: map<string, Rule>, want: map<string, Rule>)
    requires before.Keys == view.Keys
    reads before.Values
  {
    forall key :: key in before && key !in rest ==> Settled(view, want, key, before[key])
  }

  /** The two stages of reconciling: what stays, and what is added to it. */
  function KeptRules(view: map<string, Rule>, want: map<string, Rule>): map<string, Rule> {
    map key | key in view && Kept(view, want, key) :: Refresh(view[key], want[key])
  }

  function WithStarted(view: map<string, Rule>, want: map<string, Rule>, bindable: set<string>, certificate: bool): map<string, Rule> {
    view + map key | key in want && key !in view && CanStart(key, want[key], bindable, certificate) :: want[key]
  }

  lemma Reconciled(view: map<string, Rule>, want: map<string, Rule>, bindable: set<string>, certificate: bool)
    ensures WithStarted(KeptRules(view, want), want, bindable, certificate) == Reconcile(view, want, bindable, certificate)
  {
    hide Refresh, CanStart, Keeps;
  }

  /** The start errors are exactly those of the wanted keys that have no listener. */
  ghost predicate Reported(failed: seq<Problem>, want: map<string, Rule>, live: set<string>) {
    && (forall key :: key in want && key !in live ==> StartFailed(want[key]) in failed)
    && (forall p :: p in failed ==> exists key :: key in want && key !in live && p == StartFailed(want[key]))
  }

  lemma RefreshServable(live: Rule, r: Rule)
    requires Servable(live) && Servable(r) && Key(live) == Key(r) && Keeps(live, r)
    ensures Servable(Refresh(live, r)) && Key(Refresh(live, r)) == Key(r)
  {
    hide Key;
    KeyIsSocket(live, r);
    KeyIsSocket(live, Refresh(live, r));
  }

  lemma KeptServable(view: map<string, Rule>, want: map<string, Rule>)
    requires AllServable(view) && AllServable(want)
    ensures forall key :: Kept(view, want, key) ==> key in view && key in want
    ensures forall key :: Kept(view, want, key) ==> Servable(Refresh(view[key], want[key])) && Key(Refresh(view[key], want[key])) == key
  {
    hide Servable, Key, Refresh, Keeps;
    forall key | Kept(view, want, key)
      ensures Servable(Refresh(view[key], want[key])) && Key(Refresh(view[key], want[key])) == key
    {
      RefreshServable(view[key], want[key]);
    }
  }

  lemma NotServable(r: Rule)
    requires !Servable(r)
    ensures Validate(r).Some?
  {}

  /** Which listeners stay and which can start, on the fields that decide it. */
  lemma LiveKeys(view: map<string, Rule>, want: map<string, Rule>, bindable: set<string>, certificate: bool)
    ensures forall key :: Kept(view, want, key) <==>
              && key in view && key in want && view[key].targetIP == want[key].targetIP
              && view[key].targetPort == want[key].targetPort && view[key].tls == want[key].tls
    ensures forall key :: key in Reconcile(view, want, bindable, certificate) <==>
              key in want && (Kept(view, want, key) || (key in bindable && (want[key].tls ==> certificate)))
  {}

  class Manager {
    var entries: map<string, Entry>
    var closed: bool
    var certificate: bool

    constructor ()
      ensures Valid() && !closed && !certificate && View() == map[]
    {
      entries := map[];
      closed := false;
      certificate := false;
    }

    /** Each live listener is listed under its own rule's key (so it is listed once) and is
        running; a closed manager has none. */
    ghost predicate Valid()
      reads this, entries.Values
    {
      && (forall key :: key in entries ==>
            Servable(entries[key].rule) && Key(entries[key].rule) == key && !entries[key].stopped)
      && (closed ==> entries == map[])
    }

    ghost function View(): map<string, Rule>
      reads this, entries.Values
    {
      map key | key in entries :: entries[key].rule
    }

    method SetTLSConfig(installed: bool)
      requires Valid()
      modifies this`certificate
      ensures Valid() && certificate == installed && View() == old(View()) && entries == old(entries)
    {
      certificate := installed;
    }

    method CollectWanted(rules: seq<Rule>) returns (want: map<string, Rule>, errs: seq<Problem>)
      ensures want == Wanted(rules) && errs == RuleProblems(rules)
    {
      hide Servable, Key, Normal;
      want, errs := map[], [];
      for i := 0 to |rules|
        invariant want == Wanted(rules[..i]) && errs == RuleProblems(rules[..i])
      {
        assert rules[..i + 1][..i] == rules[..i] && rules[..i + 1][i] == rules[i];
        var r := Normal(rules[i]);
        if !Servable(r) {
          NotServable(r);
          errs := errs + [Invalid(r, Validate(r).value)];
          continue;
        }
        if Key(r) in want {
          if !SameTarget(want[Key(r)], r) {
            errs := errs + [Clash(want[Key(r)], r)];
          }
          continue;
        }
        want := want[Key(r) := r];
      }
      assert rules[..|rules|] == rules;
    }

    /** Part of the way through the loop over the live entries: before is the table at its
        start, view the rules then, rest the keys not yet visited. */
    ghost predicate Settling(before: map<string, Entry>, rest: set<string>, view: map<string, Rule>, want: map<string, Rule>)
      reads this`entries, before.Values
    {
      && before.Keys == view.Keys && rest <= before.Keys
      && Listed(entries, before, rest, view, want)
      && Unvisited(before, rest, view)
      && Visited(before, rest, view, want)
    }

    /** One live entry: keep and refresh it, or stop and forget it. */
    method SettleEntry(key: string, want: map<string, Rule>, ghost view: map<string, Rule>)
      requires key in entries && key in view && entries[key].rule == view[key] && !entries[key].stopped
      modifies this`entries, entries[key]
      ensures entries == if Kept(view, want, key) then old(entries) else old(entries) - {key}
      ensures Settled(view, want, key, old(entries)[key])
    {
      var e := entries[key];
      if key in want && SameTarget(e.rule, want[key]) && e.rule.tls == want[key].tls {
        e.RefreshFrom(want[key]);
      } else {
        e.Stop();
        entries := entries - {key};
      }
    }

    /** One turn of the loop. */
    method SettleOne(key: string, want: map<string, Rule>,
                     ghost before: map<string, Entry>, ghost rest: set<string>, ghost view: map<string, Rule>)
      requires Settling(before, rest, view, want) && key in rest && NoneTwice(before)
      modifies this`entries, before[key]
      ensures Settling(before, rest - {key}, view, want)
    {
      hide Settled, Kept, Keeps, Refresh;
      SettleEntry(key, want, view);
      forall k | k in rest - {key} ensures before[k].rule == view[k] && !before[k].stopped {
        assert before[k] != before[key];
      }
      forall k | k in before && k !in rest - {key} ensures Settled(view, want, k, before[k]) {
        assert k != key ==> before[k] != before[key];
      }
    }

    /** The loop over the live entries; view is their rules before it. */
    method Settle(want: map<string, Rule>, ghost view: map<string, Rule>)
      requires NoneTwice(entries) && Settling(entries, entries.Keys, view, want)
      modifies this`entries, entries.Values
      ensures Settling(old(entries), {}, view, want)
    {
      hide Settled, Kept;
      ghost var before := entries;
      var rest := entries.Keys;
      while exists k :: k in rest
        invariant Settling(before, rest, view, want)
        decreases rest
      {
        var key :| key in rest;
        SettleOne(key, want, before, rest, view);
        rest := rest - {key};
      }
      assert rest == {};
    }

    /** Manager.start: bind the rule's socket and, for TLS, require a certificate. */
    method Start(r: Rule, bindable: set<string>) returns (e: Entry?)
      requires Servable(r)
      ensures e == null <==> !CanStart(Key(r), r, bindable, certificate)
      ensures e != null ==> fresh(e) && e.rule == r && !e.stopped
    {
      if Key(r) !in bindable {
        return null;
      }
      if r.tls && !certificate {
        return null;
      }
      e := new Entry(r);
    }

    /** The loop over the wanted rules: start what is missing. */
    method StartMissing(want: map<string, Rule>, bindable: set<string>) returns (errs: seq<Problem>)
      requires AllServable(want)
      modifies this`entries
      ensures forall key :: key in entries <==>
                key in old(entries) || (key in want && CanStart(key, want[key], bindable, certificate))
      ensures forall key :: key in old(entries) ==> entries[key] == old(entries)[key]
      ensures forall key :: key in entries && key !in old(entries) ==>
                fresh(entries[key]) && entries[key].rule == want[key] && !entries[key].stopped
      ensures Reported(errs, want, entries.Keys)
    {
      hide Servable, Key;
      ghost var before := entries;
      errs := [];
      var rest := want.Keys;
      while exists k :: k in rest
        invariant rest <= want.Keys
        invariant forall key :: key in entries <==>
                    key in before || (key in want && key !in rest && CanStart(key, want[key], bindable, certificate))
        invariant forall key :: key in before ==> entries[key] == before[key]
        invariant forall key :: key in entries && key !in before ==>
                    fresh(entries[key]) && entries[key].rule == want[key] && !entries[key].stopped
        invariant forall key :: key in want && key !in rest && key !in entries ==> StartFailed(want[key]) in errs
        invariant forall p :: p in errs ==> exists key :: key in want && key !in rest && key !in entries && p == StartFailed(want[key])
        decreases rest
      {
        var key :| key in rest;
        rest := rest - {key};
        if key in entries {
          continue;
        }
        var e := Start(want[key], bindable);
        if e == null {
          errs := errs + [StartFailed(want[key])];
          continue;
        }
        entries := entries[key := e];
      }
    }

    /** What the loop over the live entries leaves. */
    lemma AfterSettling(before: map<string, Entry>, view: map<string, Rule>, want: map<string, Rule>)
      requires Settling(before, {}, view, want) && !closed && AllServable(view) && AllServable(want)
      ensures Valid() && View() == KeptRules(view, want)
      ensures forall key :: key in entries ==> key in before
      ensures forall key :: key in before ==>
                if Kept(view, want, key) then key in entries && entries[key] == before[key] else key !in entries && before[key].stopped
    {
      hide Refresh, Kept, Keeps, Servable, Key;
      KeptServable(view, want);
      forall key | key in entries
        ensures entries[key].rule == Refresh(view[key], want[key]) && !entries[key].stopped
      {
        assert Kept(view, want, key) && Settled(view, want, key, before[key]);
      }
      forall key | key in before && !Kept(view, want, key) ensures before[key].stopped {
        assert Settled(view, want, key, before[key]);
      }
    }

    /** The loop over the live entries, on a valid manager. */
    method KeepOrStop(want: map<string, Rule>, ghost view: map<string, Rule>)
      requires Valid() && !closed && AllServable(want) && view == View()
      modifies this`entries, entries.Values
      ensures Valid() && View() == KeptRules(view, want)
      ensures forall key :: key in entries ==> key in old(entries)
      ensures forall key :: key in old(entries) ==>
                if Kept(view, want, key) then key in entries && entries[key] == old(entries)[key]
                else key !in entries && old(entries)[key].stopped
    {
      hide Refresh, Kept, Keeps, Servable, Key, KeptRules;
      ghost var before := entries;
      KeptServable(view, want);
      Settle(want, view);
      AfterSettling(before, view, want);
    }

    /** The loop over the wanted rules, on a valid manager. */
    method StartWanted(want: map<string, Rule>, bindable: set<string>) returns (failed: seq<Problem>)
      requires Valid() && !closed && AllServable(want)
      modifies this`entries
      ensures Valid() && View() == WithStarted(old(View()), want, bindable, certificate)
      ensures forall key :: key in old(entries) ==> key in entries && entries[key] == old(entries)[key]
      ensures forall key :: key in entries && key !in old(entries) ==> fresh(entries[key])
      ensures Reported(failed, want, entries.Keys)
    {
      hide CanStart, Servable, Key, Reported;
      ghost var view := View();
      failed := StartMissing(want, bindable);
      assert View() == WithStarted(view, want, bindable, certificate);
    }

    /** The two loops of Apply, on the desired state; view is the live rules before them. */
    method BringTo(want: map<string, Rule>, bindable: set<string>, ghost view: map<string, Rule>) returns (failed: seq<Problem>)
      requires Valid() && !closed && AllServable(want) && view == View()
      modifies this`entries, entries.Values
      ensures Valid() && View() == Reconcile(view, want, bindable, certificate)
      ensures forall key :: key in old(entries) ==>
                if Kept(view, want, key) then key in entries && entries[key] == old(entries)[key]
                else old(entries)[key].stopped && (key in entries ==> fresh(entries[key]))
      ensures forall key :: key in entries && key !in old(entries) ==> fresh(entries[key])
      ensures Reported(failed, want, entries.Keys)
    {
      hide Refresh, Kept, CanStart, Servable, Key, Reconcile, Reported, WithStarted, KeptRules;
      KeepOrStop(want, view);
      failed := StartWanted(want, bindable);
      Reconciled(view, want, bindable, certificate);
    }

    /** Apply. A live listener whose target and TLS did not change is the same object,
        refreshed and never stopped; every other old one is stopped; the live rules are the
        reconciled ones; every wanted key without a listener is reported. */
    method Apply(rules: seq<Rule>, bindable: set<string>) returns (ok: bool, errs: seq<Problem>)
      requires Valid()
      modifies this`entries, entries.Values
      ensures Valid() && ok == !closed
      ensures closed ==> entries == old(entries) && View() == old(View()) && errs == []
      ensures ok ==> View() == Reconcile(old(View()), Wanted(rules), bindable, certificate)
      ensures ok ==> forall key :: key in old(entries) ==>
                var live, want := old(View())[key], Wanted(rules);
                if key in want && live.targetIP == want[key].targetIP && live.targetPort == want[key].targetPort
                   && live.tls == want[key].tls
                then key in entries && entries[key] == old(entries)[key] && !entries[key].stopped
                else
                  && old(entries)[key].stopped
                  && (key in entries <==> key in want && key in bindable && (want[key].tls ==> certificate))
                  && (key in entries ==> fresh(entries[key]))
      ensures ok ==> forall key :: key !in old(entries) ==>
                var want := Wanted(rules);
                && (key in entries <==> key in want && key in bindable && (want[key].tls ==> certificate))
                && (key in entries ==> fresh(entries[key]))
      ensures ok ==> exists failed :: errs == RuleProblems(rules) + failed && Reported(failed, Wanted(rules), entries.Keys)
    {
      hide Reconcile, Kept, Wanted, RuleProblems, Reported;
      if closed {
        return false, [];
      }
      var want, problems := CollectWanted(rules);
      ghost var view := View();
      var failed := BringTo(want, bindable, view);
      LiveKeys(view, want, bindable, certificate);
      return true, problems + failed;
    }

    method Close()
      requires Valid()
      modifies this`entries, this`closed, entries.Values
      ensures Valid() && closed && entries == map[]
      ensures forall key :: key in old(entries) ==> old(entries)[key].stopped
    {
      hide Servable, Key;
      closed := true;
      ghost var before := entries;
      var rest := entries.Keys;
      while exists k :: k in rest
        invariant closed && entries.Keys == rest && rest <= before.Keys
        invariant forall key :: key in rest ==> entries[key] == before[key]
        invariant forall key :: key in before && key !in rest ==> before[key].stopped
        decreases rest
      {
        var key :| key in rest;
        assert before[key] in before.Values;
        entries[key].Stop();
        entries := entries - {key};
        rest := rest - {key};
      }
    }

    ghost function Abstract(): Model
      reads this, entries.Values
    {
      Model(View(), closed, certificate)
    }

    method PerformOne(op: Op)
      requires Valid()
      modifies this, entries.Values
      ensures Valid() && Abstract() == StepModel(old(Abstract()), op)
      ensures forall key :: key in entries ==> fresh(entries[key]) || (key in old(entries) && entries[key] == old(entries)[key])
    {
      hide Reconcile, Wanted, Servable, Key, Reported;
      match op {
        case DoApply(rules, bindable) =>
          var ok, errs := Apply(rules, bindable);
        case DoClose =>
          Close();
        case DoSetTLS(installed) =>
          SetTLSConfig(installed);
      }
    }

    /** Any sequence of calls, on the manager itself, does what the model does. Once Close
        has run, or on a manager closed before, no sequence leaves a listener. */
    method Perform(ops: seq<Op>)
      requires Valid()
      modifies this, entries.Values
      ensures Valid() && Abstract() == RunModel(old(Abstract()), ops)
      ensures old(closed) || (exists i :: 0 <= i < |ops| && ops[i].DoClose?) ==> closed && entries == map[]
    {
      hide Reconcile, Wanted, StepModel, Servable, Key, Reported, Kept;
      for n := 0 to |ops|
        invariant Valid() && Abstract() == RunModel(old(Abstract()), ops[..n])
        invariant forall key :: key in entries ==> fresh(entries[key]) || (key in old(entries) && entries[key] == old(entries)[key])
      {
        PerformOne(ops[n]);
        assert ops[..n + 1][..n] == ops[..n];
      }
      assert ops[..|ops|] == ops;
      ClosedAfter(old(Abstract()), ops);
    }
  }

  // ----- what reconciling promises -----

  /** live serves what r asks for: same socket, target, TLS and refreshed fields. */
  predicate Serves(live: Rule, r: Rule) {
    SameAddress(live.hostIP, r.hostIP) && live == r.(hostIP := live.hostIP)
  }

  lemma FirstIsNotAbsent(rules: seq<Rule>, i: int, key: string)
    requires IsFirst(rules, i, key)
    ensures !Absent(rules, key)
  {}

  /** A listener is kept exactly when refreshing it is enough to make it serve what is wanted. */
  lemma KeepsIff(live: Rule, r: Rule)
    requires Servable(live) && Servable(r) && Key(live) == Key(r)
    ensures Keeps(live, r) <==> Serves(Refresh(live, r), r)
  {
    hide Key;
    KeyIsSocket(live, r);
  }

  lemma ServesItself(r: Rule)
    ensures Serves(r, r)
  {}

  /** A wanted key is live exactly when its old listener, refreshed, serves what is wanted or
      a new one can start; it then serves that. */
  lemma LiveServes(view: map<string, Rule>, want: map<string, Rule>, bindable: set<string>, certificate: bool, key: string)
    requires AllServable(view) && AllServable(want) && key in want
    ensures var live, r := Reconcile(view, want, bindable, certificate), want[key];
            && (key in live <==> (key in view && Serves(Refresh(view[key], r), r)) || (key in bindable && (r.tls ==> certificate)))
            && (key in live ==> Serves(live[key], r))
  {
    hide Servable, Key, Refresh, Serves, Keeps;
    if key in view {
      KeepsIff(view[key], want[key]);
    }
    ServesItself(want[key]);
  }

  /** Every live rule serves the first servable rule that claims its key; and that rule is
      live exactly when its old listener, refreshed, serves it or a new one can start. */
  lemma LiveServesWanted(view: map<string, Rule>, rules: seq<Rule>, bindable: set<string>, certificate: bool, key: string)
    requires AllServable(view)
    ensures var live := Reconcile(view, Wanted(rules), bindable, certificate);
            && (Absent(rules, key) ==> key !in live)
            && (!Absent(rules, key) ==> exists i :: 0 <= i < |rules| && IsFirst(rules, i, key) && var r := Normal(rules[i]);
                  && (key in live ==> Serves(live[key], r))
                  && (key in live <==> (key in view && Serves(Refresh(view[key], r), r)) || (key in bindable && (r.tls ==> certificate))))
  {
    hide Servable, Key, Normal, IsFirst, Absent, Serves, Refresh, Keeps;
    var want := Wanted(rules);
    WantedIsFirst(rules, key);
    if key in want {
      var i :| 0 <= i < |rules| && IsFirst(rules, i, key) && want[key] == Normal(rules[i]);
      FirstIsNotAbsent(rules, i, key);
      LiveServes(view, want, bindable, certificate, key);
    }
  }

  /** Reconciling again with the same wanted rules keeps every live listener as it is and
      can only start what failed before; once every wanted key is live, it does nothing. */
  lemma ReconcileIdempotent(view: map<string, Rule>, want: map<string, Rule>,
                            bindable: set<string>, certificate: bool, bindable': set<string>, certificate': bool)
    ensures var live := Reconcile(view, want, bindable, certificate);
            var again := Reconcile(live, want, bindable', certificate');
            && (forall key :: key in live ==> Kept(live, want, key) && key in again && again[key] == live[key])
            && (forall key :: key in again - live.Keys ==> CanStart(key, want[key], bindable', certificate'))
            && (live.Keys == want.Keys ==> again == live)
            && ((forall key :: key in want ==> CanStart(key, want[key], bindable, certificate)) ==> live.Keys == want.Keys)
  {
    hide CanStart;
    var live := Reconcile(view, want, bindable, certificate);
    forall key | key in live
      ensures Kept(live, want, key) && Refresh(live[key], want[key]) == live[key]
    {
    }
  }

  /** The live rules do not depend on the order of rules that do not clash. */
  lemma ReconcileOrderFree(view: map<string, Rule>, a: seq<Rule>, b: seq<Rule>, bindable: set<string>, certificate: bool)
    requires multiset(a) == multiset(b) && NoClash(a)
    ensures Reconcile(view, Wanted(a), bindable, certificate) == Reconcile(view, Wanted(b), bindable, certificate)
  {
    WantedOrderFree(a, b);
  }
}
