/** The active set and the history of `alerts.rs` over whole runs of evaluations. */
module AlertLifecycle {
  import opened Alerts

  // ---------------------------------------------------------------------
  // One pass, as functions of the active set
  // ---------------------------------------------------------------------

  predicate HasRule(active: seq<Alert>, rule: Rule) {
    exists i :: 0 <= i < |active| && active[i].rule == rule
  }

  function IndexOf(active: seq<Alert>, rule: Rule): (i: nat)
    requires HasRule(active, rule)
    ensures i < |active| && active[i].rule == rule
  {
    if active[0].rule == rule then 0 else 1 + IndexOf(active[1..], rule)
  }

  function FiredAlert(c: Condition, now: nat): Alert {
    Alert(c.rule, c.severity, c.message, now, true)
  }

  /** The active set and the fired events after the given conditions. */
  function Fire(active: seq<Alert>, conds: seq<Condition>, now: nat): (seq<Alert>, seq<Alert>) {
    if conds == [] then (active, [])
    else
      var n := |conds| - 1;
      var (a, events) := Fire(active, conds[..n], now);
      if HasRule(a, conds[n].rule) then (Reword(a, conds[n]), events)
      else (a + [FiredAlert(conds[n], now)], events + [FiredAlert(conds[n], now)])
  }

  /** Keep the freshest wording of an active rule, and nothing else of the condition. */
  function Reword(active: seq<Alert>, c: Condition): seq<Alert>
    requires HasRule(active, c.rule)
  {
    var i := IndexOf(active, c.rule);
    active[i := active[i].(message := c.message)]
  }

  function StillNamed(active: seq<Alert>, conds: seq<Condition>): seq<Alert> {
    if active == [] then []
    else
      var n := |active| - 1;
      StillNamed(active[..n], conds) + if Names(conds, active[n].rule) then [active[n]] else []
  }

  function Resolved(active: seq<Alert>, conds: seq<Condition>, now: nat): seq<Alert> {
    if active == [] then []
    else
      var n := |active| - 1;
      Resolved(active[..n], conds, now)
      + if Names(conds, active[n].rule) then [] else [active[n].(active := false, atMs := now)]
  }

  function NextActive(active: seq<Alert>, conds: seq<Condition>, now: nat): seq<Alert> {
    StillNamed(Fire(active, conds, now).0, conds)
  }

  function EventsOf(active: seq<Alert>, conds: seq<Condition>, now: nat): seq<Alert> {
    Fire(active, conds, now).1 + Resolved(Fire(active, conds, now).0, conds, now)
  }

  /** Append events to the ring, dropping from the front beyond the cap. */
  function Record(history: seq<Alert>, events: seq<Alert>): seq<Alert> {
    if events == [] then history
    else
      var n := |events| - 1;
      var h := Record(history, events[..n]) + [events[n]];
      if |h| > HISTORY_CAP then h[1..] else h
  }

  // ---------------------------------------------------------------------
  // The object
  // ---------------------------------------------------------------------

  class AlertBook {
    const cfg: AlertsConfig
    var inner: seq<Alert>
    var history: seq<Alert>

    constructor (cfg: AlertsConfig)
      ensures this.cfg == cfg && inner == [] && history == []
    {
      this.cfg := cfg;
      inner, history := [], [];
    }

    /** One pass over fresh signals; `conds` is what the rules made of them. */
    method Evaluate(sig: AlertSignals, now: nat) returns (events: seq<Alert>, ghost conds: seq<Condition>)
      modifies this
      ensures Reports(conds, (set r: Rule | Holds(r, sig, cfg)), sig, cfg)
      ensures inner == NextActive(old(inner), conds, now)
      ensures events == EventsOf(old(inner), conds, now)
      ensures history == Record(old(history), events)
    {
      hide Reports, Holds, Collapses, CollapsesOf, Fire, Resolved, StillNamed;
      var conditions := EvaluateSignals(sig, cfg);
      conds := conditions;
      events := FireConditions(conditions, now);
      var resolved := ResolveCleared(conditions, now);
      events := events + resolved;
      for i := 0 to |events|
        invariant inner == NextActive(old(inner), conds, now)
        invariant history == Record(old(history), events[..i])
      {
        assert events[..i + 1][..i] == events[..i];
        history := history + [events[i]];
        if |history| > HISTORY_CAP {
          history := history[1..];
        }
      }
      assert events[..|events|] == events;
    }

    /** Push what is new, reword what is already active. */
    method FireConditions(conditions: seq<Condition>, now: nat) returns (events: seq<Alert>)
      modifies this`inner
      ensures (inner, events) == Fire(old(inner), conditions, now)
    {
      events := [];
      for i := 0 to |conditions|
        invariant (inner, events) == Fire(old(inner), conditions[..i], now)
      {
        assert conditions[..i + 1][..i] == conditions[..i];
        var c := conditions[i];
        if !HasRule(inner, c.rule) {
          var alert := FiredAlert(c, now);
          inner := inner + [alert];
          events := events + [alert];
        } else {
          var k := IndexOf(inner, c.rule);
          inner := inner[k := inner[k].(message := c.message)];
        }
      }
      assert conditions[..|conditions|] == conditions;
    }

    /** Drain the active set, keep what is still named, resolve the rest. */
    method ResolveCleared(conditions: seq<Condition>, now: nat) returns (events: seq<Alert>)
      modifies this`inner
      ensures inner == StillNamed(old(inner), conditions)
      ensures events == Resolved(old(inner), conditions, now)
    {
      var drained := inner;
      inner, events := [], [];
      for i := 0 to |drained|
        invariant inner == StillNamed(drained[..i], conditions)
        invariant events == Resolved(drained[..i], conditions, now)
      {
        assert drained[..i + 1][..i] == drained[..i];
        if Names(conditions, drained[i].rule) {
          inner := inner + [drained[i]];
        } else {
          events := events + [drained[i].(active := false, atMs := now)];
        }
      }
      assert drained[..|drained|] == drained;
    }
  }

  // ---------------------------------------------------------------------
  // Runs
  // ---------------------------------------------------------------------

  datatype Pass = Pass(conds: seq<Condition>, now: nat)

  /** The active set, the history and all events ever emitted. */
  datatype Log = Log(active: seq<Alert>, history: seq<Alert>, events: seq<Alert>)

  function LogAfter(passes: seq<Pass>): Log {
    if passes == [] then Log([], [], [])
    else
      var l := LogAfter(passes[..|passes| - 1]);
      var p := passes[|passes| - 1];
      var events := EventsOf(l.active, p.conds, p.now);
      Log(NextActive(l.active, p.conds, p.now), Record(l.history, events), l.events + events)
  }

  /** The fired (`true`) and resolved (`false`) events of one rule, in order. */
  function Flags(events: seq<Alert>, rule: Rule): seq<bool> {
    if events == [] then []
    else
      var n := |events| - 1;
      Flags(events[..n], rule) + if events[n].rule == rule then [events[n].active] else []
  }

  ghost predicate Alternates(flags: seq<bool>) {
    forall i :: 0 <= i < |flags| ==> (flags[i] <==> i % 2 == 0)
  }

  /** One entry per rule, each of them marked active. */
  ghost predicate ActiveOk(active: seq<Alert>) {
    (forall i, j :: 0 <= i < j < |active| ==> active[i].rule != active[j].rule)
    && (forall i :: 0 <= i < |active| ==> active[i].active)
  }

  lemma {:induction false} FlagsConcatenate(a: seq<Alert>, b: seq<Alert>, rule: Rule)
    ensures Flags(a + b, rule) == Flags(a, rule) + Flags(b, rule)
  {
    if b == [] {
      assert a + b == a;
    } else {
      var n := |b| - 1;
      assert (a + b)[..|a| + n] == a + b[..n];
      FlagsConcatenate(a, b[..n], rule);
    }
  }

  lemma FlagsOfOne(x: Alert, rule: Rule)
    ensures Flags([x], rule) == if x.rule == rule then [x.active] else []
  {}

  lemma NamesLast(conds: seq<Condition>, rule: Rule)
    requires conds != []
    ensures Names(conds, rule) <==> Names(conds[..|conds| - 1], rule) || conds[|conds| - 1].rule == rule
  {}

  lemma HasRuleLast(active: seq<Alert>, x: Alert, rule: Rule)
    ensures HasRule(active + [x], rule) <==> HasRule(active, rule) || x.rule == rule
  {
    var all := active + [x];
    if HasRule(active, rule) {
      var i :| 0 <= i < |active| && active[i].rule == rule;
      assert all[i].rule == rule;
    }
    assert all[|active|] == x;
  }

  lemma OkAppend(active: seq<Alert>, x: Alert)
    requires ActiveOk(active) && !HasRule(active, x.rule) && x.active
    ensures ActiveOk(active + [x])
  {}

  lemma OkPrefix(active: seq<Alert>)
    requires ActiveOk(active) && active != []
    ensures ActiveOk(active[..|active| - 1]) && !HasRule(active[..|active| - 1], active[|active| - 1].rule)
  {}

  lemma RewordKeeps(active: seq<Alert>, c: Condition, rule: Rule)
    requires HasRule(active, c.rule)
    ensures HasRule(Reword(active, c), rule) <==> HasRule(active, rule)
    ensures ActiveOk(active) ==> ActiveOk(Reword(active, c))
  {
    var b := Reword(active, c);
    assert forall k :: 0 <= k < |active| ==> b[k].rule == active[k].rule && b[k].active == active[k].active;
    if HasRule(active, rule) {
      var k :| 0 <= k < |active| && active[k].rule == rule;
      assert b[k].rule == rule;
    }
  }

  /** Firing makes exactly the named rules active besides those that were. */
  lemma {:induction false} FireHas(active: seq<Alert>, conds: seq<Condition>, now: nat, rule: Rule)
    ensures HasRule(Fire(active, conds, now).0, rule) <==> HasRule(active, rule) || Names(conds, rule)
    ensures ActiveOk(active) ==> ActiveOk(Fire(active, conds, now).0)
  {
    if conds != [] {
      var n := |conds| - 1;
      var c := conds[n];
      FireHas(active, conds[..n], now, rule);
      NamesLast(conds, rule);
      var a := Fire(active, conds[..n], now).0;
      hide Names, ActiveOk;
      if HasRule(a, c.rule) {
        RewordKeeps(a, c, rule);
      } else {
        HasRuleLast(a, FiredAlert(c, now), rule);
        if ActiveOk(a) {
          OkAppend(a, FiredAlert(c, now));
        }
      }
    }
  }

  /** Firing adds one `true` for each rule newly named. */
  lemma {:induction false} FireFlags(active: seq<Alert>, conds: seq<Condition>, now: nat, rule: Rule)
    ensures Flags(Fire(active, conds, now).1, rule) ==
            if Names(conds, rule) && !HasRule(active, rule) then [true] else []
  {
    if conds != [] {
      var n := |conds| - 1;
      var c := conds[n];
      FireFlags(active, conds[..n], now, rule);
      FireHas(active, conds[..n], now, c.rule);
      NamesLast(conds, rule);
      hide HasRule, Names, Reword;
      FlagsConcatenate(Fire(active, conds[..n], now).1, [FiredAlert(c, now)], rule);
      FlagsOfOne(FiredAlert(c, now), rule);
      hide Flags;
    }
  }

  /** Resolving keeps exactly the named rules. */
  lemma {:induction false} StillNamedHas(active: seq<Alert>, conds: seq<Condition>, rule: Rule)
    ensures HasRule(StillNamed(active, conds), rule) <==> HasRule(active, rule) && Names(conds, rule)
  {
    if active != [] {
      var n := |active| - 1;
      var x := active[n];
      StillNamedHas(active[..n], conds, rule);
      HasRuleLast(active[..n], x, rule);
      HasRuleLast(StillNamed(active[..n], conds), x, rule);
      assert active == active[..n] + [x];
      assert StillNamed(active[..n], conds) + [] == StillNamed(active[..n], conds);
      hide HasRule, Names;
    }
  }

  lemma {:induction false} StillNamedOk(active: seq<Alert>, conds: seq<Condition>)
    requires ActiveOk(active)
    ensures ActiveOk(StillNamed(active, conds))
  {
    if active != [] {
      var n := |active| - 1;
      OkPrefix(active);
      StillNamedOk(active[..n], conds);
      StillNamedHas(active[..n], conds, active[n].rule);
      if Names(conds, active[n].rule) {
        OkAppend(StillNamed(active[..n], conds), active[n]);
      }
    }
  }

  /** Resolving adds one `false` for each active rule that is no longer named. */
  lemma {:induction false} ResolvedFlags(active: seq<Alert>, conds: seq<Condition>, now: nat, rule: Rule)
    requires ActiveOk(active)
    ensures Flags(Resolved(active, conds, now), rule) ==
            if HasRule(active, rule) && !Names(conds, rule) then [false] else []
  {
    if active != [] {
      var n := |active| - 1;
      var x := active[n];
      var y, before := x.(active := false, atMs := now), Resolved(active[..n], conds, now);
      assert active == active[..n] + [x] && before + [] == before;
      assert Resolved(active, conds, now) == before + if Names(conds, x.rule) then [] else [y];
      hide HasRule, Names, Flags, ActiveOk, Resolved;
      OkPrefix(active);
      ResolvedFlags(active[..n], conds, now, rule);
      HasRuleLast(active[..n], x, rule);
      FlagsConcatenate(before, [y], rule);
      FlagsOfOne(y, rule);
    }
  }

  /** What one pass does to the flags of a rule that `has` been active or not. */
  lemma FlagsOfPass(active: seq<Alert>, p: Pass, rule: Rule)
    requires ActiveOk(active)
    ensures ActiveOk(NextActive(active, p.conds, p.now))
    ensures HasRule(NextActive(active, p.conds, p.now), rule) <==> Names(p.conds, rule)
    ensures var has, named := HasRule(active, rule), Names(p.conds, rule);
            Flags(EventsOf(active, p.conds, p.now), rule) ==
            if named && !has then [true] else if has && !named then [false] else []
  {
    var (a, fired) := Fire(active, p.conds, p.now);
    FireHas(active, p.conds, p.now, rule);
    FireFlags(active, p.conds, p.now, rule);
    StillNamedOk(a, p.conds);
    StillNamedHas(a, p.conds, rule);
    ResolvedFlags(a, p.conds, p.now, rule);
    FlagsConcatenate(fired, Resolved(a, p.conds, p.now), rule);
    hide Fire, HasRule, Names, ActiveOk, Flags, StillNamed, Resolved;
  }

  /** Whether the last event of a rule was fired. */
  predicate LastFired(flags: seq<bool>) {
    flags != [] && flags[|flags| - 1]
  }

  lemma AlternatesExtends(flags: seq<bool>, has: bool, named: bool)
    requires Alternates(flags) && (has <==> LastFired(flags))
    ensures var all := flags + if named && !has then [true] else if has && !named then [false] else [];
            Alternates(all) && (named <==> LastFired(all))
  {}

  /** Over every run: one entry per rule; each rule's events strictly alternate,
      fired first; and a rule is active exactly when its last event was fired. */
  lemma {:induction false} LifecycleAlternates(passes: seq<Pass>, rule: Rule)
    ensures var l := LogAfter(passes);
            && ActiveOk(l.active)
            && Alternates(Flags(l.events, rule))
            && (HasRule(l.active, rule) <==> LastFired(Flags(l.events, rule)))
  {
    if passes != [] {
      var l := LogAfter(passes[..|passes| - 1]);
      var p := passes[|passes| - 1];
      LifecycleAlternates(passes[..|passes| - 1], rule);
      FlagsOfPass(l.active, p, rule);
      FlagsConcatenate(l.events, EventsOf(l.active, p.conds, p.now), rule);
      AlternatesExtends(Flags(l.events, rule), HasRule(l.active, rule), Names(p.conds, rule));
      hide HasRule, Names, ActiveOk, Flags, EventsOf, NextActive, Alternates, LastFired, Record;
    }
  }

  /** After a pass the active rules are exactly the rules its conditions name. */
  lemma ActiveIsLatest(passes: seq<Pass>, rule: Rule)
    requires passes != []
    ensures HasRule(LogAfter(passes).active, rule) <==> Names(passes[|passes| - 1].conds, rule)
  {
    LifecycleAlternates(passes[..|passes| - 1], rule);
    FlagsOfPass(LogAfter(passes[..|passes| - 1]).active, passes[|passes| - 1], rule);
    hide HasRule, Names, Flags, NextActive;
  }

  /** The wording of the last condition that names the rule. */
  function LatestMessage(conds: seq<Condition>, rule: Rule): Message
    requires Names(conds, rule)
  {
    var n := |conds| - 1;
    if conds[n].rule == rule then conds[n].message
    else
      NamesLast(conds, rule);
      LatestMessage(conds[..n], rule)
  }

  /** A rule that is active and named again keeps its severity and the time it
      fired; only its wording follows the latest condition. */
  lemma {:induction false} OnlyTheWordingChanges(active: seq<Alert>, conds: seq<Condition>, now: nat, k: nat)
    requires ActiveOk(active) && k < |active|
    ensures var a := Fire(active, conds, now).0;
            k < |a|
            && a[k] == if Names(conds, active[k].rule)
                       then active[k].(message := LatestMessage(conds, active[k].rule)) else active[k]
  {
    if conds != [] {
      var n := |conds| - 1;
      OnlyTheWordingChanges(active, conds[..n], now, k);
      FireHas(active, conds[..n], now, conds[n].rule);
      NamesLast(conds, active[k].rule);
    }
  }

  /** The first condition that names the rule. */
  function FirstNaming(conds: seq<Condition>, rule: Rule): (i: nat)
    requires Names(conds, rule)
    ensures i < |conds| && conds[i].rule == rule && forall j :: 0 <= j < i ==> conds[j].rule != rule
  {
    if conds[0].rule == rule then 0
    else
      assert exists i :: 0 <= i < |conds[1..]| && conds[1..][i].rule == rule by {
        var i :| 0 <= i < |conds| && conds[i].rule == rule;
        assert conds[1..][i - 1] == conds[i];
      }
      1 + FirstNaming(conds[1..], rule)
  }

  /** The alert a rule that was not active fires: as the first condition naming it has it. */
  ghost predicate FiredBy(x: Alert, conds: seq<Condition>, now: nat) {
    Names(conds, x.rule)
    && var c := conds[FirstNaming(conds, x.rule)];
       x.severity == c.severity && x.message == c.message && x.atMs == now && x.active
  }

  lemma FirstNamingStays(conds: seq<Condition>, rule: Rule)
    requires conds != [] && Names(conds[..|conds| - 1], rule)
    ensures Names(conds, rule) && FirstNaming(conds, rule) == FirstNaming(conds[..|conds| - 1], rule)
  {
    NamesLast(conds, rule);
    var i, j := FirstNaming(conds, rule), FirstNaming(conds[..|conds| - 1], rule);
    assert conds[j].rule == rule;
    assert i <= j;
    assert conds[..|conds| - 1][i] == conds[i];
  }

  /** A fired event has the severity and the wording of the first condition of the pass that names
      its rule, and the time of the pass; the events come in the order of those conditions. */
  lemma {:induction false} FiredAreFirst(active: seq<Alert>, conds: seq<Condition>, now: nat)
    ensures var fired := Fire(active, conds, now).1;
            && (forall x :: x in fired ==> FiredBy(x, conds, now) && !HasRule(active, x.rule))
            && (forall i, j :: 0 <= i < j < |fired| && Names(conds, fired[i].rule) && Names(conds, fired[j].rule) ==>
                  FirstNaming(conds, fired[i].rule) < FirstNaming(conds, fired[j].rule))
  {
    if conds != [] {
      var n := |conds| - 1;
      var c, init := conds[n], conds[..n];
      FiredAreFirst(active, init, now);
      FireHas(active, init, now, c.rule);
      var before, fired := Fire(active, init, now).1, Fire(active, conds, now).1;
      forall x | x in before
        ensures FiredBy(x, conds, now) && FirstNaming(conds, x.rule) == FirstNaming(init, x.rule)
      {
        FirstNamingStays(conds, x.rule);
        assert conds[FirstNaming(init, x.rule)] == init[FirstNaming(init, x.rule)];
      }
      if |fired| > |before| {
        FirstNamingAtEnd(conds);
      }
      hide Fire, HasRule, Names, FirstNaming;
      assert |fired| > |before| ==> fired == before + [FiredAlert(c, now)];
    }
  }

  lemma FirstNamingAtEnd(conds: seq<Condition>)
    requires conds != [] && !Names(conds[..|conds| - 1], conds[|conds| - 1].rule)
    ensures Names(conds, conds[|conds| - 1].rule) && FirstNaming(conds, conds[|conds| - 1].rule) == |conds| - 1
  {
    var n := |conds| - 1;
    NamesLast(conds, conds[n].rule);
    assert forall i :: 0 <= i < n ==> conds[..n][i] == conds[i];
  }

  /** Behind the rules that were active come the fired ones, with their latest wording. */
  lemma {:induction false} FireAppends(active: seq<Alert>, conds: seq<Condition>, now: nat, k: nat)
    requires ActiveOk(active) && |active| <= k < |Fire(active, conds, now).0|
    ensures var x := Fire(active, conds, now).0[k];
            && Names(conds, x.rule) && !HasRule(active, x.rule)
            && x == Alert(x.rule, conds[FirstNaming(conds, x.rule)].severity, LatestMessage(conds, x.rule), now, true)
  {
    if conds != [] {
      var n := |conds| - 1;
      var c, before := conds[n], Fire(active, conds[..n], now).0;
      FireHas(active, conds[..n], now, c.rule);
      if k < |before| {
        FireAppends(active, conds[..n], now, k);
        FirstNamingStays(conds, before[k].rule);
        NamesLast(conds, before[k].rule);
      } else {
        FirstNamingAtEnd(conds);
      }
      hide FirstNaming;
    }
  }

  lemma {:induction false} ResolvedAre(active: seq<Alert>, conds: seq<Condition>, now: nat, e: Alert)
    requires e in Resolved(active, conds, now)
    ensures exists k :: 0 <= k < |active| && !Names(conds, active[k].rule)
              && e == active[k].(active := false, atMs := now)
  {
    var n := |active| - 1;
    if e in Resolved(active[..n], conds, now) {
      ResolvedAre(active[..n], conds, now, e);
    } else {
      assert !Names(conds, active[n].rule) && e == active[n].(active := false, atMs := now);
    }
    hide Names;
  }

  /** Resolving goes alert by alert, in order. */
  lemma {:induction false} ResolvesInOrder(a: seq<Alert>, b: seq<Alert>, conds: seq<Condition>, now: nat)
    ensures StillNamed(a + b, conds) == StillNamed(a, conds) + StillNamed(b, conds)
    ensures Resolved(a + b, conds, now) == Resolved(a, conds, now) + Resolved(b, conds, now)
  {
    if b == [] {
      assert a + b == a;
    } else {
      var n := |b| - 1;
      var kept := if Names(conds, b[n].rule) then [b[n]] else [];
      var left := if Names(conds, b[n].rule) then [] else [b[n].(active := false, atMs := now)];
      assert (a + b)[..|a| + n] == a + b[..n] && (a + b)[|a| + n] == b[n];
      assert StillNamed(b, conds) == StillNamed(b[..n], conds) + kept
          && Resolved(b, conds, now) == Resolved(b[..n], conds, now) + left;
      assert StillNamed(a + b, conds) == StillNamed(a + b[..n], conds) + kept
          && Resolved(a + b, conds, now) == Resolved(a + b[..n], conds, now) + left;
      hide *;
      ResolvesInOrder(a, b[..n], conds, now);
    }
  }

  /** One alert is either kept as it is, because a condition names its rule, or leaves with one event. */
  lemma ResolvesOne(x: Alert, conds: seq<Condition>, now: nat)
    ensures StillNamed([x], conds) == if exists c :: c in conds && c.rule == x.rule then [x] else []
    ensures |StillNamed([x], conds)| + |Resolved([x], conds, now)| == 1
  {
    if Names(conds, x.rule) {
      var i :| 0 <= i < |conds| && conds[i].rule == x.rule;
      assert conds[i] in conds;
    }
  }

  /** Every event of a pass against its conditions: a fired one has the severity and wording of
      the first condition naming its rule, a resolved one those of the alert that was
      active and is named no more; both have the time of the pass. */
  lemma EventsSay(active: seq<Alert>, conds: seq<Condition>, now: nat, e: Alert)
    requires ActiveOk(active) && e in EventsOf(active, conds, now)
    ensures e.atMs == now
    ensures e.active ==> FiredBy(e, conds, now) && !HasRule(active, e.rule)
    ensures !e.active ==>
              !Names(conds, e.rule)
              && exists k :: 0 <= k < |active| && active[k].rule == e.rule
                   && active[k].severity == e.severity && active[k].message == e.message
  {
    if e in Fire(active, conds, now).1 {
      FiredAreFirst(active, conds, now);
    } else {
      ResolvedWereActive(active, conds, now, e);
    }
  }

  /** The fired events of a pass come before the resolved ones. */
  lemma FiredComeFirst(active: seq<Alert>, conds: seq<Condition>, now: nat)
    requires ActiveOk(active)
    ensures var events := EventsOf(active, conds, now);
            forall i, j :: 0 <= i < j < |events| && events[j].active ==> events[i].active
  {
    var (a, fired) := Fire(active, conds, now);
    FiredAreFirst(active, conds, now);
    forall e | e in Resolved(a, conds, now) ensures !e.active {
      ResolvedWereActive(active, conds, now, e);
    }
    hide Fire, Resolved;
  }

  lemma ResolvedWereActive(active: seq<Alert>, conds: seq<Condition>, now: nat, e: Alert)
    requires ActiveOk(active) && e in Resolved(Fire(active, conds, now).0, conds, now)
    ensures e.atMs == now && !e.active && !Names(conds, e.rule)
    ensures exists k :: 0 <= k < |active| && active[k].rule == e.rule
              && active[k].severity == e.severity && active[k].message == e.message
  {
    var a := Fire(active, conds, now).0;
    ResolvedAre(a, conds, now, e);
    var k :| 0 <= k < |a| && !Names(conds, a[k].rule) && e == a[k].(active := false, atMs := now);
    if k < |active| {
      OnlyTheWordingChanges(active, conds, now, k);
    } else {
      FireAppends(active, conds, now, k);
    }
    hide Fire, Names;
  }

  function LastUpTo(s: seq<Alert>, cap: nat): seq<Alert> {
    if |s| <= cap then s else s[|s| - cap..]
  }

  /** The history is exactly the last 200 events ever emitted. */
  lemma {:induction false} HistoryIsTheTail(passes: seq<Pass>)
    ensures var l := LogAfter(passes); l.history == LastUpTo(l.events, 200)
  {
    if passes != [] {
      var l := LogAfter(passes[..|passes| - 1]);
      var p := passes[|passes| - 1];
      HistoryIsTheTail(passes[..|passes| - 1]);
      RecordKeepsTail(l.events, EventsOf(l.active, p.conds, p.now));
    }
  }

  lemma {:induction false} RecordKeepsTail(past: seq<Alert>, events: seq<Alert>)
    ensures Record(LastUpTo(past, HISTORY_CAP), events) == LastUpTo(past + events, HISTORY_CAP)
  {
    if events == [] {
      assert past + events == past;
    } else {
      var n := |events| - 1;
      RecordKeepsTail(past, events[..n]);
      assert past + events == past + events[..n] + [events[n]];
    }
  }
}
