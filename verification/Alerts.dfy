/** The alert lifecycle of `alerts.rs`: rule evaluation, the active set and the
    history ring. Percentages are exact rationals here. */
module Alerts {
  import opened Arithmetic
  import opened Options

  datatype Severity = Info | Warning | Critical

  datatype Rule =
    | KillSwitch | DrawdownApproaching | HeadStalled | PendingStalled
    | NoMempoolFeed | ConversionCollapsed | ReorgObserved

  /** What the wording of an alert is made from. */
  datatype Message =
    | Fixed
    | Drawdown(cumulative: int, limit: nat)
    | StalledFor(seconds: nat)
    | Conversion(strategy: nat, submittable: nat, candidates: nat)
    | Reorgs(count: nat)

  datatype Alert = Alert(rule: Rule, severity: Severity, message: Message, atMs: nat, active: bool)

  datatype Condition = Condition(rule: Rule, severity: Severity, message: Message)

  datatype StrategyCount = StrategyCount(strategy: nat, candidates: nat, submittable: nat)

  datatype AlertSignals = AlertSignals(
    nowMs: nat, lastHeadMs: nat, lastPendingMs: nat, mempoolFeedConfigured: bool, killSwitchTripped: bool,
    drawdown: Option<(nat, int)>, conversion: seq<StrategyCount>, reorgsSinceLastEval: nat)

  datatype AlertsConfig = AlertsConfig(
    headStallSecs: nat, pendingStallSecs: nat, minConversionPct: real, minCandidates: nat)

  const HISTORY_CAP: nat := 200

  // ---------------------------------------------------------------------
  // Rule evaluation
  // ---------------------------------------------------------------------

  predicate Stalled(now: nat, last: nat, secs: nat) {
    last > 0 && MonusNat(now, last) > secs * 1_000
  }

  /** Zero candidates give no ratio, hence no collapse. */
  predicate Collapsed(c: StrategyCount, cfg: AlertsConfig) {
    c.candidates >= cfg.minCandidates && cfg.minConversionPct > 0.0 && c.candidates > 0
    && c.submittable as real / c.candidates as real * 100.0 < cfg.minConversionPct
  }

  /** When each rule's condition holds, as the table at the head of the file has it. */
  predicate Holds(rule: Rule, sig: AlertSignals, cfg: AlertsConfig) {
    match rule
    case KillSwitch => sig.killSwitchTripped
    case DrawdownApproaching =>
      !sig.killSwitchTripped && sig.drawdown.Some?
      && sig.drawdown.value.0 > 0 && sig.drawdown.value.1 < 0
      && -2 * sig.drawdown.value.1 >= sig.drawdown.value.0
    case HeadStalled => Stalled(sig.nowMs, sig.lastHeadMs, cfg.headStallSecs)
    case PendingStalled => sig.mempoolFeedConfigured && Stalled(sig.nowMs, sig.lastPendingMs, cfg.pendingStallSecs)
    case NoMempoolFeed => !sig.mempoolFeedConfigured
    case ConversionCollapsed => exists i :: 0 <= i < |sig.conversion| && Collapsed(sig.conversion[i], cfg)
    case ReorgObserved => sig.reorgsSinceLastEval > 0
  }

  function SeverityOf(rule: Rule): Severity {
    match rule
    case KillSwitch => Critical
    case HeadStalled => Critical
    case NoMempoolFeed => Info
    case _ => Warning
  }

  /** The order in which the rules are looked at; the two mempool rules exclude each other. */
  function Turn(rule: Rule): nat {
    match rule
    case KillSwitch => 0
    case DrawdownApproaching => 1
    case HeadStalled => 2
    case NoMempoolFeed => 3
    case PendingStalled => 3
    case ConversionCollapsed => 4
    case ReorgObserved => 5
  }

  predicate Names(conds: seq<Condition>, rule: Rule) {
    exists i :: 0 <= i < |conds| && conds[i].rule == rule
  }

  /** The wording a condition of this rule may carry. */
  predicate Worded(c: Condition, sig: AlertSignals, cfg: AlertsConfig) {
    match c.rule
    case KillSwitch => c.message == Fixed
    case NoMempoolFeed => c.message == Fixed
    case DrawdownApproaching =>
      sig.drawdown.Some? && c.message == Drawdown(sig.drawdown.value.1, sig.drawdown.value.0)
    case HeadStalled => c.message == StalledFor(MonusNat(sig.nowMs, sig.lastHeadMs) / 1_000)
    case PendingStalled => c.message == StalledFor(MonusNat(sig.nowMs, sig.lastPendingMs) / 1_000)
    case ConversionCollapsed =>
      exists i :: 0 <= i < |sig.conversion| && Collapsed(sig.conversion[i], cfg)
        && c.message == Conversion(sig.conversion[i].strategy, sig.conversion[i].submittable,
                                   sig.conversion[i].candidates)
    case ReorgObserved => c.message == Reorgs(sig.reorgsSinceLastEval)
  }

  /** The conditions so far name exactly the given rules, in their order, worded and graded
      as they should be. */
  ghost predicate Reports(out: seq<Condition>, rules: set<Rule>, sig: AlertSignals, cfg: AlertsConfig) {
    (forall r :: Names(out, r) <==> r in rules)
    && (forall i :: 0 <= i < |out| ==> out[i].severity == SeverityOf(out[i].rule) && Worded(out[i], sig, cfg))
    && (forall i, j :: 0 <= i < j < |out| && out[i].rule == out[j].rule ==> out[i].rule == ConversionCollapsed)
    && (forall i, j :: 0 <= i < j < |out| ==> Turn(out[i].rule) <= Turn(out[j].rule))
  }

  /** The conditions of the per-strategy rule, in the order they were reported. */
  function Collapses(conds: seq<Condition>): seq<Condition> {
    if conds == [] then []
    else
      var last := conds[|conds| - 1];
      Collapses(conds[..|conds| - 1]) + if last.rule == ConversionCollapsed then [last] else []
  }

  /** One condition for each strategy that collapsed, in their order. */
  function CollapsesOf(counts: seq<StrategyCount>, cfg: AlertsConfig): seq<Condition> {
    if counts == [] then []
    else
      var c := counts[|counts| - 1];
      CollapsesOf(counts[..|counts| - 1], cfg)
      + if Collapsed(c, cfg) then
          [Condition(ConversionCollapsed, Warning, Conversion(c.strategy, c.submittable, c.candidates))]
        else []
  }

  method EvaluateSignals(sig: AlertSignals, cfg: AlertsConfig) returns (out: seq<Condition>)
    ensures Reports(out, (set r: Rule | Holds(r, sig, cfg)), sig, cfg)
    ensures Collapses(out) == CollapsesOf(sig.conversion, cfg)
  {
    hide Reports, Holds, Collapses, CollapsesOf;
    ghost var rules;
    out, rules := ReportRisk(sig, cfg);
    out, rules := ReportStalls(out, rules, sig, cfg);
    out, rules := ReportConversions(out, rules, sig, cfg);
    out, rules := ReportReorgs(out, rules, sig, cfg);
    forall r: Rule ensures r in rules <==> Holds(r, sig, cfg) {
      match r {
        case KillSwitch => case DrawdownApproaching => case HeadStalled => case PendingStalled =>
        case NoMempoolFeed => case ConversionCollapsed => case ReorgObserved =>
      }
    }
    assert rules == (set r: Rule | Holds(r, sig, cfg));
  }

  /** The singleton of a rule whose condition holds. */
  ghost function IfHolds(rule: Rule, sig: AlertSignals, cfg: AlertsConfig): set<Rule> {
    if Holds(rule, sig, cfg) then {rule} else {}
  }

  method ReportRisk(sig: AlertSignals, cfg: AlertsConfig) returns (out: seq<Condition>, ghost rules: set<Rule>)
    ensures Reports(out, rules, sig, cfg) && Collapses(out) == []
    ensures rules == IfHolds(KillSwitch, sig, cfg) + IfHolds(DrawdownApproaching, sig, cfg)
  {
    NothingReported(sig, cfg);
    hide Reports, Collapses;
    out, rules := [], {};
    if sig.killSwitchTripped {
      out, rules := Report(out, Condition(KillSwitch, Critical, Fixed), rules, sig, cfg);
    } else if sig.drawdown.Some? {
      var (limit, cum) := sig.drawdown.value;
      if limit > 0 && cum < 0 {
        HalfOfTheLimit(-cum, limit);
        var used := (-cum) as real / limit as real * 100.0;
        if used >= 50.0 {
          out, rules := Report(out, Condition(DrawdownApproaching, Warning, Drawdown(cum, limit)), rules, sig, cfg);
        }
      }
    }
  }

  method ReportStalls(out: seq<Condition>, ghost rules: set<Rule>, sig: AlertSignals, cfg: AlertsConfig)
    returns (out': seq<Condition>, ghost rules': set<Rule>)
    requires Reports(out, rules, sig, cfg) && rules <= {KillSwitch, DrawdownApproaching}
    ensures Reports(out', rules', sig, cfg) && Collapses(out') == Collapses(out)
    ensures rules' == rules + IfHolds(HeadStalled, sig, cfg) + IfHolds(NoMempoolFeed, sig, cfg)
                      + IfHolds(PendingStalled, sig, cfg)
  {
    hide Reports, Collapses;
    out', rules' := out, rules;
    if sig.lastHeadMs > 0 && MonusNat(sig.nowMs, sig.lastHeadMs) > cfg.headStallSecs * 1_000 {
      var stalled := (sig.nowMs - sig.lastHeadMs) / 1_000;
      out', rules' := Report(out', Condition(HeadStalled, Critical, StalledFor(stalled)), rules', sig, cfg);
    }
    if !sig.mempoolFeedConfigured {
      out', rules' := Report(out', Condition(NoMempoolFeed, Info, Fixed), rules', sig, cfg);
    } else if sig.lastPendingMs > 0 && MonusNat(sig.nowMs, sig.lastPendingMs) > cfg.pendingStallSecs * 1_000 {
      var stalled := (sig.nowMs - sig.lastPendingMs) / 1_000;
      out', rules' := Report(out', Condition(PendingStalled, Warning, StalledFor(stalled)), rules', sig, cfg);
    }
  }

  method ReportReorgs(out: seq<Condition>, ghost rules: set<Rule>, sig: AlertSignals, cfg: AlertsConfig)
    returns (out': seq<Condition>, ghost rules': set<Rule>)
    requires Reports(out, rules, sig, cfg) && ReorgObserved !in rules
    ensures Reports(out', rules', sig, cfg) && rules' == rules + IfHolds(ReorgObserved, sig, cfg)
    ensures Collapses(out') == Collapses(out)
  {
    hide Reports, Collapses;
    out', rules' := out, rules;
    if sig.reorgsSinceLastEval > 0 {
      out', rules' := Report(out', Condition(ReorgObserved, Warning, Reorgs(sig.reorgsSinceLastEval)),
                             rules', sig, cfg);
    }
  }

  lemma NothingReported(sig: AlertSignals, cfg: AlertsConfig)
    ensures Reports([], {}, sig, cfg) && Collapses([]) == []
  {}

  /** The loop over the strategies' conversion. */
  method ReportConversions(out: seq<Condition>, ghost rules: set<Rule>, sig: AlertSignals, cfg: AlertsConfig)
    returns (out': seq<Condition>, ghost rules': set<Rule>)
    requires Reports(out, rules, sig, cfg) && rules !! {ConversionCollapsed, ReorgObserved}
    ensures Reports(out', rules', sig, cfg)
    ensures rules' == rules + IfHolds(ConversionCollapsed, sig, cfg)
    ensures Collapses(out') == Collapses(out) + CollapsesOf(sig.conversion, cfg)
  {
    hide Reports, Collapses;
    out', rules' := out, rules;
    for i := 0 to |sig.conversion|
      invariant Reports(out', rules', sig, cfg)
      invariant Collapses(out') == Collapses(out) + CollapsesOf(sig.conversion[..i], cfg)
      invariant rules' == if exists k :: 0 <= k < i && Collapsed(sig.conversion[k], cfg)
                          then rules + {ConversionCollapsed} else rules
    {
      var c := sig.conversion[i];
      assert sig.conversion[..i + 1][..i] == sig.conversion[..i];
      if c.candidates >= cfg.minCandidates && cfg.minConversionPct > 0.0 && c.candidates > 0 {
        var pct := c.submittable as real / c.candidates as real * 100.0;
        if pct < cfg.minConversionPct {
          assert Collapsed(sig.conversion[i], cfg);
          out', rules' := Report(out', Condition(ConversionCollapsed, Warning,
                                                 Conversion(c.strategy, c.submittable, c.candidates)),
                                 rules', sig, cfg);
        }
      }
    }
    assert sig.conversion[..|sig.conversion|] == sig.conversion;
  }

  /** Push one condition. */
  method Report(out: seq<Condition>, c: Condition, ghost rules: set<Rule>, ghost sig: AlertSignals,
                ghost cfg: AlertsConfig)
    returns (out': seq<Condition>, ghost rules': set<Rule>)
    requires Reports(out, rules, sig, cfg)
    requires c.severity == SeverityOf(c.rule) && Worded(c, sig, cfg)
    requires c.rule in rules ==> c.rule == ConversionCollapsed
    requires forall r :: r in rules ==> Turn(r) <= Turn(c.rule)
    ensures out' == out + [c] && rules' == rules + {c.rule} && Reports(out', rules', sig, cfg)
    ensures Collapses(out') == Collapses(out) + if c.rule == ConversionCollapsed then [c] else []
  {
    hide *;
    out', rules' := out + [c], rules + {c.rule};
    NamesAppend(out, c);
    CollapsesAppend(out, c);
    ReportsAppend(out, c, rules, sig, cfg);
  }

  lemma NamesAppend(out: seq<Condition>, c: Condition)
    ensures forall r :: Names(out + [c], r) <==> Names(out, r) || r == c.rule
  {
    var out' := out + [c];
    forall r ensures Names(out', r) <==> Names(out, r) || r == c.rule {
      if Names(out, r) {
        var i :| 0 <= i < |out| && out[i].rule == r;
        assert out'[i].rule == r;
      }
      assert out'[|out|].rule == c.rule;
    }
  }

  lemma CollapsesAppend(out: seq<Condition>, c: Condition)
    ensures Collapses(out + [c]) == Collapses(out) + if c.rule == ConversionCollapsed then [c] else []
  {
    assert (out + [c])[..|out|] == out;
  }

  lemma ReportsAppend(out: seq<Condition>, c: Condition, rules: set<Rule>, sig: AlertSignals, cfg: AlertsConfig)
    requires Reports(out, rules, sig, cfg) && c.severity == SeverityOf(c.rule) && Worded(c, sig, cfg)
    requires c.rule in rules ==> c.rule == ConversionCollapsed
    requires forall r :: r in rules ==> Turn(r) <= Turn(c.rule)
    ensures Reports(out + [c], rules + {c.rule}, sig, cfg)
  {
    NamesAppend(out, c);
    assert forall i :: 0 <= i < |out| ==> out[i].rule in rules by {
      assert forall i :: 0 <= i < |out| ==> Names(out, out[i].rule);
      hide Worded;
    }
    var out' := out + [c];
    assert forall i :: 0 <= i < |out| ==> out'[i] == out[i];
    assert forall i :: 0 <= i < |out'| ==> i < |out| || out'[i] == c;
    hide Names, SeverityOf, Worded, Turn;
  }

  /** When each rule is named, in figures. A stall is a silence longer than the configured
      seconds; half the drawdown limit is enough to warn. */
  lemma NamedWhen(out: seq<Condition>, sig: AlertSignals, cfg: AlertsConfig)
    requires Reports(out, (set r: Rule | Holds(r, sig, cfg)), sig, cfg)
    ensures Names(out, KillSwitch) <==> sig.killSwitchTripped
    ensures Names(out, DrawdownApproaching) <==>
              !sig.killSwitchTripped
              && exists limit, cum :: sig.drawdown == Some((limit, cum)) && limit > 0 && cum < 0
                                      && (-cum) as real >= limit as real / 2.0
    ensures Names(out, HeadStalled) <==> sig.lastHeadMs > 0 && sig.nowMs > sig.lastHeadMs + 1_000 * cfg.headStallSecs
    ensures Names(out, PendingStalled) <==>
              sig.mempoolFeedConfigured && sig.lastPendingMs > 0
              && sig.nowMs > sig.lastPendingMs + 1_000 * cfg.pendingStallSecs
    ensures Names(out, NoMempoolFeed) <==> !sig.mempoolFeedConfigured
    ensures Names(out, ReorgObserved) <==> sig.reorgsSinceLastEval != 0
  {
    if Holds(DrawdownApproaching, sig, cfg) {
      assert sig.drawdown == Some((sig.drawdown.value.0, sig.drawdown.value.1));
    }
    hide Worded, Names;
  }

  /** How grave a reported condition is and what it tells. */
  lemma ReportedAs(out: seq<Condition>, sig: AlertSignals, cfg: AlertsConfig, c: Condition)
    requires Reports(out, (set r: Rule | Holds(r, sig, cfg)), sig, cfg) && c in out
    ensures c.severity == Critical <==> c.rule in {KillSwitch, HeadStalled}
    ensures c.severity == Info <==> c.rule == NoMempoolFeed
    ensures match c.message
            case Fixed => c.rule in {KillSwitch, NoMempoolFeed}
            case Drawdown(cum, limit) => c.rule == DrawdownApproaching && sig.drawdown == Some((limit, cum))
            case StalledFor(seconds) =>
              (c.rule == HeadStalled && WholeSeconds(sig.nowMs - sig.lastHeadMs, seconds))
              || (c.rule == PendingStalled && WholeSeconds(sig.nowMs - sig.lastPendingMs, seconds))
            case Conversion(strategy, submittable, candidates) =>
              c.rule == ConversionCollapsed && StrategyCount(strategy, candidates, submittable) in sig.conversion
            case Reorgs(count) => c.rule == ReorgObserved && count == sig.reorgsSinceLastEval
  {
    var i :| 0 <= i < |out| && out[i] == c;
    assert Names(out, c.rule);
    assert Holds(c.rule, sig, cfg) && Worded(c, sig, cfg);
    hide Reports, Names, Collapsed;
  }

  /** The whole seconds of a duration. */
  predicate WholeSeconds(ms: int, seconds: nat) {
    1_000 * seconds <= ms < 1_000 * seconds + 1_000
  }

  /** Enough candidates, at least one, and too few of them submittable. */
  predicate Short(s: StrategyCount, cfg: AlertsConfig) {
    s.candidates > 0 && s.candidates >= cfg.minCandidates
    && 100.0 * s.submittable as real < cfg.minConversionPct * s.candidates as real
  }

  /** The strategies reported as collapsed are exactly those short of the configured share. */
  lemma {:induction false} CollapsesSay(counts: seq<StrategyCount>, cfg: AlertsConfig, c: Condition)
    ensures c in CollapsesOf(counts, cfg) <==>
              c.rule == ConversionCollapsed && c.severity == Warning
              && exists s :: s in counts && Short(s, cfg)
                             && c.message == Conversion(s.strategy, s.submittable, s.candidates)
  {
    if counts != [] {
      var n := |counts| - 1;
      CollapsesSay(counts[..n], cfg, c);
      ShareIs(counts[n], cfg);
      assert forall s :: s in counts <==> s in counts[..n] || s == counts[n];
      hide Collapsed, Short;
    }
  }

  /** Strategy by strategy, in order. */
  lemma {:induction false} CollapsesConcatenate(a: seq<StrategyCount>, b: seq<StrategyCount>, cfg: AlertsConfig)
    ensures CollapsesOf(a + b, cfg) == CollapsesOf(a, cfg) + CollapsesOf(b, cfg)
  {
    if b == [] {
      assert a + b == a;
    } else {
      var n := |b| - 1;
      assert (a + b)[..|a| + n] == a + b[..n];
      CollapsesConcatenate(a, b[..n], cfg);
    }
  }

  lemma ShareIs(s: StrategyCount, cfg: AlertsConfig)
    ensures Collapsed(s, cfg) <==> Short(s, cfg)
  {
    if s.candidates > 0 {
      var c, share := s.candidates as real, s.submittable as real / s.candidates as real;
      assert share * c == s.submittable as real;
      assert share * 100.0 < cfg.minConversionPct <==> share * 100.0 * c < cfg.minConversionPct * c;
      assert share * 100.0 * c == 100.0 * s.submittable as real;
    }
  }

  lemma HalfOfTheLimit(used: nat, limit: nat)
    requires limit > 0
    ensures used as real / limit as real * 100.0 >= 50.0 <==> 2 * used >= limit
  {}
}
