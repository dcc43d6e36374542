// Matching of expected events against the logs of a call.
module Expectations {
  import opened Options
  import opened Bits
  import opened BvTerms
  import opened BvFacts

  const ADDRESS: nat := 160

  // ---- events and calls ----

  /** Data of no bytes is None. */
  datatype Log = Log(address: Bv, topics: seq<Bv>, data: Option<Bv>)

  /** Which topics and whether the data must agree, and how often the event is expected. */
  datatype ExpectedEmit = ExpectedEmit(checks: seq<bool>, emitter: Option<Bv>, count: Option<nat>, log: Option<Log>)

  datatype Ctx = Ctx(target: Bv, trace: seq<Item>, error: bool, data: Option<seq<nat>>)

  datatype Item = Emitted(log: Log) | Called(call: Ctx)

  predicate WfLog(log: Log) {
    && Wf(log.address) && log.address.w == ADDRESS
    && |log.topics| <= 4
    && (forall i | 0 <= i < |log.topics| :: Wf(log.topics[i]) && log.topics[i].w == WORD)
    && (log.data.Some? ==> Wf(log.data.value))
  }

  predicate WfEmit(e: ExpectedEmit) {
    && |e.checks| == 5
    && (e.emitter.Some? ==> Wf(e.emitter.value) && e.emitter.value.w == ADDRESS)
    && (e.log.Some? ==> WfLog(e.log.value))
  }

  /** All logs of a call tree, in execution order. */
  function LogsOf(c: Ctx): seq<Log>
    decreases c
  {
    LogsIn(c.trace)
  }

  function LogsIn(items: seq<Item>): seq<Log>
    decreases items
  {
    if items == [] then [] else LogsAt(items[0]) + LogsIn(items[1..])
  }

  function LogsAt(item: Item): seq<Log>
    decreases item
  {
    match item
    case Emitted(log) => [log]
    case Called(c) => LogsOf(c)
  }

  /** In order: the logs of a part of a trace, then those of the rest; a call stands for the logs of its own trace. */
  lemma {:induction false} LogsInOrder(a: seq<Item>, b: seq<Item>, log: Log, call: Ctx)
    ensures LogsIn(a + b) == LogsIn(a) + LogsIn(b)
    ensures LogsIn([]) == [] && LogsIn([Emitted(log)]) == [log]
    ensures LogsIn([Called(call)]) == LogsIn(call.trace) == LogsOf(call)
    decreases |a|
  {
    if a == [] {
      assert a + b == b;
    } else {
      assert (a + b)[0] == a[0] && (a + b)[1..] == a[1..] + b;
      LogsInOrder(a[1..], b, log, call);
    }
  }

  // ---- one event ----

  function EqTerm(a: Bv, b: Bv): Bl {
    Rel(Eq, a, b)
  }

  function EqData(a: Option<Bv>, b: Option<Bv>): Bl {
    if a.None? && b.None? then Lit(true)
    else if a.None? || b.None? || a.value.w != b.value.w then Lit(false)
    else EqTerm(a.value, b.value)
  }

  /** The condition under which a log is the expected event. */
  function LogMatches(e: ExpectedEmit, log: Log): (p: Bl)
    requires WfEmit(e) && WfLog(log) && e.log.Some?
    ensures WfB(p)
  {
    var wanted := e.log.value;
    if |log.topics| != |wanted.topics| then Lit(false) else
    Conjunction(
      (if e.emitter.Some? then [EqTerm(log.address, e.emitter.value)] else []) +
      TopicConditions(e, log, |log.topics|) +
      (if e.checks[4] then [EqData(log.data, wanted.data)] else []))
  }

  function TopicConditions(e: ExpectedEmit, log: Log, n: nat): (ps: seq<Bl>)
    requires WfEmit(e) && WfLog(log) && e.log.Some? && n <= |log.topics| == |e.log.value.topics|
    ensures WfBAll(ps)
  {
    if n == 0 then [] else
    TopicConditions(e, log, n - 1) + if e.checks[n - 1] then [EqTerm(log.topics[n - 1], e.log.value.topics[n - 1])] else []
  }

  function Conjunction(ps: seq<Bl>): (p: Bl)
    requires WfBAll(ps)
    ensures WfB(p)
  {
    if ps == [] then Lit(true) else Junction(true, ps)
  }

  ghost predicate SameWord(a: Bv, b: Bv, rho: Val)
    requires Wf(a) && Wf(b)
  {
    a.w == b.w && Eval(a, rho) == Eval(b, rho)
  }

  /** The log is the expected event, as far as it is checked. */
  ghost predicate Matches(e: ExpectedEmit, log: Log, rho: Val)
    requires WfEmit(e) && WfLog(log) && e.log.Some?
  {
    var wanted := e.log.value;
    && |log.topics| == |wanted.topics|
    && (e.emitter.Some? ==> SameWord(log.address, e.emitter.value, rho))
    && (forall i | 0 <= i < |log.topics| && e.checks[i] :: SameWord(log.topics[i], wanted.topics[i], rho))
    && (e.checks[4] ==>
          log.data.Some? == wanted.data.Some? && (log.data.Some? ==> SameWord(log.data.value, wanted.data.value, rho)))
  }

  lemma EqMeans(a: Bv, b: Bv, rho: Val)
    requires Wf(a) && Wf(b) && a.w == b.w
    ensures WfB(EqTerm(a, b)) && (EvalB(EqTerm(a, b), rho) <==> Eval(a, rho) == Eval(b, rho))
  {
  }

  lemma ConjunctionMeans(ps: seq<Bl>, rho: Val)
    requires WfBAll(ps)
    ensures EvalB(Conjunction(ps), rho) <==> Model(ps, rho)
  {
    hide Eval, Wf;
  }

  lemma ConcatModel(ps: seq<Bl>, qs: seq<Bl>, rho: Val)
    requires WfBAll(ps) && WfBAll(qs)
    ensures WfBAll(ps + qs) && (Model(ps + qs, rho) <==> Model(ps, rho) && Model(qs, rho))
  {
    hide EvalB, WfB;
    if Model(ps + qs, rho) {
      assert forall i | 0 <= i < |ps| :: (ps + qs)[i] == ps[i];
      assert forall i | 0 <= i < |qs| :: (ps + qs)[|ps| + i] == qs[i];
    }
  }

  lemma {:induction false} TopicsMean(e: ExpectedEmit, log: Log, n: nat, rho: Val)
    requires WfEmit(e) && WfLog(log) && e.log.Some? && n <= |log.topics| == |e.log.value.topics|
    ensures Model(TopicConditions(e, log, n), rho) <==>
              forall i | 0 <= i < n && e.checks[i] :: SameWord(log.topics[i], e.log.value.topics[i], rho)
  {
    hide Eval, Wf, EvalB, WfB, EqTerm, Model, SameWord;
    if n == 0 {
      NoModel(rho);
    } else {
      TopicsMean(e, log, n - 1, rho);
      if e.checks[n - 1] {
        TopicMeans(log.topics[n - 1], e.log.value.topics[n - 1], rho);
        ConcatModel(TopicConditions(e, log, n - 1), [EqTerm(log.topics[n - 1], e.log.value.topics[n - 1])], rho);
      } else {
        assert TopicConditions(e, log, n) == TopicConditions(e, log, n - 1);
      }
    }
  }

  lemma NoModel(rho: Val)
    ensures WfBAll([]) && Model([], rho)
  {
  }

  lemma TopicMeans(a: Bv, b: Bv, rho: Val)
    requires Wf(a) && Wf(b) && a.w == b.w
    ensures WfBAll([EqTerm(a, b)]) && (Model([EqTerm(a, b)], rho) <==> SameWord(a, b, rho))
  {
    hide Eval, Wf, EvalB, WfB, EqTerm, Model;
    EqMeans(a, b, rho);
    OneModel(EqTerm(a, b), rho);
  }

  lemma OneModel(p: Bl, rho: Val)
    requires WfB(p)
    ensures WfBAll([p]) && (Model([p], rho) <==> EvalB(p, rho))
  {
    hide WfB, EvalB;
    assert [p][0] == p;
  }

  lemma DataMeans(a: Option<Bv>, b: Option<Bv>, rho: Val)
    requires (a.Some? ==> Wf(a.value)) && (b.Some? ==> Wf(b.value))
    ensures WfB(EqData(a, b))
    ensures EvalB(EqData(a, b), rho) <==> a.Some? == b.Some? && (a.Some? ==> SameWord(a.value, b.value, rho))
  {
    hide Wf, Eval;
  }

  lemma LogMatchesMeans(e: ExpectedEmit, log: Log, rho: Val)
    requires WfEmit(e) && WfLog(log) && e.log.Some?
    ensures EvalB(LogMatches(e, log), rho) <==> Matches(e, log, rho)
  {
    hide Wf, Eval, WfB, EvalB, EqTerm, EqData, SameWord, TopicConditions, Conjunction;
    var wanted := e.log.value;
    if |log.topics| == |wanted.topics| {
      var emitter := if e.emitter.Some? then [EqTerm(log.address, e.emitter.value)] else [];
      var topics := TopicConditions(e, log, |log.topics|);
      var data := if e.checks[4] then [EqData(log.data, wanted.data)] else [];
      EmitterMeans(e, log, rho);
      TopicsMean(e, log, |log.topics|, rho);
      DataMeans(log.data, wanted.data, rho);
      OneModel(EqData(log.data, wanted.data), rho);
      ConcatModel(emitter, topics, rho);
      ConcatModel(emitter + topics, data, rho);
      ConjunctionMeans(emitter + topics + data, rho);
    } else {
      FalseMeans(rho);
    }
  }

  lemma EmitterMeans(e: ExpectedEmit, log: Log, rho: Val)
    requires WfEmit(e) && WfLog(log)
    ensures var ps := if e.emitter.Some? then [EqTerm(log.address, e.emitter.value)] else [];
      WfBAll(ps) && (Model(ps, rho) <==> (e.emitter.Some? ==> SameWord(log.address, e.emitter.value, rho)))
  {
    hide Wf, Eval, WfB, EvalB, EqTerm;
    if e.emitter.Some? {
      EqMeans(log.address, e.emitter.value, rho);
      OneModel(EqTerm(log.address, e.emitter.value), rho);
    }
  }

  lemma FalseMeans(rho: Val)
    ensures !EvalB(Lit(false), rho) && EvalB(Lit(true), rho)
  {
  }

  // ---- ordered subsequences ----

  predicate WfSpecs(es: seq<ExpectedEmit>) {
    forall i | 0 <= i < |es| :: WfEmit(es[i]) && es[i].log.Some?
  }

  predicate WfLogs(logs: seq<Log>) {
    forall j | 0 <= j < |logs| :: WfLog(logs[j])
  }

  /** f maps the expectations from i on to increasing positions from j on, at which they match. */
  ghost predicate Embedding(es: seq<ExpectedEmit>, logs: seq<Log>, i: nat, j: nat, f: seq<nat>, rho: Val)
    requires WfSpecs(es) && WfLogs(logs) && i <= |es|
  {
    && |f| == |es| - i
    && (forall k | 0 <= k < |f| :: j <= f[k] < |logs| && Matches(es[i + k], logs[f[k]], rho))
    && (forall k, l | 0 <= k < l < |f| :: f[k] < f[l])
  }

  /** The expectations from i on are a subsequence of the logs from j on. */
  ghost predicate Embeds(es: seq<ExpectedEmit>, logs: seq<Log>, i: nat, j: nat, rho: Val)
    requires WfSpecs(es) && WfLogs(logs) && i <= |es|
  {
    exists f: seq<nat> :: Embedding(es, logs, i, j, f, rho)
  }

  lemma EmbedsNone(es: seq<ExpectedEmit>, logs: seq<Log>, j: nat, rho: Val)
    requires WfSpecs(es) && WfLogs(logs)
    ensures Embeds(es, logs, |es|, j, rho)
  {
    assert Embedding(es, logs, |es|, j, [], rho);
  }

  lemma {:induction false} PositionsGrow(es: seq<ExpectedEmit>, logs: seq<Log>, i: nat, j: nat, f: seq<nat>, rho: Val, k: nat)
    requires WfSpecs(es) && WfLogs(logs) && i <= |es| && Embedding(es, logs, i, j, f, rho) && k < |f|
    ensures f[k] >= j + k
  {
    hide Matches, WfEmit, WfLog;
    if k > 0 {
      PositionsGrow(es, logs, i, j, f, rho, k - 1);
    }
  }

  /** Too few logs are left. */
  lemma EmbedsTooMany(es: seq<ExpectedEmit>, logs: seq<Log>, i: nat, j: nat, rho: Val)
    requires WfSpecs(es) && WfLogs(logs) && i <= |es| && j <= |logs| && |es| - i > |logs| - j
    ensures !Embeds(es, logs, i, j, rho)
  {
    hide Matches, WfEmit, WfLog;
    if f: seq<nat> :| Embedding(es, logs, i, j, f, rho) {
      PositionsGrow(es, logs, i, j, f, rho, |f| - 1);
    }
  }

  /** Either the first log is the first expectation, or it is skipped. */
  lemma EmbedsStep(es: seq<ExpectedEmit>, logs: seq<Log>, i: nat, j: nat, rho: Val)
    requires WfSpecs(es) && WfLogs(logs) && i < |es| && j < |logs|
    ensures Embeds(es, logs, i, j, rho) <==>
              (Matches(es[i], logs[j], rho) && Embeds(es, logs, i + 1, j + 1, rho)) || Embeds(es, logs, i, j + 1, rho)
  {
    hide Matches, WfEmit, WfLog;
    if f: seq<nat> :| Embedding(es, logs, i, j, f, rho) {
      if f[0] == j {
        var g := f[1..];
        forall k | 0 <= k < |g|
          ensures j + 1 <= g[k] < |logs| && Matches(es[i + 1 + k], logs[g[k]], rho)
        {
          assert g[k] == f[k + 1] && f[0] < f[k + 1];
        }
        assert Embedding(es, logs, i + 1, j + 1, g, rho);
        assert Matches(es[i + 0], logs[f[0]], rho);
      } else {
        forall k | 0 <= k < |f|
          ensures j + 1 <= f[k]
        {
          if k > 0 {
            assert f[0] < f[k];
          }
        }
        assert Embedding(es, logs, i, j + 1, f, rho);
      }
    }
    if Matches(es[i], logs[j], rho) && Embeds(es, logs, i + 1, j + 1, rho) {
      var g: seq<nat> :| Embedding(es, logs, i + 1, j + 1, g, rho);
      var f := [j] + g;
      forall k | 0 <= k < |f|
        ensures j <= f[k] < |logs| && Matches(es[i + k], logs[f[k]], rho)
      {
        if k > 0 {
          assert f[k] == g[k - 1] && Matches(es[i + 1 + (k - 1)], logs[g[k - 1]], rho);
        }
      }
      assert Embedding(es, logs, i, j, f, rho);
    }
    if Embeds(es, logs, i, j + 1, rho) {
      var f: seq<nat> :| Embedding(es, logs, i, j + 1, f, rho);
      assert Embedding(es, logs, i, j, f, rho);
    }
  }

  /** Matches expectations against logs, each pair of positions once. */
  class Matcher {
    const ordered: seq<ExpectedEmit>
    const logs: seq<Log>
    var memo: map<(nat, nat), Bl>

    ghost predicate Valid()
      reads this
    {
      && WfSpecs(ordered)
      && WfLogs(logs)
      && forall i, j | (i, j) in memo ::
           i <= |ordered| && WfB(memo[(i, j)]) && Denotes(memo[(i, j)], i, j)
    }

    /** The condition says that the rest of the expectations is a subsequence of the rest of the logs. */
    ghost predicate Denotes(p: Bl, i: nat, j: nat)
      requires WfSpecs(ordered) && WfLogs(logs) && WfB(p) && i <= |ordered|
    {
      forall rho: Val :: EvalB(p, rho) <==> Embeds(ordered, logs, i, j, rho)
    }

    constructor (ordered: seq<ExpectedEmit>, logs: seq<Log>)
      requires WfSpecs(ordered) && WfLogs(logs)
      ensures Valid() && this.ordered == ordered && this.logs == logs
    {
      this.ordered, this.logs, memo := ordered, logs, map[];
    }

    method MatchesFrom(i: nat, j: nat) returns (p: Bl)
      requires Valid() && i <= |ordered| && j <= |logs|
      modifies this
      ensures Valid() && WfB(p) && Denotes(p, i, j)
      decreases |logs| - j
    {
      hide WfB, EvalB, Embeds, WfEmit, WfLog, Matches;
      if i == |ordered| {
        TrueDenotes(i, j);
        return Lit(true);
      }
      if |ordered| - i > |logs| - j {
        FalseDenotes(i, j);
        return Lit(false);
      }
      if (i, j) !in memo {
        var taken := MatchesFrom(i + 1, j + 1);
        var skipped := MatchesFrom(i, j + 1);
        p := Junction(false, [Junction(true, [LogMatches(ordered[i], logs[j]), taken]), skipped]);
        EitherDenotes(i, j, taken, skipped);
        memo := memo[(i, j) := p];
      }
      p := memo[(i, j)];
    }

    lemma TrueDenotes(i: nat, j: nat)
      requires WfSpecs(ordered) && WfLogs(logs) && i == |ordered|
      ensures WfB(Lit(true)) && Denotes(Lit(true), i, j)
    {
      hide Embeds, WfEmit, WfLog;
      forall rho: Val ensures Embeds(ordered, logs, i, j, rho) {
        EmbedsNone(ordered, logs, j, rho);
      }
    }

    lemma FalseDenotes(i: nat, j: nat)
      requires WfSpecs(ordered) && WfLogs(logs) && i <= |ordered| && j <= |logs| && |ordered| - i > |logs| - j
      ensures WfB(Lit(false)) && Denotes(Lit(false), i, j)
    {
      hide Embeds, WfEmit, WfLog;
      forall rho: Val ensures !Embeds(ordered, logs, i, j, rho) {
        EmbedsTooMany(ordered, logs, i, j, rho);
      }
    }

    lemma EitherDenotes(i: nat, j: nat, taken: Bl, skipped: Bl)
      requires WfSpecs(ordered) && WfLogs(logs) && i < |ordered| && j < |logs|
      requires WfB(taken) && WfB(skipped) && Denotes(taken, i + 1, j + 1) && Denotes(skipped, i, j + 1)
      ensures var p := Junction(false, [Junction(true, [LogMatches(ordered[i], logs[j]), taken]), skipped]);
        WfB(p) && Denotes(p, i, j)
    {
      hide Embeds, WfEmit, WfLog, LogMatches, Matches;
      var m := LogMatches(ordered[i], logs[j]);
      EitherWf(m, taken, skipped);
      forall rho: Val
        ensures EvalB(Junction(false, [Junction(true, [m, taken]), skipped]), rho) <==> Embeds(ordered, logs, i, j, rho)
      {
        EmbedsStep(ordered, logs, i, j, rho);
        LogMatchesMeans(ordered[i], logs[j], rho);
        EitherMeans(m, taken, skipped, rho);
      }
    }
  }

  lemma EitherWf(m: Bl, p: Bl, q: Bl)
    requires WfB(m) && WfB(p) && WfB(q)
    ensures WfB(Junction(true, [m, p])) && WfB(Junction(false, [Junction(true, [m, p]), q]))
  {
  }

  lemma EitherMeans(m: Bl, p: Bl, q: Bl, rho: Val)
    requires WfB(m) && WfB(p) && WfB(q)
    ensures WfB(Junction(false, [Junction(true, [m, p]), q]))
    ensures EvalB(Junction(false, [Junction(true, [m, p]), q]), rho) <==> (EvalB(m, rho) && EvalB(p, rho)) || EvalB(q, rho)
  {
    hide Eval, Wf;
    EitherWf(m, p, q);
    var both := Junction(true, [m, p]);
    assert [m, p][0] == m && [m, p][1] == p;
    assert EvalB(both, rho) <==> EvalB(m, rho) && EvalB(p, rho);
    assert [both, q][0] == both && [both, q][1] == q;
  }

  // ---- counted expectations ----

  ghost function CountMatches(e: ExpectedEmit, logs: seq<Log>, rho: Val): (n: nat)
    requires WfEmit(e) && WfLogs(logs) && e.log.Some?
    ensures n <= |logs|
  {
    if logs == [] then 0 else
    CountMatches(e, logs[..|logs| - 1], rho) + if Matches(e, logs[|logs| - 1], rho) then 1 else 0
  }

  /** 1 for a matching log, 0 for any other. */
  function Hit(e: ExpectedEmit, log: Log): Bv
    requires WfEmit(e) && WfLog(log) && e.log.Some?
  {
    Ite(WORD, LogMatches(e, log), Num(WORD, 1), Num(WORD, 0))
  }

  function Hits(e: ExpectedEmit, logs: seq<Log>): (hs: seq<Bv>)
    requires WfEmit(e) && WfLogs(logs) && e.log.Some?
    ensures |hs| == |logs|
  {
    seq(|logs|, j requires 0 <= j < |logs| => Hit(e, logs[j]))
  }

  lemma HitMeans(e: ExpectedEmit, log: Log, rho: Val)
    requires WfEmit(e) && WfLog(log) && e.log.Some?
    ensures Wf(Hit(e, log)) && Hit(e, log).w == WORD
    ensures Eval(Hit(e, log), rho) == if Matches(e, log, rho) then 1 else 0
  {
    hide EvalB, WfB, LogMatches, Matches, WfEmit, WfLog;
    LogMatchesMeans(e, log, rho);
    assert Pow2(WORD) > 1;
    assert Wf(Num(WORD, 1)) && Wf(Num(WORD, 0));
  }

  lemma {:induction false} HitsMean(e: ExpectedEmit, logs: seq<Log>, rho: Val)
    requires WfEmit(e) && WfLogs(logs) && e.log.Some?
    ensures WfAll(Hits(e, logs), WORD) && WfEach(Hits(e, logs))
    ensures Sum(Values(Hits(e, logs), rho)) == CountMatches(e, logs, rho)
    decreases |logs|
  {
    hide Eval, Wf, Hit, Matches, WfEmit, WfLog;
    if logs != [] {
      var n := |logs| - 1;
      HitsMean(e, logs[..n], rho);
      HitMeans(e, logs[n], rho);
      var hs := Hits(e, logs);
      assert hs == Hits(e, logs[..n]) + [Hit(e, logs[n])];
      assert Values(hs, rho) == Values(Hits(e, logs[..n]), rho) + [Eval(Hit(e, logs[n]), rho)];
      SumSnoc(Values(Hits(e, logs[..n]), rho), Eval(Hit(e, logs[n]), rho));
    }
  }

  /** The condition on the number of matching logs. */
  function CountCondition(e: ExpectedEmit, logs: seq<Log>): Bl
    requires WfEmit(e) && WfLogs(logs) && e.log.Some? && e.count.Some?
  {
    Rel(Eq, if logs == [] then Num(WORD, 0) else NestedSum(WORD, Hits(e, logs)), Num(WORD, Mod2(e.count.value, WORD)))
  }

  /** The number of matching logs is the expected one, for all counts that fit in a word. */
  lemma CountMeans(e: ExpectedEmit, logs: seq<Log>, rho: Val)
    requires WfEmit(e) && WfLogs(logs) && e.log.Some? && e.count.Some?
    ensures WfB(CountCondition(e, logs))
    ensures |logs| < Pow2(WORD) && e.count.value < Pow2(WORD) ==>
              (EvalB(CountCondition(e, logs), rho) <==> CountMatches(e, logs, rho) == e.count.value)
  {
    hide Pow2, Hits, Rem, WfEmit, WfLog, CountMatches, NestedSum;
    HitsMean(e, logs, rho);
    assert logs == [] ==> CountMatches(e, logs, rho) == 0 by {
      NoLogs(e, rho);
    }
    if logs != [] {
      EvalNestedSum(WORD, Hits(e, logs), rho);
    }
    if |logs| < Pow2(WORD) && e.count.value < Pow2(WORD) {
      SmallMod(e.count.value, WORD);
      SmallMod(CountMatches(e, logs, rho), WORD);
    }
  }

  lemma NoLogs(e: ExpectedEmit, rho: Val)
    requires WfEmit(e) && e.log.Some?
    ensures CountMatches(e, [], rho) == 0
  {
  }

  // ---- all expectations of a call ----

  function PlainOnes(es: seq<ExpectedEmit>): (r: seq<ExpectedEmit>)
    ensures forall e | e in r :: e in es && e.count.None?
  {
    if es == [] then [] else
    (if es[0].count.None? then [es[0]] else []) + PlainOnes(es[1..])
  }

  /** The plain ones among some expectations, then those among the rest. */
  lemma {:induction false} PlainInOrder(a: seq<ExpectedEmit>, b: seq<ExpectedEmit>, e: ExpectedEmit)
    ensures PlainOnes(a + b) == PlainOnes(a) + PlainOnes(b)
    ensures PlainOnes([e]) == if e.count.None? then [e] else []
    decreases |a|
  {
    assert [e][1..] == [];
    if a == [] {
      assert a + b == b;
    } else {
      assert (a + b)[0] == a[0] && (a + b)[1..] == a[1..] + b;
      PlainInOrder(a[1..], b, e);
    }
  }

  predicate WfAllEmits(es: seq<ExpectedEmit>) {
    forall i | 0 <= i < |es| :: WfEmit(es[i])
  }

  /** Every counted expectation is met exactly, and the plain ones appear in order. */
  ghost predicate AllMet(es: seq<ExpectedEmit>, logs: seq<Log>, rho: Val)
    requires WfSpecs(es) && WfSpecs(PlainOnes(es)) && WfLogs(logs)
  {
    && (forall i | 0 <= i < |es| && es[i].count.Some? :: CountMatches(es[i], logs, rho) == es[i].count.value)
    && Embeds(PlainOnes(es), logs, 0, 0, rho)
  }

  lemma PlainWf(es: seq<ExpectedEmit>)
    requires WfSpecs(es)
    ensures WfSpecs(PlainOnes(es))
  {
    forall i | 0 <= i < |PlainOnes(es)|
      ensures WfEmit(PlainOnes(es)[i]) && PlainOnes(es)[i].log.Some?
    {
      assert PlainOnes(es)[i] in es;
    }
  }

  /** Whether the expectations can be met, and the condition for it. */
  method EmitsMatch(specs: seq<ExpectedEmit>, call: Ctx) returns (cond: Bl, error: bool)
    requires WfAllEmits(specs) && WfLogs(LogsOf(call))
    ensures WfB(cond)
    ensures error <==> exists i :: 0 <= i < |specs| && specs[i].log.None?
    ensures error ==> cond == Lit(false)
    ensures !error ==> WfSpecs(specs) && WfSpecs(PlainOnes(specs))
    ensures !error && |LogsOf(call)| < Pow2(WORD) && (forall i | 0 <= i < |specs| && specs[i].count.Some? :: specs[i].count.value < Pow2(WORD)) ==>
              forall rho: Val :: EvalB(cond, rho) <==> AllMet(specs, LogsOf(call), rho)
  {
    hide Pow2, WfB, EvalB, Embeds, WfEmit, WfLog, Matches, CountCondition, CountMatches, PlainOnes;
    for i := 0 to |specs|
      invariant forall j | 0 <= j < i :: specs[j].log.Some?
    {
      if specs[i].log.None? {
        LitWf(false);
        return Lit(false), true;
      }
    }
    error := false;
    var logs := LogsOf(call);
    PlainWf(specs);
    var conds: seq<Bl> := [];
    ghost var small := |logs| < Pow2(WORD) && (forall i | 0 <= i < |specs| && specs[i].count.Some? :: specs[i].count.value < Pow2(WORD));
    for i := 0 to |specs|
      invariant WfBAll(conds)
      invariant small ==> forall rho: Val :: Model(conds, rho) <==>
                            forall j | 0 <= j < i && specs[j].count.Some? :: CountMatches(specs[j], logs, rho) == specs[j].count.value
    {
      if specs[i].count.Some? {
        ghost var before := conds;
        CountMeans(specs[i], logs, Val(imap[], imap[], iset{}));
        conds := conds + [CountCondition(specs[i], logs)];
        forall rho: Val
          ensures WfBAll(conds) && (Model(conds, rho) <==> Model(before, rho) && EvalB(CountCondition(specs[i], logs), rho))
          ensures small ==> (EvalB(CountCondition(specs[i], logs), rho) <==> CountMatches(specs[i], logs, rho) == specs[i].count.value)
        {
          CountMeans(specs[i], logs, rho);
          OneModel(CountCondition(specs[i], logs), rho);
          ConcatModel(before, [CountCondition(specs[i], logs)], rho);
        }
      }
    }
    var ordered := PlainOnes(specs);
    ghost var counts := conds;
    if ordered != [] {
      var matcher := new Matcher(ordered, logs);
      var p := matcher.MatchesFrom(0, 0);
      conds := conds + [p];
      forall rho: Val
        ensures WfBAll(conds) && (Model(conds, rho) <==> Model(counts, rho) && Embeds(ordered, logs, 0, 0, rho))
      {
        OneModel(p, rho);
        ConcatModel(counts, [p], rho);
      }
    } else {
      forall rho: Val ensures Embeds(ordered, logs, 0, 0, rho) {
        EmbedsNone(ordered, logs, 0, rho);
      }
    }
    cond := Conjunction(conds);
    forall rho: Val ensures EvalB(cond, rho) <==> Model(conds, rho) {
      ConjunctionMeans(conds, rho);
    }
  }

  lemma LitWf(b: bool)
    ensures WfB(Lit(b))
  {
  }

  // ---- pending expectations ----

  /** The expected events of a call frame. */
  class Pending {
    var emits: seq<ExpectedEmit>

    constructor ()
      ensures emits == []
    {
      emits := [];
    }

    /** The first expectation that waits for an event gets this one. */
    method CaptureLog(log: Log)
      modifies this
      ensures |emits| == |old(emits)|
      ensures (forall i | 0 <= i < |old(emits)| :: old(emits)[i].log.Some?) ==> emits == old(emits)
      ensures forall i | 0 <= i < |old(emits)| && old(emits)[i].log.None? && (forall j | 0 <= j < i :: old(emits)[j].log.Some?) ::
                emits == old(emits)[i := old(emits)[i].(log := Some(log))]
    {
      for i := 0 to |emits|
        invariant emits == old(emits) && forall j | 0 <= j < i :: emits[j].log.Some?
      {
        if emits[i].log.None? {
          emits := emits[i := emits[i].(log := Some(log))];
          return;
        }
      }
    }
  }

  // ---- the original reverter ----

  /** The call that no other call follows. */
  function LastCall(items: seq<Item>): (r: Option<Ctx>)
    ensures r.None? <==> forall i | 0 <= i < |items| :: items[i].Emitted?
    ensures r.Some? ==> exists i :: 0 <= i < |items| && items[i] == Called(r.value) && NoCallAfter(items, i)
  {
    if items == [] then None else
    var last := items[|items| - 1];
    if last.Called? then Some(last.call) else LastCall(items[..|items| - 1])
  }

  predicate NoCallAfter(items: seq<Item>, i: nat) {
    forall j | i < j < |items| :: items[j].Emitted?
  }

  /** The last subcall reverted with the data that the call itself reverts with. */
  predicate BubblesUp(c: Ctx) {
    var child := LastCall(c.trace);
    child.Some? && child.value.error && child.value.data.Some? && child.value.data == c.data
  }

  /** A chain of calls in which each reverts with the data of the next. */
  ghost predicate RevertChain(from: Ctx, to: Ctx, n: nat)
    decreases n
  {
    if n == 0 then from == to else BubblesUp(from) && RevertChain(LastCall(from.trace).value, to, n - 1)
  }

  function CtxSize(c: Ctx): nat
    decreases c
  {
    1 + ItemsSize(c.trace)
  }

  function ItemsSize(items: seq<Item>): nat
    decreases items
  {
    if items == [] then 0 else ItemsSize(items[..|items| - 1]) + ItemSize(items[|items| - 1])
  }

  function ItemSize(item: Item): nat
    decreases item
  {
    if item.Called? then CtxSize(item.call) else 0
  }

  lemma {:induction false} LastCallSmaller(items: seq<Item>)
    requires LastCall(items).Some?
    ensures CtxSize(LastCall(items).value) <= ItemsSize(items)
  {
    if !items[|items| - 1].Called? {
      LastCallSmaller(items[..|items| - 1]);
    }
  }

  lemma {:induction false} ChainExtends(from: Ctx, to: Ctx, n: nat)
    requires RevertChain(from, to, n) && BubblesUp(to)
    ensures RevertChain(from, LastCall(to.trace).value, n + 1)
    decreases n
  {
    hide LastCall;
    if n == 0 {
      assert RevertChain(LastCall(to.trace).value, LastCall(to.trace).value, 0);
    } else {
      ChainExtends(LastCall(from.trace).value, to, n - 1);
    }
  }

  /** The call whose revert data was passed on unchanged up to this one. */
  method FindReverter(call: Ctx) returns (target: Bv)
    ensures exists last, depth :: RevertChain(call, last, depth) && !BubblesUp(last) && target == last.target
  {
    var ctx := call;
    ghost var depth := 0;
    while true
      invariant RevertChain(call, ctx, depth)
      decreases CtxSize(ctx)
    {
      var child := LastCall(ctx.trace);
      if child.None? || !child.value.error || child.value.data.None? || child.value.data != ctx.data {
        assert RevertChain(call, ctx, depth) && !BubblesUp(ctx);
        return ctx.target;
      }
      LastCallSmaller(ctx.trace);
      ChainExtends(call, ctx, depth);
      ctx := child.value;
      depth := depth + 1;
    }
  }
}
