// What runs of nested calls and creations leave behind.
module Traces {
  import opened Options
  import opened Bits
  import opened BvTerms
  import opened World

  // ---- logs ----

  /** Everything that frames do, in order; an entry `Failed` says where the frame that failed began. */
  datatype Event =
    | Stored(transient: bool, addr: Addr, slot: int, word: int)
    | Sent(from: Addr, to: Addr, value: nat)
    | Opened(addr: Addr)
    | Deployed(addr: Addr, code: nat)
    | Bumped(addr: Addr)
    | Failed(start: nat)

  /** How a frame ends, and the log up to then; nothing is ever taken off a log. */
  datatype Trace = Trace(outcome: Outcome, log: seq<Event>)

  /** The event happened in no frame that failed later. */
  predicate Stands(log: seq<Event>, i: nat)
    requires i < |log|
  {
    !log[i].Failed? && forall j :: i < j < |log| && log[j].Failed? ==> i < log[j].start
  }

  /** The events that stand among the first ones, in order. */
  function Kept(log: seq<Event>, k: nat): seq<Event>
    requires k <= |log|
  {
    if k == 0 then []
    else if Stands(log, k - 1) then Kept(log, k - 1) + [log[k - 1]]
    else Kept(log, k - 1)
  }

  function Standing(log: seq<Event>): seq<Event> {
    Kept(log, |log|)
  }

  // ---- what events leave behind ----

  /** The event decides what the slot holds. */
  predicate Touches(e: Event, transient: bool, a: Addr, slot: int) {
    e == Opened(a) || (e.Stored? && e.transient == transient && e.addr == a && e.slot == slot)
  }

  ghost predicate IsLastTouch(es: seq<Event>, i: int, transient: bool, a: Addr, slot: int) {
    && 0 <= i < |es| && Touches(es[i], transient, a, slot)
    && forall j :: i < j < |es| ==> !Touches(es[j], transient, a, slot)
  }

  function EntryIn(m: map<Addr, map<int, int>>, a: Addr, slot: int): Option<int> {
    if a in m && slot in m[a] then Some(m[a][slot]) else None
  }

  /** The entry of a slot: that of the last write, none after a reset, and else the old one. */
  function Entry(was: map<Addr, map<int, int>>, es: seq<Event>, transient: bool, a: Addr, slot: int): (r: Option<int>)
    ensures forall i :: IsLastTouch(es, i, transient, a, slot) ==> r == if es[i].Stored? then Some(es[i].word) else None
    ensures (forall i :: 0 <= i < |es| ==> !Touches(es[i], transient, a, slot)) ==> r == EntryIn(was, a, slot)
  {
    if es == [] then EntryIn(was, a, slot) else
    var e := es[|es| - 1];
    if !Touches(e, transient, a, slot) then
      var front := es[..|es| - 1];
      assert forall i :: IsLastTouch(es, i, transient, a, slot) ==> IsLastTouch(front, i, transient, a, slot);
      Entry(was, front, transient, a, slot)
    else if e.Stored? then Some(e.word)
    else None
  }

  /** The account has storage. */
  predicate Exists(m: map<Addr, map<int, int>>, es: seq<Event>, a: Addr) {
    a in m || Opened(a) in es
  }

  function Received(es: seq<Event>, a: Addr): nat {
    if es == [] then 0 else
    var e := es[|es| - 1];
    Received(es[..|es| - 1], a) + if e.Sent? && e.to == a then e.value else 0
  }

  function Spent(es: seq<Event>, a: Addr): nat {
    if es == [] then 0 else
    var e := es[|es| - 1];
    Spent(es[..|es| - 1], a) + if e.Sent? && e.from == a then e.value else 0
  }

  function Funds(m: map<Addr, nat>, es: seq<Event>, a: Addr): int {
    BalanceIn(m, a) + Received(es, a) - Spent(es, a)
  }

  function CodeIn(m: map<Addr, nat>, a: Addr): Option<nat> {
    if a in m then Some(m[a]) else None
  }

  /** The code of an account: none yet while it is being created, then what was deployed. */
  function CodeAt(m: map<Addr, nat>, es: seq<Event>, a: Addr): Option<nat> {
    if es == [] then CodeIn(m, a) else
    match es[|es| - 1]
    case Deployed(b, c) => if a == b then Some(c) else CodeAt(m, es[..|es| - 1], a)
    case Opened(b) => if a == b then Some(0) else CodeAt(m, es[..|es| - 1], a)
    case _ => CodeAt(m, es[..|es| - 1], a)
  }

  /** Nonces count creations, failed ones included, and start with 1 in a new account. */
  function NonceAt(m: map<Addr, nat>, log: seq<Event>, a: Addr): nat {
    if log == [] then BalanceIn(m, a) else
    match log[|log| - 1]
    case Bumped(b) => NonceAt(m, log[..|log| - 1], a) + if a == b then 1 else 0
    case Opened(b) => if a == b then 1 else NonceAt(m, log[..|log| - 1], a)
    case _ => NonceAt(m, log[..|log| - 1], a)
  }

  // ---- the log of a run ----

  /** The log grows by what a frame does; whatever it reads is what the standing events left behind. */
  function TraceOf(n: Net, log: seq<Event>, ops: seq<Op>): Trace
    decreases ops, 0
  {
    if ops == [] then Trace(Success, log)
    else if ops[0] == Fail then Trace(Failure, log)
    else
      var t := EventsOf(n, log, ops[0]);
      if Goes(t.outcome) then TraceOf(n, t.log, ops[1..]) else t
  }

  function EventsOf(n: Net, log: seq<Event>, op: Op): Trace
    requires op != Fail
    decreases op, 1
  {
    match op
    case Write(a, slot, v) =>
      if !Exists(n.accounts, Standing(log), a) then Trace(Stuck, log)
      else Trace(Success, log + [Stored(false, a, slot, v)])
    case WriteTransient(a, slot, v) =>
      if !Exists(n.transient, Standing(log), a) then Trace(Stuck, log)
      else Trace(Success, log + [Stored(true, a, slot, v)])
    case Call(caller, to, value, body) =>
      if Unlikely(n, log, caller, value) then Trace(Excluded, log)
      else if value > Funds(n.balance, Standing(log), caller) then Trace(Failure, log)
      else FrameEvents(n, log, [], caller, to, value, body)
    case Create(caller, a, value, body, newCode) =>
      var bumped := log + [Bumped(caller)];
      if Unlikely(n, log, caller, value) then Trace(Excluded, bumped)
      else if value > Funds(n.balance, Standing(log), caller) then Trace(Failure, bumped)
      else if CodeAt(n.code, Standing(log), a).Some? then Trace(Failure, bumped)
      else
        var t := FrameEvents(n, bumped, [Opened(a)], caller, a, value, body);
        if t.outcome == Success then Trace(Success, t.log + [Deployed(a, newCode)]) else t
  }

  /** A value or a balance that is not considered. */
  predicate Unlikely(n: Net, log: seq<Event>, caller: Addr, value: nat) {
    value >= Pow2(WORD) || (value != 0 && Funds(n.balance, Standing(log), caller) > MaxEth())
  }

  /** The value is sent, the body runs, and the frame is logged as failed if the body fails. */
  function FrameEvents(n: Net, log: seq<Event>, before: seq<Event>, from: Addr, to: Addr, value: nat,
                       body: seq<Op>): Trace
    decreases body, 1
  {
    if value != 0 && from != to && Funds(n.balance, Standing(log), to) > MaxEth() then Trace(Excluded, log) else
    var t := TraceOf(n, log + before + if value == 0 then [] else [Sent(from, to, value)], body);
    if t.outcome == Failure then Trace(Failure, t.log + [Failed(|log|)]) else t
  }

  // ---- runs leave behind what stands ----

  ghost predicate Entries(m: map<Addr, map<int, int>>, was: map<Addr, map<int, int>>, es: seq<Event>, transient: bool) {
    && (forall a :: a in m <==> Exists(was, es, a))
    && (forall a, slot :: EntryIn(m, a, slot) == Entry(was, es, transient, a, slot))
  }

  ghost predicate Balances(m: map<Addr, nat>, was: map<Addr, nat>, es: seq<Event>) {
    forall a :: BalanceIn(m, a) == Funds(was, es, a)
  }

  ghost predicate Codes(m: map<Addr, nat>, was: map<Addr, nat>, es: seq<Event>) {
    forall a :: CodeIn(m, a) == CodeAt(was, es, a)
  }

  ghost predicate Nonces(m: map<Addr, nat>, was: map<Addr, nat>, log: seq<Event>) {
    forall a :: BalanceIn(m, a) == NonceAt(was, log, a)
  }

  /** The state is what the standing events made of the old one; nonces also count those that do not stand. */
  ghost predicate Shows(m: Net, n: Net, es: seq<Event>, log: seq<Event>) {
    && Entries(m.accounts, n.accounts, es, false)
    && Entries(m.transient, n.transient, es, true)
    && Balances(m.balance, n.balance, es)
    && Codes(m.code, n.code, es)
    && Nonces(m.nonces, n.nonces, log)
  }

  /** The later log goes on from the earlier one, and what failed since also began since. */
  ghost predicate Extends(log: seq<Event>, later: seq<Event>) {
    && |log| <= |later| && later[..|log|] == log
    && forall j :: |log| <= j < |later| && later[j].Failed? ==> |log| <= later[j].start
  }

  lemma ExtendsTwice(a: seq<Event>, b: seq<Event>, c: seq<Event>)
    requires Extends(a, b) && Extends(b, c)
    ensures Extends(a, c)
  {
    assert forall j :: |a| <= j < |b| ==> c[j] == b[j];
    assert c[..|a|] == b[..|a|];
  }

  /** Later frames leave alone which of the earlier events stand. */
  lemma {:induction false} KeptExtends(log: seq<Event>, later: seq<Event>, k: nat)
    requires Extends(log, later) && k <= |log|
    ensures Kept(later, k) == Kept(log, k)
  {
    if k > 0 {
      KeptExtends(log, later, k - 1);
      assert forall i :: 0 <= i < |log| ==> later[i] == log[i];
      assert Stands(later, k - 1) == Stands(log, k - 1);
    }
  }

  lemma StandingSnoc(log: seq<Event>, e: Event)
    requires !e.Failed?
    ensures Extends(log, log + [e]) && Standing(log + [e]) == Standing(log) + [e]
  {
    KeptExtends(log, log + [e], |log|);
  }

  /** Of a frame that failed, nothing stands. */
  lemma StandingFailed(log: seq<Event>, later: seq<Event>)
    requires Extends(log, later)
    ensures Extends(log, later + [Failed(|log|)])
    ensures Standing(later + [Failed(|log|)]) == Standing(log)
  {
    var all := later + [Failed(|log|)];
    KeptExtends(log, all, |log|);
    NothingKept(log, all, |all|);
  }

  lemma {:induction false} NothingKept(log: seq<Event>, all: seq<Event>, k: nat)
    requires Extends(log, all) && |log| < |all| && all[|all| - 1] == Failed(|log|)
    requires |log| <= k <= |all|
    ensures Kept(all, k) == Kept(all, |log|)
  {
    if k > |log| {
      NothingKept(log, all, k - 1);
      assert !Stands(all, k - 1);
    }
  }

  lemma StandingLast(log: seq<Event>, e: Event)
    requires !e.Failed?
    ensures var es := Standing(log + [e]);
      Extends(log, log + [e]) && |es| > 0 && es[|es| - 1] == e && es[..|es| - 1] == Standing(log)
  {
    StandingSnoc(log, e);
  }

  lemma NonceSnoc(m: map<Addr, nat>, log: seq<Event>, e: Event, a: Addr)
    ensures NonceAt(m, log + [e], a) == if e == Opened(a) then 1 else NonceAt(m, log, a) + if e == Bumped(a) then 1 else 0
  {
    assert (log + [e])[..|log|] == log;
  }

  /** What one more event, outside of any failure, makes of the state. */
  function After(m: Net, e: Event): Net {
    match e
    case Stored(false, a, slot, v) => if a in m.accounts then m.(accounts := Written(m.accounts, a, slot, v)) else m
    case Stored(true, a, slot, v) => if a in m.transient then m.(transient := Written(m.transient, a, slot, v)) else m
    case Sent(from, to, v) => if v <= BalanceIn(m.balance, from) then m.(balance := Moved(m.balance, from, to, v)) else m
    case Opened(a) => World.Opened(m, a)
    case Deployed(a, c) => m.(code := m.code[a := c])
    case Bumped(a) => m.(nonces := m.nonces[a := BalanceIn(m.nonces, a) + 1])
    case Failed(_) => m
  }

  /** The event can happen. */
  predicate Possible(m: Net, e: Event) {
    match e
    case Stored(false, a, _, _) => a in m.accounts
    case Stored(true, a, _, _) => a in m.transient
    case Sent(from, _, v) => v <= BalanceIn(m.balance, from)
    case Failed(_) => false
    case _ => true
  }

  lemma ShowsSnoc(m: Net, n: Net, log: seq<Event>, e: Event)
    requires Shows(m, n, Standing(log), log) && Possible(m, e)
    ensures Extends(log, log + [e]) && Shows(After(m, e), n, Standing(log + [e]), log + [e])
  {
    hide Standing, Moved, Entry, Received, Spent, CodeAt, NonceAt;
    StandingLast(log, e);
    var es, m1 := Standing(log), After(m, e);
    EntriesSnoc(m.accounts, m1.accounts, n.accounts, es, e, false);
    EntriesSnoc(m.transient, m1.transient, n.transient, es, e, true);
    BalancesSnoc(m.balance, m1.balance, n.balance, es, e);
    CodesSnoc(m.code, m1.code, n.code, es, e);
    NoncesSnoc(m.nonces, m1.nonces, n.nonces, log, e);
    assert Standing(log + [e]) == es + [e];
  }

  lemma EntriesSnoc(m: map<Addr, map<int, int>>, m1: map<Addr, map<int, int>>, was: map<Addr, map<int, int>>,
                    es: seq<Event>, e: Event, transient: bool)
    requires Entries(m, was, es, transient)
    requires e.Stored? && e.transient == transient ==> e.addr in m
    requires m1 == match e
      case Stored(t, a, slot, v) => if t == transient then Written(m, a, slot, v) else m
      case Opened(a) => m[a := map[]]
      case _ => m
    ensures Entries(m1, was, es + [e], transient)
  {
    var es1 := es + [e];
    assert es1[..|es1| - 1] == es;
    forall a ensures a in m1 <==> Exists(was, es1, a) {
      assert a in m <==> Exists(was, es, a);
      assert Opened(a) in es1 <==> Opened(a) in es || e == Opened(a);
    }
    forall a, slot ensures EntryIn(m1, a, slot) == Entry(was, es1, transient, a, slot) {
      assert EntryIn(m, a, slot) == Entry(was, es, transient, a, slot);
    }
  }

  lemma BalancesSnoc(m: map<Addr, nat>, m1: map<Addr, nat>, was: map<Addr, nat>, es: seq<Event>, e: Event)
    requires Balances(m, was, es)
    requires e.Sent? ==> e.value <= BalanceIn(m, e.from)
    requires m1 == if e.Sent? then Moved(m, e.from, e.to, e.value) else m
    ensures Balances(m1, was, es + [e])
  {
    hide Moved, Total;
    assert (es + [e])[..|es + [e]| - 1] == es;
    if e.Sent? {
      MovedConserves(m, e.from, e.to, e.value);
    }
    forall a ensures BalanceIn(m1, a) == Funds(was, es + [e], a) {
      assert BalanceIn(m, a) == Funds(was, es, a);
    }
  }

  lemma CodesSnoc(m: map<Addr, nat>, m1: map<Addr, nat>, was: map<Addr, nat>, es: seq<Event>, e: Event)
    requires Codes(m, was, es)
    requires m1 == match e
      case Opened(a) => m[a := 0]
      case Deployed(a, c) => m[a := c]
      case _ => m
    ensures Codes(m1, was, es + [e])
  {
    assert (es + [e])[..|es + [e]| - 1] == es;
    forall a ensures CodeIn(m1, a) == CodeAt(was, es + [e], a) {
      assert CodeIn(m, a) == CodeAt(was, es, a);
    }
  }

  lemma NoncesSnoc(m: map<Addr, nat>, m1: map<Addr, nat>, was: map<Addr, nat>, log: seq<Event>, e: Event)
    requires Nonces(m, was, log)
    requires m1 == match e
      case Opened(a) => m[a := 1]
      case Bumped(a) => m[a := BalanceIn(m, a) + 1]
      case _ => m
    ensures Nonces(m1, was, log + [e])
  {
    forall a ensures BalanceIn(m1, a) == NonceAt(was, log + [e], a) {
      assert BalanceIn(m, a) == NonceAt(was, log, a);
      NonceSnoc(was, log, e, a);
    }
  }

  /** The run and its log end alike, and the log says what the run left behind. */
  ghost predicate Agree(r: Ran, t: Trace, n: Net, log: seq<Event>) {
    r.outcome == t.outcome && (Goes(r.outcome) ==> Extends(log, t.log) && Shows(r.net, n, Standing(t.log), t.log))
  }

  lemma {:induction false} RunShows(m: Net, n: Net, log: seq<Event>, ops: seq<Op>)
    requires Shows(m, n, Standing(log), log)
    ensures Agree(RunOf(m, ops), TraceOf(n, log, ops), n, log)
    decreases ops, 0
  {
    hide Shows, Standing, StepOf, EventsOf, Extends;
    if ops == [] || ops[0] == Fail {
      ExtendsItself(log);
    } else {
      StepShows(m, n, log, ops[0]);
      var r, t := StepOf(m, ops[0]), EventsOf(n, log, ops[0]);
      if Goes(r.outcome) {
        RunShows(r.net, n, t.log, ops[1..]);
        if Goes(RunOf(r.net, ops[1..]).outcome) {
          ExtendsTwice(log, t.log, TraceOf(n, t.log, ops[1..]).log);
        }
      }
    }
  }

  lemma ExtendsItself(log: seq<Event>)
    ensures Extends(log, log)
  {
    assert log[..|log|] == log;
  }

  lemma {:induction false} StepShows(m: Net, n: Net, log: seq<Event>, op: Op)
    requires op != Fail && Shows(m, n, Standing(log), log)
    ensures Agree(StepOf(m, op), EventsOf(n, log, op), n, log)
    decreases op, 1
  {
    hide Standing, CallOf, CreateOf, FrameEvents, Pow2, Entry, Funds, CodeAt, NonceAt, Extends;
    match op
    case Write(a, slot, v) =>
      assert a in m.accounts <==> Exists(n.accounts, Standing(log), a);
      if a in m.accounts {
        ShowsSnoc(m, n, log, Stored(false, a, slot, v));
      }
    case WriteTransient(a, slot, v) =>
      assert a in m.transient <==> Exists(n.transient, Standing(log), a);
      if a in m.transient {
        ShowsSnoc(m, n, log, Stored(true, a, slot, v));
      }
    case Call(caller, to, value, body) =>
      CallShows(m, n, log, caller, to, value, body);
    case Create(caller, a, value, body, newCode) =>
      CreateShows(m, n, log, caller, a, value, body, newCode);
  }

  lemma {:induction false} CallShows(m: Net, n: Net, log: seq<Event>, caller: Addr, to: Addr, value: nat, body: seq<Op>)
    requires Shows(m, n, Standing(log), log)
    ensures Agree(CallOf(m, caller, to, value, body), EventsOf(n, log, Call(caller, to, value, body)), n, log)
    decreases body, 2
  {
    hide Standing, Framed, FrameEvents, Pow2, Entries, Funds, Codes, Nonces, Extends;
    assert BalanceIn(m.balance, caller) == Funds(n.balance, Standing(log), caller);
    ExtendsItself(log);
    if Obstacle(m.balance, caller, value).None? {
      assert log + [] == log;
      FramedShows(m, m, n, log, [], caller, to, value, body);
    }
  }

  lemma {:induction false} CreateShows(m: Net, n: Net, log: seq<Event>, caller: Addr, a: Addr, value: nat, body: seq<Op>,
                                       newCode: nat)
    requires Shows(m, n, Standing(log), log)
    ensures Agree(CreateOf(m, caller, a, value, body, newCode),
                  EventsOf(n, log, Create(caller, a, value, body, newCode)), n, log)
    decreases body, 3
  {
    hide Standing, Framed, FrameEvents, Pow2, Entries, Funds, CodeAt, Nonces, Extends;
    var bumped := log + [Bumped(caller)];
    ShowsSnoc(m, n, log, Bumped(caller));
    assert BalanceIn(m.balance, caller) == Funds(n.balance, Standing(log), caller);
    assert CodeIn(m.code, a) == CodeAt(n.code, Standing(log), a);
    var m1 := After(m, Bumped(caller));
    if Obstacle(m.balance, caller, value).None? && a !in m.code {
      ShowsSnoc(m1, n, bumped, Opened(a));
      FramedShows(m1, World.Opened(m1, a), n, bumped, [Opened(a)], caller, a, value, body);
      var r := Framed(m1, World.Opened(m1, a), caller, a, value, body);
      var t := FrameEvents(n, bumped, [Opened(a)], caller, a, value, body);
      if Goes(r.outcome) {
        ExtendsTwice(log, bumped, t.log);
      }
      if r.outcome == Success {
        ShowsSnoc(r.net, n, t.log, Deployed(a, newCode));
        ExtendsTwice(log, t.log, t.log + [Deployed(a, newCode)]);
      }
    }
  }

  lemma {:induction false} FramedShows(m: Net, m0: Net, n: Net, log: seq<Event>, before: seq<Event>,
                                       from: Addr, to: Addr, value: nat, body: seq<Op>)
    requires m.balance == m0.balance && value <= BalanceIn(m.balance, from)
    requires value != 0 ==> BalanceIn(m.balance, from) <= MaxEth()
    requires Shows(m, n, Standing(log), log) && Extends(log, log + before)
    requires Shows(m0, n, Standing(log + before), log + before)
    ensures Agree(Framed(m, m0, from, to, value, body), FrameEvents(n, log, before, from, to, value, body), n, log)
    decreases body, 1
  {
    hide Standing, RunOf, TraceOf, Pow2, Moved, Entries, Funds, CodeAt, Extends;
    var start := log + before;
    assert BalanceIn(m.balance, to) == Funds(n.balance, Standing(log), to);
    if value == 0 {
      assert start + [] == start;
      RunShows(m0, n, start, body);
      FailedShows(m, RunOf(m0, body), n, log, start, TraceOf(n, start, body));
    } else if Payable(m.balance, from, to, value, value) {
      var e := Sent(from, to, value);
      ShowsSnoc(m0, n, start, e);
      ExtendsTwice(log, start, start + [e]);
      RunShows(After(m0, e), n, start + [e], body);
      FailedShows(m, RunOf(After(m0, e), body), n, log, start + [e], TraceOf(n, start + [e], body));
    }
  }

  /** If the body fails, the state before it is what stands. */
  lemma FailedShows(m: Net, r: Ran, n: Net, log: seq<Event>, start: seq<Event>, t: Trace)
    requires Shows(m, n, Standing(log), log) && Extends(log, start) && Agree(r, t, n, start)
    ensures if r.outcome == Failure
      then Agree(Ran(Failure, m.(nonces := r.net.nonces)), Trace(Failure, t.log + [Failed(|log|)]), n, log)
      else Agree(r, t, n, log)
  {
    hide Standing, Entries, Balances, Codes, Extends;
    if Goes(r.outcome) {
      ExtendsTwice(log, start, t.log);
    }
    if r.outcome == Failure {
      StandingFailed(log, t.log);
      NoncesSnoc(r.net.nonces, r.net.nonces, n.nonces, t.log, Failed(|log|));
    }
  }

  // ---- creations ----

  /** Every account that was opened has been given its code. */
  ghost predicate Finished(es: seq<Event>) {
    forall i :: 0 <= i < |es| && es[i].Opened? ==> Provided(es, i, es[i].addr)
  }

  ghost predicate Provided(es: seq<Event>, i: nat, a: Addr) {
    exists j :: i < j < |es| && es[j].Deployed? && es[j].addr == a
  }

  /** The code that the last creation deployed, and else the old one. */
  function DeployedAt(m: map<Addr, nat>, es: seq<Event>, a: Addr): Option<nat> {
    if es == [] then CodeIn(m, a) else
    var e := es[|es| - 1];
    if e.Deployed? && e.addr == a then Some(e.code) else DeployedAt(m, es[..|es| - 1], a)
  }

  /** Up to an event, the account was not opened again after its last deployment. */
  lemma {:induction false} FinishedCode(m: map<Addr, nat>, es: seq<Event>, k: nat, a: Addr)
    requires k <= |es|
    requires forall i :: 0 <= i < k && es[i] == Opened(a) ==> Provided(es[..k], i, a)
    ensures CodeAt(m, es[..k], a) == DeployedAt(m, es[..k], a)
  {
    if k > 0 {
      var front, e := es[..k - 1], es[k - 1];
      assert es[..k][..k - 1] == front && es[..k][k - 1] == e;
      assert e == Opened(a) ==> Provided(es[..k], k - 1, a);
      if !(e.Deployed? && e.addr == a) {
        forall i | 0 <= i < k - 1 && es[i] == Opened(a) ensures Provided(front, i, a) {
          var j :| i < j < k && es[j].Deployed? && es[j].addr == a;
          assert front[j] == es[j];
        }
        FinishedCode(m, es, k - 1, a);
      }
    }
  }

  /** What stands since the log was this long, once it goes on. */
  ghost predicate FinishedSince(log: seq<Event>, later: seq<Event>) {
    && Extends(log, later)
    && |Standing(log)| <= |Standing(later)| && Standing(later)[..|Standing(log)|] == Standing(log)
    && Finished(Standing(later)[|Standing(log)|..])
  }

  lemma FinishedBoth(a: seq<Event>, b: seq<Event>)
    requires Finished(a) && Finished(b)
    ensures Finished(a + b)
  {
    var c := a + b;
    forall i | 0 <= i < |c| && c[i].Opened? ensures Provided(c, i, c[i].addr) {
      if i < |a| {
        var j :| i < j < |a| && a[j].Deployed? && a[j].addr == a[i].addr;
        assert c[j] == a[j];
      } else {
        assert b[i - |a|] == c[i];
        assert Provided(b, i - |a|, c[i].addr);
        var j :| i - |a| < j < |b| && b[j].Deployed? && b[j].addr == c[i].addr;
        assert c[|a| + j] == b[j];
      }
    }
  }

  lemma FinishedTwice(a: seq<Event>, b: seq<Event>, c: seq<Event>)
    requires FinishedSince(a, b) && FinishedSince(b, c)
    ensures FinishedSince(a, c)
  {
    hide Standing, Finished, Extends;
    ExtendsTwice(a, b, c);
    var x, y, z := Standing(a), Standing(b), Standing(c);
    FinishedBoth(y[|x|..], z[|y|..]);
    assert z[|x|..] == y[|x|..] + z[|y|..];
    assert z[..|x|] == z[..|y|][..|x|];
  }

  /** An event that opens no account. */
  lemma FinishedSnoc(log: seq<Event>, e: Event)
    requires !e.Failed? && !e.Opened?
    ensures FinishedSince(log, log + [e])
  {
    hide Standing;
    StandingSnoc(log, e);
    assert Standing(log + [e])[|Standing(log)|..] == [e];
  }

  /** All that stands of a run are creations that were finished. */
  lemma {:induction false} RunFinishes(n: Net, log: seq<Event>, ops: seq<Op>)
    ensures var t := TraceOf(n, log, ops); Goes(t.outcome) ==> FinishedSince(log, t.log)
    decreases ops, 0
  {
    hide EventsOf, FinishedSince;
    if ops == [] || ops[0] == Fail {
      ExtendsItself(log);
      FinishedItself(log);
    } else {
      OpFinishes(n, log, ops[0]);
      var t := EventsOf(n, log, ops[0]);
      if Goes(t.outcome) {
        RunFinishes(n, t.log, ops[1..]);
        if Goes(TraceOf(n, t.log, ops[1..]).outcome) {
          FinishedTwice(log, t.log, TraceOf(n, t.log, ops[1..]).log);
        }
      }
    }
  }

  lemma FinishedItself(log: seq<Event>)
    ensures FinishedSince(log, log)
  {
    ExtendsItself(log);
  }

  lemma {:induction false} OpFinishes(n: Net, log: seq<Event>, op: Op)
    requires op != Fail
    ensures var t := EventsOf(n, log, op); Goes(t.outcome) ==> FinishedSince(log, t.log)
    decreases op, 1
  {
    hide FinishedSince, FrameEvents, Funds, CodeAt, Standing, Pow2, Exists;
    match op
    case Write(a, slot, v) => FinishedSnoc(log, Stored(false, a, slot, v));
    case WriteTransient(a, slot, v) => FinishedSnoc(log, Stored(true, a, slot, v));
    case Call(caller, to, value, body) =>
      FinishedItself(log);
      assert log + [] == log;
      FrameFinishes(n, log, [], caller, to, value, body);
    case Create(caller, a, value, body, newCode) =>
      CreateFinishes(n, log, caller, a, value, body, newCode);
  }

  lemma {:induction false} CreateFinishes(n: Net, log: seq<Event>, caller: Addr, a: Addr, value: nat, body: seq<Op>,
                                          newCode: nat)
    ensures var t := EventsOf(n, log, Create(caller, a, value, body, newCode));
      Goes(t.outcome) ==> FinishedSince(log, t.log)
    decreases body, 3
  {
    hide FinishedSince, FrameEvents, Funds, CodeAt, Standing, Pow2;
    var bumped := log + [Bumped(caller)];
    FinishedSnoc(log, Bumped(caller));
    FrameFinishes(n, bumped, [Opened(a)], caller, a, value, body);
    var t := FrameEvents(n, bumped, [Opened(a)], caller, a, value, body);
    if t.outcome == Failure {
      FinishedTwice(log, bumped, t.log);
    } else if t.outcome == Success {
      OpenedFinishes(bumped, a, t.log, newCode);
      FinishedTwice(log, bumped, t.log + [Deployed(a, newCode)]);
    }
  }

  /** An account that was opened is given its code once its creation is over. */
  lemma OpenedFinishes(log: seq<Event>, a: Addr, later: seq<Event>, code: nat)
    requires FinishedSince(log + [Opened(a)], later)
    ensures FinishedSince(log, later + [Deployed(a, code)])
  {
    hide Standing, Extends, Finished;
    StandingSnoc(log, Opened(a));
    StandingSnoc(later, Deployed(a, code));
    ExtendsTwice(log, log + [Opened(a)], later);
    ExtendsTwice(log, later, later + [Deployed(a, code)]);
    var x, y := Standing(log), Standing(later);
    var since := y[|x| + 1..];
    assert (y + [Deployed(a, code)])[|x|..] == [Opened(a)] + since + [Deployed(a, code)] by {
      assert y[..|x| + 1][|x|] == Opened(a);
    }
    assert (y + [Deployed(a, code)])[..|x|] == y[..|x| + 1][..|x|];
    FinishedAround(a, since, code);
  }

  lemma FinishedAround(a: Addr, es: seq<Event>, code: nat)
    requires Finished(es)
    ensures Finished([Opened(a)] + es + [Deployed(a, code)])
  {
    var c := [Opened(a)] + es + [Deployed(a, code)];
    forall i | 0 <= i < |c| && c[i].Opened? ensures Provided(c, i, c[i].addr) {
      if i == 0 {
        assert c[|c| - 1] == Deployed(a, code);
      } else {
        assert es[i - 1] == c[i];
        var j :| i - 1 < j < |es| && es[j].Deployed? && es[j].addr == c[i].addr;
        assert c[j + 1] == es[j];
      }
    }
  }

  lemma {:induction false} FrameFinishes(n: Net, log: seq<Event>, before: seq<Event>, from: Addr, to: Addr, value: nat,
                                         body: seq<Op>)
    requires Extends(log, log + before)
    ensures var t := FrameEvents(n, log, before, from, to, value, body);
      && (t.outcome == Success ==> FinishedSince(log + before, t.log))
      && (t.outcome == Failure ==> FinishedSince(log, t.log))
    decreases body, 1
  {
    hide FinishedSince, Funds, Standing, Pow2;
    var start := log + before;
    var sent := start + if value == 0 then [] else [Sent(from, to, value)];
    RunFinishes(n, sent, body);
    assert value == 0 ==> sent == start;
    if value != 0 {
      FinishedSnoc(start, Sent(from, to, value));
    }
    var t := TraceOf(n, sent, body);
    if t.outcome == Success && value != 0 {
      FinishedTwice(start, sent, t.log);
    } else if t.outcome == Failure {
      FinishedFailed(log, start, sent, t.log);
    }
  }

  lemma FinishedFailed(log: seq<Event>, start: seq<Event>, sent: seq<Event>, later: seq<Event>)
    requires Extends(log, start) && (sent == start || FinishedSince(start, sent)) && FinishedSince(sent, later)
    ensures FinishedSince(log, later + [Failed(|log|)])
  {
    hide Standing, Extends;
    ExtendsItself(start);
    ExtendsTwice(log, start, sent);
    ExtendsTwice(log, sent, later);
    StandingFailed(log, later);
  }

  // ---- the main results ----

  /**
   * Over any tree of calls and creations: each slot holds the word of the last write that stands and that no reset follows,
   * else its old word; balances are the old ones with the values moved; and code is what creations deployed. What
   * happened in a frame that failed leaves only nonces behind.
   */
  lemma RunLeaves(n: Net, ops: seq<Op>)
    ensures var r := RunOf(n, ops); var t := TraceOf(n, [], ops); var es := Standing(t.log);
      && r.outcome == t.outcome
      && (Goes(r.outcome) ==>
        && Shows(r.net, n, es, t.log)
        && forall a :: CodeIn(r.net.code, a) == DeployedAt(n.code, es, a))
  {
    var r, t := RunOf(n, ops), TraceOf(n, [], ops);
    RunShows(n, n, [], ops);
    RunFinishes(n, [], ops);
    if Goes(r.outcome) {
      var es := Standing(t.log);
      assert es[0..] == es && es[..|es|] == es;
      forall a ensures CodeIn(r.net.code, a) == DeployedAt(n.code, es, a) {
        FinishedCode(n.code, es, |es|, a);
        assert CodeIn(r.net.code, a) == CodeAt(n.code, es, a);
      }
    }
  }

  lemma {:induction false} RunAppends(n: Net, a: seq<Op>, b: seq<Op>)
    ensures var r := RunOf(n, a); RunOf(n, a + b) == if r.outcome == Success then RunOf(r.net, b) else r
    decreases |a|
  {
    hide StepOf;
    if a == [] {
      assert a + b == b;
    } else {
      assert (a + b)[0] == a[0] && (a + b)[1..] == a[1..] + b;
      if a[0] != Fail && Goes(StepOf(n, a[0]).outcome) {
        RunAppends(StepOf(n, a[0]).net, a[1..], b);
      }
    }
  }

  /** A call within the funds whose body succeeds does what a bare transfer and the body do in the calling frame. */
  lemma CallInlines(n: Net, caller: Addr, to: Addr, value: nat, body: seq<Op>, ops: seq<Op>)
    requires var sent := RunOf(n, [Call(caller, to, value, [])]);
      value <= BalanceIn(n.balance, caller) && sent.outcome == Success && RunOf(sent.net, body).outcome == Success
    ensures RunOf(n, [Call(caller, to, value, body)] + ops) == RunOf(n, [Call(caller, to, value, [])] + body + ops)
  {
    hide Pow2, Moved;
    var one, bare := [Call(caller, to, value, body)], [Call(caller, to, value, [])];
    RunAppends(n, one, ops);
    RunAppends(n, bare, body + ops);
    RunAppends(RunOf(n, bare).net, body, ops);
    assert bare + body + ops == bare + (body + ops);
    assert one[1..] == [] && bare[1..] == [];
    assert StepOf(n, one[0]) == CallOf(n, caller, to, value, body);
    assert StepOf(n, bare[0]) == CallOf(n, caller, to, value, []);
    var sent := if value == 0 then n else n.(balance := Moved(n.balance, caller, to, value));
    assert Framed(n, n, caller, to, value, []) == RunOf(sent, []);
    assert Framed(n, n, caller, to, value, body) == RunOf(sent, body);
    assert RunOf(n, bare) == Ran(Success, sent);
    assert RunOf(n, one) == RunOf(sent, body);
  }

  /** A bare transfer within the funds, with nobody above the cap, succeeds and moves exactly the value. */
  lemma TransferSucceeds(n: Net, caller: Addr, to: Addr, value: nat)
    requires value <= BalanceIn(n.balance, caller) <= MaxEth() && BalanceIn(n.balance, to) <= MaxEth()
    ensures var r := RunOf(n, [Call(caller, to, value, [])]);
      && r.outcome == Success
      && forall a :: BalanceIn(r.net.balance, a) ==
           BalanceIn(n.balance, a) - (if a == caller then value else 0) + (if a == to then value else 0)
  {
    hide Pow2, Moved, Total;
    Pow2Less(128, WORD);
    MovedConserves(n.balance, caller, to, value);
    var op := Call(caller, to, value, []);
    assert [op][1..] == [];
    assert StepOf(n, op) == CallOf(n, caller, to, value, []);
  }
}
