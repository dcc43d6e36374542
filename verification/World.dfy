// Value transfers and rollback across nested calls and creations.
module World {
  import opened Options
  import opened Bits
  import opened BvTerms
  import opened BvFacts

  type Addr = nat

  /** The largest balance that is considered. */
  function MaxEth(): nat {
    Pow2(128)
  }

  // ---- totals ----

  ghost function Total(m: map<Addr, nat>): nat {
    if m == map[] then 0 else
    var k :| k in m;
    m[k] + Total(m - {k})
  }

  lemma {:induction false} TotalRemove(m: map<Addr, nat>, k: Addr)
    requires k in m
    ensures Total(m) == m[k] + Total(m - {k})
    decreases |m|
  {
    assert m != map[];
    var j :| j in m && Total(m) == m[j] + Total(m - {j});
    if j != k {
      TotalRemove(m - {j}, k);
      TotalRemove(m - {k}, j);
      assert (m - {j}) - {k} == (m - {k}) - {j};
    }
  }

  function BalanceIn(m: map<Addr, nat>, a: Addr): nat {
    if a in m then m[a] else 0
  }

  lemma TotalUpdate(m: map<Addr, nat>, a: Addr, v: nat)
    ensures Total(m[a := v]) == Total(m) - BalanceIn(m, a) + v
  {
    var n := m[a := v];
    TotalRemove(n, a);
    if a in m {
      TotalRemove(m, a);
      assert n - {a} == m - {a};
    } else {
      assert n - {a} == m;
    }
  }

  /** The balances after moving an amount; nothing changes in a transfer to oneself. */
  function Moved(m: map<Addr, nat>, from: Addr, to: Addr, v: nat): map<Addr, nat>
    requires v <= BalanceIn(m, from)
  {
    var n := m[from := BalanceIn(m, from) - v];
    n[to := BalanceIn(n, to) + v]
  }

  /** Moving keeps the total and changes exactly the two accounts. */
  lemma MovedConserves(m: map<Addr, nat>, from: Addr, to: Addr, v: nat)
    requires v <= BalanceIn(m, from)
    ensures Total(Moved(m, from, to, v)) == Total(m)
    ensures forall a: Addr :: BalanceIn(Moved(m, from, to, v), a) ==
              BalanceIn(m, a) - (if a == from then v else 0) + (if a == to then v else 0)
  {
    var n := m[from := BalanceIn(m, from) - v];
    TotalUpdate(m, from, BalanceIn(m, from) - v);
    TotalUpdate(n, to, BalanceIn(n, to) + v);
  }

  // ---- the state ----

  /** The storage of all accounts; a callee updates the object of its caller in place. */
  class Storage {
    var accounts: map<Addr, map<int, int>>

    constructor (accounts: map<Addr, map<int, int>>)
      ensures this.accounts == accounts
    {
      this.accounts := accounts;
    }

    /** deepcopy */
    method Copy() returns (r: Storage)
      ensures fresh(r) && r.accounts == accounts
    {
      r := new Storage(accounts);
    }

    /** There is no storage for an account that does not exist. */
    method Write(a: Addr, slot: int, value: int) returns (found: bool)
      modifies this
      ensures found == (a in old(accounts))
      ensures accounts == if found then old(accounts)[a := old(accounts)[a][slot := value]] else old(accounts)
    {
      if a !in accounts {
        return false;
      }
      accounts := accounts[a := accounts[a][slot := value]];
      found := true;
    }

    method Reset(a: Addr)
      modifies this
      ensures accounts == old(accounts)[a := map[]]
    {
      accounts := accounts[a := map[]];
    }
  }

  /** What a frame does: writes, nested calls and creations, and possibly a failure. */
  datatype Op =
    | Write(addr: Addr, slot: int, word: int)
    | WriteTransient(addr: Addr, slot: int, word: int)
    | Call(caller: Addr, to: Addr, value: nat, body: seq<Op>)
    | Create(caller: Addr, addr: Addr, value: nat, body: seq<Op>, code: nat)
    | Fail

  /** Excluded: the path condition does not hold. Stuck: an internal error ends the path. */
  datatype Outcome = Success | Failure | Excluded | Stuck

  // ---- what a frame does, on values ----

  /** The network state as a value. */
  datatype Net = Net(code: map<Addr, nat>, accounts: map<Addr, map<int, int>>, transient: map<Addr, map<int, int>>,
                     balance: map<Addr, nat>, nonces: map<Addr, nat>)

  /** How a frame ends, and the state after it. */
  datatype Ran = Ran(outcome: Outcome, net: Net)

  /** The path goes on. */
  predicate Goes(o: Outcome) {
    o == Success || o == Failure
  }

  function Written(m: map<Addr, map<int, int>>, a: Addr, slot: int, word: int): map<Addr, map<int, int>>
    requires a in m
  {
    m[a := m[a][slot := word]]
  }

  /** The transfer is considered: enough is there, and no balance read is above the cap. */
  predicate Payable(m: map<Addr, nat>, from: Addr, to: Addr, needed: nat, moved: nat)
    requires moved <= needed
  {
    && needed <= BalanceIn(m, from) <= MaxEth()
    && BalanceIn(m[from := BalanceIn(m, from) - moved], to) <= MaxEth()
  }

  function RunOf(n: Net, ops: seq<Op>): Ran
    decreases ops, 0
  {
    if ops == [] then Ran(Success, n)
    else if ops[0] == Fail then Ran(Failure, n)
    else
      var r := StepOf(n, ops[0]);
      if Goes(r.outcome) then RunOf(r.net, ops[1..]) else r
  }

  function StepOf(n: Net, op: Op): Ran
    requires op != Fail
    decreases op, 1
  {
    match op
    case Write(a, slot, v) =>
      if a in n.accounts then Ran(Success, n.(accounts := Written(n.accounts, a, slot, v))) else Ran(Stuck, n)
    case WriteTransient(a, slot, v) =>
      if a in n.transient then Ran(Success, n.(transient := Written(n.transient, a, slot, v))) else Ran(Stuck, n)
    case Call(caller, to, value, body) => CallOf(n, caller, to, value, body)
    case Create(caller, a, value, body, newCode) => CreateOf(n, caller, a, value, body, newCode)
  }

  /** What stands in the way of a call with value, before anything is moved. */
  function Obstacle(m: map<Addr, nat>, caller: Addr, value: nat): Option<Outcome> {
    if value >= Pow2(WORD) then Some(Excluded)
    else if value == 0 then None
    else if BalanceIn(m, caller) > MaxEth() then Some(Excluded)
    else if BalanceIn(m, caller) < value then Some(Failure)
    else None
  }

  /** The callee runs on the state after the transfer; if it fails, only nonces are kept. */
  function Framed(n: Net, m: Net, caller: Addr, to: Addr, value: nat, body: seq<Op>): Ran
    decreases body, 1
  {
    if value != 0 && !Payable(m.balance, caller, to, value, value) then Ran(Excluded, n) else
    var r := RunOf(if value == 0 then m else m.(balance := Moved(m.balance, caller, to, value)), body);
    if r.outcome == Failure then Ran(Failure, n.(nonces := r.net.nonces)) else r
  }

  function CallOf(n: Net, caller: Addr, to: Addr, value: nat, body: seq<Op>): Ran
    decreases body, 2
  {
    match Obstacle(n.balance, caller, value)
    case Some(o) => Ran(o, n)
    case None => Framed(n, n, caller, to, value, body)
  }

  /** The nonce of the creator grows even if the creation fails; the new account starts with nonce 1. */
  function CreateOf(n: Net, caller: Addr, a: Addr, value: nat, body: seq<Op>, deployed: nat): Ran
    decreases body, 3
  {
    var bumped := n.(nonces := n.nonces[caller := BalanceIn(n.nonces, caller) + 1]);
    match Obstacle(n.balance, caller, value)
    case Some(o) => Ran(o, bumped)
    case None =>
      if a in n.code then Ran(Failure, bumped) else DeployOf(bumped, caller, a, value, body, deployed)
  }

  /** The code is installed only if the creation succeeds. */
  function DeployOf(n: Net, caller: Addr, a: Addr, value: nat, body: seq<Op>, deployed: nat): Ran
    decreases body, 2
  {
    var r := Framed(n, Opened(n, a), caller, a, value, body);
    if r.outcome == Success then Ran(Success, r.net.(code := r.net.code[a := deployed])) else r
  }

  /** The state with a new, empty account. */
  function Opened(n: Net, a: Addr): Net {
    Net(n.code[a := 0], n.accounts[a := map[]], n.transient[a := map[]], n.balance, n.nonces[a := 1])
  }

  // ---- conservation and rollback ----

  /** Over any tree of calls and creations, failed ones included, the total balance stays. */
  lemma {:induction false} RunConserves(n: Net, ops: seq<Op>)
    ensures Goes(RunOf(n, ops).outcome) ==> Total(RunOf(n, ops).net.balance) == Total(n.balance)
    decreases ops, 0
  {
    hide Total, Moved, Pow2;
    if ops != [] && ops[0] != Fail {
      StepConserves(n, ops[0]);
      RunConserves(StepOf(n, ops[0]).net, ops[1..]);
    }
  }

  lemma {:induction false} StepConserves(n: Net, op: Op)
    requires op != Fail
    ensures Goes(StepOf(n, op).outcome) ==> Total(StepOf(n, op).net.balance) == Total(n.balance)
    decreases op, 1
  {
    hide Total, Moved, Pow2, Framed;
    match op
    case Write(_, _, _) =>
    case WriteTransient(_, _, _) =>
    case Call(caller, to, value, body) =>
      FramedConserves(n, n, caller, to, value, body);
    case Create(caller, a, value, body, newCode) =>
      var bumped := n.(nonces := n.nonces[caller := BalanceIn(n.nonces, caller) + 1]);
      FramedConserves(bumped, Opened(bumped, a), caller, a, value, body);
      var d := DeployOf(bumped, caller, a, value, body, newCode);
      assert Goes(d.outcome) ==> Total(d.net.balance) == Total(n.balance);
      assert StepOf(n, op) == CreateOf(n, caller, a, value, body, newCode);
  }

  lemma {:induction false} FramedConserves(n: Net, m: Net, caller: Addr, to: Addr, value: nat, body: seq<Op>)
    requires n.balance == m.balance
    ensures var r := Framed(n, m, caller, to, value, body);
      Goes(r.outcome) ==> Total(r.net.balance) == Total(n.balance)
    decreases body, 1
  {
    hide Total, Moved, Pow2;
    if value == 0 {
      RunConserves(m, body);
    } else if Payable(m.balance, caller, to, value, value) {
      MovedConserves(m.balance, caller, to, value);
      RunConserves(m.(balance := Moved(m.balance, caller, to, value)), body);
    }
  }

  /** The states differ at most in their nonces. */
  predicate SameButNonces(n: Net, m: Net) {
    n.code == m.code && n.accounts == m.accounts && n.transient == m.transient && n.balance == m.balance
  }

  lemma FramedRollsBack(n: Net, m: Net, caller: Addr, to: Addr, value: nat, body: seq<Op>)
    ensures var r := Framed(n, m, caller, to, value, body);
      r.outcome == Failure ==> SameButNonces(r.net, n)
  {
    hide RunOf, Moved, Payable, Pow2;
  }

  /** A failed call or creation leaves code, storage, transient storage and balances as before. */
  lemma FailureRollsBack(n: Net, op: Op)
    requires (op.Call? || op.Create?) && StepOf(n, op).outcome == Failure
    ensures SameButNonces(StepOf(n, op).net, n)
  {
    hide Framed, Pow2;
    if op.Call? {
      FramedRollsBack(n, n, op.caller, op.to, op.value, op.body);
      assert StepOf(n, op) == CallOf(n, op.caller, op.to, op.value, op.body);
    } else {
      var bumped := n.(nonces := n.nonces[op.caller := BalanceIn(n.nonces, op.caller) + 1]);
      FramedRollsBack(bumped, Opened(bumped, op.addr), op.caller, op.addr, op.value, op.body);
      var d := DeployOf(bumped, op.caller, op.addr, op.value, op.body, op.code);
      assert d.outcome == Failure ==> SameButNonces(d.net, n);
      assert StepOf(n, op) == CreateOf(n, op.caller, op.addr, op.value, op.body, op.code);
    }
  }

  class Exec {
    var code: map<Addr, nat>
    var storage: Storage
    var transient: Storage
    var balance: map<Addr, nat>
    var nonces: map<Addr, nat>

    ghost predicate Valid()
      reads this
    {
      storage != transient
    }

    /** The network state as a value. */
    ghost function State(): Net
      reads this, storage, transient
    {
      Net(code, storage.accounts, transient.accounts, balance, nonces)
    }

    /** This state and outcome are those of a run on values; how the state looks matters only if the path goes on. */
    ghost predicate Did(outcome: Outcome, r: Ran)
      reads this, storage, transient
    {
      outcome == r.outcome && (Goes(outcome) ==> State() == r.net)
    }

    constructor (code: map<Addr, nat>, accounts: map<Addr, map<int, int>>, balance: map<Addr, nat>)
      ensures Valid() && fresh(storage) && fresh(transient)
      ensures this.code == code && storage.accounts == accounts && this.balance == balance
    {
      this.code, this.balance, nonces := code, balance, map[];
      var s := new Storage(accounts);
      var t := new Storage(map a | a in accounts :: map[]);
      storage, transient := s, t;
    }

    /** Balances above the cap are not considered. */
    method BalanceOf(a: Addr) returns (v: nat, feasible: bool)
      ensures v == BalanceIn(balance, a) && feasible == (v <= MaxEth())
    {
      v := BalanceIn(balance, a);
      feasible := v <= MaxEth();
    }

    method BalanceUpdate(a: Addr, v: nat)
      modifies this`balance
      ensures balance == old(balance)[a := v]
    {
      balance := balance[a := v];
    }

    /** Moves value by 256-bit arithmetic; the caller must have enough even if nothing is moved. */
    method TransferValue(caller: Addr, to: Addr, value: nat, condition: Option<bool>) returns (feasible: bool)
      requires value < Pow2(WORD)
      modifies this`balance
      ensures var moved := if condition == Some(false) then 0 else value;
        && (feasible <==> value == 0 || Payable(old(balance), caller, to, value, moved))
        && (feasible ==> balance == if value == 0 then old(balance) else Moved(old(balance), caller, to, moved))
    {
      hide Pow2, Total, Rem;
      if value == 0 {
        return true;
      }
      var callerBalance, capped := BalanceOf(caller);
      if !capped || callerBalance < value {
        return false;
      }
      var moved := if condition == Some(false) then 0 else value;
      NoWrap(callerBalance, moved);
      BalanceUpdate(caller, Mod2(callerBalance - moved, WORD));
      var toBalance, cappedTo := BalanceOf(to);
      if !cappedTo {
        return false;
      }
      NoWrap(callerBalance, moved);
      FitsSum(toBalance, moved);
      BalanceUpdate(to, Mod2(toBalance + moved, WORD));
      feasible := true;
    }

    /** Puts back the state at the start of a call, from copies. */
    method Restore(origCode: map<Addr, nat>, origStorage: Storage, origTransient: Storage, origBalance: map<Addr, nat>)
      modifies this`code, this`storage, this`transient, this`balance
      ensures Valid() && fresh(storage) && fresh(transient) && nonces == old(nonces)
      ensures code == origCode && balance == origBalance
      ensures storage.accounts == origStorage.accounts && transient.accounts == origTransient.accounts
    {
      var s := origStorage.Copy();
      var t := origTransient.Copy();
      code, storage, transient, balance := origCode, s, t, origBalance;
    }

    /** Runs the operations of a frame; the state is updated in place. */
    method Run(ops: seq<Op>) returns (outcome: Outcome)
      requires Valid()
      modifies this, storage, transient
      ensures Valid() && fresh({storage, transient} - old({storage, transient}))
      ensures Did(outcome, RunOf(old(State()), ops))
      decreases ops, 0
    {
      hide Moved, Pow2, StepOf;
      assert ops[0..] == ops;
      for i := 0 to |ops|
        invariant Valid() && fresh({storage, transient} - old({storage, transient}))
        invariant RunOf(State(), ops[i..]) == RunOf(old(State()), ops)
      {
        assert ops[i..][0] == ops[i] && ops[i..][1..] == ops[i + 1..];
        if ops[i] == Fail {
          return Failure;
        }
        outcome := Step(ops[i]);
        if outcome == Excluded || outcome == Stuck {
          return;
        }
      }
      outcome := Success;
    }

    /** One operation; a call or creation that fails does not end the frame. */
    method Step(op: Op) returns (outcome: Outcome)
      requires Valid() && op != Fail
      modifies this, storage, transient
      ensures Valid() && fresh({storage, transient} - old({storage, transient}))
      ensures Did(outcome, StepOf(old(State()), op))
      decreases op, 1
    {
      hide Moved, Pow2, CallOf, CreateOf;
      match op
      case Write(a, slot, v) =>
        var found := storage.Write(a, slot, v);
        outcome := if found then Success else Stuck;
      case WriteTransient(a, slot, v) =>
        var found := transient.Write(a, slot, v);
        outcome := if found then Success else Stuck;
      case Call(caller, to, value, body) =>
        outcome := CallKnown(caller, to, value, body);
      case Create(caller, a, value, body, newCode) =>
        outcome := CreateContract(caller, a, value, body, newCode);
    }

    /** A call with value: state is saved before the transfer and restored if the callee fails. */
    method CallKnown(caller: Addr, to: Addr, value: nat, body: seq<Op>) returns (outcome: Outcome)
      requires Valid()
      modifies this, storage, transient
      ensures Valid() && fresh({storage, transient} - old({storage, transient}))
      ensures Did(outcome, CallOf(old(State()), caller, to, value, body))
      decreases body, 1
    {
      hide Moved, Pow2, RunOf;
      if value >= Pow2(WORD) {
        return Excluded;
      }
      if value != 0 {
        var b, capped := BalanceOf(caller);
        if !capped {
          return Excluded;
        }
        if b < value {
          return Failure;
        }
      }
      var origCode, origBalance := code, balance;
      var origStorage := storage.Copy();
      var origTransient := transient.Copy();
      var feasible := TransferValue(caller, to, value, None);
      if !feasible {
        return Excluded;
      }
      outcome := Run(body);
      if outcome == Failure {
        Restore(origCode, origStorage, origTransient, origBalance);
      }
    }

    /** A creation: the nonce of the creator is bumped first, and stays bumped. */
    method CreateContract(caller: Addr, newAddr: Addr, value: nat, body: seq<Op>, deployed: nat) returns (outcome: Outcome)
      requires Valid()
      modifies this, storage, transient
      ensures Valid() && fresh({storage, transient} - old({storage, transient}))
      ensures Did(outcome, CreateOf(old(State()), caller, newAddr, value, body, deployed))
      decreases body, 2
    {
      hide Moved, Pow2, RunOf, DeployOf;
      if value >= Pow2(WORD) {
        return Excluded;
      }
      nonces := nonces[caller := BalanceIn(nonces, caller) + 1];
      if value != 0 {
        var b, capped := BalanceOf(caller);
        if !capped {
          return Excluded;
        }
        if b < value {
          return Failure;
        }
      }
      if newAddr in code {
        return Failure;
      }
      outcome := Deploy(caller, newAddr, value, body, deployed);
    }

    /** Opens the account, runs the creation code, and installs the result. */
    method Deploy(caller: Addr, newAddr: Addr, value: nat, body: seq<Op>, deployed: nat) returns (outcome: Outcome)
      requires Valid() && value < Pow2(WORD)
      modifies this, storage, transient
      ensures Valid() && fresh({storage, transient} - old({storage, transient}))
      ensures Did(outcome, DeployOf(old(State()), caller, newAddr, value, body, deployed))
      decreases body, 1
    {
      hide Moved, Pow2, RunOf;
      var origCode, origBalance := code, balance;
      var origStorage := storage.Copy();
      var origTransient := transient.Copy();
      code := code[newAddr := 0];
      nonces := nonces[newAddr := 1];
      storage.Reset(newAddr);
      transient.Reset(newAddr);
      var feasible := TransferValue(caller, newAddr, value, None);
      if !feasible {
        return Excluded;
      }
      outcome := Run(body);
      if outcome == Success {
        code := code[newAddr := deployed];
      } else if outcome == Failure {
        Restore(origCode, origStorage, origTransient, origBalance);
      }
    }
  }

  lemma NoWrap(b: nat, v: nat)
    requires v <= b <= MaxEth()
    ensures Mod2(b - v, WORD) == b - v
  {
    hide Pow2;
    Pow2Less(128, WORD);
    assert b - v < Pow2(WORD);
    SmallMod(b - v, WORD);
  }

  lemma FitsSum(b: nat, v: nat)
    requires b <= MaxEth() && v <= MaxEth()
    ensures Mod2(b + v, WORD) == b + v
  {
    Pow2Less(128, 129);
    Pow2Less(129, WORD);
    SmallMod(b + v, WORD);
  }
}
