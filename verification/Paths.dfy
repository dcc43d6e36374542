// The solver shared by all paths, and the paths that save a scope in it.
module Paths {
  import opened Options
  import opened BvTerms
  import opened Prover

  // ---- lists of conditions ----

  function Flatten(levels: seq<seq<Bl>>): seq<Bl> {
    if levels == [] then [] else Flatten(levels[..|levels| - 1]) + levels[|levels| - 1]
  }

  lemma ModelAppend(ps: seq<Bl>, qs: seq<Bl>, v: Val)
    requires WfBAll(ps) && WfBAll(qs)
    ensures WfBAll(ps + qs)
    ensures Model(ps + qs, v) <==> Model(ps, v) && Model(qs, v)
  {
    hide EvalB, WfB;
    if Model(ps + qs, v) {
      assert forall i | 0 <= i < |ps| :: (ps + qs)[i] == ps[i];
      assert forall i | 0 <= i < |qs| :: (ps + qs)[|ps| + i] == qs[i];
    }
  }

  lemma ModelOne(p: Bl, v: Val)
    requires WfB(p)
    ensures WfBAll([p]) && (Model([p], v) <==> EvalB(p, v))
  {
    hide EvalB, WfB;
    assert [p][0] == p;
  }

  predicate WfLevels(levels: seq<seq<Bl>>) {
    forall i | 0 <= i < |levels| :: WfBAll(levels[i])
  }

  lemma {:induction false} FlattenWf(levels: seq<seq<Bl>>)
    requires WfLevels(levels)
    ensures WfBAll(Flatten(levels))
  {
    hide WfB;
    if levels != [] {
      FlattenWf(levels[..|levels| - 1]);
    }
  }

  /** The levels after adding assertions to the top one. */
  function Extended(levels: seq<seq<Bl>>, added: seq<Bl>): (r: seq<seq<Bl>>)
    requires levels != []
    ensures |r| == |levels|
  {
    levels[..|levels| - 1] + [levels[|levels| - 1] + added]
  }

  lemma ExtendedNone(levels: seq<seq<Bl>>)
    requires levels != []
    ensures Extended(levels, []) == levels
  {
    var n := |levels| - 1;
    assert levels[n] + [] == levels[n];
    assert levels[..n] + [levels[n]] == levels;
  }

  lemma ExtendedTwice(levels: seq<seq<Bl>>, a: seq<Bl>, b: seq<Bl>)
    requires levels != []
    ensures Extended(Extended(levels, a), b) == Extended(levels, a + b)
  {
    var n := |levels| - 1;
    assert (levels[n] + a) + b == levels[n] + (a + b);
    assert Extended(levels, a)[..n] == levels[..n];
  }

  lemma FlattenExtended(levels: seq<seq<Bl>>, added: seq<Bl>)
    requires levels != []
    ensures Flatten(Extended(levels, added)) == Flatten(levels) + added
  {
    assert Extended(levels, added)[..|levels| - 1] == levels[..|levels| - 1];
  }

  lemma FlattenPushed(levels: seq<seq<Bl>>)
    ensures Flatten(levels + [[]]) == Flatten(levels)
  {
    assert (levels + [[]])[..|levels|] == levels;
  }

  // ---- the solver ----

  class Solver {
    const smt: Smt
    var levels: seq<seq<Bl>>  // assertion levels; level 0 stays

    ghost predicate Valid()
      reads this
    {
      Trusted(smt) && levels != [] && WfLevels(levels)
    }

    constructor (smt: Smt)
      requires Trusted(smt)
      ensures Valid() && levels == [[]] && this.smt == smt
    {
      this.smt, levels := smt, [[]];
    }

    function NumScopes(): nat
      requires levels != []
      reads this
    {
      |levels| - 1
    }

    method Push()
      requires Valid()
      modifies this
      ensures Valid() && levels == old(levels) + [[]]
    {
      levels := levels + [[]];
    }

    method Pop(n: nat)
      requires Valid() && n <= NumScopes()
      modifies this
      ensures Valid() && levels == old(levels)[..|old(levels)| - n]
    {
      levels := levels[..|levels| - n];
    }

    method Add(c: Bl)
      requires Valid() && WfB(c)
      modifies this
      ensures Valid() && levels == Extended(old(levels), [c])
    {
      levels := Extended(levels, [c]);
    }

    /** Only an unsat answer says anything. */
    method Check(c: Bl) returns (answer: Answer)
      requires Valid() && WfB(c)
      ensures WfBAll(Flatten(levels)) && answer == smt.check(Flatten(levels) + [c])
      ensures answer == Unsat ==> forall v: Val | Model(Flatten(levels), v) :: !EvalB(c, v)
    {
      hide EvalB, WfB;
      FlattenWf(levels);
      var query := Flatten(levels) + [c];
      answer := smt.check(query);
      forall v: Val
        ensures WfBAll(query) && (Model(query, v) <==> Model(Flatten(levels), v) && EvalB(c, v))
      {
        ModelOne(c, v);
        ModelAppend(Flatten(levels), [c], v);
      }
      assert answer == Unsat ==> Unsatisfiable(query);
    }
  }

  // ---- paths ----

  /** Conditions are simplified, and neither trivial nor repeated. */
  function Appended(smt: Smt, conditions: seq<Bl>, cond: Bl): (r: seq<Bl>)
    ensures conditions <= r
  {
    var c := smt.simplify(cond);
    if c == Lit(true) || c in conditions then conditions else conditions + [c]
  }

  function AppendedAll(smt: Smt, conditions: seq<Bl>, conds: seq<Bl>): (r: seq<Bl>)
    ensures conditions <= r
  {
    if conds == [] then conditions else
    Appended(smt, AppendedAll(smt, conditions, conds[..|conds| - 1]), conds[|conds| - 1])
  }

  lemma AppendedMeans(smt: Smt, conditions: seq<Bl>, cond: Bl, v: Val)
    requires Trusted(smt) && WfBAll(conditions) && WfB(cond)
    ensures WfBAll(Appended(smt, conditions, cond))
    ensures Model(Appended(smt, conditions, cond), v) <==> Model(conditions, v) && EvalB(cond, v)
  {
    hide WfB;
    var c := smt.simplify(cond);
    assert WfB(c) && Equivalent(c, cond);
    ModelOne(c, v);
    ModelAppend(conditions, [c], v);
  }

  lemma {:induction false} AppendedAllMeans(smt: Smt, conditions: seq<Bl>, conds: seq<Bl>, v: Val)
    requires Trusted(smt) && WfBAll(conditions) && WfBAll(conds)
    ensures WfBAll(AppendedAll(smt, conditions, conds))
    ensures Model(AppendedAll(smt, conditions, conds), v) <==> Model(conditions, v) && Model(conds, v)
  {
    hide WfB, EvalB, Trusted, Appended;
    if conds != [] {
      var n := |conds| - 1;
      AppendedAllMeans(smt, conditions, conds[..n], v);
      AppendedMeans(smt, AppendedAll(smt, conditions, conds[..n]), conds[n], v);
      ModelOne(conds[n], v);
      ModelAppend(conds[..n], [conds[n]], v);
      assert conds[..n] + [conds[n]] == conds;
    }
  }

  /** The conditions at the chosen positions. */
  function Picked(conditions: seq<Bl>, chosen: set<nat>): seq<Bl> {
    if conditions == [] then [] else
    var n := |conditions| - 1;
    Picked(conditions[..n], chosen) + if n in chosen then [conditions[n]] else []
  }

  function ChosenBelow(chosen: set<nat>, n: nat): set<nat> {
    set i | i in chosen && i < n
  }

  /** A chosen condition comes after those chosen before it, and nothing else is kept. */
  lemma {:induction false} PickedKeeps(conditions: seq<Bl>, chosen: set<nat>, i: nat)
    ensures |Picked(conditions, chosen)| == |ChosenBelow(chosen, |conditions|)|
    ensures i in chosen && i < |conditions| ==>
              var at := |ChosenBelow(chosen, i)|;
              at < |Picked(conditions, chosen)| && Picked(conditions, chosen)[at] == conditions[i]
  {
    if conditions == [] {
      assert ChosenBelow(chosen, 0) == {};
    } else {
      var n := |conditions| - 1;
      PickedKeeps(conditions[..n], chosen, i);
      ChosenNext(chosen, n);
    }
  }

  lemma ChosenNext(chosen: set<nat>, n: nat)
    ensures |ChosenBelow(chosen, n + 1)| == |ChosenBelow(chosen, n)| + if n in chosen then 1 else 0
  {
    assert ChosenBelow(chosen, n + 1) == ChosenBelow(chosen, n) + if n in chosen then {n} else {};
  }

  class Path {
    const solver: Solver
    var numScopes: nat
    var conditions: seq<Bl>
    var pending: seq<Bl>
    var sliced: Option<set<nat>>

    ghost predicate Valid()
      reads this, solver
    {
      solver.Valid() && WfBAll(conditions) && WfBAll(pending)
    }

    constructor (solver: Solver)
      requires solver.Valid()
      ensures Valid() && this.solver == solver
      ensures numScopes == 0 && conditions == [] && pending == [] && sliced == None
    {
      this.solver := solver;
      numScopes, conditions, pending, sliced := 0, [], [], None;
    }

    /** A path for the other branch; there is none while this path is waiting. */
    method Branch(cond: Bl) returns (path: Option<Path>)
      requires Valid() && WfB(cond)
      modifies solver
      ensures Valid()
      ensures path.None? <==> pending != []
      ensures solver.levels == if path.None? then old(solver.levels) else old(solver.levels) + [[]]
      ensures path.Some? ==> var p := path.value;
        && fresh(p) && p.Valid() && p.solver == solver && p.numScopes == old(solver.NumScopes())
        && p.conditions == conditions && p.pending == [cond] && p.sliced == None
    {
      if pending != [] {
        return None;
      }
      var p := new Path(solver);
      p.numScopes := solver.NumScopes();
      solver.Push();
      p.conditions := conditions;
      p.pending := p.pending + [cond];
      path := Some(p);
    }

    /** Rolls the solver back to the saved scope and adds what was set aside. */
    method Activate() returns (ok: bool)
      requires Valid()
      modifies this, solver
      ensures Valid()
      ensures numScopes == old(numScopes) && sliced == old(sliced)
      ensures ok <==> old(solver.NumScopes() >= numScopes)
      ensures !ok ==> solver.levels == old(solver.levels) && conditions == old(conditions) && pending == old(pending)
      ensures ok ==> pending == [] && conditions == AppendedAll(solver.smt, old(conditions), old(pending))
      ensures ok ==> solver.levels ==
                     Extended(old(solver.levels)[..numScopes + 1], conditions[|old(conditions)|..])
    {
      if solver.NumScopes() < numScopes {
        return false;
      }
      solver.Pop(solver.NumScopes() - numScopes);
      Extend(pending);
      pending := [];
      ok := true;
    }

    method Append(cond: Bl)
      requires Valid() && WfB(cond)
      modifies this`conditions, solver
      ensures Valid() && conditions == Appended(solver.smt, old(conditions), cond)
      ensures solver.levels == Extended(old(solver.levels), conditions[|old(conditions)|..])
    {
      hide WfB;
      var c := solver.smt.simplify(cond);
      if c == Lit(true) || c in conditions {
        ExtendedNone(solver.levels);
        assert conditions[|conditions|..] == [];
        return;
      }
      solver.Add(c);
      conditions := conditions + [c];
    }

    method Extend(conds: seq<Bl>)
      requires Valid() && WfBAll(conds)
      modifies this`conditions, solver
      ensures Valid() && conditions == AppendedAll(solver.smt, old(conditions), conds)
      ensures solver.levels == Extended(old(solver.levels), conditions[|old(conditions)|..])
    {
      hide WfB, Appended, Extended;
      ghost var first, levels := conditions, solver.levels;
      ExtendedNone(levels);
      assert conditions[|first|..] == [];
      for i := 0 to |conds|
        invariant Valid() && conditions == AppendedAll(solver.smt, first, conds[..i])
        invariant solver.levels == Extended(levels, conditions[|first|..])
      {
        ghost var before := conditions;
        Append(conds[i]);
        assert conds[..i + 1][..i] == conds[..i];
        assert conditions[|first|..] == before[|first|..] + conditions[|before|..];
        ExtendedTwice(levels, before[|first|..], conditions[|before|..]);
      }
      assert conds[..|conds|] == conds;
    }

    /** Continues another path on this path's solver, which may get only part of the conditions. */
    method ExtendPath(parent: Path)
      requires Valid() && parent.Valid() && this != parent
      modifies this`conditions, solver
      ensures Valid() && conditions == parent.conditions
      ensures solver.levels == Extended(old(solver.levels), PickedOf(conditions, parent.sliced))
    {
      hide WfB, Extended, Picked, Trusted, WfLevels;
      var conds, chosen := parent.conditions, parent.sliced;
      ghost var levels := solver.levels;
      conditions := conds;
      ExtendedNone(levels);
      PickedNone(conds, chosen);
      for i := 0 to |conds|
        invariant Valid() && conditions == conds
        invariant solver.levels == Extended(levels, PickedOf(conds[..i], chosen))
      {
        PickedStep(conds, chosen, i);
        if chosen.None? || i in chosen.value {
          solver.Add(conds[i]);
          ExtendedTwice(levels, PickedOf(conds[..i], chosen), [conds[i]]);
        }
      }
      assert conds[..|conds|] == conds;
    }
  }

  function PickedOf(conditions: seq<Bl>, sliced: Option<set<nat>>): seq<Bl> {
    if sliced.None? then conditions else Picked(conditions, sliced.value)
  }

  lemma PickedNone(conditions: seq<Bl>, sliced: Option<set<nat>>)
    ensures PickedOf(conditions[..0], sliced) == []
  {
    assert conditions[..0] == [];
  }

  lemma PickedStep(conditions: seq<Bl>, sliced: Option<set<nat>>, i: nat)
    requires i < |conditions|
    ensures PickedOf(conditions[..i + 1], sliced) ==
            if sliced.None? || i in sliced.value then PickedOf(conditions[..i], sliced) + [conditions[i]]
            else PickedOf(conditions[..i], sliced)
  {
    assert conditions[..i + 1][..i] == conditions[..i];
    assert conditions[..i + 1] == conditions[..i] + [conditions[i]];
    assert Picked(conditions[..i], {}) + [] == Picked(conditions[..i], {});
  }
}
