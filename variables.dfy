// The choice variable_search makes before it enumerates: the rarest
// strictly-positive type among the type restrictions of the variables,
// and the clause and term that hold such a variable.

module Variables {
  import opened Atoms

  /** Clause cl holds variable v: cl is v itself, or FindAtoms(v) finds a
      least holder of v in cl. */
  predicate Holds(env: Env, v: Atom, cl: Atom) {
    cl == v || |env.leastHolders(v, cl)| > 0
  }

  /** The start term for a clause that holds v: the clause itself when it
      is the lone variable, otherwise the first least holder. */
  function HolderTerm(env: Env, v: Atom, cl: Atom): Atom
    requires Holds(env, v, cl)
  {
    if cl == v then cl else env.leastHolders(v, cl)[0]
  }

  /** The loop over the clauses for one (variable, type) pair: the index of
      the first clause from i on that holds v. */
  function FirstHolder(env: Env, v: Atom, clauses: seq<Atom>, i: nat): (r: Option<nat>)
    requires i <= |clauses|
    ensures r.Some? ==>
      i <= r.value < |clauses| && Holds(env, v, clauses[r.value]) &&
      forall k | i <= k < r.value :: !Holds(env, v, clauses[k])
    ensures r.None? ==> forall k | i <= k < |clauses| :: !Holds(env, v, clauses[k])
    decreases |clauses| - i
  {
    if i == |clauses| then None
    else if Holds(env, v, clauses[i]) then Some(i)
    else FirstHolder(env, v, clauses, i + 1)
  }

  /** The running state of variable_search: _root, _starter_term, count
      and ptype. */
  datatype VarChoice = VarChoice(root: Option<Atom>, term: Option<Atom>, count: Size, ptype: AtomType)

  const NoVar: VarChoice := VarChoice(None, None, SIZE_MAX, ATOM)

  /** The body of the type loop for variable v and type t: a strictly
      positive count below the running one is taken if some clause holds v. */
  function TypeStep(env: Env, v: Atom, clauses: seq<Atom>, t: AtomType, acc: VarChoice): (r: VarChoice)
    requires acc.root.Some? <==> acc.term.Some?
    ensures r.root.Some? <==> r.term.Some?
    ensures r.count <= acc.count
  {
    var num := env.numAtomsOfType(t);
    if 0 < num < acc.count then
      match FirstHolder(env, v, clauses, 0)
      case Some(j) => VarChoice(Some(clauses[j]), Some(HolderTerm(env, v, clauses[j])), num, t)
      case None => acc
    else acc
  }

  /** The loop over the type set of variable v, from position k on. */
  function TypesFrom(env: Env, v: Atom, clauses: seq<Atom>, types: seq<AtomType>, k: nat, acc: VarChoice): (r: VarChoice)
    requires k <= |types|
    requires acc.root.Some? <==> acc.term.Some?
    ensures r.root.Some? <==> r.term.Some?
    ensures r.count <= acc.count
    decreases |types| - k
  {
    if k == |types| then acc
    else TypesFrom(env, v, clauses, types, k + 1, TypeStep(env, v, clauses, types[k], acc))
  }

  /** The loop over the variables, from position i on; a variable without
      type restrictions is skipped. */
  function VarsFrom(env: Env, vars: seq<Atom>, clauses: seq<Atom>, i: nat, acc: VarChoice): (r: VarChoice)
    requires i <= |vars|
    requires acc.root.Some? <==> acc.term.Some?
    ensures r.root.Some? <==> r.term.Some?
    ensures r.count <= acc.count
    decreases |vars| - i
  {
    if i == |vars| then acc
    else
      var next :=
        if vars[i] in env.typeRestrictions
        then TypesFrom(env, vars[i], clauses, env.typeRestrictions[vars[i]], 0, acc)
        else acc;
      VarsFrom(env, vars, clauses, i + 1, next)
  }

  /** What variable_search chooses for the variables vars, in the iteration
      order of the variable set. */
  function VarSelect(env: Env, vars: seq<Atom>, clauses: seq<Atom>): (r: VarChoice)
    ensures r.root.Some? <==> r.term.Some?
  {
    VarsFrom(env, vars, clauses, 0, NoVar)
  }

  /** (i, k) names the k-th restricted type of the i-th variable, a type
      with atoms in the atomspace, of a variable some clause holds. */
  predicate Candidate(env: Env, vars: seq<Atom>, clauses: seq<Atom>, i: int, k: int) {
    && 0 <= i < |vars| && vars[i] in env.typeRestrictions
    && 0 <= k < |env.typeRestrictions[vars[i]]|
    && 0 < env.numAtomsOfType(env.typeRestrictions[vars[i]][k])
    && FirstHolder(env, vars[i], clauses, 0).Some?
  }

  /** The pair (i1, k1) comes before position (i, k) of the two loops. */
  predicate Before(i1: int, k1: int, i: int, k: int) {
    i1 < i || (i1 == i && k1 < k)
  }

  /** What the two loops keep: the count is at most the count of every
      candidate pair seen so far, and a chosen root comes from the pair
      (wi, wk), the first one seen with that count. */
  ghost predicate VarOk(env: Env, vars: seq<Atom>, clauses: seq<Atom>, i: int, k: int, acc: VarChoice, wi: int, wk: int) {
    && (forall i1, k1 | Before(i1, k1, i, k) && Candidate(env, vars, clauses, i1, k1) ::
          acc.count <= env.numAtomsOfType(env.typeRestrictions[vars[i1]][k1]))
    && (acc.root.None? ==> acc == NoVar)
    && (acc.root.Some? ==>
          && Before(wi, wk, i, k) && Candidate(env, vars, clauses, wi, wk)
          && acc.ptype == env.typeRestrictions[vars[wi]][wk]
          && env.numAtomsOfType(acc.ptype) == acc.count < SIZE_MAX
          && var j := FirstHolder(env, vars[wi], clauses, 0).value;
          && acc.root == Some(clauses[j])
          && acc.term == Some(HolderTerm(env, vars[wi], clauses[j]))
          && forall i1, k1 | Before(i1, k1, wi, wk) && Candidate(env, vars, clauses, i1, k1) ::
               acc.count < env.numAtomsOfType(env.typeRestrictions[vars[i1]][k1]))
  }

  /** One type of the inner loop keeps VarOk. */
  lemma TypeStepOk(env: Env, vars: seq<Atom>, clauses: seq<Atom>, i: nat, k: nat, acc: VarChoice, wi: int, wk: int)
      returns (wi': int, wk': int)
    requires i < |vars| && vars[i] in env.typeRestrictions && k < |env.typeRestrictions[vars[i]]|
    requires VarOk(env, vars, clauses, i, k, acc, wi, wk)
    ensures VarOk(env, vars, clauses, i, k + 1,
      TypeStep(env, vars[i], clauses, env.typeRestrictions[vars[i]][k], acc), wi', wk')
  {
    var t := env.typeRestrictions[vars[i]][k];
    var num := env.numAtomsOfType(t);
    var next := TypeStep(env, vars[i], clauses, t, acc);
    if 0 < num < acc.count && FirstHolder(env, vars[i], clauses, 0).Some? {
      wi', wk' := i, k;
      assert Candidate(env, vars, clauses, i, k);
      forall i1, k1 | Before(i1, k1, i, k + 1) && Candidate(env, vars, clauses, i1, k1)
        ensures next.count <= env.numAtomsOfType(env.typeRestrictions[vars[i1]][k1])
      {
        if Before(i1, k1, i, k) {
          assert acc.count <= env.numAtomsOfType(env.typeRestrictions[vars[i1]][k1]);
        }
      }
      forall i1, k1 | Before(i1, k1, i, k) && Candidate(env, vars, clauses, i1, k1)
        ensures next.count < env.numAtomsOfType(env.typeRestrictions[vars[i1]][k1])
      {
        assert acc.count <= env.numAtomsOfType(env.typeRestrictions[vars[i1]][k1]);
      }
    } else {
      wi', wk' := wi, wk;
      assert next == acc;
      forall i1, k1 | Before(i1, k1, i, k + 1) && Candidate(env, vars, clauses, i1, k1)
        ensures next.count <= env.numAtomsOfType(env.typeRestrictions[vars[i1]][k1])
      {
        if Before(i1, k1, i, k) {
          assert acc.count <= env.numAtomsOfType(env.typeRestrictions[vars[i1]][k1]);
        }
      }
    }
  }

  /** The inner loop keeps VarOk; r is its result. */
  lemma {:induction false} TypesFromOk(env: Env, vars: seq<Atom>, clauses: seq<Atom>, i: nat, k: nat,
      acc: VarChoice, wi: int, wk: int, r: VarChoice)
      returns (wi': int, wk': int)
    requires i < |vars| && vars[i] in env.typeRestrictions && k <= |env.typeRestrictions[vars[i]]|
    requires VarOk(env, vars, clauses, i, k, acc, wi, wk)
    requires r == TypesFrom(env, vars[i], clauses, env.typeRestrictions[vars[i]], k, acc)
    ensures VarOk(env, vars, clauses, i, |env.typeRestrictions[vars[i]]|, r, wi', wk')
    decreases |env.typeRestrictions[vars[i]]| - k
  {
    var types := env.typeRestrictions[vars[i]];
    if k == |types| {
      wi', wk' := wi, wk;
    } else {
      var next := TypeStep(env, vars[i], clauses, types[k], acc);
      var wi1, wk1 := TypeStepOk(env, vars, clauses, i, k, acc, wi, wk);
      wi', wk' := TypesFromOk(env, vars, clauses, i, k + 1, next, wi1, wk1, r);
    }
  }

  /** Finishing a variable: once every type of vars[i] is seen (or when it
      has no restrictions), VarOk holds at the start of the next variable. */
  lemma NextVarOk(env: Env, vars: seq<Atom>, clauses: seq<Atom>, i: nat, acc: VarChoice, wi: int, wk: int)
    requires i < |vars|
    requires vars[i] in env.typeRestrictions ==>
      VarOk(env, vars, clauses, i, |env.typeRestrictions[vars[i]]|, acc, wi, wk)
    requires vars[i] !in env.typeRestrictions ==> VarOk(env, vars, clauses, i, 0, acc, wi, wk)
    ensures VarOk(env, vars, clauses, i + 1, 0, acc, wi, wk)
  {
    var k := if vars[i] in env.typeRestrictions then |env.typeRestrictions[vars[i]]| else 0;
    forall i1, k1 | Before(i1, k1, i + 1, 0) && Candidate(env, vars, clauses, i1, k1)
      ensures Before(i1, k1, i, k)
    {
    }
  }

  /** The outer loop keeps VarOk; r is its result. */
  lemma {:induction false} VarsFromOk(env: Env, vars: seq<Atom>, clauses: seq<Atom>, i: nat,
      acc: VarChoice, wi: int, wk: int, r: VarChoice)
      returns (wi': int, wk': int)
    requires i <= |vars| && VarOk(env, vars, clauses, i, 0, acc, wi, wk)
    requires r == VarsFrom(env, vars, clauses, i, acc)
    ensures VarOk(env, vars, clauses, |vars|, 0, r, wi', wk')
    decreases |vars| - i
  {
    if i == |vars| {
      wi', wk' := wi, wk;
    } else if vars[i] in env.typeRestrictions {
      var types := env.typeRestrictions[vars[i]];
      var next := TypesFrom(env, vars[i], clauses, types, 0, acc);
      var wi1, wk1 := TypesFromOk(env, vars, clauses, i, 0, acc, wi, wk, next);
      NextVarOk(env, vars, clauses, i, next, wi1, wk1);
      wi', wk' := VarsFromOk(env, vars, clauses, i + 1, next, wi1, wk1, r);
    } else {
      NextVarOk(env, vars, clauses, i, acc, wi, wk);
      wi', wk' := VarsFromOk(env, vars, clauses, i + 1, acc, wi, wk, r);
    }
  }

  /** variable_search finds a root exactly when some candidate pair has a
      count below SIZE_MAX; without one, ptype stays ATOM. With one, the
      count is strictly positive and the least over all candidate pairs,
      and the root and term come from the first pair, in iteration order,
      that has it: the root is the first clause holding that variable. */
  lemma VariableChoice(env: Env, vars: seq<Atom>, clauses: seq<Atom>)
    ensures var r := VarSelect(env, vars, clauses);
      && (r.root.None? <==>
            forall i, k | Candidate(env, vars, clauses, i, k) ::
              env.numAtomsOfType(env.typeRestrictions[vars[i]][k]) == SIZE_MAX)
      && (r.root.None? ==> r.term.None? && r.ptype == ATOM && r.count == SIZE_MAX)
      && (r.root.Some? ==>
            && r.term.Some? && 0 < r.count < SIZE_MAX
            && env.numAtomsOfType(r.ptype) == r.count
            && (forall i, k | Candidate(env, vars, clauses, i, k) ::
                  r.count <= env.numAtomsOfType(env.typeRestrictions[vars[i]][k]))
            && exists i, k | Candidate(env, vars, clauses, i, k) ::
                 && env.typeRestrictions[vars[i]][k] == r.ptype
                 && var j := FirstHolder(env, vars[i], clauses, 0).value;
                 && r.root == Some(clauses[j]) && r.term == Some(HolderTerm(env, vars[i], clauses[j]))
                 && forall i1, k1 | Before(i1, k1, i, k) && Candidate(env, vars, clauses, i1, k1) ::
                      r.count < env.numAtomsOfType(env.typeRestrictions[vars[i1]][k1]))
  {
    var r := VarSelect(env, vars, clauses);
    var wi, wk := VarsFromOk(env, vars, clauses, 0, NoVar, 0, 0, r);
    if r.root.Some? {
      assert Candidate(env, vars, clauses, wi, wk);
    }
  }
}
