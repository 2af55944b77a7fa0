// The search stages of DefaultPatternMatchCB as functions of the callback's
// state: neighbor search, link-type search, variable search, and the
// disjunct_search cascade that runs them, gated by _search_fail.

module Stages {
  import opened Atoms
  import opened Starter
  import opened Thinnest
  import opened Rarest
  import opened Variables

  /** One call explore_neighborhood(_root, _starter_term, candidate). */
  datatype Probe = Probe(root: Atom, term: Option<Atom>, candidate: Atom)

  /** PatternMatchEngine::explore_neighborhood: whether a grounding was
      found from the candidate. */
  type Engine = (Atom, Option<Atom>, Atom) -> bool

  /** The fields a search stage writes (_root, _starter_term, _search_fail)
      and the trace of the probes handed to the engine so far. */
  datatype SearchState = SearchState(root: Option<Atom>, starterTerm: Option<Atom>, searchFail: bool, probes: seq<Probe>)

  /** A stage's return value and the state it leaves. */
  datatype Outcome = Outcome(found: bool, st: SearchState)

  /** The probes a candidate loop makes and whether one succeeded. */
  datatype Run = Run(found: bool, probes: seq<Probe>)

  /** The candidate loop shared by the three stages: the candidates are
      offered to the engine in order, and the loop stops at the first one
      it accepts. */
  function Explore(pme: Engine, root: Atom, term: Option<Atom>, cands: seq<Atom>): (r: Run)
    ensures |r.probes| <= |cands|
    ensures forall k | 0 <= k < |r.probes| :: r.probes[k] == Probe(root, term, cands[k])
    ensures r.found <==> exists k | 0 <= k < |cands| :: pme(root, term, cands[k])
    ensures r.found ==>
      0 < |r.probes| && pme(root, term, cands[|r.probes| - 1]) &&
      forall k | 0 <= k < |r.probes| - 1 :: !pme(root, term, cands[k])
    ensures !r.found ==> |r.probes| == |cands|
  {
    ExploreFrom(pme, root, term, cands, 0)
  }

  /** The candidate loop from candidate i on. */
  function ExploreFrom(pme: Engine, root: Atom, term: Option<Atom>, cands: seq<Atom>, i: nat): (r: Run)
    requires i <= |cands|
    ensures |r.probes| <= |cands| - i
    ensures forall k | 0 <= k < |r.probes| :: r.probes[k] == Probe(root, term, cands[i + k])
    ensures r.found <==> exists k | i <= k < |cands| :: pme(root, term, cands[k])
    ensures r.found ==>
      0 < |r.probes| && pme(root, term, cands[i + |r.probes| - 1]) &&
      forall k | i <= k < i + |r.probes| - 1 :: !pme(root, term, cands[k])
    ensures !r.found ==> |r.probes| == |cands| - i
    decreases |cands| - i
  {
    if i == |cands| then Run(false, [])
    else if pme(root, term, cands[i]) then Run(true, [Probe(root, term, cands[i])])
    else
      var rest := ExploreFrom(pme, root, term, cands, i + 1);
      Run(rest.found, [Probe(root, term, cands[i])] + rest.probes)
  }

  /** neighbor_search: no basis when find_thinnest finds no starter;
      otherwise the incoming set of the starter is explored from the
      clause it came from. */
  function Neighbor(env: Env, pme: Engine, clauses: seq<Atom>, st: SearchState): (r: Outcome)
    requires AllQuotesOk(clauses)
    ensures r.st.searchFail ==> !r.found && r.st.root == st.root && r.st.probes == st.probes
    ensures !r.st.searchFail ==> r.st.root.Some? && r.st.root.value in clauses
    ensures st.probes <= r.st.probes
  {
    var c := FindThinnest(env, clauses);
    if c.best.None? then Outcome(false, SearchState(st.root, c.term, true, st.probes))
    else
      var root := clauses[c.bestClause];
      var run := Explore(pme, root, c.term, env.incomingSet(c.best.value));
      Outcome(run.found, SearchState(Some(root), c.term, false, st.probes + run.probes))
  }

  /** link_type_search: no basis when no clause lowers the count below
      SIZE_MAX; otherwise every atom of the rarest link type is explored. */
  function LinkType(env: Env, pme: Engine, clauses: seq<Atom>, st: SearchState): (r: Outcome)
    ensures r.st.searchFail ==> !r.found && r.st.root.None? && r.st.probes == st.probes
    ensures !r.st.searchFail ==> r.st.root.Some? && r.st.starterTerm.Some?
    ensures st.probes <= r.st.probes
  {
    var lc := RarestLink(env, clauses);
    if lc.root.None? then Outcome(false, SearchState(lc.root, lc.term, true, st.probes))
    else
      var run := Explore(pme, lc.root.value, lc.term, env.handlesByType(lc.term.value.atype));
      Outcome(run.found, SearchState(lc.root, lc.term, false, st.probes + run.probes))
  }

  /** variable_search: every atom of the chosen type is explored; without a
      choice the first clause is both root and term, and the type is ATOM.
      It never reports no basis. Reading clauses[0] needs a clause. */
  function Variable(env: Env, pme: Engine, vars: seq<Atom>, clauses: seq<Atom>, st: SearchState): (r: Outcome)
    requires |clauses| > 0
    ensures !r.st.searchFail
    ensures r.st.root.Some? && r.st.starterTerm.Some?
    ensures st.probes <= r.st.probes
  {
    var vc := VarSelect(env, vars, clauses);
    var root := if vc.root.Some? then vc.root.value else clauses[0];
    var term := if vc.root.Some? then vc.term else Some(clauses[0]);
    var run := Explore(pme, root, term, env.handlesByType(vc.ptype));
    Outcome(run.found, SearchState(Some(root), term, false, st.probes + run.probes))
  }

  /** The neighbor, link-type, variable cascade of disjunct_search: each
      stage runs only when the one before reported no basis. */
  function Cascade(env: Env, pme: Engine, vars: seq<Atom>, clauses: seq<Atom>, st: SearchState): (r: Outcome)
    requires AllQuotesOk(clauses) && |clauses| > 0
    ensures !r.st.searchFail
    ensures st.probes <= r.st.probes
  {
    var n := Neighbor(env, pme, clauses, st.(searchFail := false));
    if n.found || !n.st.searchFail then n
    else
      var l := LinkType(env, pme, clauses, n.st.(searchFail := false));
      if l.found || !l.st.searchFail then l
      else Variable(env, pme, vars, clauses, l.st.(searchFail := false))
  }

  /** disjunct_search: a lone OrLink clause is searched branch by branch;
      the cascade runs on the clauses themselves otherwise, and after the
      branches only if _search_fail is still set. */
  function Disjunct(env: Env, pme: Engine, vars: seq<Atom>, clauses: seq<Atom>, st: SearchState): (r: Outcome)
    requires AllQuotesOk(clauses) && |clauses| > 0
    ensures !r.st.searchFail
    ensures st.probes <= r.st.probes
    decreases clauses[0], 1
  {
    if |clauses| == 1 && IsOr(clauses[0]) then
      var o := OrBranches(env, pme, vars, clauses[0], 0, st);
      if o.found || !o.st.searchFail then o
      else Cascade(env, pme, vars, clauses, o.st)
    else Cascade(env, pme, vars, clauses, st)
  }

  /** The OrLink loop of disjunct_search from branch i on: each branch is
      searched as a clause list of its own, and the first success ends the
      loop. The flag can only be set at the end if no branch ran. */
  function OrBranches(env: Env, pme: Engine, vars: seq<Atom>, orl: Atom, i: nat, st: SearchState): (r: Outcome)
    requires orl.Link? && QuotesOk(orl) && i <= |orl.out|
    ensures r.st.searchFail ==> r == Outcome(false, st)
    ensures st.probes <= r.st.probes
    decreases orl, 0, |orl.out| - i
  {
    if i == |orl.out| then Outcome(false, st)
    else
      var d := Disjunct(env, pme, vars, [orl.out[i]], st);
      if d.found then d else OrBranches(env, pme, vars, orl, i + 1, d.st)
  }

  /** initiate_search: clear _search_fail, then disjunct_search. */
  function Initiate(env: Env, pme: Engine, vars: seq<Atom>, clauses: seq<Atom>, st: SearchState): (r: Outcome)
    requires AllQuotesOk(clauses) && |clauses| > 0
    ensures !r.st.searchFail
  {
    Disjunct(env, pme, vars, clauses, st.(searchFail := false))
  }

  // ---------------------------------------------------------------------
  // Properties of the stages

  /** A clause offers a basis for a neighbor search: it has an anchor that
      beats the initial key (SIZE_MAX, 0) of find_thinnest. */
  ghost predicate HasAnchor(env: Env, clauses: seq<Atom>)
    requires AllQuotesOk(clauses)
  {
    exists j, a, d | 0 <= j < |clauses| && Anchor(env, clauses[j], 0, a, d) ::
      Thinner(env.incomingSetSize(a), d, SIZE_MAX, 0)
  }

  /** Some unquoted Link of some clause has a type count below SIZE_MAX. */
  ghost predicate HasRareLink(env: Env, clauses: seq<Atom>) {
    exists k, s | 0 <= k < |clauses| && UnquotedLink(s, clauses[k]) ::
      env.numAtomsOfType(s.atype) < SIZE_MAX
  }

  /** neighbor_search reports no basis exactly when no clause has an
      anchor; when it runs, it explores the incoming set of the thinnest
      anchor from the clause holding it, and succeeds exactly when the
      engine accepts one of those candidates. */
  lemma NeighborNoBasis(env: Env, pme: Engine, clauses: seq<Atom>, st: SearchState)
    requires AllQuotesOk(clauses)
    ensures var r := Neighbor(env, pme, clauses, st);
      && (r.st.searchFail <==> !HasAnchor(env, clauses))
      && (r.st.searchFail ==> r.st.starterTerm.None?)
      && (!r.st.searchFail ==>
            exists j, a, d | 0 <= j < |clauses| && Anchor(env, clauses[j], 0, a, d) ::
              && r.st.root == Some(clauses[j])
              && (forall j1, a1, d1 | 0 <= j1 < |clauses| && Anchor(env, clauses[j1], 0, a1, d1) ::
                    !Thinner(env.incomingSetSize(a1), d1, env.incomingSetSize(a), d))
              && (r.found <==> exists k | 0 <= k < |env.incomingSet(a)| :: pme(clauses[j], r.st.starterTerm, env.incomingSet(a)[k])))
  {
    var c := FindThinnest(env, clauses);
    ThinnestFromOk(env, clauses, 0, NoChoice);
    ThinnestArgmin(env, clauses);
    ThinnestIsGlobalMinimum(env, clauses);
    if c.best.Some? {
      assert Anchor(env, clauses[c.bestClause], 0, c.best.value, c.deepest);
      assert Thinner(c.thinnest, c.deepest, SIZE_MAX, 0);
    }
  }

  /** link_type_search reports no basis exactly when no clause has a rare
      link; when it runs, its root is a clause and its term an unquoted Link
      of that clause whose type count is the least over all clauses. */
  lemma LinkTypeNoBasis(env: Env, pme: Engine, clauses: seq<Atom>, st: SearchState)
    ensures var r := LinkType(env, pme, clauses, st);
      && (r.st.searchFail <==> !HasRareLink(env, clauses))
      && (r.st.searchFail ==> r.st.starterTerm.None?)
      && (!r.st.searchFail ==>
            && r.st.starterTerm.Some?
            && (exists j | 0 <= j < |clauses| ::
                  r.st.root == Some(clauses[j]) && UnquotedLink(r.st.starterTerm.value, clauses[j]))
            && (forall k, s | 0 <= k < |clauses| && UnquotedLink(s, clauses[k]) ::
                  env.numAtomsOfType(r.st.starterTerm.value.atype) <= env.numAtomsOfType(s.atype))
            && FirstRarest(env, ClauseLinks(clauses, 0), r.st.starterTerm)
            && (r.found <==>
                  var cands := env.handlesByType(r.st.starterTerm.value.atype);
                  exists k | 0 <= k < |cands| :: pme(r.st.root.value, r.st.starterTerm, cands[k])))
  {
    RarestLinkChoice(env, clauses);
    RarestLinkFirst(env, clauses);
  }

  /** A variable of the pattern has a restricted type with atoms, and
      fewer than SIZE_MAX of them, and some clause holds the variable. */
  ghost predicate HasRareVariable(env: Env, vars: seq<Atom>, clauses: seq<Atom>) {
    exists i, k | Candidate(env, vars, clauses, i, k) ::
      env.numAtomsOfType(env.typeRestrictions[vars[i]][k]) < SIZE_MAX
  }

  /** What variable_search explores. Without a usable (variable, type) pair
      the first clause is both root and term and every atom of type ATOM is
      a candidate. Otherwise the type is the first rarest restricted type
      in iteration order, the root is the first clause holding its
      variable, and the term that clause or its first least holder; the
      candidates are the atoms of that type. */
  lemma VariableFallback(env: Env, pme: Engine, vars: seq<Atom>, clauses: seq<Atom>, st: SearchState)
    requires |clauses| > 0
    ensures var r := Variable(env, pme, vars, clauses, st);
      && (!HasRareVariable(env, vars, clauses) ==>
            && r.st.root == Some(clauses[0]) && r.st.starterTerm == Some(clauses[0])
            && (r.found <==>
                  exists k | 0 <= k < |env.handlesByType(ATOM)| ::
                    pme(clauses[0], Some(clauses[0]), env.handlesByType(ATOM)[k])))
      && (HasRareVariable(env, vars, clauses) ==>
            exists i, k | Candidate(env, vars, clauses, i, k) ::
              var t := env.typeRestrictions[vars[i]][k];
              var j := FirstHolder(env, vars[i], clauses, 0).value;
              && r.st.root == Some(clauses[j])
              && r.st.starterTerm == Some(HolderTerm(env, vars[i], clauses[j]))
              && (forall i1, k1 | Candidate(env, vars, clauses, i1, k1) ::
                    env.numAtomsOfType(t) <= env.numAtomsOfType(env.typeRestrictions[vars[i1]][k1]))
              && (forall i1, k1 | Before(i1, k1, i, k) && Candidate(env, vars, clauses, i1, k1) ::
                    env.numAtomsOfType(t) < env.numAtomsOfType(env.typeRestrictions[vars[i1]][k1]))
              && (r.found <==>
                    exists c | 0 <= c < |env.handlesByType(t)| ::
                      pme(clauses[j], r.st.starterTerm, env.handlesByType(t)[c])))
  {
    VariableChoice(env, vars, clauses);
  }

  /** The shape of disjunct_search on clauses that are not a lone OrLink:
      with an anchor only neighbor search runs; without one but with a rare
      link the result is that of link-type search; with neither, it is that
      of variable search. */
  lemma CascadeStages(env: Env, pme: Engine, vars: seq<Atom>, clauses: seq<Atom>, st: SearchState)
    requires AllQuotesOk(clauses) && |clauses| > 0 && !(|clauses| == 1 && IsOr(clauses[0]))
    ensures var r := Initiate(env, pme, vars, clauses, st);
      && (HasAnchor(env, clauses) ==>
            r == Neighbor(env, pme, clauses, st.(searchFail := false)))
      && (!HasAnchor(env, clauses) && HasRareLink(env, clauses) ==>
            r == LinkType(env, pme, clauses, st.(starterTerm := None, searchFail := false)))
      && (!HasAnchor(env, clauses) && !HasRareLink(env, clauses) ==>
            r == Variable(env, pme, vars, clauses, SearchState(None, None, false, st.probes)))
  {
    var st0 := st.(searchFail := false);
    NeighborNoBasis(env, pme, clauses, st0);
    var n := Neighbor(env, pme, clauses, st0);
    if n.st.searchFail {
      assert n.st.(searchFail := false) == st.(starterTerm := None, searchFail := false);
      LinkTypeNoBasis(env, pme, clauses, n.st.(searchFail := false));
    }
  }

  /** A pattern made of lone variables gives neither an anchor nor a rare
      link, so only variable search does anything. */
  lemma LoneVariables(env: Env, pme: Engine, vars: seq<Atom>, clauses: seq<Atom>, st: SearchState)
    requires |clauses| > 0
    requires forall j | 0 <= j < |clauses| :: IsVariable(clauses[j])
    ensures AllQuotesOk(clauses)
    ensures Initiate(env, pme, vars, clauses, st) ==
      Variable(env, pme, vars, clauses, SearchState(None, None, false, st.probes))
  {
    assert !HasAnchor(env, clauses);
    assert !HasRareLink(env, clauses);
    CascadeStages(env, pme, vars, clauses, st);
  }

  /** From a state with _search_fail clear, the OrLink loop never leaves it
      set, so disjunct_search on a lone OrLink returns what its branches
      return and never runs the cascade on the OrLink itself. */
  lemma OrNeverCascades(env: Env, pme: Engine, vars: seq<Atom>, orl: Atom, st: SearchState)
    requires IsOr(orl) && QuotesOk(orl)
    ensures Initiate(env, pme, vars, [orl], st) ==
      OrBranches(env, pme, vars, orl, 0, st.(searchFail := false))
  {
    var o := OrBranches(env, pme, vars, orl, 0, st.(searchFail := false));
    assert !o.st.searchFail;
  }

  /** r is the outcome e with the probes pre made before it. */
  predicate Shifted(r: Outcome, e: Outcome, pre: seq<Probe>) {
    r.found == e.found && r.st == e.st.(probes := pre + e.st.probes)
  }

  /** Two outcomes that shift the same outcome, by pre + dep and by dep,
      are themselves shifted by pre. */
  lemma ShiftedCompose(r: Outcome, e: Outcome, x: Outcome, pre: seq<Probe>, dp: seq<Probe>, dep: seq<Probe>)
    requires Shifted(r, x, dp) && Shifted(e, x, dep) && dp == pre + dep
    ensures Shifted(r, e, pre)
  {
    assert pre + dep + x.st.probes == pre + (dep + x.st.probes);
  }

  /** The probes st already holds do not influence a stage: it ends the
      same way from the empty trace, and adds the same probes after st's. */
  lemma NeighborFrame(env: Env, pme: Engine, clauses: seq<Atom>, st: SearchState)
    requires AllQuotesOk(clauses)
    ensures Shifted(Neighbor(env, pme, clauses, st), Neighbor(env, pme, clauses, st.(probes := [])), st.probes)
  {
    var c := FindThinnest(env, clauses);
    if c.best.Some? {
      var run := Explore(pme, clauses[c.bestClause], c.term, env.incomingSet(c.best.value));
      assert [] + run.probes == run.probes;
    }
  }

  lemma LinkTypeFrame(env: Env, pme: Engine, clauses: seq<Atom>, st: SearchState)
    ensures Shifted(LinkType(env, pme, clauses, st), LinkType(env, pme, clauses, st.(probes := [])), st.probes)
  {
    var lc := RarestLink(env, clauses);
    if lc.root.Some? {
      var run := Explore(pme, lc.root.value, lc.term, env.handlesByType(lc.term.value.atype));
      assert [] + run.probes == run.probes;
    }
  }

  lemma VariableFrame(env: Env, pme: Engine, vars: seq<Atom>, clauses: seq<Atom>, st: SearchState)
    requires |clauses| > 0
    ensures Shifted(Variable(env, pme, vars, clauses, st), Variable(env, pme, vars, clauses, st.(probes := [])), st.probes)
  {
    var vc := VarSelect(env, vars, clauses);
    var root := if vc.root.Some? then vc.root.value else clauses[0];
    var term := if vc.root.Some? then vc.term else Some(clauses[0]);
    var run := Explore(pme, root, term, env.handlesByType(vc.ptype));
    assert [] + run.probes == run.probes;
  }

  lemma CascadeFrame(env: Env, pme: Engine, vars: seq<Atom>, clauses: seq<Atom>, st: SearchState)
    requires AllQuotesOk(clauses) && |clauses| > 0
    ensures Shifted(Cascade(env, pme, vars, clauses, st), Cascade(env, pme, vars, clauses, st.(probes := [])), st.probes)
  {
    var st0 := st.(searchFail := false);
    NeighborFrame(env, pme, clauses, st0);
    assert st.(probes := []).(searchFail := false) == st0.(probes := []);
    var n := Neighbor(env, pme, clauses, st0);
    if !n.found && n.st.searchFail {
      var st1 := n.st.(searchFail := false);
      LinkTypeFrame(env, pme, clauses, st1);
      var l := LinkType(env, pme, clauses, st1);
      if !l.found && l.st.searchFail {
        VariableFrame(env, pme, vars, clauses, l.st.(searchFail := false));
      }
    }
  }

  /** The probes st already holds do not influence a search: it ends the
      same way from the empty trace, and adds the same probes after st's. */
  lemma {:induction false} DisjunctFrame(env: Env, pme: Engine, vars: seq<Atom>, clauses: seq<Atom>, st: SearchState)
    requires AllQuotesOk(clauses) && |clauses| > 0
    ensures Shifted(Disjunct(env, pme, vars, clauses, st), Disjunct(env, pme, vars, clauses, st.(probes := [])), st.probes)
    decreases clauses[0], 1
  {
    if |clauses| == 1 && IsOr(clauses[0]) {
      OrBranchesFrame(env, pme, vars, clauses[0], 0, st);
      var o := OrBranches(env, pme, vars, clauses[0], 0, st);
      if !o.found && o.st.searchFail {
        assert o.st == st;
        CascadeFrame(env, pme, vars, clauses, st);
      }
    } else {
      CascadeFrame(env, pme, vars, clauses, st);
    }
  }

  lemma {:induction false} OrBranchesFrame(env: Env, pme: Engine, vars: seq<Atom>, orl: Atom, i: nat, st: SearchState)
    requires orl.Link? && QuotesOk(orl) && i <= |orl.out|
    ensures Shifted(OrBranches(env, pme, vars, orl, i, st), OrBranches(env, pme, vars, orl, i, st.(probes := [])), st.probes)
    decreases orl, 0, |orl.out| - i
  {
    if i < |orl.out| {
      var d := Disjunct(env, pme, vars, [orl.out[i]], st);
      var de := Disjunct(env, pme, vars, [orl.out[i]], st.(probes := []));
      DisjunctFrame(env, pme, vars, [orl.out[i]], st);
      if !d.found {
        OrBranchesFrame(env, pme, vars, orl, i + 1, d.st);
        OrBranchesFrame(env, pme, vars, orl, i + 1, de.st);
        assert d.st.(probes := []) == de.st.(probes := []);
        ShiftedCompose(OrBranches(env, pme, vars, orl, i + 1, d.st), OrBranches(env, pme, vars, orl, i + 1, de.st),
          OrBranches(env, pme, vars, orl, i + 1, de.st.(probes := [])), st.probes, d.st.probes, de.st.probes);
      }
    }
  }

  /** Whether a stage succeeds, and whether it reports no basis, does not
      depend on the state it starts from. */
  lemma StagesIndependent(env: Env, pme: Engine, vars: seq<Atom>, clauses: seq<Atom>, st: SearchState, st': SearchState)
    requires AllQuotesOk(clauses)
    ensures Neighbor(env, pme, clauses, st).found == Neighbor(env, pme, clauses, st').found
    ensures Neighbor(env, pme, clauses, st).st.searchFail == Neighbor(env, pme, clauses, st').st.searchFail
    ensures LinkType(env, pme, clauses, st).found == LinkType(env, pme, clauses, st').found
    ensures LinkType(env, pme, clauses, st).st.searchFail == LinkType(env, pme, clauses, st').st.searchFail
    ensures |clauses| > 0 ==>
      Variable(env, pme, vars, clauses, st).found == Variable(env, pme, vars, clauses, st').found
  {
  }

  lemma CascadeIndependent(env: Env, pme: Engine, vars: seq<Atom>, clauses: seq<Atom>, st: SearchState, st': SearchState)
    requires AllQuotesOk(clauses) && |clauses| > 0
    ensures Cascade(env, pme, vars, clauses, st).found == Cascade(env, pme, vars, clauses, st').found
  {
    StagesIndependent(env, pme, vars, clauses, st.(searchFail := false), st'.(searchFail := false));
    var n := Neighbor(env, pme, clauses, st.(searchFail := false));
    var n' := Neighbor(env, pme, clauses, st'.(searchFail := false));
    StagesIndependent(env, pme, vars, clauses, n.st.(searchFail := false), n'.st.(searchFail := false));
    var l := LinkType(env, pme, clauses, n.st.(searchFail := false));
    var l' := LinkType(env, pme, clauses, n'.st.(searchFail := false));
    StagesIndependent(env, pme, vars, clauses, l.st.(searchFail := false), l'.st.(searchFail := false));
  }

  /** Whether disjunct_search succeeds depends on the state it starts from
      only through _search_fail. */
  lemma {:induction false} DisjunctIndependent(env: Env, pme: Engine, vars: seq<Atom>, clauses: seq<Atom>,
      st: SearchState, st': SearchState)
    requires AllQuotesOk(clauses) && |clauses| > 0 && st.searchFail == st'.searchFail
    ensures Disjunct(env, pme, vars, clauses, st).found == Disjunct(env, pme, vars, clauses, st').found
    decreases clauses[0], 1
  {
    if |clauses| == 1 && IsOr(clauses[0]) {
      OrBranchesIndependent(env, pme, vars, clauses[0], 0, st, st');
      var o := OrBranches(env, pme, vars, clauses[0], 0, st);
      var o' := OrBranches(env, pme, vars, clauses[0], 0, st');
      if !o.found && o.st.searchFail {
        CascadeIndependent(env, pme, vars, clauses, o.st, o'.st);
      }
    } else {
      CascadeIndependent(env, pme, vars, clauses, st, st');
    }
  }

  lemma {:induction false} OrBranchesIndependent(env: Env, pme: Engine, vars: seq<Atom>, orl: Atom, i: nat,
      st: SearchState, st': SearchState)
    requires orl.Link? && QuotesOk(orl) && i <= |orl.out| && st.searchFail == st'.searchFail
    ensures OrBranches(env, pme, vars, orl, i, st).found == OrBranches(env, pme, vars, orl, i, st').found
    ensures OrBranches(env, pme, vars, orl, i, st).st.searchFail == OrBranches(env, pme, vars, orl, i, st').st.searchFail
    decreases orl, 0, |orl.out| - i
  {
    if i < |orl.out| {
      DisjunctIndependent(env, pme, vars, [orl.out[i]], st, st');
      var d := Disjunct(env, pme, vars, [orl.out[i]], st);
      var d' := Disjunct(env, pme, vars, [orl.out[i]], st');
      if !d.found {
        OrBranchesIndependent(env, pme, vars, orl, i + 1, d.st, d'.st);
      }
    }
  }

  /** One branch of the OrLink loop: with _search_fail clear, the loop
      succeeds when the branch does, and otherwise goes on from the state
      the branch leaves. */
  lemma OrBranchesStep(env: Env, pme: Engine, vars: seq<Atom>, orl: Atom, i: nat, st: SearchState)
    requires orl.Link? && QuotesOk(orl) && i < |orl.out| && !st.searchFail
    ensures var d := Disjunct(env, pme, vars, [orl.out[i]], st);
      && d == Initiate(env, pme, vars, [orl.out[i]], st)
      && !d.st.searchFail
      && (OrBranches(env, pme, vars, orl, i, st).found <==>
            d.found || OrBranches(env, pme, vars, orl, i + 1, d.st).found)
  {
    assert st.(searchFail := false) == st;
  }

  /** The OrLink loop from branch i on succeeds exactly when one of the
      remaining branches, searched on its own, succeeds. */
  lemma {:induction false} OrBranchesFound(env: Env, pme: Engine, vars: seq<Atom>, orl: Atom, i: nat, st: SearchState)
    requires orl.Link? && QuotesOk(orl) && i <= |orl.out| && !st.searchFail
    ensures OrBranches(env, pme, vars, orl, i, st).found <==>
      exists k | i <= k < |orl.out| :: Initiate(env, pme, vars, [orl.out[k]], st).found
    decreases |orl.out| - i
  {
    if i < |orl.out| {
      OrBranchesStep(env, pme, vars, orl, i, st);
      var d := Disjunct(env, pme, vars, [orl.out[i]], st);
      OrBranchesFound(env, pme, vars, orl, i + 1, d.st);
      forall k | i < k < |orl.out|
        ensures Initiate(env, pme, vars, [orl.out[k]], d.st).found == Initiate(env, pme, vars, [orl.out[k]], st).found
      {
        DisjunctIndependent(env, pme, vars, [orl.out[k]], d.st.(searchFail := false), st.(searchFail := false));
      }
    }
  }

  /** initiate_search on a lone OrLink succeeds exactly when the search of
      one of its branches, as a pattern of its own, succeeds. */
  lemma OrFoundIffBranchFound(env: Env, pme: Engine, vars: seq<Atom>, orl: Atom, st: SearchState)
    requires IsOr(orl) && QuotesOk(orl)
    ensures Initiate(env, pme, vars, [orl], st).found <==>
      exists k | 0 <= k < |orl.out| :: Initiate(env, pme, vars, [orl.out[k]], st).found
  {
    OrNeverCascades(env, pme, vars, orl, st);
    OrBranchesFound(env, pme, vars, orl, 0, st.(searchFail := false));
    forall k | 0 <= k < |orl.out|
      ensures Initiate(env, pme, vars, [orl.out[k]], st.(searchFail := false)).found ==
              Initiate(env, pme, vars, [orl.out[k]], st).found
    {
      DisjunctIndependent(env, pme, vars, [orl.out[k]], st.(searchFail := false), st.(searchFail := false).(searchFail := false));
    }
  }
}
