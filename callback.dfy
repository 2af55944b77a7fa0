// DefaultPatternMatchCB as an object: the search-start methods update the
// fields _root, _starter_term and _search_fail in place, and each is
// proved to leave the state its function in module Stages describes.

module Callback {
  import opened Atoms
  import opened Starter
  import Thinnest
  import opened Rarest
  import opened Variables
  import opened Stages

  class DefaultPatternMatchCB {
    /** The atomspace and the callback's read-only configuration. */
    const env: Env
    /** _root: the clause the search starts from. */
    var root: Option<Atom>
    /** _starter_term: the term of the root clause holding the start. */
    var starterTerm: Option<Atom>
    /** _search_fail: the last stage found no basis to search from. */
    var searchFail: bool
    /** The calls handed to explore_neighborhood so far. */
    ghost var probes: seq<Probe>

    ghost function State(): SearchState
      reads this
    {
      SearchState(root, starterTerm, searchFail, probes)
    }

    constructor(env: Env)
      ensures this.env == env
      ensures State() == SearchState(None, None, false, [])
    {
      this.env := env;
      root := None;
      starterTerm := None;
      searchFail := false;
      probes := [];
    }

    /** find_thinnest: the starter of the clause with the thinnest incoming
        set, the term holding it and the clause index. */
    method FindThinnest(clauses: seq<Atom>) returns (best: Option<Atom>, term: Option<Atom>, bestClause: nat)
      requires AllQuotesOk(clauses)
      ensures var c := Thinnest.FindThinnest(env, clauses);
        best == c.best && term == c.term && bestClause == c.bestClause
    {
      var thinnest: Size := SIZE_MAX;
      var deepest: nat := 0;
      bestClause := 0;
      best := None;
      term := None;
      for i := 0 to |clauses|
        invariant best.Some? ==> bestClause < |clauses|
        invariant Thinnest.FindThinnest(env, clauses) ==
          Thinnest.ThinnestFrom(env, clauses, i, Thinnest.Choice(best, term, bestClause, thinnest, deepest))
      {
        var s := FindStarter(env, clauses[i], 0, None, SIZE_MAX);
        if s.found.Some? && (s.width < thinnest || (s.width == thinnest && s.depth > deepest)) {
          thinnest := s.width;
          deepest := s.depth;
          bestClause := i;
          best := s.found;
          term := s.start;
        }
      }
    }

    /** The candidate loop of the three stages: offers each candidate to
        the engine from the current root and start term, and stops at the
        first one it accepts. */
    method ExploreCandidates(pme: Engine, cands: seq<Atom>) returns (found: bool)
      requires root.Some?
      modifies this`probes
      ensures var run := Explore(pme, root.value, starterTerm, cands);
        found == run.found && probes == old(probes) + run.probes
    {
      ghost var done: seq<Probe> := [];
      ghost var run := Explore(pme, root.value, starterTerm, cands);
      for i := 0 to |cands|
        invariant |done| == i && probes == old(probes) + done
        invariant forall k | 0 <= k < i :: done[k] == Probe(root.value, starterTerm, cands[k])
        invariant forall k | 0 <= k < i :: !pme(root.value, starterTerm, cands[k])
      {
        var p := Probe(root.value, starterTerm, cands[i]);
        probes := probes + [p];
        done := done + [p];
        if pme(root.value, starterTerm, cands[i]) {
          assert |run.probes| == i + 1;
          assert done == run.probes;
          return true;
        }
      }
      assert done == run.probes;
      return false;
    }

    /** neighbor_search. */
    method NeighborSearch(pme: Engine, vars: seq<Atom>, clauses: seq<Atom>) returns (found: bool)
      requires AllQuotesOk(clauses)
      modifies this
      ensures Outcome(found, State()) == Neighbor(env, pme, clauses, old(State()))
    {
      searchFail := false;
      var best, term, bestClause := FindThinnest(clauses);
      starterTerm := term;
      if best.None? {
        searchFail := true;
        return false;
      }
      root := Some(clauses[bestClause]);
      var incoming := env.incomingSet(best.value);
      found := ExploreCandidates(pme, incoming);
    }

    /** link_type_search. */
    method LinkTypeSearch(pme: Engine, vars: seq<Atom>, clauses: seq<Atom>) returns (found: bool)
      modifies this
      ensures Outcome(found, State()) == LinkType(env, pme, clauses, old(State()))
    {
      searchFail := false;
      root := None;
      starterTerm := None;
      var count: Size := SIZE_MAX;
      for i := 0 to |clauses|
        invariant root.Some? <==> starterTerm.Some?
        invariant RarestLink(env, clauses) == RarestLinkFrom(env, clauses, i, LinkChoice(root, starterTerm, count))
        invariant !searchFail && probes == old(probes)
      {
        var prev := count;
        var fr := FindRarest(env, clauses[i], starterTerm, count);
        starterTerm, count := fr.rarest, fr.count;
        if count < prev {
          root := Some(clauses[i]);
        }
      }
      if root.None? {
        searchFail := true;
        return false;
      }
      var ptype := starterTerm.value.atype;
      var handles := env.handlesByType(ptype);
      found := ExploreCandidates(pme, handles);
    }

    /** variable_search. Reading clauses[0] needs a clause. */
    method VariableSearch(pme: Engine, vars: seq<Atom>, clauses: seq<Atom>) returns (found: bool)
      requires |clauses| > 0
      modifies this
      ensures Outcome(found, State()) == Variable(env, pme, vars, clauses, old(State()))
    {
      searchFail := false;
      var count: Size := SIZE_MAX;
      var ptype := ATOM;
      root := None;
      starterTerm := None;
      for i := 0 to |vars|
        invariant root.Some? <==> starterTerm.Some?
        invariant VarSelect(env, vars, clauses) ==
          VarsFrom(env, vars, clauses, i, VarChoice(root, starterTerm, count, ptype))
        invariant !searchFail && probes == old(probes)
      {
        var v := vars[i];
        if v !in env.typeRestrictions {
          continue;
        }
        var typeset := env.typeRestrictions[v];
        for k := 0 to |typeset|
          invariant root.Some? <==> starterTerm.Some?
          invariant VarSelect(env, vars, clauses) ==
            VarsFrom(env, vars, clauses, i + 1, TypesFrom(env, v, clauses, typeset, k, VarChoice(root, starterTerm, count, ptype)))
          invariant !searchFail && probes == old(probes)
        {
          var t := typeset[k];
          var num := env.numAtomsOfType(t);
          ghost var before := VarChoice(root, starterTerm, count, ptype);
          if 0 < num < count {
            var j := 0;
            while j < |clauses|
              invariant 0 <= j <= |clauses|
              invariant FirstHolder(env, v, clauses, 0) == FirstHolder(env, v, clauses, j)
              invariant VarChoice(root, starterTerm, count, ptype) == before
            {
              var cl := clauses[j];
              if cl == v {
                root := Some(cl);
                starterTerm := Some(cl);
                count := num;
                ptype := t;
                break;
              }
              var holders := env.leastHolders(v, cl);
              if 0 < |holders| {
                root := Some(cl);
                starterTerm := Some(holders[0]);
                count := num;
                ptype := t;
                break;
              }
              j := j + 1;
            }
          }
          assert VarChoice(root, starterTerm, count, ptype) == TypeStep(env, v, clauses, t, before);
        }
      }
      if root.None? {
        root := Some(clauses[0]);
        starterTerm := Some(clauses[0]);
      }
      var handles := env.handlesByType(ptype);
      found := ExploreCandidates(pme, handles);
    }

    /** disjunct_search. */
    method DisjunctSearch(pme: Engine, vars: seq<Atom>, clauses: seq<Atom>) returns (found: bool)
      requires AllQuotesOk(clauses) && |clauses| > 0
      modifies this
      ensures Outcome(found, State()) == Disjunct(env, pme, vars, clauses, old(State()))
      decreases clauses[0]
    {
      if |clauses| == 1 && IsOr(clauses[0]) {
        var orl := clauses[0];
        for i := 0 to |orl.out|
          invariant OrBranches(env, pme, vars, orl, 0, old(State())) == OrBranches(env, pme, vars, orl, i, State())
        {
          var hs := [orl.out[i]];
          var f := DisjunctSearch(pme, vars, hs);
          if f {
            return true;
          }
        }
        if !searchFail {
          return false;
        }
      }
      searchFail := false;
      found := NeighborSearch(pme, vars, clauses);
      if found {
        return true;
      }
      if !searchFail {
        return false;
      }
      searchFail := false;
      found := LinkTypeSearch(pme, vars, clauses);
      if found {
        return true;
      }
      if !searchFail {
        return false;
      }
      searchFail := false;
      found := VariableSearch(pme, vars, clauses);
    }

    /** initiate_search. */
    method InitiateSearch(pme: Engine, vars: seq<Atom>, clauses: seq<Atom>) returns (found: bool)
      requires AllQuotesOk(clauses) && |clauses| > 0
      modifies this
      ensures Outcome(found, State()) == Initiate(env, pme, vars, clauses, old(State()))
    {
      searchFail := false;
      found := DisjunctSearch(pme, vars, clauses);
    }
  }
}
