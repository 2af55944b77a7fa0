// find_thinnest: the clause whose starter has the thinnest incoming set.

module Thinnest {
  import opened Atoms
  import opened Starter

  /** The loop state of find_thinnest: best_start, starter_term,
      bestclause, and the running minimum (thinnest, deepest). */
  datatype Choice = Choice(best: Option<Atom>, term: Option<Atom>, bestClause: nat, thinnest: Size, deepest: nat)

  /** What find_thinnest asks of one clause: find_starter from depth 0,
      with an undefined start term and width SIZE_MAX. */
  function ClauseStarter(env: Env, clause: Atom): Starter
    requires QuotesOk(clause)
  {
    FindStarter(env, clause, 0, None, SIZE_MAX)
  }

  const NoChoice: Choice := Choice(None, None, 0, SIZE_MAX, 0)

  /** The loop of find_thinnest from clause i on. */
  function ThinnestFrom(env: Env, clauses: seq<Atom>, i: nat, acc: Choice): (r: Choice)
    requires AllQuotesOk(clauses) && i <= |clauses|
    requires acc.best.Some? ==> acc.bestClause < |clauses|
    ensures r.best.Some? ==> r.bestClause < |clauses|
    decreases |clauses| - i
  {
    if i == |clauses| then acc
    else
      var s := ClauseStarter(env, clauses[i]);
      var next :=
        if s.found.Some? && Thinner(s.width, s.depth, acc.thinnest, acc.deepest)
        then Choice(s.found, s.start, i, s.width, s.depth)
        else acc;
      ThinnestFrom(env, clauses, i + 1, next)
  }

  /** find_thinnest(clauses): (best_start, starter_term, bestclause). */
  function FindThinnest(env: Env, clauses: seq<Atom>): (r: Choice)
    requires AllQuotesOk(clauses)
    ensures r.best.Some? ==> r.bestClause < |clauses|
  {
    ThinnestFrom(env, clauses, 0, NoChoice)
  }

  /** What the loop of find_thinnest keeps about acc after clauses [0, i). */
  ghost predicate ChoiceOk(env: Env, clauses: seq<Atom>, i: nat, acc: Choice)
    requires AllQuotesOk(clauses) && i <= |clauses|
  {
    && (acc.best.None? ==>
          && acc == NoChoice
          && forall j | 0 <= j < i && ClauseStarter(env, clauses[j]).found.Some? ::
               !Thinner(ClauseStarter(env, clauses[j]).width, ClauseStarter(env, clauses[j]).depth, SIZE_MAX, 0))
    && (acc.best.Some? ==>
          && acc.bestClause < i
          && var s := ClauseStarter(env, clauses[acc.bestClause]);
          && acc == Choice(s.found, s.start, acc.bestClause, s.width, s.depth)
          && Thinner(s.width, s.depth, SIZE_MAX, 0)
          && (forall j | 0 <= j < i && ClauseStarter(env, clauses[j]).found.Some? ::
                !Thinner(ClauseStarter(env, clauses[j]).width, ClauseStarter(env, clauses[j]).depth, s.width, s.depth))
          && (forall j | 0 <= j < acc.bestClause && ClauseStarter(env, clauses[j]).found.Some? ::
                Thinner(s.width, s.depth, ClauseStarter(env, clauses[j]).width, ClauseStarter(env, clauses[j]).depth)))
  }

  lemma {:induction false} ThinnestFromOk(env: Env, clauses: seq<Atom>, i: nat, acc: Choice)
    requires AllQuotesOk(clauses) && i <= |clauses|
    requires ChoiceOk(env, clauses, i, acc)
    ensures ChoiceOk(env, clauses, |clauses|, ThinnestFrom(env, clauses, i, acc))
    decreases |clauses| - i
  {
    if i < |clauses| {
      var s := ClauseStarter(env, clauses[i]);
      var next :=
        if s.found.Some? && Thinner(s.width, s.depth, acc.thinnest, acc.deepest)
        then Choice(s.found, s.start, i, s.width, s.depth)
        else acc;
      assert ChoiceOk(env, clauses, i + 1, next);
      ThinnestFromOk(env, clauses, i + 1, next);
    }
  }

  /** find_thinnest picks the clause whose starter has the smallest width,
      on equal width the greatest depth, and on a full tie the lowest index;
      when it finds nothing, every clause yields no starter, except a clause
      that is itself a constant whose incoming set has SIZE_MAX members,
      which the initial (SIZE_MAX, 0) key shadows. */
  lemma ThinnestArgmin(env: Env, clauses: seq<Atom>)
    requires AllQuotesOk(clauses)
    ensures var r := FindThinnest(env, clauses);
      && (r.best.None? ==>
            r.term.None? &&
            forall j | 0 <= j < |clauses| ::
              ClauseStarter(env, clauses[j]).found.None? ||
              (IsConstant(clauses[j]) && env.incomingSetSize(clauses[j]) == SIZE_MAX))
      && (r.best.Some? ==>
            && r.bestClause < |clauses|
            && var s := ClauseStarter(env, clauses[r.bestClause]);
            && r.best == s.found && r.term == s.start
            && r.thinnest == s.width && r.deepest == s.depth
            && (forall j | 0 <= j < |clauses| && ClauseStarter(env, clauses[j]).found.Some? ::
                  s.width <= ClauseStarter(env, clauses[j]).width &&
                  (s.width == ClauseStarter(env, clauses[j]).width ==> ClauseStarter(env, clauses[j]).depth <= s.depth))
            && (forall j | 0 <= j < r.bestClause && ClauseStarter(env, clauses[j]).found.Some? ::
                  s.width < ClauseStarter(env, clauses[j]).width ||
                  (s.width == ClauseStarter(env, clauses[j]).width && ClauseStarter(env, clauses[j]).depth < s.depth)))
  {
    ThinnestFromOk(env, clauses, 0, NoChoice);
    var r := FindThinnest(env, clauses);
    if r.best.None? {
      forall j | 0 <= j < |clauses|
        ensures ClauseStarter(env, clauses[j]).found.None? ||
                (IsConstant(clauses[j]) && env.incomingSetSize(clauses[j]) == SIZE_MAX)
      {
        var s := ClauseStarter(env, clauses[j]);
        if s.found.Some? {
          assert s.width == SIZE_MAX && s.depth == 0;
          assert clauses[j].Node?;
        }
      }
    }
  }

  /** Across all clauses, the starter find_thinnest returns is an anchor of
      the chosen clause, and no anchor of any clause is thinner. With no
      starter, the only anchors left are clauses that are themselves
      constants with SIZE_MAX incoming links. */
  lemma ThinnestIsGlobalMinimum(env: Env, clauses: seq<Atom>)
    requires AllQuotesOk(clauses)
    ensures var r := FindThinnest(env, clauses);
      && (r.best.Some? ==>
            && r.bestClause < |clauses|
            && Anchor(env, clauses[r.bestClause], 0, r.best.value, r.deepest)
            && r.thinnest == env.incomingSetSize(r.best.value)
            && forall j, a, d | 0 <= j < |clauses| && Anchor(env, clauses[j], 0, a, d) ::
                 !Thinner(env.incomingSetSize(a), d, r.thinnest, r.deepest))
      && (r.best.None? ==>
            forall j, a, d | 0 <= j < |clauses| && Anchor(env, clauses[j], 0, a, d) ::
              a == clauses[j] && d == 0 && env.incomingSetSize(a) == SIZE_MAX)
  {
    var r := FindThinnest(env, clauses);
    ThinnestArgmin(env, clauses);
    if r.best.Some? {
      FindStarterOptimal(env, clauses[r.bestClause], 0, None, SIZE_MAX);
    }
    if r.best.Some? {
      forall j, a, d | 0 <= j < |clauses| && Anchor(env, clauses[j], 0, a, d)
        ensures !Thinner(env.incomingSetSize(a), d, r.thinnest, r.deepest)
      {
        FindStarterOptimal(env, clauses[j], 0, None, SIZE_MAX);
        assert ClauseStarter(env, clauses[j]).found.Some?;
      }
    } else {
      forall j, a, d | 0 <= j < |clauses| && Anchor(env, clauses[j], 0, a, d)
        ensures a == clauses[j] && d == 0 && env.incomingSetSize(a) == SIZE_MAX
      {
        FindStarterOptimal(env, clauses[j], 0, None, SIZE_MAX);
        assert ClauseStarter(env, clauses[j]).found.Some?;
        assert IsConstant(clauses[j]);
      }
    }
  }
}
