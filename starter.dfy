// find_starter: the recursive descent that picks the "thinnest" constant
// of one clause.

module Starter {
  import opened Atoms

  /** What find_starter hands back: the returned handle (None is
      Handle::UNDEFINED) and the final values of its in-out parameters
      depth, start and width. */
  datatype Starter = Starter(found: Option<Atom>, depth: nat, start: Option<Atom>, width: Size)

  /** The strict order both find_starter and find_thinnest use to replace
      the best candidate so far: a smaller width wins, and on equal width
      a greater depth wins. */
  predicate Thinner(w1: nat, d1: nat, w2: nat, d2: nat) {
    w1 < w2 || (w1 == w2 && d1 > d2)
  }

  /** The outgoing set find_starter walks for link h: a BetaRedex met at
      depth zero is replaced by its beta-reduced form. */
  function Kids(env: Env, h: Atom, depth: nat): (kids: seq<Atom>)
    requires h.Link?
    ensures QuotesOk(h) ==> AllQuotesOk(kids)
  {
    if depth == 0 && h.atype == BETA_REDEX then env.betaReduce(h) else h.out
  }

  /** find_starter(h, depth, start, width). */
  function FindStarter(env: Env, h: Atom, depth: nat, start: Option<Atom>, width: Size): (r: Starter)
    requires QuotesOk(h)
    ensures r.found.Some? ==>
      IsConstant(r.found.value) && r.width == env.incomingSetSize(r.found.value) && r.depth >= depth
    ensures r.found.Some? && h.Link? ==> r.depth > depth && r.start.Some?
    ensures r.found.None? ==> r.depth == depth
    ensures h.Node? ==> r.depth == depth && r.start == start
    decreases if depth == 0 then 1 else 0, h, 1
  {
    if h.Node? then
      if h.atype != VARIABLE_NODE then Starter(Some(h), depth, start, env.incomingSetSize(h))
      else Starter(None, depth, start, width)
    else if h.atype == OR_LINK then Starter(None, depth, start, width)
    else if h in env.dynamic then Starter(None, depth, start, width)
    else ScanChildren(env, h, depth, 0, Starter(None, depth, None, SIZE_MAX))
  }

  /** The result find_starter obtains for the k-th atom of h's outgoing set:
      a QuoteLink is looked through, the branch starts one level deeper,
      with start set to h and width to SIZE_MAX. */
  function Child(env: Env, h: Atom, depth: nat, k: nat): (r: Starter)
    requires h.Link? && QuotesOk(h) && k < |Kids(env, h, depth)|
    decreases if depth == 0 then 1 else 0, h, 0, 0
  {
    FindStarter(env, Unquote(Kids(env, h, depth)[k]), depth + 1, Some(h), SIZE_MAX)
  }

  /** The invariant the running best of find_starter's loop keeps. */
  predicate ScanOk(env: Env, depth: nat, acc: Starter) {
    && (acc.found.Some? ==>
          IsConstant(acc.found.value) && acc.width == env.incomingSetSize(acc.found.value) &&
          acc.depth > depth && acc.start.Some?)
    && (acc.found.None? ==> acc.depth == depth)
  }

  /** The loop of find_starter over h's outgoing set, from position i on,
      with acc holding (hdeepest, deepest, start, thinnest). */
  function ScanChildren(env: Env, h: Atom, depth: nat, i: nat, acc: Starter): (r: Starter)
    requires h.Link? && QuotesOk(h) && i <= |Kids(env, h, depth)|
    requires ScanOk(env, depth, acc)
    ensures ScanOk(env, depth, r)
    ensures r.found.None? ==> r == acc
    decreases if depth == 0 then 1 else 0, h, 0, |Kids(env, h, depth)| - i
  {
    if i == |Kids(env, h, depth)| then acc
    else
      var c := Child(env, h, depth, i);
      var next := if c.found.Some? && Thinner(c.width, c.depth, acc.width, acc.depth) then c else acc;
      ScanChildren(env, h, depth, i + 1, next)
  }

  /** Atom a, reached at depth d, is a node find_starter may anchor on when
      it descends into h from depth `depth`: a constant reached without
      passing an OrLink or a dynamically-evaluatable link. */
  ghost predicate Anchor(env: Env, h: Atom, depth: nat, a: Atom, d: nat)
    requires QuotesOk(h)
    decreases if depth == 0 then 1 else 0, h, 1
  {
    if h.Node? then IsConstant(h) && a == h && d == depth
    else
      h.atype != OR_LINK && h !in env.dynamic &&
      exists k | 0 <= k < |Kids(env, h, depth)| ::
        Anchor(env, Unquote(Kids(env, h, depth)[k]), depth + 1, a, d)
  }

  /** Child k of h is the branch whose result the loop over children
      started at position i ends with: it beats acc, and every earlier
      branch from i on that yields a constant is strictly worse. */
  predicate ChildWins(env: Env, h: Atom, depth: nat, i: nat, k: nat, acc: Starter, r: Starter)
    requires h.Link? && QuotesOk(h) && k < |Kids(env, h, depth)|
  {
    && r == Child(env, h, depth, k)
    && r.found.Some?
    && Thinner(r.width, r.depth, acc.width, acc.depth)
    && forall j | i <= j < k && Child(env, h, depth, j).found.Some? ::
         Thinner(r.width, r.depth, Child(env, h, depth, j).width, Child(env, h, depth, j).depth)
  }

  /** Variables, OrLinks and dynamic terms yield no starter and leave the
      in-out parameters alone; a constant Node is its own starter, with its
      incoming-set size as width and depth and start untouched. */
  lemma FindStarterLeaves(env: Env, h: Atom, depth: nat, start: Option<Atom>, width: Size)
    requires QuotesOk(h)
    ensures var r := FindStarter(env, h, depth, start, width);
      && (IsVariable(h) || IsOr(h) || (h.Link? && h in env.dynamic) ==>
            r == Starter(None, depth, start, width))
      && (IsConstant(h) ==> r == Starter(Some(h), depth, start, env.incomingSetSize(h)))
  {
  }

  /** The loop over children from position i: no branch that yields a
      constant beats the result, and the result is either acc untouched or
      the first branch to reach the best (width, depth) key. */
  lemma {:induction false} ScanChildrenArgmin(env: Env, h: Atom, depth: nat, i: nat, acc: Starter)
    requires h.Link? && QuotesOk(h) && i <= |Kids(env, h, depth)|
    requires ScanOk(env, depth, acc)
    ensures var r := ScanChildren(env, h, depth, i, acc);
      && (forall k | i <= k < |Kids(env, h, depth)| && Child(env, h, depth, k).found.Some? ::
            !Thinner(Child(env, h, depth, k).width, Child(env, h, depth, k).depth, r.width, r.depth))
      && (r == acc || exists k | i <= k < |Kids(env, h, depth)| :: ChildWins(env, h, depth, i, k, acc, r))
    decreases |Kids(env, h, depth)| - i
  {
    var n := |Kids(env, h, depth)|;
    if i < n {
      var c := Child(env, h, depth, i);
      var next := if c.found.Some? && Thinner(c.width, c.depth, acc.width, acc.depth) then c else acc;
      ScanChildrenArgmin(env, h, depth, i + 1, next);
      var r := ScanChildren(env, h, depth, i + 1, next);
      assert r == ScanChildren(env, h, depth, i, acc);
      if r != next {
        var k :| i + 1 <= k < n && ChildWins(env, h, depth, i + 1, k, next, r);
        assert ChildWins(env, h, depth, i, k, acc, r);
      } else if next == c && c != acc {
        assert ChildWins(env, h, depth, i, i, acc, r);
      }
    }
  }

  /** find_starter on a Link it descends into: it yields a starter exactly
      when some branch does; the width returned is no greater than that of
      any branch yielding one (and on equal width the depth no smaller);
      and the winning branch is the earliest with that width and depth,
      every earlier branch being strictly worse. */
  lemma {:induction false} FindStarterPicksChild(env: Env, h: Atom, depth: nat, start: Option<Atom>, width: Size)
    requires QuotesOk(h) && h.Link? && h.atype != OR_LINK && h !in env.dynamic
    ensures var r := FindStarter(env, h, depth, start, width);
      && (r.found.None? <==>
            forall k | 0 <= k < |Kids(env, h, depth)| :: Child(env, h, depth, k).found.None?)
      && (r.found.Some? ==>
            exists k | 0 <= k < |Kids(env, h, depth)| ::
              && r == Child(env, h, depth, k)
              && (forall j | 0 <= j < |Kids(env, h, depth)| && Child(env, h, depth, j).found.Some? ::
                    r.width <= Child(env, h, depth, j).width &&
                    (r.width == Child(env, h, depth, j).width ==> Child(env, h, depth, j).depth <= r.depth))
              && (forall j | 0 <= j < k && Child(env, h, depth, j).found.Some? ::
                    r.width < Child(env, h, depth, j).width ||
                    (r.width == Child(env, h, depth, j).width && Child(env, h, depth, j).depth < r.depth)))
  {
    var init := Starter(None, depth, None, SIZE_MAX);
    ScanChildrenArgmin(env, h, depth, 0, init);
    var r := FindStarter(env, h, depth, start, width);
    assert r == ScanChildren(env, h, depth, 0, init);
    if r.found.Some? {
      var k :| 0 <= k < |Kids(env, h, depth)| && ChildWins(env, h, depth, 0, k, init, r);
      assert Child(env, h, depth, k).found.Some?;
      assert !(forall k' | 0 <= k' < |Kids(env, h, depth)| :: Child(env, h, depth, k').found.None?);
    } else {
      forall k | 0 <= k < |Kids(env, h, depth)|
        ensures Child(env, h, depth, k).found.None?
      {
        var c := Child(env, h, depth, k);
        assert r == init;
        assert c.found.Some? ==> Thinner(c.width, c.depth, r.width, r.depth);
      }
    }
  }

  /** The starter find_starter returns is an anchor of the term, found at
      the depth it reports. */
  lemma {:induction false} FindStarterIsAnchor(env: Env, h: Atom, depth: nat, start: Option<Atom>, width: Size)
    requires QuotesOk(h)
    ensures var r := FindStarter(env, h, depth, start, width);
      r.found.Some? ==> Anchor(env, h, depth, r.found.value, r.depth)
    decreases if depth == 0 then 1 else 0, h, 1
  {
    var r := FindStarter(env, h, depth, start, width);
    if h.Link? && h.atype != OR_LINK && h !in env.dynamic && r.found.Some? {
      var n := |Kids(env, h, depth)|;
      var init := Starter(None, depth, None, SIZE_MAX);
      assert r == ScanChildren(env, h, depth, 0, init);
      ScanChildrenArgmin(env, h, depth, 0, init);
      var k :| 0 <= k < n && ChildWins(env, h, depth, 0, k, init, r);
      FindStarterIsAnchor(env, Unquote(Kids(env, h, depth)[k]), depth + 1, Some(h), SIZE_MAX);
      assert Anchor(env, Unquote(Kids(env, h, depth)[k]), depth + 1, r.found.value, r.depth);
    }
  }

  /** No anchor of the term has a smaller incoming set than the starter
      find_starter returns, or the same one at a greater depth; when the
      term has an anchor at all, a starter is returned. */
  lemma {:induction false} FindStarterBeatsAnchors(env: Env, h: Atom, depth: nat, start: Option<Atom>, width: Size)
    requires QuotesOk(h)
    ensures var r := FindStarter(env, h, depth, start, width);
      forall a, d | Anchor(env, h, depth, a, d) ::
        r.found.Some? && !Thinner(env.incomingSetSize(a), d, r.width, r.depth)
    decreases if depth == 0 then 1 else 0, h, 1
  {
    if h.Link? && h.atype != OR_LINK && h !in env.dynamic {
      var n := |Kids(env, h, depth)|;
      var init := Starter(None, depth, None, SIZE_MAX);
      var r := FindStarter(env, h, depth, start, width);
      assert r == ScanChildren(env, h, depth, 0, init);
      ScanChildrenArgmin(env, h, depth, 0, init);
      forall a, d | Anchor(env, h, depth, a, d)
        ensures r.found.Some? && !Thinner(env.incomingSetSize(a), d, r.width, r.depth)
      {
        var k :| 0 <= k < n && Anchor(env, Unquote(Kids(env, h, depth)[k]), depth + 1, a, d);
        AnchorThroughChild(env, h, depth, k, a, d);
      }
    }
  }

  /** An anchor reached through branch k: that branch yields a starter no
      thinner anchor beats. */
  lemma {:induction false} AnchorThroughChild(env: Env, h: Atom, depth: nat, k: nat, a: Atom, d: nat)
    requires h.Link? && QuotesOk(h) && k < |Kids(env, h, depth)|
    requires Anchor(env, Unquote(Kids(env, h, depth)[k]), depth + 1, a, d)
    ensures Child(env, h, depth, k).found.Some?
    ensures !Thinner(env.incomingSetSize(a), d, Child(env, h, depth, k).width, Child(env, h, depth, k).depth)
    decreases if depth == 0 then 1 else 0, h, 0
  {
    FindStarterBeatsAnchors(env, Unquote(Kids(env, h, depth)[k]), depth + 1, Some(h), SIZE_MAX);
  }

  /** The starter find_starter returns is, over the whole term, the
      thinnest anchor: it is an anchor itself, and no anchor of the term
      has a smaller incoming set, or the same one at a greater depth.
      When the term has an anchor at all, a starter is returned. */
  lemma FindStarterOptimal(env: Env, h: Atom, depth: nat, start: Option<Atom>, width: Size)
    requires QuotesOk(h)
    ensures var r := FindStarter(env, h, depth, start, width);
      && (r.found.Some? ==> Anchor(env, h, depth, r.found.value, r.depth))
      && (forall a, d | Anchor(env, h, depth, a, d) ::
            r.found.Some? && !Thinner(env.incomingSetSize(a), d, r.width, r.depth))
  {
    FindStarterIsAnchor(env, h, depth, start, width);
    FindStarterBeatsAnchors(env, h, depth, start, width);
  }

  /** Link s, descended into at depth d, holds atom a directly: a is one of
      the atoms of the outgoing set s is searched through, after looking
      through a QuoteLink. */
  ghost predicate DirectlyHolds(env: Env, s: Atom, d: nat, a: Atom) {
    s.Link? && QuotesOk(s) &&
    exists k | 0 <= k < |Kids(env, s, d)| :: Unquote(Kids(env, s, d)[k]) == a
  }

  /** When find_starter on a Link yields a starter, start is the link that
      directly contains it, one level above the starter's depth. */
  lemma {:induction false} FindStarterStart(env: Env, h: Atom, depth: nat, start: Option<Atom>, width: Size)
    requires QuotesOk(h) && h.Link?
    ensures var r := FindStarter(env, h, depth, start, width);
      r.found.Some? ==>
        r.start.Some? && r.depth > 0 && DirectlyHolds(env, r.start.value, r.depth - 1, r.found.value)
    decreases if depth == 0 then 1 else 0, h, 1
  {
    var r := FindStarter(env, h, depth, start, width);
    if r.found.Some? {
      var n := |Kids(env, h, depth)|;
      var init := Starter(None, depth, None, SIZE_MAX);
      assert r == ScanChildren(env, h, depth, 0, init);
      ScanChildrenArgmin(env, h, depth, 0, init);
      var k :| 0 <= k < n && ChildWins(env, h, depth, 0, k, init, r);
      var hunt := Unquote(Kids(env, h, depth)[k]);
      assert r == FindStarter(env, hunt, depth + 1, Some(h), SIZE_MAX);
      if hunt.Node? {
        assert r.found.value == hunt && r.start == Some(h) && r.depth == depth + 1;
        assert DirectlyHolds(env, h, depth, hunt);
      } else {
        FindStarterStart(env, hunt, depth + 1, Some(h), SIZE_MAX);
      }
    }
  }
}
