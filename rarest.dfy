// find_rarest and the clause loop of link_type_search: the Link type with
// the fewest atoms in the atomspace.

module Rarest {
  import opened Atoms

  /** s is a Link of clause c that find_rarest looks at: reached from c
      through Links only, never entering a QuoteLink. */
  ghost predicate UnquotedLink(s: Atom, c: Atom)
    decreases c
  {
    c.Link? && c.atype != QUOTE_LINK &&
    (s == c || exists i | 0 <= i < |c.out| :: UnquotedLink(s, c.out[i]))
  }

  /** The in-out parameters of find_rarest: the rarest link so far and its
      count. */
  datatype Rarest = Rarest(rarest: Option<Atom>, count: Size)

  /** find_rarest(clause, rarest, count). The count only goes down; it ends
      as the minimum of the incoming count and the type counts of all the
      unquoted Links of the clause; rarest is replaced only when the count
      strictly drops, and then by a Link with exactly that count. */
  function FindRarest(env: Env, c: Atom, rarest: Option<Atom>, count: Size): (r: Rarest)
    ensures r.count <= count
    ensures forall s | UnquotedLink(s, c) :: r.count <= env.numAtomsOfType(s.atype)
    ensures r.count < count ==>
      r.rarest.Some? && UnquotedLink(r.rarest.value, c) && env.numAtomsOfType(r.rarest.value.atype) == r.count
    ensures r.count == count ==> r.rarest == rarest
    decreases c, 1
  {
    if c.Node? || c.atype == QUOTE_LINK then Rarest(rarest, count)
    else
      var num := env.numAtomsOfType(c.atype);
      var here := if num < count then Rarest(Some(c), num) else Rarest(rarest, count);
      FindRarestFrom(env, c, 0, here)
  }

  /** The loop of find_rarest over the outgoing set of link c, from
      position i on. */
  function FindRarestFrom(env: Env, c: Atom, i: nat, acc: Rarest): (r: Rarest)
    requires c.Link? && i <= |c.out|
    ensures r.count <= acc.count
    ensures forall s, k | i <= k < |c.out| && UnquotedLink(s, c.out[k]) ::
      r.count <= env.numAtomsOfType(s.atype)
    ensures r.count < acc.count ==>
      r.rarest.Some? && env.numAtomsOfType(r.rarest.value.atype) == r.count &&
      exists k | i <= k < |c.out| :: UnquotedLink(r.rarest.value, c.out[k])
    ensures r.count == acc.count ==> r.rarest == acc.rarest
    decreases c, 0, |c.out| - i
  {
    if i == |c.out| then acc
    else FindRarestFrom(env, c, i + 1, FindRarest(env, c.out[i], acc.rarest, acc.count))
  }

  /** The loop state of link_type_search over the clauses: _root,
      _starter_term (handed to find_rarest as its rarest) and count. */
  datatype LinkChoice = LinkChoice(root: Option<Atom>, term: Option<Atom>, count: Size)

  const NoLink: LinkChoice := LinkChoice(None, None, SIZE_MAX)

  /** One clause of link_type_search: find_rarest runs on it with the
      running term and count, and the clause becomes the root when the
      count drops. */
  function LinkStep(env: Env, clause: Atom, acc: LinkChoice): (r: LinkChoice)
    requires acc.root.Some? <==> acc.term.Some?
    ensures r.root.Some? <==> r.term.Some?
    ensures r.count <= acc.count
  {
    var fr := FindRarest(env, clause, acc.term, acc.count);
    var root := if fr.count < acc.count then Some(clause) else acc.root;
    LinkChoice(root, fr.rarest, fr.count)
  }

  /** The clause loop of link_type_search from clause i on. */
  function RarestLinkFrom(env: Env, clauses: seq<Atom>, i: nat, acc: LinkChoice): (r: LinkChoice)
    requires i <= |clauses|
    requires acc.root.Some? <==> acc.term.Some?
    ensures r.root.Some? <==> r.term.Some?
    ensures r.count <= acc.count
    decreases |clauses| - i
  {
    if i == |clauses| then acc
    else RarestLinkFrom(env, clauses, i + 1, LinkStep(env, clauses[i], acc))
  }

  /** The choice link_type_search makes: the start clause, the rarest link
      in it, and the count of that link's type. */
  function RarestLink(env: Env, clauses: seq<Atom>): (r: LinkChoice)
    ensures r.root.Some? <==> r.term.Some?
  {
    RarestLinkFrom(env, clauses, 0, NoLink)
  }

  /** What the clause loop keeps after clauses [0, i); when a root is chosen,
      j is the index of the clause it came from. */
  ghost predicate LinkOk(env: Env, clauses: seq<Atom>, i: nat, acc: LinkChoice, j: nat)
    requires i <= |clauses|
  {
    && (forall k, s | 0 <= k < i && UnquotedLink(s, clauses[k]) :: acc.count <= env.numAtomsOfType(s.atype))
    && (acc.root.None? ==> acc == NoLink)
    && (acc.root.Some? ==>
          && j < i && acc.root == Some(clauses[j]) && acc.term.Some?
          && UnquotedLink(acc.term.value, clauses[j])
          && env.numAtomsOfType(acc.term.value.atype) == acc.count < SIZE_MAX
          && forall k, s | 0 <= k < j && UnquotedLink(s, clauses[k]) :: acc.count < env.numAtomsOfType(s.atype))
  }

  /** One clause of the loop keeps LinkOk; the root index moves to i when
      the clause lowers the count. */
  lemma LinkStepOk(env: Env, clauses: seq<Atom>, i: nat, acc: LinkChoice, j: nat) returns (j': nat)
    requires i < |clauses| && LinkOk(env, clauses, i, acc, j)
    ensures LinkOk(env, clauses, i + 1, LinkStep(env, clauses[i], acc), j')
  {
    var fr := FindRarest(env, clauses[i], acc.term, acc.count);
    var next := LinkStep(env, clauses[i], acc);
    if fr.count < acc.count {
      j' := i;
      forall k, s | 0 <= k < i + 1 && UnquotedLink(s, clauses[k])
        ensures next.count <= env.numAtomsOfType(s.atype)
      {
        if k < i {
          assert acc.count <= env.numAtomsOfType(s.atype);
        }
      }
      forall k, s | 0 <= k < i && UnquotedLink(s, clauses[k])
        ensures next.count < env.numAtomsOfType(s.atype)
      {
        assert acc.count <= env.numAtomsOfType(s.atype);
      }
    } else {
      j' := j;
      assert next == acc;
      forall k, s | 0 <= k < i + 1 && UnquotedLink(s, clauses[k])
        ensures next.count <= env.numAtomsOfType(s.atype)
      {
        if k < i {
          assert acc.count <= env.numAtomsOfType(s.atype);
        }
      }
    }
  }

  /** The loop ends in LinkOk; r is its result and j' the index of the
      root clause. */
  lemma {:induction false} RarestLinkFromOk(env: Env, clauses: seq<Atom>, i: nat, acc: LinkChoice, j: nat, r: LinkChoice)
      returns (j': nat)
    requires i <= |clauses| && LinkOk(env, clauses, i, acc, j)
    requires acc.root.Some? <==> acc.term.Some?
    requires r == RarestLinkFrom(env, clauses, i, acc)
    ensures LinkOk(env, clauses, |clauses|, r, j')
    decreases |clauses| - i
  {
    if i == |clauses| {
      assert r == acc;
      j' := j;
    } else {
      var next := LinkStep(env, clauses[i], acc);
      var jn := LinkStepOk(env, clauses, i, acc, j);
      assert r == RarestLinkFrom(env, clauses, i + 1, next);
      j' := RarestLinkFromOk(env, clauses, i + 1, next, jn, r);
    }
  }

  /** link_type_search finds no start exactly when every unquoted Link of
      every clause has a type count of SIZE_MAX. Otherwise the count is the
      minimum type count over all unquoted Links of all clauses, the root is
      the first clause that reaches it (the last one that lowered the count),
      and the start term is an unquoted Link of the root with that count. */
  lemma RarestLinkChoice(env: Env, clauses: seq<Atom>)
    ensures var r := RarestLink(env, clauses);
      && (r.root.None? <==>
            forall k, s | 0 <= k < |clauses| && UnquotedLink(s, clauses[k]) :: env.numAtomsOfType(s.atype) == SIZE_MAX)
      && (r.root.None? ==> r.term.None? && r.count == SIZE_MAX)
      && (r.root.Some? ==>
            && r.term.Some? && r.count < SIZE_MAX
            && env.numAtomsOfType(r.term.value.atype) == r.count
            && (forall k, s | 0 <= k < |clauses| && UnquotedLink(s, clauses[k]) :: r.count <= env.numAtomsOfType(s.atype))
            && exists j | 0 <= j < |clauses| ::
                 && clauses[j] == r.root.value && UnquotedLink(r.term.value, clauses[j])
                 && forall k, s | 0 <= k < j && UnquotedLink(s, clauses[k]) :: r.count < env.numAtomsOfType(s.atype))
  {
    var r := RarestLink(env, clauses);
    var j := RarestLinkFromOk(env, clauses, 0, NoLink, 0, r);
    if r.root.Some? {
      assert clauses[j] == r.root.value;
      var s := r.term.value;
      assert UnquotedLink(s, clauses[j]);
    }
  }

  // ---------------------------------------------------------------------
  // Which of several equally rare Links is kept

  /** The Links find_rarest visits in clause c, in the order it visits them:
      c itself, then the Links of each outgoing atom in turn (pre-order),
      never entering a QuoteLink. */
  ghost function UnquotedLinks(c: Atom): seq<Atom>
    decreases c, 1
  {
    if c.Node? || c.atype == QUOTE_LINK then [] else [c] + LinksFrom(c, 0)
  }

  /** The visiting order of the outgoing atoms of c from position i on. */
  ghost function LinksFrom(c: Atom, i: nat): seq<Atom>
    requires c.Link? && i <= |c.out|
    decreases c, 0, |c.out| - i
  {
    if i == |c.out| then [] else UnquotedLinks(c.out[i]) + LinksFrom(c, i + 1)
  }

  /** The Links of clauses [i, |clauses|) in the order link_type_search
      visits them. */
  ghost function ClauseLinks(clauses: seq<Atom>, i: nat): seq<Atom>
    requires i <= |clauses|
    decreases |clauses| - i
  {
    if i == |clauses| then [] else UnquotedLinks(clauses[i]) + ClauseLinks(clauses, i + 1)
  }

  /** Visiting the Links L in order from the state acc ends in r: the count
      is the least of acc's and of the type counts of L; if that is below
      acc's, the rarest is the first Link of L with that count, and
      otherwise the rarest is acc's. */
  ghost predicate KeepsFirst(env: Env, links: seq<Atom>, acc: Rarest, r: Rarest) {
    && r.count <= acc.count
    && (forall p | 0 <= p < |links| :: r.count <= env.numAtomsOfType(links[p].atype))
    && (r.count == acc.count ==> r.rarest == acc.rarest)
    && (r.count < acc.count ==>
          exists m | 0 <= m < |links| ::
            && r.rarest == Some(links[m]) && env.numAtomsOfType(links[m].atype) == r.count
            && forall p | 0 <= p < m :: r.count < env.numAtomsOfType(links[p].atype))
  }

  /** Visiting A and then B is visiting A + B. */
  lemma KeepsFirstConcat(env: Env, a: seq<Atom>, b: seq<Atom>, acc: Rarest, mid: Rarest, r: Rarest)
    requires KeepsFirst(env, a, acc, mid) && KeepsFirst(env, b, mid, r)
    ensures KeepsFirst(env, a + b, acc, r)
  {
    var l := a + b;
    forall p | 0 <= p < |l|
      ensures r.count <= env.numAtomsOfType(l[p].atype)
    {
      if p < |a| {
        assert l[p] == a[p];
      } else {
        assert l[p] == b[p - |a|];
      }
    }
    if r.count < acc.count {
      if r.count < mid.count {
        var m :| 0 <= m < |b| && r.rarest == Some(b[m]) && env.numAtomsOfType(b[m].atype) == r.count
          && forall p | 0 <= p < m :: r.count < env.numAtomsOfType(b[p].atype);
        assert l[|a| + m] == b[m];
        forall p | 0 <= p < |a| + m
          ensures r.count < env.numAtomsOfType(l[p].atype)
        {
          if p < |a| {
            assert l[p] == a[p];
          } else {
            assert l[p] == b[p - |a|];
          }
        }
      } else {
        var m :| 0 <= m < |a| && mid.rarest == Some(a[m]) && env.numAtomsOfType(a[m].atype) == mid.count
          && forall p | 0 <= p < m :: mid.count < env.numAtomsOfType(a[p].atype);
        assert l[m] == a[m];
        forall p | 0 <= p < m
          ensures r.count < env.numAtomsOfType(l[p].atype)
        {
          assert l[p] == a[p];
        }
      }
    }
  }

  /** find_rarest keeps the first of several equally rare Links in its
      visiting order, because it replaces the rarest only on a strict
      drop. */
  lemma {:induction false} FindRarestFirst(env: Env, c: Atom, rarest: Option<Atom>, count: Size)
    ensures KeepsFirst(env, UnquotedLinks(c), Rarest(rarest, count), FindRarest(env, c, rarest, count))
    decreases c, 1
  {
    if c.Link? && c.atype != QUOTE_LINK {
      var num := env.numAtomsOfType(c.atype);
      var here := if num < count then Rarest(Some(c), num) else Rarest(rarest, count);
      assert KeepsFirst(env, [c], Rarest(rarest, count), here) by {
        if num < count {
          assert [c][0] == c;
        }
      }
      FindRarestFromFirst(env, c, 0, here);
      KeepsFirstConcat(env, [c], LinksFrom(c, 0), Rarest(rarest, count), here, FindRarestFrom(env, c, 0, here));
    }
  }

  /** The same for the loop over the outgoing set from position i on. */
  lemma {:induction false} FindRarestFromFirst(env: Env, c: Atom, i: nat, acc: Rarest)
    requires c.Link? && i <= |c.out|
    ensures KeepsFirst(env, LinksFrom(c, i), acc, FindRarestFrom(env, c, i, acc))
    decreases c, 0, |c.out| - i
  {
    if i < |c.out| {
      var mid := FindRarest(env, c.out[i], acc.rarest, acc.count);
      FindRarestFirst(env, c.out[i], acc.rarest, acc.count);
      FindRarestFromFirst(env, c, i + 1, mid);
      KeepsFirstConcat(env, UnquotedLinks(c.out[i]), LinksFrom(c, i + 1), acc, mid, FindRarestFrom(env, c, i + 1, mid));
    }
  }

  /** The clause loop of link_type_search visits the clauses' Links in
      order and keeps the first rarest one. */
  lemma {:induction false} RarestLinkFromFirst(env: Env, clauses: seq<Atom>, i: nat, acc: LinkChoice)
    requires i <= |clauses|
    requires acc.root.Some? <==> acc.term.Some?
    ensures var r := RarestLinkFrom(env, clauses, i, acc);
      KeepsFirst(env, ClauseLinks(clauses, i), Rarest(acc.term, acc.count), Rarest(r.term, r.count))
    decreases |clauses| - i
  {
    if i < |clauses| {
      var next := LinkStep(env, clauses[i], acc);
      var r := RarestLinkFrom(env, clauses, i + 1, next);
      FindRarestFirst(env, clauses[i], acc.term, acc.count);
      RarestLinkFromFirst(env, clauses, i + 1, next);
      KeepsFirstConcat(env, UnquotedLinks(clauses[i]), ClauseLinks(clauses, i + 1),
        Rarest(acc.term, acc.count), Rarest(next.term, next.count), Rarest(r.term, r.count));
    }
  }

  /** term is the first Link of links whose type count is the least of
      all; there is none exactly when every count is SIZE_MAX. */
  ghost predicate FirstRarest(env: Env, links: seq<Atom>, term: Option<Atom>) {
    && (term.None? <==> forall p | 0 <= p < |links| :: env.numAtomsOfType(links[p].atype) == SIZE_MAX)
    && (term.Some? ==>
          exists m | 0 <= m < |links| ::
            && term == Some(links[m])
            && (forall p | 0 <= p < |links| :: env.numAtomsOfType(links[m].atype) <= env.numAtomsOfType(links[p].atype))
            && forall p | 0 <= p < m :: env.numAtomsOfType(links[m].atype) < env.numAtomsOfType(links[p].atype))
  }

  /** The start term link_type_search picks is the first Link, in clause
      order and then in find_rarest's visiting order, whose type count is
      the least of all; there is none exactly when every count is
      SIZE_MAX. */
  lemma RarestLinkFirst(env: Env, clauses: seq<Atom>)
    ensures FirstRarest(env, ClauseLinks(clauses, 0), RarestLink(env, clauses).term)
  {
    var r := RarestLink(env, clauses);
    RarestLinkFromFirst(env, clauses, 0, NoLink);
    assert Rarest(NoLink.term, NoLink.count) == Rarest(None, SIZE_MAX);
    FirstOfAll(env, ClauseLinks(clauses, 0), r.term, r.count);
  }

  /** Visiting links from the initial state (no Link, count SIZE_MAX)
      ends with the first Link of least count, if any is below SIZE_MAX. */
  lemma FirstOfAll(env: Env, links: seq<Atom>, term: Option<Atom>, count: Size)
    requires KeepsFirst(env, links, Rarest(None, SIZE_MAX), Rarest(term, count))
    ensures FirstRarest(env, links, term)
  {
    if count < SIZE_MAX {
      var m :| 0 <= m < |links| && term == Some(links[m]) && env.numAtomsOfType(links[m].atype) == count
        && forall p | 0 <= p < m :: count < env.numAtomsOfType(links[p].atype);
      assert env.numAtomsOfType(links[m].atype) != SIZE_MAX;
    }
  }

  /** The visiting order lists exactly the Links UnquotedLink describes. */
  lemma {:induction false} UnquotedLinksMembers(s: Atom, c: Atom)
    ensures s in UnquotedLinks(c) <==> UnquotedLink(s, c)
    decreases c
  {
    if c.Link? && c.atype != QUOTE_LINK {
      LinksFromMembers(s, c, 0);
      forall k | 0 <= k < |c.out|
        ensures s in UnquotedLinks(c.out[k]) <==> UnquotedLink(s, c.out[k])
      {
        UnquotedLinksMembers(s, c.out[k]);
      }
    }
  }

  lemma {:induction false} LinksFromMembers(s: Atom, c: Atom, i: nat)
    requires c.Link? && i <= |c.out|
    ensures s in LinksFrom(c, i) <==> exists k | i <= k < |c.out| :: s in UnquotedLinks(c.out[k])
    decreases |c.out| - i
  {
    if i < |c.out| {
      var a := UnquotedLinks(c.out[i]);
      var b := LinksFrom(c, i + 1);
      assert LinksFrom(c, i) == a + b;
      LinksFromMembers(s, c, i + 1);
      if s in a {
        assert i <= i < |c.out| && s in UnquotedLinks(c.out[i]);
      } else if s in b {
        var k :| i + 1 <= k < |c.out| && s in UnquotedLinks(c.out[k]);
        assert i <= k < |c.out|;
      } else {
        forall k | i <= k < |c.out|
          ensures s !in UnquotedLinks(c.out[k])
        {
          if k == i {
            assert UnquotedLinks(c.out[k]) == a;
          }
        }
      }
    }
  }
}
