// The atoms a pattern is made of, and the read-only collaborators the
// search-start planner of DefaultPatternMatchCB consults.

module Atoms {

  datatype Option<T> = None | Some(value: T)

  /** An atom type tag. The codes below are distinct stand-ins for the
      values the type hierarchy assigns at run time. */
  type AtomType = nat

  const ATOM: AtomType := 1
  const VARIABLE_NODE: AtomType := 2
  const OR_LINK: AtomType := 3
  const QUOTE_LINK: AtomType := 4
  const BETA_REDEX: AtomType := 5

  /** The largest value of a 64-bit size_t, used as "no minimum yet". */
  const SIZE_MAX: nat := 0xFFFF_FFFF_FFFF_FFFF

  /** A size_t: an incoming-set size or an atom count. */
  type Size = n: nat | n <= SIZE_MAX

  /** An atom is a Node (a leaf with a type and a name) or a Link (a type
      and an ordered outgoing set). Atoms are canonical, so structural
      equality is handle identity. */
  datatype Atom =
    | Node(atype: AtomType, name: string)
    | Link(atype: AtomType, out: seq<Atom>)

  predicate IsVariable(a: Atom) {
    a.Node? && a.atype == VARIABLE_NODE
  }

  /** A non-variable Node: the only kind of atom a neighbor search may
      anchor on. */
  predicate IsConstant(a: Atom) {
    a.Node? && a.atype != VARIABLE_NODE
  }

  predicate IsQuote(a: Atom) {
    a.Link? && a.atype == QUOTE_LINK
  }

  predicate IsOr(a: Atom) {
    a.Link? && a.atype == OR_LINK
  }

  /** Every QuoteLink inside a has an atom to quote; unwrapping a QuoteLink
      reads its first outgoing atom, which does not exist otherwise. */
  predicate QuotesOk(a: Atom)
    decreases a
  {
    match a
    case Node(_, _) => true
    case Link(t, out) =>
      (t == QUOTE_LINK ==> |out| > 0) &&
      forall i | 0 <= i < |out| :: QuotesOk(out[i])
  }

  predicate AllQuotesOk(s: seq<Atom>) {
    forall i | 0 <= i < |s| :: QuotesOk(s[i])
  }

  type WellQuoted = s: seq<Atom> | AllQuotesOk(s)

  /** Looks through a QuoteLink to the atom it quotes. */
  function Unquote(a: Atom): (r: Atom)
    requires QuotesOk(a)
    ensures QuotesOk(r)
  {
    if IsQuote(a) then a.out[0] else a
  }

  /** Everything the planner reads but never changes: the atomspace
      queries, the callback's virtual get_incoming_set, the reduction of a
      BetaRedex, the FindAtoms utility, and the callback's dynamic-term set
      and variable type restrictions. */
  datatype Env = Env(
    // Atom::getIncomingSetSize
    incomingSetSize: Atom -> Size,
    // DefaultPatternMatchCB::get_incoming_set, in its enumeration order
    incomingSet: Atom -> seq<Atom>,
    // AtomSpace::getNumAtomsOfType, as a size_t
    numAtomsOfType: AtomType -> Size,
    // AtomSpace::getHandlesByType, in its enumeration order
    handlesByType: AtomType -> seq<Atom>,
    // the outgoing set of BetaRedex::beta_reduce() of a BetaRedex link
    betaReduce: Atom -> WellQuoted,
    // FindAtoms(var).search_set(clause).least_holders, in iteration order
    leastHolders: (Atom, Atom) -> seq<Atom>,
    // _dynamic: the dynamically-evaluatable terms (an absent set is empty)
    dynamic: set<Atom>,
    // _type_restrictions: each variable's allowed types, in iteration order
    typeRestrictions: map<Atom, seq<AtomType>>)
}
