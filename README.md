# Search-start planner of the OpenCog pattern matcher, in Dafny

This project models how the default pattern-matching callback
`DefaultPatternMatchCB` starts a search. The callback is given a pattern: a
list of clauses, each a term built from Nodes and Links. It picks a place in
the atomspace to start the backtracking grounding search. It then offers
candidate atoms from there to the pattern-match engine, one at a time, until
one is accepted. The model proves what each part of that planner computes:

- **find_starter** (`Starter.FindStarter`) descends into one clause. It returns
  the constant Node with the smallest incoming set. On a tie it prefers the
  deeper Node, and on a full tie the earlier branch. It skips variables,
  OrLinks and dynamically-evaluatable terms. It looks through QuoteLinks, and
  expands a BetaRedex at depth 0.
- **find_thinnest** (`Thinnest.FindThinnest`, and the method
  `DefaultPatternMatchCB.FindThinnest`) applies find_starter to every clause
  and keeps the best starter.
- **find_rarest** / **link_type_search** (module `Rarest`) find the Link type
  with the fewest atoms among the unquoted Links of the clauses.
- **variable_search** (module `Variables`) finds the rarest type with a
  strictly positive count among the variables' type restrictions.
- **neighbor_search**, **link_type_search**, **variable_search**,
  **disjunct_search** and **initiate_search** (modules `Stages` and
  `Callback`) form the stage machine, gated by `_search_fail`. Each stage does
  one of three things: it reports no basis, or it runs and succeeds, or it
  runs and fails. A lone top-level OrLink is split into independent searches,
  one per branch.

Module `Stages` states each stage as a function of the callback's state. The
class `Callback.DefaultPatternMatchCB` holds the same stages as methods that
update the fields `_root`, `_starter_term` and `_search_fail` in place. Each
method is proved to leave exactly the state and return value that its
`Stages` function gives. The methods also record the calls made to the engine
in a ghost trace (`probes`); the trace exists only in the proof.

Atoms are a datatype: `Node(type, name)` or `Link(type, outgoing)`. Everything
the planner only reads is a field of `Atoms.Env`:

- incoming-set sizes;
- the incoming sets returned by the callback's `get_incoming_set`;
- the count of atoms of each type;
- the atoms of each type;
- the reduction of a BetaRedex;
- the least holders reported by FindAtoms;
- the dynamic-term set;
- the type restrictions.

The engine's `explore_neighborhood` is a parameter of type `Stages.Engine`.

Consequences of the code worth knowing:

- disjunct_search runs the cascade on a lone OrLink itself after its branch
  loop only while `_search_fail` is still set
  (opencog/query/DefaultPatternMatchCB.cc:441). Every branch's
  disjunct_search returns with the flag clear, because variable_search
  never sets it. So the flag can still be set only when the OrLink has no
  branches and the flag was set on entry. initiate_search clears the flag
  first, so from it the cascade never runs on the OrLink
  (`Stages.OrNeverCascades`).
- variable_search skips types with no atoms (`0 < num`, :601). find_rarest
  does not (`num < count`, :490). A Link type with 0 atoms therefore beats
  every other in link_type_search (`Rarest.FindRarest`).
- Among equally rare Links, link_type_search keeps the first one it visits,
  in clause order and then in pre-order, because find_rarest replaces only
  on a strict drop. That Link's type decides which atoms are enumerated
  (`Rarest.RarestLinkFirst`).
- find_thinnest starts from the key `(SIZE_MAX, 0)` and compares strictly.
  Suppose a clause is itself a constant Node with exactly `SIZE_MAX` incoming
  links. find_starter returns that Node, but find_thinnest never selects it
  (`Thinnest.ThinnestArgmin`, `Stages.NeighborNoBasis`).

## Model

| member | source | states |
|---|---|---|
| `Starter.FindStarter` | opencog/query/DefaultPatternMatchCB.cc:88-156 | A returned starter is a constant Node, and the width returned is that Node's incoming-set size. Below a Link, the starter is strictly deeper and comes with a start term. With no starter, the depth is unchanged. A Node leaves depth and start untouched. |
| `Starter.ScanChildren` | opencog/query/DefaultPatternMatchCB.cc:116-155 | The branch loop keeps the invariant of its running best: a constant with its own incoming-set size as width, strictly below the current depth, and a start term. A result without a starter is the initial value unchanged. Its body for one branch is `Starter.Child` (:132-140): find_starter one level deeper, start set to the Link, width `SIZE_MAX`, and a QuoteLink looked through. |
| `Starter.FindStarterLeaves` | opencog/query/DefaultPatternMatchCB.cc:94-110 | A VariableNode, an OrLink or a dynamic Link yields no starter and leaves depth, start and width unchanged. A constant Node is its own starter, with its incoming-set size as width and depth and start unchanged. |
| `Starter.ScanChildrenArgmin` | opencog/query/DefaultPatternMatchCB.cc:130-152 | No branch that yields a starter beats the loop's result. The result is the initial best, or the first branch that reaches the best (width, depth) key, with every earlier branch strictly worse. |
| `Starter.FindStarterPicksChild` | opencog/query/DefaultPatternMatchCB.cc:113-155 | On a Link that find_starter descends into, a starter is returned exactly when some branch yields one. The result is one branch's result. Its width is no greater than that of any branch with a starter, and on equal width its depth is no smaller. Every earlier branch is strictly worse. |
| `Starter.FindStarterIsAnchor` | opencog/query/DefaultPatternMatchCB.cc:88-156 | The returned starter is an anchor of the term. An anchor is a constant reached, at the reported depth, without passing an OrLink or a dynamic Link, looking through QuoteLinks and a depth-0 BetaRedex. |
| `Starter.FindStarterBeatsAnchors` | opencog/query/DefaultPatternMatchCB.cc:88-156 | If the term has an anchor at all, a starter is returned. No anchor has a smaller incoming set than the starter, or the same one at a greater depth. |
| `Starter.FindStarterOptimal` | opencog/query/DefaultPatternMatchCB.cc:88-156 | Both of the above: the starter is the thinnest anchor of the whole term. |
| `Starter.FindStarterStart` | opencog/query/DefaultPatternMatchCB.cc:130-150 | When find_starter on a Link yields a starter, `start` is the Link that directly holds it, one level above the starter's depth. |
| `Thinnest.FindThinnest` | opencog/query/DefaultPatternMatchCB.cc:162-193 | When a starter is returned, its clause index is in range. |
| `Thinnest.ThinnestFrom` | opencog/query/DefaultPatternMatchCB.cc:173-190 | The clause loop of find_thinnest from clause i on keeps the chosen clause index in range. Its meaning is proved in `Thinnest.ThinnestArgmin`. |
| `Thinnest.ThinnestArgmin` | opencog/query/DefaultPatternMatchCB.cc:166-192 | A returned starter is the one find_starter gives for clause `bestclause`. No clause's starter has a smaller width, none of equal width has a greater depth, and every earlier clause is strictly worse. With no starter, the term is undefined, and every clause yields no starter or is a constant with `SIZE_MAX` incoming links. |
| `Thinnest.ThinnestIsGlobalMinimum` | opencog/query/DefaultPatternMatchCB.cc:162-193 | The chosen starter is an anchor of its clause at the reported depth. No anchor of any clause is thinner. With no starter, every anchor is a clause that is itself a constant with `SIZE_MAX` incoming links. |
| `Rarest.FindRarest` | opencog/query/DefaultPatternMatchCB.cc:479-499 | The count never grows. It ends no greater than the type count of any Link of the clause reached without entering a QuoteLink. If it drops, `rarest` is such a Link and has exactly that count. If it stays, `rarest` is untouched. |
| `Rarest.FindRarestFrom` | opencog/query/DefaultPatternMatchCB.cc:496-498 | The same for the loop over the outgoing set from position i on. |
| `Rarest.LinkStep` | opencog/query/DefaultPatternMatchCB.cc:519-525 | One clause of link_type_search's loop never raises the count, and keeps "root defined iff start term defined". |
| `Rarest.RarestLinkFrom` | opencog/query/DefaultPatternMatchCB.cc:517-526 | The clause loop never raises the count, and it keeps "root defined iff start term defined". |
| `Rarest.RarestLink` | opencog/query/DefaultPatternMatchCB.cc:512-526 | The whole clause loop, from no root and count `SIZE_MAX`, leaves a root exactly when it leaves a start term. Its meaning is proved in `Rarest.RarestLinkChoice` and `Rarest.RarestLinkFirst`. |
| `Rarest.RarestLinkChoice` | opencog/query/DefaultPatternMatchCB.cc:512-538 | link_type_search finds no root exactly when every unquoted Link of every clause has type count `SIZE_MAX`. Then the start term is undefined. Otherwise the count is below `SIZE_MAX` and is the least type count over all unquoted Links of all clauses. The root is the first clause that reaches it, which is the last to lower the count. The start term is an unquoted Link of the root with that count. |
| `Rarest.FindRarestFirst` | opencog/query/DefaultPatternMatchCB.cc:479-499 | find_rarest visits c and then, in order, the Links of each outgoing atom (pre-order), never entering a QuoteLink. The count ends as the least of the incoming count and those Links' type counts. If it drops, `rarest` is the first visited Link with the new count, every earlier one being strictly more common. Otherwise `rarest` is untouched. |
| `Rarest.FindRarestFromFirst` | opencog/query/DefaultPatternMatchCB.cc:496-498 | The same for the loop over the outgoing set from position i on. |
| `Rarest.RarestLinkFirst` | opencog/query/DefaultPatternMatchCB.cc:512-526 | The start term link_type_search picks is the first visited Link, in clause order then pre-order, whose type count is the least of all. There is none exactly when every visited Link's count is `SIZE_MAX`. |
| `Rarest.UnquotedLinksMembers` | opencog/query/DefaultPatternMatchCB.cc:479-499 | The visiting order lists exactly the Links reached through Links only, never entering a QuoteLink. |
| `Variables.FirstHolder` | opencog/query/DefaultPatternMatchCB.cc:603-625 | The index returned is that of the first clause that is the variable itself or has a least holder of it. With no index, no clause holds the variable. |
| `Variables.TypeStep` | opencog/query/DefaultPatternMatchCB.cc:596-626 | One restricted type of variable_search's inner loop never raises the count, and keeps "root defined iff term defined". |
| `Variables.TypesFrom` | opencog/query/DefaultPatternMatchCB.cc:594-627 | The same for the loop over one variable's type set from position k on. |
| `Variables.VarsFrom` | opencog/query/DefaultPatternMatchCB.cc:589-628 | The same for the loop over the variables from position i on. A variable without type restrictions is skipped. |
| `Variables.VarSelect` | opencog/query/DefaultPatternMatchCB.cc:580-628 | The root is defined exactly when the start term is. |
| `Variables.VariableChoice` | opencog/query/DefaultPatternMatchCB.cc:580-635 | The loops find a root exactly when some (variable, restricted type) pair has strictly positive count below `SIZE_MAX` and a clause holding the variable. Without a root, ptype stays `ATOM`. With a root, the count is strictly positive and minimal over all such pairs. It comes from the first pair in iteration order that has it. The root is the first clause holding that variable. The term is the clause itself if it is the variable, else its first least holder. |
| `Stages.Explore` | opencog/query/DefaultPatternMatchCB.cc:253-265 | The candidate loop succeeds exactly when the engine accepts some candidate. It probes the candidates in order, from the current root and term. It stops right after the first accepted one, and probes all of them when none is accepted. |
| `Stages.ExploreFrom` | opencog/query/DefaultPatternMatchCB.cc:253-265 | The same for the candidate loop from candidate i on. |
| `Stages.Neighbor` | opencog/query/DefaultPatternMatchCB.cc:215-270 | Reporting no basis means returning false with `_root` and the trace untouched. Running leaves a root that is one of the clauses. The trace only grows. |
| `Stages.LinkType` | opencog/query/DefaultPatternMatchCB.cc:508-561 | Reporting no basis means returning false with an undefined root and the trace untouched. Running leaves a root and a start term defined. The trace only grows. |
| `Stages.Variable` | opencog/query/DefaultPatternMatchCB.cc:576-655 | It never reports no basis. The root and start term are always defined. The trace only grows. |
| `Stages.Cascade` | opencog/query/DefaultPatternMatchCB.cc:444-470 | The neighbor → link-type → variable cascade always ends with `_search_fail` clear. |
| `Stages.Disjunct` | opencog/query/DefaultPatternMatchCB.cc:426-471 | disjunct_search always ends with `_search_fail` clear, whatever the state it starts from. |
| `Stages.OrBranches` | opencog/query/DefaultPatternMatchCB.cc:430-441 | The branch loop can leave `_search_fail` set only by running no branch, in which case it returns false with the state untouched. |
| `Stages.Initiate` | opencog/query/DefaultPatternMatchCB.cc:361-367 | initiate_search ends with `_search_fail` clear. |
| `Stages.NeighborNoBasis` | opencog/query/DefaultPatternMatchCB.cc:233-265 | neighbor_search reports no basis exactly when no clause has an anchor beating `(SIZE_MAX, 0)`, and then it leaves the start term undefined. When it runs, its root is the clause holding the thinnest anchor of all clauses. It succeeds exactly when the engine accepts an atom of that anchor's incoming set. |
| `Stages.LinkTypeNoBasis` | opencog/query/DefaultPatternMatchCB.cc:512-547 | link_type_search reports no basis exactly when no unquoted Link of any clause has a type count below `SIZE_MAX`. When it runs, its start term is an unquoted Link of the root clause whose type count is the least of all. Among Links of equal count it is the first visited, in clause order then pre-order. It succeeds exactly when the engine accepts an atom of that Link's type. |
| `Stages.VariableFallback` | opencog/query/DefaultPatternMatchCB.cc:576-655 | Without a (variable, restricted type) pair of positive count below `SIZE_MAX` and a clause holding the variable, root and start term are both `clauses[0]`, and the search succeeds exactly when the engine accepts an atom of type `ATOM`. Otherwise the type is the rarest such type, taken from the first pair in iteration order. The root is the first clause holding that pair's variable, and the term is that clause if it is the variable, else its first least holder. The search succeeds exactly when the engine accepts an atom of that type. |
| `Stages.CascadeStages` | opencog/query/DefaultPatternMatchCB.cc:444-470 | For clauses that are not a lone OrLink, initiate_search's outcome depends on the pattern as follows. With an anchor, it is neighbor search's outcome. Without an anchor but with a rare Link, it is link-type search's outcome, run from an undefined term. With neither, it is variable search's outcome, run from an undefined root and term. |
| `Stages.LoneVariables` | opencog/query/DefaultPatternMatchCB.cc:456-470 | A pattern of bare variables is searched by variable search alone. |
| `Stages.OrNeverCascades` | opencog/query/DefaultPatternMatchCB.cc:430-442 | Starting from initiate_search, a lone OrLink clause gives exactly what its branch loop gives. The cascade never runs on the OrLink itself. |
| `Stages.OrFoundIffBranchFound` | opencog/query/DefaultPatternMatchCB.cc:430-440 | initiate_search on a lone OrLink succeeds exactly when initiate_search on one of its branches, as a pattern of its own, succeeds. |
| `Stages.OrBranchesFound` | opencog/query/DefaultPatternMatchCB.cc:434-440 | With `_search_fail` clear, the branch loop from branch i on succeeds exactly when one of the remaining branches, searched on its own, succeeds. |
| `Stages.DisjunctIndependent` | opencog/query/DefaultPatternMatchCB.cc:426-471 | Whether disjunct_search succeeds depends on the state it starts from only through `_search_fail`. |
| `Callback.DefaultPatternMatchCB.FindThinnest` | opencog/query/DefaultPatternMatchCB.cc:162-193 | The loop returns the starter, start term and clause index of `Thinnest.FindThinnest`. |
| `Callback.DefaultPatternMatchCB.ExploreCandidates` | opencog/query/DefaultPatternMatchCB.cc:252-265 | The loop returns what `Stages.Explore` returns, and appends exactly its probes to the trace. |
| `Callback.DefaultPatternMatchCB.NeighborSearch` | opencog/query/DefaultPatternMatchCB.cc:215-270 | The return value and new fields are those of `Stages.Neighbor` from the old fields. |
| `Callback.DefaultPatternMatchCB.LinkTypeSearch` | opencog/query/DefaultPatternMatchCB.cc:508-561 | The return value and new fields are those of `Stages.LinkType` from the old fields. |
| `Callback.DefaultPatternMatchCB.VariableSearch` | opencog/query/DefaultPatternMatchCB.cc:576-655 | The return value and new fields are those of `Stages.Variable` from the old fields. |
| `Callback.DefaultPatternMatchCB.DisjunctSearch` | opencog/query/DefaultPatternMatchCB.cc:426-471 | The return value and new fields are those of `Stages.Disjunct` from the old fields. |
| `Callback.DefaultPatternMatchCB.InitiateSearch` | opencog/query/DefaultPatternMatchCB.cc:361-367 | The return value and new fields are those of `Stages.Initiate` from the old fields. |

## Left out

- `virtual_link_match`. It compares a floating-point truth value, obtained through a foreign evaluation call, with 0.5.
- opencog/atoms/bind/ConcreteLink.h is not part of this model. It only declares fields and signatures.
- `explore_neighborhood` is a pure function of (root, start term, candidate). Its own search, the groundings it reports and any state it keeps between calls are not modelled. The independence lemmas (`Stages.DisjunctIndependent`, `Stages.OrFoundIffBranchFound`) depend on this.
- The atomspace and the other collaborators are fixed fields of `Atoms.Env`, so they do not change during a search. The order of each collaborator's sequences is treated as given. This covers incoming sets (including any reordering by a subclass's `get_incoming_set`), `getHandlesByType`, the iteration order of the variable set and of each `std::set` of types, and FindAtoms' least holders. Whether `getHandlesByType(ATOM)` includes subtypes is the collaborator's business.
- The type hierarchy is not modelled. Types are distinct codes, and Node versus Link is the constructor of `Atom`.
- A QuoteLink without an outgoing atom is excluded by the precondition `QuotesOk`. The source reads the first outgoing atom of a QuoteLink that find_starter meets while scanning a Link's outgoing set (:138), which fails on such a link. The exclusion is wider than that case. It also rules out empty QuoteLinks that the source never unwraps: inside an OrLink or a dynamic Link, as a whole clause, or anywhere find_rarest looks, since find_rarest never enters a QuoteLink.
- `beta_reduce` is represented by the outgoing set of the reduced link. A reduction that is not a Link, which the source would dereference as one, is not modelled.
- An empty clause list is excluded from variable search and from everything that can reach it (`Stages.Variable`, `Cascade`, `Disjunct`, `Initiate` and their methods). variable_search then reads `clauses[0]`, which does not exist.
- A null `_dynamic` is the empty set. `_type_restrictions` is a map that is always present.
- `depth` is an unbounded `nat`, not a `size_t`. It is bounded by the height of the clause, so wrap-around cannot occur. Widths and counts are `size_t` values bounded by `SIZE_MAX`.
- Debug tracing and the `#ifdef DEBUG` counters are not modelled.
- Shared-pointer handles and dynamic casts are replaced by the `Atom` datatype. `Handle::UNDEFINED` is `None`.
