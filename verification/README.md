# Crossword CSP solver — a verified model

This project models the constraint-satisfaction engine of the crossword
generator (`CrosswordCreator` in `crossword/generate.py`) and proves
properties of it in Dafny. The solver fills the slots of a crossword grid
with dictionary words. Every slot starts with the whole dictionary as its
domain. Node consistency drops the words of the wrong length. Arc
consistency (`revise` and `ac3`) drops the words that no word of an
overlapping slot agrees with at the shared cell. A backtracking search then
assigns words slot by slot.

The modules follow the program's structure:

- `Crossword` (`crossword.dfy`) is the puzzle taken as input. It has slots
  (`Variable`), a partial overlap map on ordered slot pairs (a missing key is
  the source's `None`) and the word set. `Wf` states what the solver assumes
  about the puzzle. Overlaps relate two distinct puzzle slots. Their indices
  fall inside both slots. The relation is stored in both orders with the
  indices swapped.
- `Assignments` (`assignment.dfy`) holds partial assignments and the three
  judgements the source makes of them: clash, consistency and completeness.
- `Domains` (`domains.dfy`) holds the domain store, its initialisation and
  node consistency.
- `ArcConsistency` (`arcs.dfy`) holds `revise`, the default arc queue, the
  re-enqueueing step and the `ac3` work-queue loop.
- `Search` (`search.dfy`) holds `select_unassigned_variable`, `backtrack`
  and `solve`.

The properties are stated against reference definitions written
independently of the code:

- `Conflicting` and `IsConsistent` for the clash and consistency checks.
- `SupportedWords` for what `revise` keeps.
- `ConflictFreeFill` for the solutions pruning must not lose.
- `IsCompletion` and `HasCompletion` for the soundness and completeness of
  the search.
- `IsCrosswordSolution` for the end-to-end result of `solve`.

The source mutates one shared assignment dictionary and one domain store in
place. The model uses immutable maps. Each operation takes the store or
assignment and returns the new one, so "the domains are never modified by
the search" and "a failed search leaves the input assignment as it was"
hold by construction. Set iteration order and `random.choice` become
arbitrary choices (`:|`), so every property holds for every iteration order
and every variable choice.

Indexing a word at an overlap position raises `IndexError` in the source
when the word is too short. Looking up a pair of slots outside the puzzle
raises `KeyError`. The model states the conditions that rule these out as
preconditions: `InBounds`, `Covers`, `DomainsCover`, `ArcInBounds`,
`SearchCovers` and `ValidArc`. Node consistency establishes them for
`solve` (`Domains.NodeConsistentCovers`).

The source's `backtrack` checks `assignment_complete and consistent` on
the shared dictionary after each recursive call. That dictionary is the
result when the recursion returned one. Otherwise the recursion has
restored it to the extended assignment. `Search.TryCandidate` models
exactly this: the assignment looked at is `if result.Some? then
result.value else extended`.

## Model

| member | source | states |
|---|---|---|
| Domains.InitialDomains | crossword/generate.py:14-17 | every puzzle slot gets a domain, and an assignment over puzzle slots lies within the initial domains exactly when all its words are dictionary words |
| Domains.EnforceNodeConsistency | crossword/generate.py:97-106 | the keys are unchanged; each puzzle slot keeps exactly the words of its length; other entries are unchanged; the result is node consistent; an already node-consistent store comes back unchanged, so a second run changes nothing; every assignment with words of the right lengths that lay within the domains still does |
| Domains.NodeConsistentCovers | crossword/generate.py:103-106 | after node consistency, every candidate can be indexed at every overlap of its slot, so the later index operations cannot fail |
| Assignments.DoVariableAssignmentsConflict | crossword/generate.py:261-272 | true exactly when two distinct assigned slots overlap and their words differ at the shared cell |
| Assignments.PairConflict | crossword/generate.py:265-272 | for a two-slot assignment of overlapping slots, a clash is reported exactly when the two words disagree at the shared cell; symmetry of the overlaps makes the check in both orders agree |
| Assignments.Consistent | crossword/generate.py:227-259 | true exactly when the words are pairwise distinct, every key is a puzzle slot and there is no clash; the empty assignment is consistent |
| Assignments.AssignmentComplete | crossword/generate.py:218-225 | for an assignment over puzzle slots, counting entries is the same as assigning every slot |
| Assignments.CoversInBounds | crossword/generate.py:270 | words that reach every overlap index of their slots can be read at both ends of every overlap between assigned slots |
| ArcConsistency.HasCorrespondingValue | crossword/generate.py:157-166 | the inner loop of `revise` finds a partner exactly when some candidate of `y` agrees with `xw` at the shared cell |
| ArcConsistency.Revise | crossword/generate.py:138-170 | an arc from a slot to itself or between non-overlapping slots changes nothing and reports False; otherwise the domain of `x` becomes exactly its words with an agreeing partner in `y`; all other domains are unchanged; domains only shrink; the result is True exactly when a word was removed; no complete clash-free filling within the domains is lost |
| ArcConsistency.SupportedKeepsFills | crossword/generate.py:157-168 | the word a clash-free filling puts in `y` supports its word in `x`, so pruning `x` keeps that filling |
| ArcConsistency.InitialArcs | crossword/generate.py:196-201 | the default queue holds every arc `(x, y)` with `y` a neighbour of the puzzle slot `x`, each exactly once |
| ArcConsistency.EnqueueNeighbors | crossword/generate.py:211-213 | the queue keeps its prefix; it gains `(x, z)` exactly once for every neighbour `z` of `x` other than `x` and `y`, and nothing else |
| ArcConsistency.ProcessArc | crossword/generate.py:205-213 | one turn only shrinks domains; it prunes only slots heading a starting arc; it keeps every clash-free filling; it stops only when it has just emptied the domain of a puzzle slot; otherwise it lowers the total domain size, or leaves the domains alone and shortens the queue |
| ArcConsistency.ProcessQueue | crossword/generate.py:205-216 | the loop terminates on the measure (total domain size, queue length); domains only shrink; only heads of starting arcs are pruned; False means the loop emptied the domain of some puzzle slot that was not empty on entry; clash-free fillings are kept |
| ArcConsistency.AC3 | crossword/generate.py:173-216 | domains only shrink; only slots heading an arc of the starting queue (every slot with a neighbour by default) are pruned; False means `ac3` emptied the domain of some puzzle slot that was not empty on entry, and no clash-free filling existed; True means no pruned domain became empty; no complete clash-free filling within the domains is lost |
| Search.SelectUnassignedVariable | crossword/generate.py:317-324 | given an incomplete assignment, returns a puzzle slot the assignment lacks, whichever one is chosen |
| Search.CompleteHasOnlyItself | crossword/generate.py:368-369 | a complete assignment has a completion exactly when it is consistent |
| Search.ExhaustedNoCompletion | crossword/generate.py:373-381 | once every candidate of the chosen slot has been ruled out, the assignment has no completion |
| Search.RecursionOutcome | crossword/generate.py:376-378 | the check after the recursive call accepts exactly when the recursion found a completion of the extended assignment |
| Search.Backtrack | crossword/generate.py:368-381 | a complete input is returned as is; for an incomplete input, a result is complete and consistent, extends the input and takes each new word from its slot's domain; there is no result exactly when no such completion exists |
| Search.TryCandidates | crossword/generate.py:372-381 | the candidate loop returns a completion of the input, and returns none exactly when the input has no completion |
| Search.TryCandidate | crossword/generate.py:374-379 | an accepted candidate yields a completion of the input; a rejected one admits no completion of the extended assignment |
| Search.SolutionIsCompletion | crossword/generate.py:93-94 | every crossword solution survives node and arc consistency as a completion of the empty assignment |
| Search.CompletionIsSolution | crossword/generate.py:93-94 | every completion within the pruned domains uses dictionary words of the right length, so it is a crossword solution |
| Search.SolutionsAreCompletions | crossword/generate.py:93-95 | after both consistency passes, solutions are exactly completions of the empty assignment |
| Search.Solve | crossword/generate.py:89-95 | a result maps every slot to a distinct dictionary word of the slot's length with no clash; there is no result exactly when the crossword has no solution |

## Left out

- `print`, `save` and `main` (crossword/generate.py:35-87, 384-410) are terminal output, image rendering and command-line handling. They are pure I/O.
- `letter_grid` (crossword/generate.py:19-33) is a rendering helper. Its one interesting property depends on grid geometry computed in `crossword.py`, which is not part of this model.
- `order_domain_values` (crossword/generate.py:274-295) only raises `NotImplementedError` and is never called.
- Building the puzzle from structure and word files (`crossword.py`) is not part of this model. The slots, overlaps and words are inputs, and the assumptions on them are stated by `Crossword.Wf`. `neighbors` is modelled as `Crossword.Neighbors`.
- `random.choice` in `select_unassigned_variable` and Python's set and dict iteration order are arbitrary choices. No minimum-remaining-values or degree heuristic is modelled, because the code implements none.
- ArcConsistency.AC3: does not claim arc consistency on return. After revising `(x, y)`, line 213 enqueues `(x, z)` rather than `(z, x)`, so pruning `x` does not by itself put the arcs `(z, x)` back on the queue; such an arc is revised again only if `z` is pruned later. `solve` also ignores the verdict of `ac3`. Only the shrink, soundness, pruned-slot and termination properties are stated.
- The `value not in assignment` guard in `backtrack` (crossword/generate.py:374) compares a word with the dictionary's keys, which are slots, so it never excludes anything. It is modelled as always true, and distinct words come only from `consistent`.
- Assignments.AssignmentComplete: states the entry count only for assignments over puzzle slots, where it means "every slot assigned". For other assignments the model computes the same count but states nothing further.
- ArcConsistency.AC3: requires every candidate to reach the overlap indices of its slot (`DomainsCover`). This is enough to rule out the `IndexError` the source would raise, but slightly more than needed. Words of slots no popped arc touches are never indexed.
- Search.Backtrack: requires `SearchCovers`, every assigned word and candidate being readable at its overlaps. This is sufficient, not exact, to rule out `IndexError` in the source.
- ArcConsistency.Revise: requires both slots of a distinct pair to have domains. The source reads no domain when the slots do not overlap.
- In-place mutation and aliasing are represented by returning new values. Restoring the assignment after a failed branch and leaving `self.domains` untouched during the search therefore hold by construction rather than as stated contracts.
