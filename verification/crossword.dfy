/**
 The puzzle the solver works on: its slots (variables), the overlap relation
 between ordered pairs of slots, and the dictionary of words. The puzzle is
 built elsewhere from a grid layout and a word file; here it is an input, and
 `Wf` states what the solver assumes about it.
 */
module Crossword {

  datatype Option<T> = None | Some(value: T)

  datatype Direction = Across | Down

  /** One slot of the grid: its starting cell (row `i`, column `j`), its
      direction and the number of cells it spans. Equality is structural. */
  datatype Variable = Variable(i: int, j: int, direction: Direction, length: nat)

  /** An ordered pair of slots. */
  type Arc = (Variable, Variable)

  /** `overlaps[(x, y)] == (i, j)` says that letter `i` of the word in `x` and
      letter `j` of the word in `y` share a cell; a pair with no entry does not
      overlap (the source stores `None` for it). */
  datatype Puzzle = Puzzle(variables: set<Variable>, overlaps: map<Arc, (nat, nat)>, words: set<string>)

  /** The assumptions on a puzzle: overlaps only relate two distinct slots of
      the puzzle, their indices fall inside both slots, and the relation is
      stored in both orders with the indices swapped. */
  ghost predicate Wf(p: Puzzle) {
    && (forall e :: e in p.overlaps ==>
          && e.0 in p.variables && e.1 in p.variables && e.0 != e.1
          && p.overlaps[e].0 < e.0.length && p.overlaps[e].1 < e.1.length)
    && (forall e :: e in p.overlaps ==>
          (e.1, e.0) in p.overlaps && p.overlaps[(e.1, e.0)] == (p.overlaps[e].1, p.overlaps[e].0))
  }

  /** The slots that share a cell with `x`. */
  function Neighbors(p: Puzzle, x: Variable): set<Variable> {
    set y | y in p.variables && (x, y) in p.overlaps
  }

  /** Word `u` and word `v` carry the same letter at the cell `ij` they share. */
  predicate Agree(u: string, v: string, ij: (nat, nat)) {
    ij.0 < |u| && ij.1 < |v| && u[ij.0] == v[ij.1]
  }

  /** Word `u` and word `v` carry different letters at the cell `ij` they share. */
  predicate Disagree(u: string, v: string, ij: (nat, nat)) {
    ij.0 < |u| && ij.1 < |v| && u[ij.0] != v[ij.1]
  }

  /** Word `w`, placed in slot `x`, is long enough to be read at every
      overlap index of `x`: indexing it at an overlap never fails. */
  ghost predicate Covers(p: Puzzle, x: Variable, w: string) {
    forall e :: e in p.overlaps && e.0 == x ==> p.overlaps[e].0 < |w|
  }

  /** A word of exactly the slot's length reaches every overlap index of the slot. */
  lemma FittingWordCovers(p: Puzzle, x: Variable, w: string)
    requires Wf(p)
    requires |w| == x.length
    ensures Covers(p, x, w)
  {
  }
}
