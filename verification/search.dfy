/**
 Backtracking search over the pruned domains, and `solve`, which chains
 node consistency, arc consistency and the search.
 */
module Search {
  import opened Crossword
  import opened Assignments
  import opened Domains
  import opened ArcConsistency

  /** `m` is a complete, consistent assignment that keeps every word of
      `a` and takes each other word from the domain of its slot. */
  ghost predicate IsCompletion(p: Puzzle, doms: Domains, a: Assignment, m: Assignment) {
    && m.Keys == p.variables
    && Extends(a, m)
    && (forall v :: v in m && v !in a ==> v in doms && m[v] in doms[v])
    && IsConsistent(p, m)
  }

  ghost predicate HasCompletion(p: Puzzle, doms: Domains, a: Assignment) {
    exists m :: IsCompletion(p, doms, a, m)
  }

  /** The words the search may read at overlap indices are long enough:
      those already assigned and the candidates of every unassigned slot. */
  ghost predicate SearchCovers(p: Puzzle, doms: Domains, a: Assignment) {
    && WordsCover(p, a)
    && forall v, w :: v in p.variables && v !in a && v in doms && w in doms[v] ==> Covers(p, v, w)
  }

  /** A solution of the crossword: every slot gets a dictionary word of its
      own length, no word is used twice, and crossing words agree. */
  ghost predicate IsCrosswordSolution(p: Puzzle, m: Assignment) {
    && m.Keys == p.variables
    && (forall v :: v in m ==> m[v] in p.words && |m[v]| == v.length)
    && IsConsistent(p, m)
  }

  /** Models `select_unassigned_variable`: collects the puzzle slots the
      assignment lacks and returns any one of them (the source picks one at
      random). The source fails when there is none, hence the precondition. */
  method SelectUnassignedVariable(p: Puzzle, a: Assignment) returns (v: Variable)
    requires exists u :: u in p.variables && u !in a
    ensures v in p.variables && v !in a
  {
    var unassigned: set<Variable> := {};
    var todo := p.variables;
    while todo != {}
      invariant todo <= p.variables
      invariant forall u :: u in unassigned <==> u in p.variables && u !in todo && u !in a
      decreases todo
    {
      var u :| u in todo;
      if u !in a {
        unassigned := unassigned + {u};
      }
      todo := todo - {u};
    }
    var some :| some in p.variables && some !in a;
    assert some in unassigned;
    v :| v in unassigned;
  }

  /** A completion of `a[v := w]` is a completion of `a` when `w` is a
      candidate of `v`. */
  lemma CompletionOfExtension(p: Puzzle, doms: Domains, a: Assignment, v: Variable, w: string, m: Assignment)
    requires v !in a && v in doms && w in doms[v]
    requires IsCompletion(p, doms, a[v := w], m)
    ensures IsCompletion(p, doms, a, m)
  {
  }

  /** A completion of `a` that puts `w` in the unassigned slot `v` is a
      completion of `a[v := w]`. */
  lemma ExtensionOfCompletion(p: Puzzle, doms: Domains, a: Assignment, v: Variable, m: Assignment)
    requires v in p.variables && v !in a
    requires IsCompletion(p, doms, a, m)
    ensures v in doms && m[v] in doms[v] && IsCompletion(p, doms, a[v := m[v]], m)
  {
  }

  /** A complete assignment over the puzzle's slots is its own only
      candidate completion. */
  lemma CompleteHasOnlyItself(p: Puzzle, doms: Domains, a: Assignment)
    requires a.Keys == p.variables
    ensures HasCompletion(p, doms, a) <==> IsConsistent(p, a)
  {
    if IsConsistent(p, a) {
      assert IsCompletion(p, doms, a, a);
    }
    if HasCompletion(p, doms, a) {
      var m :| IsCompletion(p, doms, a, m);
      assert m == a;
    }
  }

  /** Every candidate of `v` outside `values` has been tried and leads to
      no completion. */
  ghost predicate Exhausted(p: Puzzle, doms: Domains, a: Assignment, v: Variable, values: set<string>)
    requires v in doms
  {
    forall w :: w in doms[v] && w !in values ==> !HasCompletion(p, doms, a[v := w])
  }

  lemma ExhaustedStep(p: Puzzle, doms: Domains, a: Assignment, v: Variable, values: set<string>, w: string)
    requires v in doms && Exhausted(p, doms, a, v, values)
    requires !HasCompletion(p, doms, a[v := w])
    ensures Exhausted(p, doms, a, v, values - {w})
  {
  }

  /** When every candidate of the unassigned slot `v` leads to no
      completion, `a` has none: a completion would put one of them in `v`. */
  lemma ExhaustedNoCompletion(p: Puzzle, doms: Domains, a: Assignment, v: Variable)
    requires v in p.variables && v !in a && v in doms
    requires Exhausted(p, doms, a, v, {})
    ensures !HasCompletion(p, doms, a)
  {
    if HasCompletion(p, doms, a) {
      var m :| IsCompletion(p, doms, a, m);
      ExtensionOfCompletion(p, doms, a, v, m);
    }
  }

  /** Extending `a` at the unassigned slot `v` by one of its candidates
      keeps the search's inputs readable and brings it closer to complete. */
  lemma ExtensionCovers(p: Puzzle, doms: Domains, a: Assignment, v: Variable, w: string)
    requires a.Keys <= p.variables && v in p.variables && v !in a
    requires v in doms && w in doms[v]
    requires SearchCovers(p, doms, a)
    ensures a[v := w].Keys <= p.variables
    ensures SearchCovers(p, doms, a[v := w])
    ensures |p.variables - a[v := w].Keys| < |p.variables - a.Keys|
  {
    assert p.variables - a[v := w].Keys == (p.variables - a.Keys) - {v};
  }

  /** The assignment the recursion in `backtrack` leaves behind is over
      puzzle slots and can be read at its overlaps. */
  lemma RecursionLeavesCovered(p: Puzzle, doms: Domains, extended: Assignment, result: Option<Assignment>, current: Assignment)
    requires current == if result.Some? then result.value else extended
    requires extended.Keys <= p.variables
    requires SearchCovers(p, doms, extended)
    requires extended.Keys == p.variables ==> result == Some(extended)
    requires extended.Keys != p.variables && result.Some? ==> IsCompletion(p, doms, extended, result.value)
    ensures current.Keys <= p.variables
    ensures WordsCover(p, current)
  {
  }

  /** What the caller in `backtrack` concludes from the recursive call's
      contract and its own check `ok` of the assignment the recursion left
      behind: when `ok` holds that assignment is the result and completes the
      extended assignment, and otherwise the extended assignment has no
      completion. */
  lemma RecursionOutcome(p: Puzzle, doms: Domains, extended: Assignment, result: Option<Assignment>,
                         current: Assignment, complete: bool, consistent: bool, ok: bool)
    requires current == if result.Some? then result.value else extended
    requires complete <==> current.Keys == p.variables
    requires complete ==> (consistent <==> IsConsistent(p, current))
    requires ok == (complete && consistent)
    requires extended.Keys <= p.variables
    requires extended.Keys == p.variables ==> result == Some(extended)
    requires extended.Keys != p.variables && result.Some? ==> IsCompletion(p, doms, extended, result.value)
    requires extended.Keys != p.variables ==> (result.None? <==> !HasCompletion(p, doms, extended))
    ensures ok ==> result.Some? && IsCompletion(p, doms, extended, result.value)
    ensures !ok ==> !HasCompletion(p, doms, extended)
  {
    if extended.Keys == p.variables {
      CompleteHasOnlyItself(p, doms, extended);
    }
  }

  /** Models `backtrack`. A complete input is returned as it is. Otherwise
      an unassigned slot is chosen and its candidates are tried in turn. The
      domains are only read. For an incomplete input over puzzle slots, a
      result is a completion of the input, and there is no result exactly
      when no completion exists, whichever slot is chosen at each step and
      in whatever order candidates are tried. */
  method Backtrack(p: Puzzle, doms: Domains, a: Assignment) returns (r: Option<Assignment>)
    requires Wf(p)
    requires a.Keys <= p.variables
    requires p.variables <= doms.Keys
    requires SearchCovers(p, doms, a)
    ensures a.Keys == p.variables ==> r == Some(a)
    ensures a.Keys != p.variables && r.Some? ==> IsCompletion(p, doms, a, r.value)
    ensures a.Keys != p.variables ==> (r.None? <==> !HasCompletion(p, doms, a))
    decreases |p.variables - a.Keys|, 2
  {
    if AssignmentComplete(p, a) {
      return Some(a);
    }
    var v := SelectUnassignedVariable(p, a);
    r := TryCandidates(p, doms, a, v);
  }

  /** Models the candidate loop of `backtrack` for the chosen slot `v`:
      tries each candidate of `v` in turn and returns the first result that
      is accepted. A result completes `a`; there is none exactly when `a`
      has no completion. */
  method TryCandidates(p: Puzzle, doms: Domains, a: Assignment, v: Variable) returns (r: Option<Assignment>)
    requires Wf(p)
    requires a.Keys <= p.variables
    requires p.variables <= doms.Keys
    requires SearchCovers(p, doms, a)
    requires v in p.variables && v !in a
    ensures r.Some? ==> IsCompletion(p, doms, a, r.value)
    ensures r.None? <==> !HasCompletion(p, doms, a)
    decreases |p.variables - a.Keys|, 1
  {
    var values := doms[v];
    while values != {}
      invariant values <= doms[v]
      invariant Exhausted(p, doms, a, v, values)
      decreases values
    {
      var w :| w in values;
      var ok, result := TryCandidate(p, doms, a, v, w);
      if ok {
        assert IsCompletion(p, doms, a, result.value);
        return result;
      }
      ExhaustedStep(p, doms, a, v, values, w);
      values := values - {w};
    }
    ExhaustedNoCompletion(p, doms, a, v);
    return None;
  }

  /** Models one turn of the candidate loop of `backtrack`: places `w` in
      `v`, recurses on the extended assignment, and looks at the assignment
      the recursion left behind (the result when there is one, else the
      extended assignment), accepting the result when that is complete and
      consistent. An accepted result completes `a`; a rejected candidate
      admits no completion of the extended assignment. */
  method TryCandidate(p: Puzzle, doms: Domains, a: Assignment, v: Variable, w: string)
    returns (ok: bool, r: Option<Assignment>)
    requires Wf(p)
    requires a.Keys <= p.variables
    requires p.variables <= doms.Keys
    requires SearchCovers(p, doms, a)
    requires v in p.variables && v !in a && w in doms[v]
    ensures ok ==> r.Some? && IsCompletion(p, doms, a, r.value)
    ensures !ok ==> !HasCompletion(p, doms, a[v := w])
    decreases |p.variables - a.Keys|, 0
  {
    var extended := a[v := w];
    ExtensionCovers(p, doms, a, v, w);
    r := Backtrack(p, doms, extended);
    var current := if r.Some? then r.value else extended;
    RecursionLeavesCovered(p, doms, extended, r, current);
    var complete := AssignmentComplete(p, current);
    var consistent := false;
    if complete {
      CoversInBounds(p, current);
      consistent := Consistent(p, current);
    }
    ok := complete && consistent;
    RecursionOutcome(p, doms, extended, r, current, complete, consistent, ok);
    if ok {
      CompletionOfExtension(p, doms, a, v, w, r.value);
    }
  }

  /** A solution of the crossword survives node consistency and arc
      consistency: it is a completion of the empty assignment within the
      pruned domains. */
  lemma SolutionIsCompletion(p: Puzzle, initial: Domains, nodeConsistent: Domains, pruned: Domains, m: Assignment)
    requires initial == InitialDomains(p)
    requires forall v :: v in p.variables ==> LengthFiltered(nodeConsistent, initial, v)
    requires forall m :: ConflictFreeFill(p, nodeConsistent, m) ==> ConflictFreeFill(p, pruned, m)
    requires IsCrosswordSolution(p, m)
    ensures IsCompletion(p, pruned, map[], m)
  {
    assert Within(m, initial);
    forall v | v in m
      ensures v in nodeConsistent && m[v] in nodeConsistent[v]
    {
      assert LengthFiltered(nodeConsistent, initial, v);
    }
    assert ConflictFreeFill(p, nodeConsistent, m);
  }

  /** A completion of the empty assignment within the pruned domains is a
      solution of the crossword: pruning only removes words, and node
      consistency kept dictionary words of the right length. */
  lemma CompletionIsSolution(p: Puzzle, initial: Domains, nodeConsistent: Domains, pruned: Domains, m: Assignment)
    requires initial == InitialDomains(p)
    requires forall v :: v in p.variables ==> LengthFiltered(nodeConsistent, initial, v)
    requires Shrunk(pruned, nodeConsistent)
    requires IsCompletion(p, pruned, map[], m)
    ensures IsCrosswordSolution(p, m)
  {
  }

  /** After node consistency and arc consistency, the solutions of the
      crossword are exactly the completions of the empty assignment within
      the pruned domains. */
  lemma SolutionsAreCompletions(p: Puzzle, initial: Domains, nodeConsistent: Domains, pruned: Domains)
    requires initial == InitialDomains(p)
    requires forall v :: v in p.variables ==> LengthFiltered(nodeConsistent, initial, v)
    requires Shrunk(pruned, nodeConsistent)
    requires forall m :: ConflictFreeFill(p, nodeConsistent, m) ==> ConflictFreeFill(p, pruned, m)
    ensures forall m :: IsCrosswordSolution(p, m) <==> IsCompletion(p, pruned, map[], m)
  {
    forall m: Assignment
      ensures IsCrosswordSolution(p, m) <==> IsCompletion(p, pruned, map[], m)
    {
      if IsCrosswordSolution(p, m) {
        SolutionIsCompletion(p, initial, nodeConsistent, pruned, m);
      }
      if IsCompletion(p, pruned, map[], m) {
        CompletionIsSolution(p, initial, nodeConsistent, pruned, m);
      }
    }
  }

  /** Models `solve`: node consistency on the initial domains, then `ac3`
      from every arc (its verdict is ignored, as in the source), then the
      search from the empty assignment. A result is a solution of the
      crossword, and there is no result exactly when the crossword has no
      solution. */
  method Solve(p: Puzzle) returns (r: Option<Assignment>)
    requires Wf(p)
    ensures r.Some? ==> IsCrosswordSolution(p, r.value)
    ensures r.None? <==> forall m :: !IsCrosswordSolution(p, m)
  {
    var initial := InitialDomains(p);
    var nodeConsistent := EnforceNodeConsistency(p, initial);
    NodeConsistentCovers(p, nodeConsistent);
    var _, pruned := AC3(p, nodeConsistent, None);
    SolutionsAreCompletions(p, initial, nodeConsistent, pruned);
    r := Backtrack(p, pruned, map[]);
    if p.variables == {} {
      assert IsCrosswordSolution(p, map[]);
    }
  }
}
