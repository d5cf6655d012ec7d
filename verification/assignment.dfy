/**
 Assignments of words to slots and the three judgements the solver makes of
 them: whether two placed words clash at a shared cell, whether the whole
 assignment is consistent, and whether it is complete.
 */
module Assignments {
  import opened Crossword

  /** A partial map from slots to the words placed in them. */
  type Assignment = map<Variable, string>

  /** Every overlap index between two assigned slots can be read in both
      words (the source indexes the words at those positions). */
  ghost predicate InBounds(p: Puzzle, a: Assignment) {
    forall x, y :: x in a && y in a && (x, y) in p.overlaps ==>
      p.overlaps[(x, y)].0 < |a[x]| && p.overlaps[(x, y)].1 < |a[y]|
  }

  /** Each assigned word reaches every overlap index of its slot. */
  ghost predicate WordsCover(p: Puzzle, a: Assignment) {
    forall x :: x in a ==> Covers(p, x, a[x])
  }

  /** Reference definition of a clash: two distinct assigned slots overlap
      and their words differ at the shared cell. */
  ghost predicate Conflicting(p: Puzzle, a: Assignment) {
    exists x, y :: x in a && y in a && x != y && (x, y) in p.overlaps &&
      Disagree(a[x], a[y], p.overlaps[(x, y)])
  }

  /** No word is used twice. */
  ghost predicate Distinct(a: Assignment) {
    forall x, y :: x in a && y in a && x != y ==> a[x] != a[y]
  }

  /** Reference definition of a consistent assignment. */
  ghost predicate IsConsistent(p: Puzzle, a: Assignment) {
    Distinct(a) && a.Keys <= p.variables && !Conflicting(p, a)
  }

  /** `m` keeps every word `a` placed. */
  ghost predicate Extends(a: Assignment, m: Assignment) {
    forall v :: v in a ==> v in m && m[v] == a[v]
  }

  lemma CoversInBounds(p: Puzzle, a: Assignment)
    requires Wf(p)
    requires WordsCover(p, a)
    ensures InBounds(p, a)
  {
  }

  /** Models `do_variable_assignments_conflict`: looks at every ordered
      pair of distinct assigned slots and reports a clash at the first pair
      whose words differ at their shared cell. The slots must belong to the
      puzzle (the source looks them up in its overlap table) and the words
      must reach the overlap indices (the source indexes them). */
  method DoVariableAssignmentsConflict(p: Puzzle, a: Assignment) returns (c: bool)
    requires a.Keys <= p.variables
    requires InBounds(p, a)
    ensures c <==> Conflicting(p, a)
  {
    var xs := a.Keys;
    while xs != {}
      invariant xs <= a.Keys
      invariant forall x, y :: x in a && x !in xs && y in a && x != y && (x, y) in p.overlaps ==>
                  !Disagree(a[x], a[y], p.overlaps[(x, y)])
      decreases xs
    {
      var x :| x in xs;
      var ys := a.Keys;
      while ys != {}
        invariant ys <= a.Keys
        invariant forall y :: y in a && y !in ys && x != y && (x, y) in p.overlaps ==>
                    !Disagree(a[x], a[y], p.overlaps[(x, y)])
        decreases ys
      {
        var y :| y in ys;
        if x != y && (x, y) in p.overlaps {
          var (i, j) := p.overlaps[(x, y)];
          if a[x][i] != a[y][j] {
            assert Disagree(a[x], a[y], p.overlaps[(x, y)]);
            return true;
          }
        }
        ys := ys - {y};
      }
      xs := xs - {x};
    }
    return false;
  }

  /** Two slots that overlap at `(i, j)`, holding one word each, clash
      exactly when the words differ at the shared cell; the check in both
      orders gives the same answer because the overlap relation is symmetric. */
  lemma PairConflict(p: Puzzle, x: Variable, y: Variable, u: string, v: string)
    requires Wf(p)
    requires x != y && (x, y) in p.overlaps
    requires p.overlaps[(x, y)].0 < |u| && p.overlaps[(x, y)].1 < |v|
    ensures Conflicting(p, map[x := u, y := v]) <==> !Agree(u, v, p.overlaps[(x, y)])
  {
  }

  /** Models `consistent`: walks the assignment, failing on a repeated word
      or on a slot outside the puzzle, and finally asks whether any two
      placed words clash. */
  method Consistent(p: Puzzle, a: Assignment) returns (r: bool)
    requires InBounds(p, a)
    ensures r <==> IsConsistent(p, a)
    ensures a == map[] ==> r
  {
    var rest := a.Keys;
    var values: set<string> := {};
    while rest != {}
      invariant rest <= a.Keys
      invariant a.Keys - rest <= p.variables
      invariant values == set v | v in a && v !in rest :: a[v]
      invariant forall x, y :: x in a && x !in rest && y in a && y !in rest && x != y ==> a[x] != a[y]
      decreases rest
    {
      var v :| v in rest;
      if a[v] in values {
        var u :| u in a && u !in rest && a[u] == a[v];
        assert u != v;
        return false;
      }
      values := values + {a[v]};
      if v !in p.variables {
        return false;
      }
      rest := rest - {v};
    }
    var clash := DoVariableAssignmentsConflict(p, a);
    return !clash;
  }

  /** A subset of a finite set has the same size exactly when it is the whole set. */
  lemma SubsetSameSize<T>(s: set<T>, t: set<T>)
    requires s <= t
    ensures |s| == |t| <==> s == t
  {
    if s != t {
      var x :| x in t && x !in s;
      assert s <= t - {x};
      SubsetSmaller(s, t - {x});
    }
  }

  lemma SubsetSmaller<T>(s: set<T>, t: set<T>)
    requires s <= t
    ensures |s| <= |t|
  {
    assert t == s + (t - s);
  }

  /** Models `assignment_complete`: the assignment has as many entries as
      the puzzle has slots. For an assignment over puzzle slots this is the
      same as assigning every slot. */
  function AssignmentComplete(p: Puzzle, a: Assignment): (r: bool)
    ensures a.Keys <= p.variables ==> (r <==> a.Keys == p.variables)
  {
    if a.Keys <= p.variables then SubsetSameSize(a.Keys, p.variables); |a| == |p.variables|
    else |a| == |p.variables|
  }
}
