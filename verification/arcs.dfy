/**
 Arc consistency: `revise` prunes the candidates of one slot against an
 overlapping slot, and `ac3` runs `revise` over a work queue of arcs.
 */
module ArcConsistency {
  import opened Crossword
  import opened Assignments
  import opened Domains

  /** `m` fills every slot, with no clash, using only candidates of `doms`:
      a solution of the overlap constraints that `doms` still admits. */
  ghost predicate ConflictFreeFill(p: Puzzle, doms: Domains, m: Assignment) {
    m.Keys == p.variables && Within(m, doms) && !Conflicting(p, m)
  }

  /** An arc `revise` accepts: a slot paired with itself (a no-op) or two
      puzzle slots (the source looks both up in the overlap table). */
  predicate ValidArc(p: Puzzle, e: Arc) {
    e.0 == e.1 || (e.0 in p.variables && e.1 in p.variables)
  }

  /** The candidates of `x` and of `y` can be indexed at their shared cell. */
  ghost predicate ArcInBounds(p: Puzzle, doms: Domains, x: Variable, y: Variable)
    requires x in doms && y in doms
  {
    (x, y) in p.overlaps ==>
      && (forall w :: w in doms[x] ==> p.overlaps[(x, y)].0 < |w|)
      && (forall v :: v in doms[y] ==> p.overlaps[(x, y)].1 < |v|)
  }

  /** Reference definition of the pruned domain: the candidates of `x` that
      agree with some candidate of `y` at the shared cell. */
  ghost function SupportedWords(p: Puzzle, doms: Domains, x: Variable, y: Variable): set<string>
    requires x in doms && y in doms && (x, y) in p.overlaps
  {
    set w | w in doms[x] && exists v :: v in doms[y] && Agree(w, v, p.overlaps[(x, y)])
  }

  lemma CoverArc(p: Puzzle, doms: Domains, x: Variable, y: Variable)
    requires Wf(p)
    requires DomainsCover(p, doms)
    requires x in doms && y in doms
    ensures ArcInBounds(p, doms, x, y)
  {
  }

  lemma PairInBounds(p: Puzzle, x: Variable, y: Variable, u: string, v: string)
    requires Wf(p)
    requires x != y && (x, y) in p.overlaps
    requires p.overlaps[(x, y)].0 < |u| && p.overlaps[(x, y)].1 < |v|
    ensures InBounds(p, map[x := u, y := v])
  {
  }

  /** A domain store that covers its overlaps keeps doing so as it shrinks. */
  lemma ShrunkCovers(p: Puzzle, doms': Domains, doms: Domains)
    requires Shrunk(doms', doms)
    requires DomainsCover(p, doms)
    ensures DomainsCover(p, doms')
  {
  }

  /** Models the inner loop of `revise`: whether some candidate of `y`,
      placed next to `xw` in a two-slot assignment, does not clash with it. */
  method HasCorrespondingValue(p: Puzzle, doms: Domains, x: Variable, y: Variable, xw: string)
    returns (found: bool)
    requires Wf(p)
    requires x in p.variables && y in p.variables && x != y && (x, y) in p.overlaps
    requires y in doms
    requires p.overlaps[(x, y)].0 < |xw|
    requires forall v :: v in doms[y] ==> p.overlaps[(x, y)].1 < |v|
    ensures found <==> exists v :: v in doms[y] && Agree(xw, v, p.overlaps[(x, y)])
  {
    var ij := p.overlaps[(x, y)];
    found := false;
    var ys := doms[y];
    while ys != {}
      invariant ys <= doms[y]
      invariant found <==> exists v :: v in doms[y] && v !in ys && Agree(xw, v, ij)
      decreases ys
    {
      var yw :| yw in ys;
      PairInBounds(p, x, y, xw, yw);
      var clash := DoVariableAssignmentsConflict(p, map[x := xw, y := yw]);
      PairConflict(p, x, y, xw, yw);
      if !clash {
        found := true;
      }
      ys := ys - {yw};
    }
  }

  /** Pruning `x` to its supported candidates loses no complete clash-free
      filling: the word such a filling puts in `y` supports its word in `x`. */
  lemma SupportedKeepsFills(p: Puzzle, doms: Domains, x: Variable, y: Variable, m: Assignment)
    requires Wf(p)
    requires x in doms && y in doms && x != y && (x, y) in p.overlaps
    requires ArcInBounds(p, doms, x, y)
    requires ConflictFreeFill(p, doms, m)
    ensures ConflictFreeFill(p, doms[x := SupportedWords(p, doms, x, y)], m)
  {
    assert m[x] in SupportedWords(p, doms, x, y);
  }

  /** Models `revise`: for each candidate of `x`, builds the two-slot
      assignment with each candidate of `y` in turn and keeps the candidate
      when one of them does not clash; reports whether anything was removed.
      An arc from a slot to itself, or between slots that do not overlap, is
      left alone. Only the domain of `x` can change, and no complete
      clash-free filling within the domains is lost. */
  method Revise(p: Puzzle, doms: Domains, x: Variable, y: Variable) returns (revised: bool, doms': Domains)
    requires Wf(p)
    requires ValidArc(p, (x, y))
    requires x != y ==> x in doms && y in doms
    requires x != y ==> ArcInBounds(p, doms, x, y)
    ensures x == y || (x, y) !in p.overlaps ==> !revised && doms' == doms
    ensures x != y && (x, y) in p.overlaps ==> doms' == doms[x := SupportedWords(p, doms, x, y)]
    ensures Shrunk(doms', doms)
    ensures revised <==> doms' != doms
    ensures revised ==> x in doms && doms'[x] < doms[x] && forall v :: v in doms && v != x ==> doms'[v] == doms[v]
    ensures forall m :: ConflictFreeFill(p, doms, m) ==> ConflictFreeFill(p, doms', m)
  {
    if x == y {
      return false, doms;
    }
    if (x, y) !in p.overlaps {
      return false, doms;
    }
    ghost var kept := SupportedWords(p, doms, x, y);
    assert forall w :: w in kept <==> w in doms[x] && exists v :: v in doms[y] && Agree(w, v, p.overlaps[(x, y)]);
    revised := false;
    var current := doms[x];
    var words := doms[x];
    while words != {}
      invariant words <= doms[x]
      invariant forall w :: w in current <==> w in doms[x] && (w in words || w in kept)
      invariant revised <==> current != doms[x]
      decreases words
    {
      var xw :| xw in words;
      var found := HasCorrespondingValue(p, doms, x, y, xw);
      if !found {
        current := current - {xw};
        revised := true;
      }
      words := words - {xw};
    }
    assert current == kept;
    doms' := doms[x := current];
    forall m | ConflictFreeFill(p, doms, m)
      ensures ConflictFreeFill(p, doms', m)
    {
      SupportedKeepsFills(p, doms, x, y, m);
    }
  }

  /** Models the default work queue of `ac3`: for each slot, one arc to each
      of its neighbours. Every arc of the puzzle appears exactly once. */
  method InitialArcs(p: Puzzle) returns (q: seq<Arc>)
    ensures forall e :: e in q <==> e.0 in p.variables && e.1 in Neighbors(p, e.0)
    ensures forall k, l :: 0 <= k < l < |q| ==> q[k] != q[l]
  {
    q := [];
    var todo := p.variables;
    while todo != {}
      invariant todo <= p.variables
      invariant forall e :: e in q <==> e.0 in p.variables && e.0 !in todo && e.1 in Neighbors(p, e.0)
      invariant forall k, l :: 0 <= k < l < |q| ==> q[k] != q[l]
      decreases todo
    {
      var node :| node in todo;
      var ns := Neighbors(p, node);
      while ns != {}
        invariant ns <= Neighbors(p, node)
        invariant forall e :: e in q <==>
                    || (e.0 in p.variables && e.0 !in todo && e.1 in Neighbors(p, e.0))
                    || (e.0 == node && e.1 in Neighbors(p, node) && e.1 !in ns)
        invariant forall k, l :: 0 <= k < l < |q| ==> q[k] != q[l]
        decreases ns
      {
        var nb :| nb in ns;
        q := q + [(node, nb)];
        ns := ns - {nb};
      }
      todo := todo - {node};
    }
  }

  /** Models the re-enqueueing step of `ac3` after `x` was revised against
      `y`: appends `(x, z)` once for every neighbour `z` of `x` other than
      `x` and `y`, keeping `x` first. */
  method EnqueueNeighbors(p: Puzzle, queue: seq<Arc>, x: Variable, y: Variable) returns (queue': seq<Arc>)
    requires x in p.variables
    ensures |queue| <= |queue'| && queue'[..|queue|] == queue
    ensures forall k :: |queue| <= k < |queue'| ==>
              queue'[k].0 == x && queue'[k].1 in Neighbors(p, x) && queue'[k].1 != x && queue'[k].1 != y
    ensures forall z :: z in Neighbors(p, x) && z != x && z != y ==>
              exists k :: |queue| <= k < |queue'| && queue'[k] == (x, z)
    ensures forall k, l :: |queue| <= k < l < |queue'| ==> queue'[k] != queue'[l]
  {
    queue' := queue;
    var ns := Neighbors(p, x);
    while ns != {}
      invariant ns <= Neighbors(p, x)
      invariant |queue| <= |queue'| && queue'[..|queue|] == queue
      invariant forall k :: |queue| <= k < |queue'| ==>
                  queue'[k].0 == x && queue'[k].1 in Neighbors(p, x) && queue'[k].1 != x && queue'[k].1 != y
      invariant forall z :: z in Neighbors(p, x) && z !in ns && z != x && z != y ==>
                  exists k :: |queue| <= k < |queue'| && queue'[k] == (x, z)
      invariant forall k :: |queue| <= k < |queue'| ==> queue'[k].1 !in ns
      invariant forall k, l :: |queue| <= k < l < |queue'| ==> queue'[k] != queue'[l]
      decreases ns
    {
      var nb :| nb in ns;
      if nb != x && nb != y {
        ghost var before := queue';
        queue' := queue' + [(x, nb)];
        assert queue'[|queue'| - 1] == (x, nb);
        assert forall k :: 0 <= k < |before| ==> queue'[k] == before[k];
      }
      ns := ns - {nb};
    }
  }

  /** The slots whose domains `ac3` may prune: those that head an arc of the
      starting queue. */
  ghost predicate HeadsStartingArc(p: Puzzle, arcs: Option<seq<Arc>>, v: Variable) {
    match arcs
    case None => v in p.variables && Neighbors(p, v) != {}
    case Some(q) => exists k :: 0 <= k < |q| && q[k].0 == v
  }

  /** Every arc in `queue` is one `revise` accepts, headed by a slot that
      heads an arc of the starting queue. */
  ghost predicate QueueFrom(p: Puzzle, arcs: Option<seq<Arc>>, queue: seq<Arc>) {
    forall k :: 0 <= k < |queue| ==> ValidArc(p, queue[k]) && HeadsStartingArc(p, arcs, queue[k].0)
  }

  lemma KeepsFillsTrans(p: Puzzle, d0: Domains, d1: Domains, d2: Domains)
    requires KeepsFills(p, d0, d1) && KeepsFills(p, d1, d2)
    ensures KeepsFills(p, d0, d2)
  {
  }

  /** One revision step changes only `x`, which heads a starting arc, so
      `PrunedOnlyHeads` survives it unless it emptied the domain of `x`. */
  lemma PrunedStep(p: Puzzle, arcs: Option<seq<Arc>>, d0: Domains, d1: Domains, d2: Domains, x: Variable)
    requires Shrunk(d1, d0) && Shrunk(d2, d1)
    requires PrunedOnlyHeads(p, arcs, d0, d1)
    requires forall v :: v in d1 && v != x ==> d2[v] == d1[v]
    requires x in d1 && d2[x] != d1[x] ==> HeadsStartingArc(p, arcs, x)
    ensures Shrunk(d2, d0)
    ensures forall v :: v in d0 && d2[v] != d0[v] ==> HeadsStartingArc(p, arcs, v)
    ensures x in d1 && d2[x] != d1[x] && d2[x] != {} ==> PrunedOnlyHeads(p, arcs, d0, d2)
    ensures !(x in d1 && d2[x] != d1[x]) ==> PrunedOnlyHeads(p, arcs, d0, d2)
  {
  }

  /** Once a slot's domain is empty no complete filling lies within the
      domains, and so none lay within any larger domains it was pruned from. */
  lemma EmptyDomainNoFill(p: Puzzle, doms: Domains, doms': Domains, x: Variable)
    requires x in p.variables && x in doms' && doms'[x] == {}
    requires KeepsFills(p, doms, doms')
    ensures forall m :: !ConflictFreeFill(p, doms, m)
  {
  }

  lemma QueueFromTail(p: Puzzle, arcs: Option<seq<Arc>>, queue: seq<Arc>)
    requires QueueFrom(p, arcs, queue) && queue != []
    ensures QueueFrom(p, arcs, queue[1..])
  {
    forall k | 0 <= k < |queue| - 1
      ensures ValidArc(p, queue[1..][k]) && HeadsStartingArc(p, arcs, queue[1..][k].0)
    {
      assert queue[1..][k] == queue[k + 1];
    }
  }

  lemma QueueFromExtended(p: Puzzle, arcs: Option<seq<Arc>>, queue: seq<Arc>, queue': seq<Arc>, x: Variable)
    requires QueueFrom(p, arcs, queue)
    requires x in p.variables && HeadsStartingArc(p, arcs, x)
    requires |queue| <= |queue'| && queue'[..|queue|] == queue
    requires forall k :: |queue| <= k < |queue'| ==> queue'[k].0 == x && queue'[k].1 in Neighbors(p, x)
    ensures QueueFrom(p, arcs, queue')
  {
    forall k | 0 <= k < |queue'|
      ensures ValidArc(p, queue'[k]) && HeadsStartingArc(p, arcs, queue'[k].0)
    {
      if k < |queue| {
        assert queue'[k] == queue'[..|queue|][k];
      }
    }
  }

  /** Every domain that changed from `doms` to `doms'` belongs to a slot
      heading a starting arc and still has a candidate. */
  ghost predicate PrunedOnlyHeads(p: Puzzle, arcs: Option<seq<Arc>>, doms: Domains, doms': Domains)
    requires Shrunk(doms', doms)
  {
    forall v :: v in doms && doms'[v] != doms[v] ==> HeadsStartingArc(p, arcs, v) && doms'[v] != {}
  }

  /** Every complete clash-free filling within `doms` is still within `doms'`. */
  ghost predicate KeepsFills(p: Puzzle, doms: Domains, doms': Domains) {
    forall m :: ConflictFreeFill(p, doms, m) ==> ConflictFreeFill(p, doms', m)
  }

  /** Models one turn of the work-queue loop of `ac3`: pops the head arc
      `(x, y)` and revises it; after a revision that removes words it stops
      if that emptied the domain of `x`, and otherwise appends `(x, z)` for each
      other neighbour `z` of `x`. Each turn either lowers the total domain
      size or leaves the domains alone and shortens the queue. */
  method ProcessArc(p: Puzzle, arcs: Option<seq<Arc>>, ghost start: Domains, doms: Domains, queue: seq<Arc>)
    returns (stop: bool, doms': Domains, queue': seq<Arc>)
    requires Wf(p)
    requires queue != [] && QueueFrom(p, arcs, queue)
    requires Shrunk(doms, start) && p.variables <= doms.Keys
    requires DomainsCover(p, doms)
    requires PrunedOnlyHeads(p, arcs, start, doms)
    ensures Shrunk(doms', doms) && Shrunk(doms', start)
    ensures DomainsCover(p, doms')
    ensures KeepsFills(p, doms, doms')
    ensures stop ==> exists v :: v in p.variables && doms'[v] == {} && doms[v] != {}
    ensures stop ==> forall v :: v in start && doms'[v] != start[v] ==> HeadsStartingArc(p, arcs, v)
    ensures !stop ==> QueueFrom(p, arcs, queue') && PrunedOnlyHeads(p, arcs, start, doms')
    ensures !stop ==> |Entries(doms')| < |Entries(doms)| || (doms' == doms && |queue'| < |queue|)
  {
    var x, y := queue[0].0, queue[0].1;
    assert ValidArc(p, (x, y)) && HeadsStartingArc(p, arcs, x);
    QueueFromTail(p, arcs, queue);
    queue' := queue[1..];
    if x != y {
      CoverArc(p, doms, x, y);
    }
    var revised;
    revised, doms' := Revise(p, doms, x, y);
    ShrunkCovers(p, doms', doms);
    PrunedStep(p, arcs, start, doms, doms', x);
    if revised {
      EntriesShrink(doms, doms', x);
      if |doms'[x]| == 0 {
        assert x in p.variables;
        return true, doms', queue';
      }
      ghost var rest := queue';
      queue' := EnqueueNeighbors(p, queue', x, y);
      QueueFromExtended(p, arcs, rest, queue', x);
    }
    return false, doms', queue';
  }

  /** Models the work-queue loop of `ac3`: runs `ProcessArc` until the queue
      is empty or a domain has been emptied. Termination: the pair (total
      domain size, queue length) decreases lexicographically on every turn. */
  method ProcessQueue(p: Puzzle, doms: Domains, arcs: Option<seq<Arc>>, queue: seq<Arc>)
    returns (ok: bool, doms': Domains)
    requires Wf(p)
    requires p.variables <= doms.Keys
    requires DomainsCover(p, doms)
    requires QueueFrom(p, arcs, queue)
    ensures Shrunk(doms', doms)
    ensures forall v :: v in doms && doms'[v] != doms[v] ==> HeadsStartingArc(p, arcs, v)
    ensures !ok ==> exists v :: v in p.variables && doms'[v] == {} && doms[v] != {}
    ensures ok ==> PrunedOnlyHeads(p, arcs, doms, doms')
    ensures KeepsFills(p, doms, doms')
  {
    var queue := queue;
    doms' := doms;
    while queue != []
      invariant QueueFrom(p, arcs, queue)
      invariant Shrunk(doms', doms)
      invariant DomainsCover(p, doms')
      invariant PrunedOnlyHeads(p, arcs, doms, doms')
      invariant KeepsFills(p, doms, doms')
      decreases |Entries(doms')|, |queue|
    {
      var stop, next, rest := ProcessArc(p, arcs, doms, doms', queue);
      KeepsFillsTrans(p, doms, doms', next);
      if stop {
        var e :| e in p.variables && next[e] == {} && doms'[e] != {};
        assert doms'[e] <= doms[e];
        return false, next;
      }
      doms', queue := next, rest;
    }
    return true, doms';
  }

  /** Models `ac3`: starts from the given arcs, or from every arc of the
      puzzle, and runs the work-queue loop. The arcs it appends keep the
      revised slot first, so only slots heading an arc of the starting queue
      are ever pruned. Domains only shrink, no complete clash-free filling
      within them is lost, failure means the loop emptied the domain of
      some puzzle slot (so no such filling existed), and success means every pruned domain
      kept a word. */
  method AC3(p: Puzzle, doms: Domains, arcs: Option<seq<Arc>>) returns (ok: bool, doms': Domains)
    requires Wf(p)
    requires p.variables <= doms.Keys
    requires DomainsCover(p, doms)
    requires arcs.Some? ==> forall k :: 0 <= k < |arcs.value| ==> ValidArc(p, arcs.value[k])
    ensures Shrunk(doms', doms)
    ensures forall v :: v in doms && doms'[v] != doms[v] ==> HeadsStartingArc(p, arcs, v)
    ensures !ok ==> exists v :: v in p.variables && doms'[v] == {} && doms[v] != {}
    ensures ok ==> forall v :: v in doms && doms'[v] != doms[v] ==> doms'[v] != {}
    ensures forall m :: ConflictFreeFill(p, doms, m) ==> ConflictFreeFill(p, doms', m)
    ensures !ok ==> forall m :: !ConflictFreeFill(p, doms, m)
  {
    var queue: seq<Arc>;
    if arcs.None? {
      queue := InitialArcs(p);
      forall k | 0 <= k < |queue|
        ensures ValidArc(p, queue[k]) && HeadsStartingArc(p, arcs, queue[k].0)
      {
        assert queue[k] in queue;
      }
    } else {
      queue := arcs.value;
    }
    ok, doms' := ProcessQueue(p, doms, arcs, queue);
    if !ok {
      var x :| x in p.variables && doms'[x] == {};
      EmptyDomainNoFill(p, doms, doms', x);
    }
  }
}
