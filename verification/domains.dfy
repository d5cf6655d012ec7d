/**
 The domain store: the candidate words still allowed for each slot, how it
 is initialised from the dictionary, and node consistency (the unary length
 constraint).
 */
module Domains {
  import opened Crossword
  import opened Assignments

  /** The candidate words of each slot. */
  type Domains = map<Variable, set<string>>

  /** Every word of `a` is still a candidate of its slot. */
  ghost predicate Within(a: Assignment, doms: Domains) {
    forall v :: v in a ==> v in doms && a[v] in doms[v]
  }

  /** Every candidate word reaches all overlap indices of its slot. */
  ghost predicate DomainsCover(p: Puzzle, doms: Domains) {
    forall v, w :: v in doms && w in doms[v] ==> Covers(p, v, w)
  }

  /** Every candidate of a puzzle slot has the slot's length. */
  ghost predicate NodeConsistent(p: Puzzle, doms: Domains) {
    forall v, w :: v in p.variables && v in doms && w in doms[v] ==> |w| == v.length
  }

  /** The domain of `v` in `doms'` holds exactly the words of its domain in
      `doms` that have the slot's length. */
  ghost predicate LengthFiltered(doms': Domains, doms: Domains, v: Variable) {
    v in doms' && v in doms && forall w :: w in doms'[v] <==> w in doms[v] && |w| == v.length
  }

  /** Each domain is a subset of the corresponding domain of `doms`, over the same slots. */
  ghost predicate Shrunk(doms': Domains, doms: Domains) {
    doms'.Keys == doms.Keys && forall v :: v in doms ==> doms'[v] <= doms[v]
  }

  /** All (slot, candidate) pairs; its size is the total size of the domains. */
  ghost function Entries(doms: Domains): set<(Variable, string)> {
    set v, w | v in doms && w in doms[v] :: (v, w)
  }

  /** Removing words from one domain and leaving the others alone strictly
      lowers the total size of the domains. */
  lemma EntriesShrink(doms: Domains, doms': Domains, x: Variable)
    requires x in doms && doms'.Keys == doms.Keys
    requires forall v :: v in doms && v != x ==> doms'[v] == doms[v]
    requires doms'[x] < doms[x]
    ensures |Entries(doms')| < |Entries(doms)|
  {
    var w :| w in doms[x] && w !in doms'[x];
    assert Entries(doms') <= Entries(doms) - {(x, w)};
    SubsetSmaller(Entries(doms'), Entries(doms) - {(x, w)});
  }

  /** Models the constructor's domain set-up: every slot starts with the
      whole dictionary, so exactly the assignments of dictionary words lie
      within the initial domains. */
  function InitialDomains(p: Puzzle): (doms: Domains)
    ensures doms.Keys == p.variables
    ensures forall m: Assignment :: m.Keys <= p.variables ==> (Within(m, doms) <==> m.Values <= p.words)
  {
    map v | v in p.variables :: p.words
  }

  /** A node-consistent domain store has only words that can be indexed at
      every overlap of their slot. */
  lemma NodeConsistentCovers(p: Puzzle, doms: Domains)
    requires Wf(p)
    requires doms.Keys <= p.variables
    requires NodeConsistent(p, doms)
    ensures DomainsCover(p, doms)
  {
    forall v, w | v in doms && w in doms[v]
      ensures Covers(p, v, w)
    {
      FittingWordCovers(p, v, w);
    }
  }

  /** Models `enforce_node_consistency`: for every slot, drops each
      candidate whose length differs from the slot's. Exactly the words of
      the right length stay, nothing else changes, and a store that is
      already node consistent comes back unchanged (so a second run is a
      no-op). */
  method EnforceNodeConsistency(p: Puzzle, doms: Domains) returns (doms': Domains)
    requires p.variables <= doms.Keys
    ensures doms'.Keys == doms.Keys
    ensures forall v :: v in p.variables ==> LengthFiltered(doms', doms, v)
    ensures forall v :: v in doms && v !in p.variables ==> doms'[v] == doms[v]
    ensures NodeConsistent(p, doms')
    ensures NodeConsistent(p, doms) ==> doms' == doms
    ensures forall m :: Within(m, doms) && (forall v :: v in m && v in p.variables ==> |m[v]| == v.length) ==>
              Within(m, doms')
  {
    doms' := doms;
    var todo := p.variables;
    while todo != {}
      invariant todo <= p.variables
      invariant doms'.Keys == doms.Keys
      invariant forall v :: v in doms && v !in (p.variables - todo) ==> doms'[v] == doms[v]
      invariant forall v :: v in p.variables && v !in todo ==> LengthFiltered(doms', doms, v)
      decreases todo
    {
      var v :| v in todo;
      var words := doms'[v];
      while words != {}
        invariant words <= doms[v]
        invariant doms'.Keys == doms.Keys
        invariant forall u :: u in doms && u !in (p.variables - todo) && u != v ==> doms'[u] == doms[u]
        invariant forall u :: u in p.variables && u !in todo ==> LengthFiltered(doms', doms, u)
        invariant forall w :: w in doms'[v] <==> w in doms[v] && (w in words || |w| == v.length)
        decreases words
      {
        var w :| w in words;
        if |w| != v.length {
          doms' := doms'[v := doms'[v] - {w}];
        }
        words := words - {w};
      }
      assert LengthFiltered(doms', doms, v);
      todo := todo - {v};
    }
    if NodeConsistent(p, doms) {
      forall v | v in doms
        ensures doms'[v] == doms[v]
      {
        if v in p.variables {
          assert LengthFiltered(doms', doms, v);
          assert forall w :: w in doms'[v] <==> w in doms[v];
        }
      }
    }
  }
}
