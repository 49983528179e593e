/**
 * `getTMAStores`: the pre-order collection of the store-like operations of a
 * loop body that skips nested loops.
 */
module Collector {
  import opened Util
  import opened IR

  /** A collected store: the operation with its descriptor and its source tensor. */
  datatype TMAStore = TMAStore(op: Op, desc: Value, src: Tensor)

  function Record(op: Op): (t: TMAStore)
    requires op.StoreLike?
  {
    TMAStore(op, op.desc, op.src)
  }

  /** The record of each store-like operation of `s`, in order. */
  function Records(s: seq<Op>): (r: seq<TMAStore>)
    ensures |r| == |StoreOps(s)|
    ensures forall i {:trigger r[i]} :: 0 <= i < |r| ==> r[i] == Record(StoreOps(s)[i])
  {
    if s == [] then []
    else (if s[0].StoreLike? then [Record(s[0])] else []) + Records(s[1..])
  }

  /** The store-like operations `getTMAStores` finds in a loop body, in pre-order. */
  function Collect(ops: seq<Op>): seq<Op>
  {
    StoreOps(Walk(ops))
  }

  /** The records `getTMAStores` returns for a loop body. */
  function TMAStoresOf(ops: seq<Op>): seq<TMAStore>
  {
    Records(Walk(ops))
  }

  /** The nested loops the walk meets, and whose bodies it skips. */
  function NestedLoops(ops: seq<Op>): seq<Op>
  {
    ForOps(Walk(ops))
  }

  /**
   * `getTMAStores`: walk the body in pre-order, record every store-like
   * operation, and answer `skip` at a nested `scf.for`.
   */
  method GetTMAStores(body: seq<Op>) returns (tmaStores: seq<TMAStore>)
    ensures |tmaStores| == |Collect(body)|
    ensures forall i :: 0 <= i < |tmaStores| ==>
      tmaStores[i].op == Collect(body)[i] &&
      tmaStores[i].desc == tmaStores[i].op.desc && tmaStores[i].src == tmaStores[i].op.src
    ensures tmaStores == TMAStoresOf(body)
  {
    var visited := Walk(body);
    tmaStores := [];
    for i := 0 to |visited|
      invariant tmaStores == Records(visited[..i])
    {
      var op := visited[i];
      RecordsSnoc(visited[..i], op);
      assert visited[..i + 1] == visited[..i] + [op];
      if op.StoreLike? {
        tmaStores := tmaStores + [TMAStore(op, op.desc, op.src)];
      }
    }
    assert visited[..|visited|] == visited;
  }

  lemma RecordsSnoc(s: seq<Op>, x: Op)
    ensures Records(s + [x]) == Records(s) + (if x.StoreLike? then [Record(x)] else [])
  {
    StoreOpsConcat(s, [x]);
  }

  // ---------------------------------------------------------------------------
  // What the walk reaches

  /**
   * Independent description of what the walk reaches: `x` is an operation of
   * the block, or lies in a region of an operation of the block that is not a
   * loop.
   */
  ghost predicate Reaches(ops: seq<Op>, x: Op)
    decreases ops
  {
    exists i :: 0 <= i < |ops| && (ops[i] == x || (ops[i].Other? && ReachesRegions(ops[i].regions, x)))
  }

  ghost predicate ReachesRegions(rs: seq<Region>, x: Op)
    decreases rs
  {
    exists j :: 0 <= j < |rs| && Reaches(rs[j].ops, x)
  }

  lemma {:induction false} WalkReaches(ops: seq<Op>, x: Op)
    ensures x in Walk(ops) <==> Reaches(ops, x)
    decreases ops
  {
    if ops != [] {
      WalkReaches(ops[1..], x);
      var head := if ops[0].Other? then [ops[0]] + WalkRegions(ops[0].regions) else [ops[0]];
      assert Walk(ops) == head + Walk(ops[1..]);
      if ops[0].Other? {
        WalkRegionsReaches(ops[0].regions, x);
      }
      if x in Walk(ops) {
        if x in head {
          assert ops[0] == x || (ops[0].Other? && ReachesRegions(ops[0].regions, x));
        } else {
          var i :| 0 <= i < |ops[1..]| && (ops[1..][i] == x || (ops[1..][i].Other? && ReachesRegions(ops[1..][i].regions, x)));
          assert ops[i + 1] == ops[1..][i];
        }
      }
      if Reaches(ops, x) {
        var i :| 0 <= i < |ops| && (ops[i] == x || (ops[i].Other? && ReachesRegions(ops[i].regions, x)));
        if i > 0 {
          assert ops[1..][i - 1] == ops[i];
          assert Reaches(ops[1..], x);
        }
      }
    }
  }

  lemma {:induction false} WalkRegionsReaches(rs: seq<Region>, x: Op)
    ensures x in WalkRegions(rs) <==> ReachesRegions(rs, x)
    decreases rs
  {
    if rs != [] {
      WalkReaches(rs[0].ops, x);
      WalkRegionsReaches(rs[1..], x);
      if x in WalkRegions(rs) && x !in Walk(rs[0].ops) {
        var j :| 0 <= j < |rs[1..]| && Reaches(rs[1..][j].ops, x);
        assert rs[j + 1] == rs[1..][j];
      }
      if ReachesRegions(rs, x) {
        var j :| 0 <= j < |rs| && Reaches(rs[j].ops, x);
        if j > 0 {
          assert rs[1..][j - 1] == rs[j];
        }
      }
    }
  }

  /**
   * The collector returns exactly the store-like operations that lie in the
   * body or, through any number of non-loop operations, in their regions.
   */
  lemma CollectMembership(ops: seq<Op>, x: Op)
    ensures x in Collect(ops) <==> x.StoreLike? && Reaches(ops, x)
  {
    WalkReaches(ops, x);
  }

  /**
   * The collection is in program order: the two halves of a block are
   * collected one after the other, a non-loop operation contributes the
   * collections of its regions in order, a nested loop nothing.
   */
  lemma {:induction false} CollectPreOrder(a: seq<Op>, b: seq<Op>)
    ensures Collect(a + b) == Collect(a) + Collect(b)
  {
    WalkConcat(a, b);
    StoreOpsConcat(Walk(a), Walk(b));
  }

  lemma CollectOfOne(op: Op)
    ensures op.StoreLike? ==> Collect([op]) == [op]
    ensures op.For? ==> Collect([op]) == []
    ensures op.Emitted? ==> Collect([op]) == []
    ensures op.Other? ==> Collect([op]) == StoreOps(WalkRegions(op.regions))
  {
    assert [op][1..] == [];
    match op
    case Other(rs) =>
      assert Walk([op]) == [op] + WalkRegions(rs);
      StoreOpsConcat([op], WalkRegions(rs));
    case _ =>
      assert Walk([op]) == [op];
  }

  lemma {:induction false} WalkConcat(a: seq<Op>, b: seq<Op>)
    ensures Walk(a + b) == Walk(a) + Walk(b)
    decreases a
  {
    if a == [] {
      assert a + b == b;
    } else {
      assert (a + b)[0] == a[0] && (a + b)[1..] == a[1..] + b;
      WalkConcat(a[1..], b);
    }
  }

  // ---------------------------------------------------------------------------
  // Nested loops are skipped as a whole

  /**
   * Every store-like operation of the tree is either collected or lies in
   * the body of a nested loop the walk skipped, and not both.
   */
  lemma NestedLoopsConcat(a: seq<Op>, b: seq<Op>)
    ensures NestedLoops(a + b) == NestedLoops(a) + NestedLoops(b)
  {
    WalkConcat(a, b);
    ForOpsConcat(Walk(a), Walk(b));
  }

  /**
   * Every store-like operation of the tree is either collected or lies in
   * the body of a nested loop the walk skipped, and not both.
   */
  lemma {:induction false} DeepStoresSplit(ops: seq<Op>)
    ensures multiset(DeepStores(ops)) == multiset(Collect(ops)) + multiset(StoresInLoops(NestedLoops(ops)))
    decreases ops, 1
  {
    if ops != [] {
      var x := ops[0];
      assert ops == [x] + ops[1..];
      DeepStoresConcat([x], ops[1..]);
      CollectPreOrder([x], ops[1..]);
      NestedLoopsConcat([x], ops[1..]);
      StoresInLoopsConcat(NestedLoops([x]), NestedLoops(ops[1..]));
      DeepStoresSplit(ops[1..]);
      DeepStoresSplitOne(x);
    }
  }

  lemma {:induction false} DeepStoresSplitOne(x: Op)
    ensures multiset(DeepStores([x])) == multiset(Collect([x])) + multiset(StoresInLoops(NestedLoops([x])))
    decreases x, 0
  {
    if x.Other? {
      OtherSplitOne(x);
      DeepStoresRegionsSplit(x.regions);
    } else if x.For? {
      LoopSplitOne(x);
    } else {
      LeafSplitOne(x);
    }
  }

  lemma OtherSplitOne(x: Op)
    requires x.Other?
    ensures DeepStores([x]) == DeepStoresRegions(x.regions)
    ensures Collect([x]) == StoreOps(WalkRegions(x.regions))
    ensures NestedLoops([x]) == ForOps(WalkRegions(x.regions))
  {
    assert [x][1..] == [];
    assert Walk([x]) == [x] + WalkRegions(x.regions);
    StoreOpsConcat([x], WalkRegions(x.regions));
    ForOpsConcat([x], WalkRegions(x.regions));
    assert DeepStores([x]) == DeepStoresRegions(x.regions) + [];
  }

  lemma LeafSplitOne(x: Op)
    requires x.StoreLike? || x.Emitted?
    ensures DeepStores([x]) == Collect([x]) == (if x.StoreLike? then [x] else [])
    ensures NestedLoops([x]) == []
  {
    assert [x][1..] == [];
    assert Walk([x]) == [x];
    assert ForOps([x]) == [] + ForOps([]);
  }

  lemma LoopSplitOne(x: Op)
    requires x.For?
    ensures DeepStores([x]) == DeepStores(x.body)
    ensures Collect([x]) == []
    ensures StoresInLoops(NestedLoops([x])) == DeepStores(x.body)
  {
    assert [x][1..] == [];
    assert Walk([x]) == [x];
    assert DeepStores([x]) == DeepStores(x.body) + [];
    assert StoresInLoops([x]) == DeepStores(x.body) + StoresInLoops([]);
  }

  lemma {:induction false} DeepStoresRegionsSplit(rs: seq<Region>)
    ensures multiset(DeepStoresRegions(rs)) ==
      multiset(StoreOps(WalkRegions(rs))) + multiset(StoresInLoops(ForOps(WalkRegions(rs))))
    decreases rs
  {
    if rs != [] {
      DeepStoresSplit(rs[0].ops);
      DeepStoresRegionsSplit(rs[1..]);
      StoreOpsConcat(Walk(rs[0].ops), WalkRegions(rs[1..]));
      ForOpsConcat(Walk(rs[0].ops), WalkRegions(rs[1..]));
      StoresInLoopsConcat(ForOps(Walk(rs[0].ops)), ForOps(WalkRegions(rs[1..])));
    }
  }

  /**
   * In a well-formed body no collected operation lies inside a nested loop,
   * and no operation is collected twice.
   */
  lemma CollectedOutsideNestedLoops(ops: seq<Op>)
    requires WellFormed(ops)
    ensures forall x :: x in Collect(ops) ==> x !in StoresInLoops(NestedLoops(ops))
    ensures Distinct(Collect(ops))
  {
    DeepStoresSplit(ops);
    forall x | x in Collect(ops)
      ensures x !in StoresInLoops(NestedLoops(ops))
    {
      DistinctCount(DeepStores(ops), x);
    }
    forall x ensures multiset(Collect(ops))[x] <= 1 {
      DistinctCount(DeepStores(ops), x);
    }
    AtMostOnceDistinct(Collect(ops));
  }
}
