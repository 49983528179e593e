/**
 * In-place replacement of operations: what a sequence of `builder.create`
 * calls at an operation followed by `op->erase()` does to the tree, and what
 * such a replacement leaves for the collector to find.
 */
module Rewriting {
  import opened Util
  import opened IR
  import opened Collector

  /** Only store-like operations are ever replaced. */
  ghost predicate StoreKeys(m: map<Op, seq<Op>>)
  {
    forall k :: k in m ==> k.StoreLike?
  }

  /** A sequence made only of operations the pass created. */
  ghost predicate EmittedOnly(s: seq<Op>)
  {
    forall i :: 0 <= i < |s| ==> s[i].Emitted?
  }

  /** Every replacement is made only of operations the pass created. */
  ghost predicate AllEmitted(m: map<Op, seq<Op>>)
  {
    forall k :: k in m ==> EmittedOnly(m[k])
  }

  /**
   * Every occurrence of an operation `k` of `m`, at any depth, replaced in its
   * block by the sequence `m[k]`.
   */
  function Rewrite(ops: seq<Op>, m: map<Op, seq<Op>>): seq<Op>
    decreases ops
  {
    if ops == [] then []
    else
      (if ops[0] in m then m[ops[0]]
       else match ops[0]
         case For(b) => [For(Rewrite(b, m))]
         case Other(rs) => [Other(RewriteRegions(rs, m))]
         case _ => [ops[0]])
      + Rewrite(ops[1..], m)
  }

  function RewriteRegions(rs: seq<Region>, m: map<Op, seq<Op>>): seq<Region>
    decreases rs
  {
    if rs == [] then [] else [Region(Rewrite(rs[0].ops, m))] + RewriteRegions(rs[1..], m)
  }

  /** Applying `m1` and then `m2` is applying `Compose(m1, m2)`. */
  function Compose(m1: map<Op, seq<Op>>, m2: map<Op, seq<Op>>): map<Op, seq<Op>>
  {
    map k | k in m1.Keys + m2.Keys :: if k in m1 then Rewrite(m1[k], m2) else m2[k]
  }

  /** The replacement of a single operation. */
  lemma RewriteOne(x: Op, m: map<Op, seq<Op>>)
    ensures Rewrite([x], m) ==
      if x in m then m[x]
      else if x.For? then [For(Rewrite(x.body, m))]
      else if x.Other? then [Other(RewriteRegions(x.regions, m))]
      else [x]
  {
    assert [x][1..] == [];
  }

  /** Replacement acts on the two halves of a block independently. */
  lemma {:induction false} RewriteConcat(a: seq<Op>, b: seq<Op>, m: map<Op, seq<Op>>)
    ensures Rewrite(a + b, m) == Rewrite(a, m) + Rewrite(b, m)
    decreases a
  {
    if a == [] {
      assert a + b == b;
    } else {
      assert (a + b)[0] == a[0] && (a + b)[1..] == a[1..] + b;
      RewriteConcat(a[1..], b, m);
    }
  }

  /**
   * A replaced operation's replacement stands exactly where the operation
   * stood, between the rewritten operations before and after it.
   */
  lemma RewriteAt(a: seq<Op>, x: Op, b: seq<Op>, m: map<Op, seq<Op>>)
    requires x in m
    ensures Rewrite(a + [x] + b, m) == Rewrite(a, m) + m[x] + Rewrite(b, m)
  {
    RewriteConcat(a + [x], b, m);
    RewriteConcat(a, [x], m);
    RewriteOne(x, m);
  }

  // ---------------------------------------------------------------------------
  // Successive replacements

  /** Two successive replacements are one replacement by the composed map. */
  lemma {:induction false} RewriteCompose(ops: seq<Op>, m1: map<Op, seq<Op>>, m2: map<Op, seq<Op>>)
    requires StoreKeys(m1) && StoreKeys(m2)
    ensures Rewrite(Rewrite(ops, m1), m2) == Rewrite(ops, Compose(m1, m2))
    decreases ops, 1
  {
    if ops != [] {
      var x := ops[0];
      assert ops == [x] + ops[1..];
      RewriteConcat([x], ops[1..], m1);
      RewriteConcat(Rewrite([x], m1), Rewrite(ops[1..], m1), m2);
      RewriteConcat([x], ops[1..], Compose(m1, m2));
      RewriteCompose(ops[1..], m1, m2);
      RewriteComposeOne(x, m1, m2);
    }
  }

  lemma {:induction false} RewriteComposeOne(x: Op, m1: map<Op, seq<Op>>, m2: map<Op, seq<Op>>)
    requires StoreKeys(m1) && StoreKeys(m2)
    ensures Rewrite(Rewrite([x], m1), m2) == Rewrite([x], Compose(m1, m2))
    decreases x, 0
  {
    var c := Compose(m1, m2);
    RewriteOne(x, m1);
    RewriteOne(x, c);
    if x in m1 {
    } else if x in m2 {
      RewriteOne(x, m2);
    } else {
      match x
      case For(b) =>
        RewriteOne(For(Rewrite(b, m1)), m2);
        RewriteCompose(b, m1, m2);
      case Other(rs) =>
        RewriteOne(Other(RewriteRegions(rs, m1)), m2);
        RewriteRegionsCompose(rs, m1, m2);
      case StoreLike(_, _, _, _) =>
        RewriteOne(x, m2);
      case Emitted(_) =>
        RewriteOne(x, m2);
    }
  }

  lemma {:induction false} RewriteRegionsCompose(rs: seq<Region>, m1: map<Op, seq<Op>>, m2: map<Op, seq<Op>>)
    requires StoreKeys(m1) && StoreKeys(m2)
    ensures RewriteRegions(RewriteRegions(rs, m1), m2) == RewriteRegions(rs, Compose(m1, m2))
    decreases rs
  {
    if rs != [] {
      RewriteCompose(rs[0].ops, m1, m2);
      RewriteRegionsCompose(rs[1..], m1, m2);
      var r1 := RewriteRegions(rs, m1);
      assert r1[0] == Region(Rewrite(rs[0].ops, m1)) && r1[1..] == RewriteRegions(rs[1..], m1);
    }
  }

  // ---------------------------------------------------------------------------
  // What a replacement leaves untouched

  /** A tree none of whose store-like operations is a key is left as it is. */
  lemma {:induction false} RewriteUntouched(ops: seq<Op>, m: map<Op, seq<Op>>)
    requires StoreKeys(m)
    requires forall x :: x in DeepStores(ops) ==> x !in m
    ensures Rewrite(ops, m) == ops
    decreases ops, 1
  {
    if ops != [] {
      var x := ops[0];
      assert ops == [x] + ops[1..];
      DeepStoresConcat([x], ops[1..]);
      RewriteConcat([x], ops[1..], m);
      RewriteUntouched(ops[1..], m);
      RewriteUntouchedOne(x, m);
    }
  }

  lemma {:induction false} RewriteUntouchedOne(x: Op, m: map<Op, seq<Op>>)
    requires StoreKeys(m)
    requires forall y :: y in DeepStores([x]) ==> y !in m
    ensures Rewrite([x], m) == [x]
    decreases x, 0
  {
    RewriteOne(x, m);
    assert [x][1..] == [];
    match x
    case For(b) =>
      assert DeepStores([x]) == DeepStores(b) + [];
      RewriteUntouched(b, m);
    case Other(rs) =>
      assert DeepStores([x]) == DeepStoresRegions(rs) + [];
      RewriteRegionsUntouched(rs, m);
    case StoreLike(_, _, _, _) =>
      assert DeepStores([x]) == [x] + [];
    case Emitted(_) =>
  }

  lemma {:induction false} RewriteRegionsUntouched(rs: seq<Region>, m: map<Op, seq<Op>>)
    requires StoreKeys(m)
    requires forall x :: x in DeepStoresRegions(rs) ==> x !in m
    ensures RewriteRegions(rs, m) == rs
    decreases rs
  {
    if rs != [] {
      RewriteUntouched(rs[0].ops, m);
      RewriteRegionsUntouched(rs[1..], m);
      assert rs == [rs[0]] + rs[1..];
    }
  }

  /** Created operations contain no store-like operation and no loop. */
  lemma {:induction false} EmittedOnlyFacts(s: seq<Op>)
    requires EmittedOnly(s)
    ensures Walk(s) == s
    ensures DeepStores(s) == [] && Collect(s) == [] && NestedLoops(s) == []
  {
    if s != [] {
      assert EmittedOnly(s[1..]) by {
        forall i | 0 <= i < |s[1..]| ensures s[1..][i].Emitted? {
          assert s[1..][i] == s[i + 1];
        }
      }
      EmittedOnlyFacts(s[1..]);
      assert s == [s[0]] + s[1..];
      StoreOpsConcat([s[0]], s[1..]);
      ForOpsConcat([s[0]], s[1..]);
    }
  }

  // ---------------------------------------------------------------------------
  // What survives a replacement

  /**
   * After replacing operations by created ones, the store-like operations of
   * the tree, nested loops included, are exactly those that were not
   * replaced, in their old order.
   */
  lemma {:induction false} RewriteDeepStores(ops: seq<Op>, m: map<Op, seq<Op>>)
    requires StoreKeys(m) && AllEmitted(m)
    ensures DeepStores(Rewrite(ops, m)) == Without(DeepStores(ops), m.Keys)
    decreases ops, 2
  {
    if ops != [] {
      var x := ops[0];
      assert ops == [x] + ops[1..];
      DeepStoresConcat([x], ops[1..]);
      RewriteConcat([x], ops[1..], m);
      DeepStoresConcat(Rewrite([x], m), Rewrite(ops[1..], m));
      WithoutConcat(DeepStores([x]), DeepStores(ops[1..]), m.Keys);
      RewriteDeepStores(ops[1..], m);
      RewriteDeepStoresOne(x, m);
    }
  }

  lemma {:induction false} RewriteDeepStoresOne(x: Op, m: map<Op, seq<Op>>)
    requires StoreKeys(m) && AllEmitted(m)
    ensures DeepStores(Rewrite([x], m)) == Without(DeepStores([x]), m.Keys)
    decreases x, 1
  {
    RewriteOne(x, m);
    if x in m {
      EmittedOnlyFacts(m[x]);
      LeafSplitOne(x);
      assert Without([x], m.Keys) == [] + Without([], m.Keys);
    } else if x.For? {
      RewriteDeepStoresLoop(x, m);
    } else if x.Other? {
      RewriteDeepStoresOther(x, m);
    } else {
      LeafSplitOne(x);
      if x.StoreLike? {
        assert Without([x], m.Keys) == [x] + Without([], m.Keys);
      }
    }
  }

  lemma {:induction false} RewriteDeepStoresLoop(x: Op, m: map<Op, seq<Op>>)
    requires StoreKeys(m) && AllEmitted(m) && x.For?
    ensures DeepStores([For(Rewrite(x.body, m))]) == Without(DeepStores([x]), m.Keys)
    decreases x, 0
  {
    LoopSplitOne(x);
    LoopSplitOne(For(Rewrite(x.body, m)));
    RewriteDeepStores(x.body, m);
  }

  lemma {:induction false} RewriteDeepStoresOther(x: Op, m: map<Op, seq<Op>>)
    requires StoreKeys(m) && AllEmitted(m) && x.Other?
    ensures DeepStores([Other(RewriteRegions(x.regions, m))]) == Without(DeepStores([x]), m.Keys)
    decreases x, 0
  {
    OtherSplitOne(x);
    OtherSplitOne(Other(RewriteRegions(x.regions, m)));
    RewriteRegionsDeepStores(x.regions, m);
  }

  lemma {:induction false} RewriteRegionsDeepStores(rs: seq<Region>, m: map<Op, seq<Op>>)
    requires StoreKeys(m) && AllEmitted(m)
    ensures DeepStoresRegions(RewriteRegions(rs, m)) == Without(DeepStoresRegions(rs), m.Keys)
    decreases rs
  {
    if rs != [] {
      RewriteDeepStores(rs[0].ops, m);
      RewriteRegionsDeepStores(rs[1..], m);
      var r := RewriteRegions(rs, m);
      assert r[0] == Region(Rewrite(rs[0].ops, m)) && r[1..] == RewriteRegions(rs[1..], m);
      WithoutConcat(DeepStores(rs[0].ops), DeepStoresRegions(rs[1..]), m.Keys);
    }
  }

  /**
   * After replacing operations by created ones, the collector finds exactly
   * the operations it found before that were not replaced, in the same order.
   */
  lemma {:induction false} RewriteCollect(ops: seq<Op>, m: map<Op, seq<Op>>)
    requires StoreKeys(m) && AllEmitted(m)
    ensures Collect(Rewrite(ops, m)) == Without(Collect(ops), m.Keys)
    decreases ops, 1
  {
    if ops != [] {
      var x := ops[0];
      assert ops == [x] + ops[1..];
      CollectPreOrder([x], ops[1..]);
      RewriteConcat([x], ops[1..], m);
      CollectPreOrder(Rewrite([x], m), Rewrite(ops[1..], m));
      WithoutConcat(Collect([x]), Collect(ops[1..]), m.Keys);
      RewriteCollect(ops[1..], m);
      RewriteCollectOne(x, m);
    }
  }

  lemma {:induction false} RewriteCollectOne(x: Op, m: map<Op, seq<Op>>)
    requires StoreKeys(m) && AllEmitted(m)
    ensures Collect(Rewrite([x], m)) == Without(Collect([x]), m.Keys)
    decreases x, 0
  {
    RewriteOne(x, m);
    CollectOfOne(x);
    if x in m {
      EmittedOnlyFacts(m[x]);
      assert Without([x], m.Keys) == [] + Without([], m.Keys);
    } else {
      match x
      case For(b) =>
        CollectOfOne(For(Rewrite(b, m)));
      case Other(rs) =>
        CollectOfOne(Other(RewriteRegions(rs, m)));
        RewriteRegionsCollect(rs, m);
      case StoreLike(_, _, _, _) =>
        assert Without([x], m.Keys) == [x] + Without([], m.Keys);
      case Emitted(_) =>
    }
  }

  lemma {:induction false} RewriteRegionsCollect(rs: seq<Region>, m: map<Op, seq<Op>>)
    requires StoreKeys(m) && AllEmitted(m)
    ensures StoreOps(WalkRegions(RewriteRegions(rs, m))) == Without(StoreOps(WalkRegions(rs)), m.Keys)
    decreases rs
  {
    if rs != [] {
      RewriteCollect(rs[0].ops, m);
      RewriteRegionsCollect(rs[1..], m);
      var r := RewriteRegions(rs, m);
      assert r[0] == Region(Rewrite(rs[0].ops, m)) && r[1..] == RewriteRegions(rs[1..], m);
      StoreOpsConcat(Walk(rs[0].ops), WalkRegions(rs[1..]));
      StoreOpsConcat(Walk(r[0].ops), WalkRegions(r[1..]));
      WithoutConcat(Collect(rs[0].ops), StoreOps(WalkRegions(rs[1..])), m.Keys);
    }
  }

  /**
   * Replacing only operations that lie outside nested loops leaves every
   * nested loop the walk meets exactly as it was.
   */
  lemma {:induction false} RewriteNestedLoops(ops: seq<Op>, m: map<Op, seq<Op>>)
    requires StoreKeys(m) && AllEmitted(m)
    requires forall x :: x in StoresInLoops(NestedLoops(ops)) ==> x !in m
    ensures NestedLoops(Rewrite(ops, m)) == NestedLoops(ops)
    decreases ops, 1
  {
    if ops != [] {
      var x := ops[0];
      assert ops == [x] + ops[1..];
      NestedLoopsConcat([x], ops[1..]);
      StoresInLoopsConcat(NestedLoops([x]), NestedLoops(ops[1..]));
      RewriteConcat([x], ops[1..], m);
      NestedLoopsConcat(Rewrite([x], m), Rewrite(ops[1..], m));
      RewriteNestedLoops(ops[1..], m);
      RewriteNestedLoopsOne(x, m);
    }
  }

  lemma {:induction false} RewriteNestedLoopsOne(x: Op, m: map<Op, seq<Op>>)
    requires StoreKeys(m) && AllEmitted(m)
    requires forall y :: y in StoresInLoops(NestedLoops([x])) ==> y !in m
    ensures NestedLoops(Rewrite([x], m)) == NestedLoops([x])
    decreases x, 0
  {
    RewriteOne(x, m);
    if x in m {
      EmittedOnlyFacts(m[x]);
      LeafSplitOne(x);
    } else {
      match x
      case For(b) =>
        LoopSplitOne(x);
        RewriteUntouched(b, m);
      case Other(rs) =>
        OtherSplitOne(x);
        OtherSplitOne(Other(RewriteRegions(rs, m)));
        RewriteRegionsNestedLoops(rs, m);
      case StoreLike(_, _, _, _) =>
      case Emitted(_) =>
    }
  }

  lemma {:induction false} RewriteRegionsNestedLoops(rs: seq<Region>, m: map<Op, seq<Op>>)
    requires StoreKeys(m) && AllEmitted(m)
    requires forall x :: x in StoresInLoops(ForOps(WalkRegions(rs))) ==> x !in m
    ensures ForOps(WalkRegions(RewriteRegions(rs, m))) == ForOps(WalkRegions(rs))
    decreases rs
  {
    if rs != [] {
      var r := RewriteRegions(rs, m);
      assert r[0] == Region(Rewrite(rs[0].ops, m)) && r[1..] == RewriteRegions(rs[1..], m);
      ForOpsConcat(Walk(rs[0].ops), WalkRegions(rs[1..]));
      ForOpsConcat(Walk(r[0].ops), WalkRegions(r[1..]));
      StoresInLoopsConcat(NestedLoops(rs[0].ops), ForOps(WalkRegions(rs[1..])));
      RewriteNestedLoops(rs[0].ops, m);
      RewriteRegionsNestedLoops(rs[1..], m);
    }
  }

  // ---------------------------------------------------------------------------
  // Building up one replacement

  /**
   * Once `op` stands behind the created operations `done`, inserting before it
   * or erasing it (replacing it by `tail`) extends what it is replaced by.
   */
  lemma ReplaceAgain(ops: seq<Op>, op: Op, done: seq<Op>, tail: seq<Op>)
    requires op.StoreLike? && EmittedOnly(done)
    ensures Rewrite(Rewrite(ops, map[op := done + [op]]), map[op := tail]) == Rewrite(ops, map[op := done + tail])
  {
    var m1 := map[op := done + [op]];
    var m2 := map[op := tail];
    RewriteCompose(ops, m1, m2);
    assert Compose(m1, m2) == map[op := done + tail] by {
      RewriteConcat(done, [op], m2);
      EmittedOnlyFacts(done);
      RewriteUntouched(done, m2);
      RewriteOne(op, m2);
    }
  }
}
