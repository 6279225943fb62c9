/**
 * The test program of the allocator: linked nodes whose finalizer gives up
 * the node's reference to its successor, counters of finalizer and
 * destructor calls, and the three scenarios the program checks.  Each
 * scenario holds for every choice of block addresses the allocator might
 * make.
 */
module RefcTests {
  import opened Wrappers
  import opened Layout
  import opened Refc
  import opened RefcProperties

  /** `node_finalize`: counts itself, releases `next` if set, clears it. */
  const NodeFinalize: Finalizer := Cascading(0)

  /** `debug_finalize`: counts itself and nothing else. */
  const DebugFinalize: Finalizer := Plain(0)

  /** `node_free`: counts itself and frees the block. */
  const NodeFree: Destructor := Custom(0)

  /** `node_init`: an unlinked node (its name is not modelled). */
  function NodeInit(s: Store, p: Addr): (t: Store)
    requires Live(s, p)
    ensures t.Keys == s.Keys
    ensures t[FreeablePtr(p)].payload.next == None
    ensures t[FreeablePtr(p)].rc == s[FreeablePtr(p)].rc
    ensures forall b :: b in s && b != FreeablePtr(p) ==> t[b] == s[b]
  {
    var base := FreeablePtr(p);
    s[base := s[base].(payload := Payload(None))]
  }

  /** `node_append`: links the node at `p` to the node at `next`, without
      taking a reference to it. */
  function NodeAppend(s: Store, p: Addr, next: Addr): (t: Store)
    requires Live(s, p)
    ensures t.Keys == s.Keys
    ensures t[FreeablePtr(p)].payload.next == Some(next)
    ensures t[FreeablePtr(p)].rc == s[FreeablePtr(p)].rc
    ensures forall b :: b in s && b != FreeablePtr(p) ==> t[b] == s[b]
  {
    var base := FreeablePtr(p);
    s[base := s[base].(payload := Payload(Some(next)))]
  }

  /** A finalizer that bumps `num_finalized`. */
  predicate CountsFinalize(e: Event) {
    e.Finalized? && (e.finalizer == NodeFinalize || e.finalizer == DebugFinalize)
  }

  /** A destructor that bumps `num_freed`. */
  predicate CountsFree(e: Event) {
    e.Destroyed? && e.destructor == NodeFree
  }

  /** `num_finalized` after the events of `log`, counting from a reset. */
  function NumFinalized(log: seq<Event>): (n: nat)
    ensures n <= |log|
    ensures n == 0 <==> forall i :: 0 <= i < |log| ==> !CountsFinalize(log[i])
  {
    if log == [] then 0
    else (if CountsFinalize(log[0]) then 1 else 0) + NumFinalized(log[1..])
  }

  /** `num_freed` after the events of `log`, counting from a reset. */
  function NumFreed(log: seq<Event>): (n: nat)
    ensures n <= |log|
    ensures n == 0 <==> forall i :: 0 <= i < |log| ==> !CountsFree(log[i])
  {
    if log == [] then 0
    else (if CountsFree(log[0]) then 1 else 0) + NumFreed(log[1..])
  }

  /** The counters add up over consecutive stretches of events. */
  lemma {:induction false} CountersAppend(a: seq<Event>, b: seq<Event>)
    ensures NumFinalized(a + b) == NumFinalized(a) + NumFinalized(b)
    ensures NumFreed(a + b) == NumFreed(a) + NumFreed(b)
    decreases |a|
  {
    if a == [] {
      assert a + b == b;
    } else {
      assert (a + b)[1..] == a[1..] + b;
      CountersAppend(a[1..], b);
    }
  }

  /** Each call of a counting callback adds exactly one to its counter. */
  lemma CountersOne(e: Event)
    ensures NumFinalized([e]) == (if CountsFinalize(e) then 1 else 0)
    ensures NumFreed([e]) == (if CountsFree(e) then 1 else 0)
  {
    assert [e][1..] == [];
  }

  /** When every destructor in a log is `node_free`, `num_freed` is the number
      of destructor calls the accounting sees. */
  lemma {:induction false} FreedMatchesDestroys(log: seq<Event>)
    requires forall i :: 0 <= i < |log| && log[i].Destroyed? ==> CountsFree(log[i])
    ensures NumFreed(log) == |Destroys(log)|
    decreases |log|
  {
    if log != [] {
      assert forall i :: 0 <= i < |log[1..]| ==> log[1..][i] == log[i + 1];
      FreedMatchesDestroys(log[1..]);
    }
  }

  /** When every finalizer in a log counts itself, `num_finalized` is the
      number of finalizer calls the accounting sees. */
  lemma {:induction false} FinalizedMatchesFinalizes(log: seq<Event>)
    requires forall i :: 0 <= i < |log| && log[i].Finalized? ==> CountsFinalize(log[i])
    ensures NumFinalized(log) == |Finalizes(log)|
    decreases |log|
  {
    if log != [] {
      assert forall i :: 0 <= i < |log[1..]| ==> log[1..][i] == log[i + 1];
      FinalizedMatchesFinalizes(log[1..]);
    }
  }

  /** In a heap of nodes whose destructor is `node_free` and whose finalizer
      (if any) counts itself, a successful release bumps `num_freed` once per
      block it reclaims and `num_finalized` once per reclaimed block that had
      a finalizer. */
  lemma ReleaseCounters(s: Store, p: Addr)
    requires forall b :: b in s ==> s[b].rc.destructor == Some(NodeFree)
    requires forall b :: b in s && s[b].rc.finalizer.Some? ==> s[b].rc.finalizer.value in {NodeFinalize, DebugFinalize}
    requires Release(s, p).Success?
    ensures var st := Release(s, p).value;
      && NumFreed(st.log) == |s.Keys - st.store.Keys|
      && NumFinalized(st.log) == |WithFinalizer(s, s.Keys - st.store.Keys)|
  {
    var st := Release(s, p).value;
    ReleaseEventsFrom(s, p);
    ReleaseAccounting(s, p);
    FreedMatchesDestroys(st.log);
    FinalizedMatchesFinalizes(st.log);
  }

  /** `test_single`: one node, released once, is finalized once and freed
      once, and the heap is empty again. */
  lemma TestSingle(b: Addr)
    ensures var a := Alloc(map[], b, Some(NodeFinalize), Some(NodeFree));
      var r := Release(NodeInit(a.store, a.ptr), a.ptr);
      && r.Success?
      && r.value.store == map[]
      && r.value.log == [Finalized(NodeFinalize, a.ptr), Destroyed(NodeFree, b)]
      && NumFinalized(r.value.log) == 1
      && NumFreed(r.value.log) == 1
  {
    var a := Alloc(map[], b, Some(NodeFinalize), Some(NodeFree));
    var s := NodeInit(a.store, a.ptr);
    ReleaseLastQuiet(s, a.ptr);
    var log := [Finalized(NodeFinalize, a.ptr), Destroyed(NodeFree, b)];
    assert s - {b} == map[];
    assert log == [log[0]] + [log[1]];
    CountersAppend([log[0]], [log[1]]);
    CountersOne(log[0]);
    CountersOne(log[1]);
  }

  /** The heap of `test_linked_list` just before its two releases: a root
      node linked to a child node, the child retained once more for the
      link. */
  function LinkedListHeap(b1: Addr, b2: Addr): (s: Store)
    requires b1 != b2
    ensures s.Keys == {b1, b2}
    ensures s[b1].rc == Rc(1, Some(NodeFinalize), Some(NodeFree)) && s[b1].payload.next == Some(PayloadOf(b2))
    ensures s[b2].rc == Rc(2, Some(NodeFinalize), Some(NodeFree)) && s[b2].payload.next == None
  {
    var root := Alloc(map[], b1, Some(NodeFinalize), Some(NodeFree));
    var s1 := NodeInit(root.store, root.ptr);
    var next := Alloc(s1, b2, Some(NodeFinalize), Some(NodeFree));
    var s2 := NodeInit(next.store, next.ptr);
    var s3 := NodeAppend(s2, root.ptr, next.ptr);
    Retain(s3, next.ptr)
  }

  /** `test_linked_list`, first release: the child survives, held by the
      root's link. */
  lemma LinkedListChildSurvives(b1: Addr, b2: Addr)
    requires b1 != b2
    ensures var r1 := Release(LinkedListHeap(b1, b2), PayloadOf(b2));
      && r1.Success?
      && r1.value.log == []
      && r1.value.store == WithCount(LinkedListHeap(b1, b2), b2, 1)
  {
    ReleaseNotLast(LinkedListHeap(b1, b2), PayloadOf(b2));
  }

  /** `test_linked_list`, second release, finalizer step: the root's
      finalizer releases the child, which is finalized and freed, and only
      the root is left, with its own destructor. */
  lemma LinkedListRootFinalize(b1: Addr, b2: Addr)
    requires b1 != b2
    ensures var s6 := WithCount(WithCount(LinkedListHeap(b1, b2), b2, 1), b1, 0);
      var f := Finalize(s6, b1);
      && f.Success?
      && f.value.store.Keys == {b1}
      && f.value.store[b1].rc.destructor == Some(NodeFree)
      && f.value.log == [Finalized(NodeFinalize, PayloadOf(b1)), Finalized(NodeFinalize, PayloadOf(b2)), Destroyed(NodeFree, b2)]
  {
    var s6 := WithCount(WithCount(LinkedListHeap(b1, b2), b2, 1), b1, 0);
    var root, next := PayloadOf(b1), PayloadOf(b2);
    ReleaseLastQuiet(s6, next);
    var inner := Release(s6, next).value;
    assert inner.store.Keys == {b1};
    assert inner.log == [Finalized(NodeFinalize, next), Destroyed(NodeFree, b2)];
    var cleared := inner.store[b1 := inner.store[b1].(payload := Payload(None))];
    assert Finalize(s6, b1) == Success(Step(cleared, [Finalized(NodeFinalize, root)] + inner.log));
  }

  /** `test_linked_list`, second release: the root's finalizer releases the
      child, which is finalized and freed before the root is freed. */
  lemma LinkedListRootCascades(b1: Addr, b2: Addr)
    requires b1 != b2
    ensures Release(WithCount(LinkedListHeap(b1, b2), b2, 1), PayloadOf(b1))
      == Success(Step(map[], [Finalized(NodeFinalize, PayloadOf(b1)), Finalized(NodeFinalize, PayloadOf(b2)),
                              Destroyed(NodeFree, b2), Destroyed(NodeFree, b1)]))
  {
    var s5 := WithCount(LinkedListHeap(b1, b2), b2, 1);
    var s6 := WithCount(s5, b1, 0);
    LinkedListRootFinalize(b1, b2);
    AliveShrinks(s5, b1, 0);
    var fin := Finalize(s6, b1).value;
    assert Release(s5, PayloadOf(b1)) == Success(Step(fin.store - {b1}, fin.log + [Destroyed(NodeFree, b1)]));
    assert fin.store - {b1} == map[];
    assert fin.log + [Destroyed(NodeFree, b1)] == [Finalized(NodeFinalize, PayloadOf(b1)), Finalized(NodeFinalize, PayloadOf(b2)),
                                                   Destroyed(NodeFree, b2), Destroyed(NodeFree, b1)];
  }

  /** Four events bump each counter once per counting callback among them. */
  lemma CountersFour(e0: Event, e1: Event, e2: Event, e3: Event)
    ensures NumFinalized([e0, e1, e2, e3])
      == (if CountsFinalize(e0) then 1 else 0) + (if CountsFinalize(e1) then 1 else 0)
       + (if CountsFinalize(e2) then 1 else 0) + (if CountsFinalize(e3) then 1 else 0)
    ensures NumFreed([e0, e1, e2, e3])
      == (if CountsFree(e0) then 1 else 0) + (if CountsFree(e1) then 1 else 0)
       + (if CountsFree(e2) then 1 else 0) + (if CountsFree(e3) then 1 else 0)
  {
    assert [e0, e1, e2, e3] == [e0] + [e1] + [e2] + [e3];
    CountersAppend([e0], [e1]);
    CountersAppend([e0] + [e1], [e2]);
    CountersAppend([e0] + [e1] + [e2], [e3]);
    CountersOne(e0);
    CountersOne(e1);
    CountersOne(e2);
    CountersOne(e3);
  }

  /** `test_linked_list`: releasing the child first only drops its count to
      one; releasing the root then finalizes the root, whose finalizer
      releases the child, which is finalized and freed before the root is
      freed.  Two of each in total, and the heap is empty again. */
  lemma TestLinkedList(b1: Addr, b2: Addr)
    requires b1 != b2
    ensures var s := LinkedListHeap(b1, b2);
      var r1 := Release(s, PayloadOf(b2));
      && r1.Success?
      && r1.value.log == []
      && r1.value.store.Keys == {b1, b2} && r1.value.store[b2].rc.count == 1
      && var r2 := Release(r1.value.store, PayloadOf(b1));
      && r2.Success?
      && r2.value.store == map[]
      && r2.value.log == [Finalized(NodeFinalize, PayloadOf(b1)), Finalized(NodeFinalize, PayloadOf(b2)),
                          Destroyed(NodeFree, b2), Destroyed(NodeFree, b1)]
      && NumFinalized(r1.value.log + r2.value.log) == 2
      && NumFreed(r1.value.log + r2.value.log) == 2
  {
    var s := LinkedListHeap(b1, b2);
    LinkedListChildSurvives(b1, b2);
    var r1 := Release(s, PayloadOf(b2));
    assert r1 == Success(Step(WithCount(s, b2, 1), []));
    LinkedListRootCascades(b1, b2);
    var log := [Finalized(NodeFinalize, PayloadOf(b1)), Finalized(NodeFinalize, PayloadOf(b2)),
                Destroyed(NodeFree, b2), Destroyed(NodeFree, b1)];
    assert Release(r1.value.store, PayloadOf(b1)) == Success(Step(map[], log));
    assert r1.value.log + log == log;
    CountersFour(log[0], log[1], log[2], log[3]);
  }

  /** The heap of `test_cyclic_list` just before its two releases: two nodes
      linked to each other, neither link holding a reference. */
  function CyclicHeap(b1: Addr, b2: Addr, finalizer: Finalizer): (s: Store)
    requires b1 != b2
    ensures s.Keys == {b1, b2}
    ensures s[b1].rc == Rc(1, Some(finalizer), Some(NodeFree)) && s[b1].payload.next == Some(PayloadOf(b2))
    ensures s[b2].rc == Rc(1, Some(finalizer), Some(NodeFree)) && s[b2].payload.next == Some(PayloadOf(b1))
  {
    var l := Alloc(map[], b1, Some(finalizer), Some(NodeFree));
    var r := Alloc(l.store, b2, Some(finalizer), Some(NodeFree));
    var s1 := NodeInit(NodeInit(r.store, l.ptr), r.ptr);
    NodeAppend(NodeAppend(s1, l.ptr, r.ptr), r.ptr, l.ptr)
  }

  /** `test_cyclic_list`, first release: the right node is finalized and
      freed; the left one, still linked to it, is untouched. */
  lemma CyclicListReleaseRight(b1: Addr, b2: Addr)
    requires b1 != b2
    ensures var s := CyclicHeap(b1, b2, DebugFinalize);
      Release(s, PayloadOf(b2)) == Success(Step(s - {b2}, [Finalized(DebugFinalize, PayloadOf(b2)), Destroyed(NodeFree, b2)]))
  {
    var s := CyclicHeap(b1, b2, DebugFinalize);
    assert FreeablePtr(PayloadOf(b2)) == b2;
    ReleaseLastQuiet(s, PayloadOf(b2));
    assert FinalizerEvents(s[b2].rc.finalizer, PayloadOf(b2)) == [Finalized(DebugFinalize, PayloadOf(b2))];
    assert [Finalized(DebugFinalize, PayloadOf(b2))] + [Destroyed(NodeFree, b2)] == [Finalized(DebugFinalize, PayloadOf(b2)), Destroyed(NodeFree, b2)];
  }

  /** `test_cyclic_list`, second release: the left node is finalized and
      freed, and the heap is empty. */
  lemma CyclicListReleaseLeft(b1: Addr, b2: Addr)
    requires b1 != b2
    ensures var t := CyclicHeap(b1, b2, DebugFinalize) - {b2};
      Release(t, PayloadOf(b1)) == Success(Step(map[], [Finalized(DebugFinalize, PayloadOf(b1)), Destroyed(NodeFree, b1)]))
  {
    var t := CyclicHeap(b1, b2, DebugFinalize) - {b2};
    assert FreeablePtr(PayloadOf(b1)) == b1;
    ReleaseLastQuiet(t, PayloadOf(b1));
    assert FinalizerEvents(t[b1].rc.finalizer, PayloadOf(b1)) == [Finalized(DebugFinalize, PayloadOf(b1))];
    assert [Finalized(DebugFinalize, PayloadOf(b1))] + [Destroyed(NodeFree, b1)] == [Finalized(DebugFinalize, PayloadOf(b1)), Destroyed(NodeFree, b1)];
    assert t - {b1} == map[];
  }

  /** `test_cyclic_list`: with `debug_finalize`, which does not follow the
      links, releasing each node once finalizes and frees each exactly once,
      and the heap is empty again. */
  lemma TestCyclicList(b1: Addr, b2: Addr)
    requires b1 != b2
    ensures var s := CyclicHeap(b1, b2, DebugFinalize);
      var r1 := Release(s, PayloadOf(b2));
      && r1.Success?
      && r1.value.log == [Finalized(DebugFinalize, PayloadOf(b2)), Destroyed(NodeFree, b2)]
      && r1.value.store.Keys == {b1}
      && var r2 := Release(r1.value.store, PayloadOf(b1));
      && r2.Success?
      && r2.value.log == [Finalized(DebugFinalize, PayloadOf(b1)), Destroyed(NodeFree, b1)]
      && r2.value.store == map[]
      && NumFinalized(r1.value.log + r2.value.log) == 2
      && NumFreed(r1.value.log + r2.value.log) == 2
  {
    CyclicListReleaseRight(b1, b2);
    CyclicListReleaseLeft(b1, b2);
    var l, r := PayloadOf(b1), PayloadOf(b2);
    var log := [Finalized(DebugFinalize, r), Destroyed(NodeFree, b2), Finalized(DebugFinalize, l), Destroyed(NodeFree, b1)];
    assert [Finalized(DebugFinalize, r), Destroyed(NodeFree, b2)] + [Finalized(DebugFinalize, l), Destroyed(NodeFree, b1)] == log;
    CountersFour(log[0], log[1], log[2], log[3]);
  }

  /** The same two nodes with `node_finalize` instead: the first release
      cascades around the loop back into the node being finalized, which the
      source would finalize again without end.  The counting discipline has no
      cycle collection; a cycle of owning links must be broken by hand. */
  lemma CyclicListWithNodeFinalize(b1: Addr, b2: Addr)
    requires b1 != b2
    ensures Release(CyclicHeap(b1, b2, NodeFinalize), PayloadOf(b2)) == Failure(Reentered(PayloadOf(b2)))
  {
    var s := CyclicHeap(b1, b2, NodeFinalize);
    var l, r := PayloadOf(b1), PayloadOf(b2);
    var s1 := WithCount(s, b2, 0);
    var s2 := WithCount(s1, b1, 0);
    assert Release(s2, r) == Failure(Reentered(r));
    AliveShrinks(s1, b1, 0);
    assert Finalize(s2, b1) == Failure(Reentered(r));
    assert Release(s1, l) == Failure(Reentered(r));
    assert Finalize(s1, b2) == Failure(Reentered(r));
    AliveShrinks(s, b2, 0);
  }
}
