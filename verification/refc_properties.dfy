/**
 * What the allocator promises its callers: how releases relate to
 * allocation and retains, which events a release emits and in what order,
 * and that no block is finalized or destroyed twice.
 */
module RefcProperties {
  import opened Wrappers
  import opened Layout
  import opened Refc

  /** The events of invoking `finalizer` (if there is one) on payload `p`. */
  function FinalizerEvents(finalizer: Option<Finalizer>, p: Addr): seq<Event> {
    if finalizer.Some? then [Finalized(finalizer.value, p)] else []
  }

  /** The block's finalizer releases nothing: it has none, it is `Plain`, or
      it is `Cascading` with an empty link. */
  predicate Quiet(b: Block) {
    !(b.rc.finalizer.Some? && b.rc.finalizer.value.Cascading? && b.payload.next.Some?)
  }

  /** The header addresses passed to destructors, with multiplicity. */
  function Destroys(log: seq<Event>): multiset<Addr> {
    if log == [] then multiset{}
    else (if log[0].Destroyed? then multiset{log[0].header} else multiset{}) + Destroys(log[1..])
  }

  /** The headers of the payloads passed to finalizers, with multiplicity. */
  function Finalizes(log: seq<Event>): multiset<Addr> {
    if log == [] then multiset{}
    else (if log[0].Finalized? then multiset{FreeablePtr(log[0].payload)} else multiset{}) + Finalizes(log[1..])
  }

  /** No block's finalizer runs after its destructor. */
  ghost predicate FinalizesFirst(log: seq<Event>) {
    forall i, j :: 0 <= i < |log| && 0 <= j < |log| && log[i].Finalized? && log[j].Destroyed? && FreeablePtr(log[i].payload) == log[j].header ==> i < j
  }

  /** The blocks among `bs` that carry a finalizer in `s`. */
  function WithFinalizer(s: Store, bs: set<Addr>): set<Addr> {
    set b | b in bs && b in s && s[b].rc.finalizer.Some?
  }

  // ---------------------------------------------------------------------
  // Release, one call at a time

  /** A release that leaves the count at one or more only decrements it: no
      callback runs, the block stays allocated, nothing else changes. */
  lemma ReleaseNotLast(s: Store, p: Addr)
    requires Live(s, p) && s[FreeablePtr(p)].rc.count >= 2
    ensures var r := Release(s, p);
      && r.Success?
      && r.value.log == []
      && r.value.store.Keys == s.Keys
      && r.value.store[FreeablePtr(p)].rc.count == s[FreeablePtr(p)].rc.count - 1
      && r.value.store[FreeablePtr(p)].rc.finalizer == s[FreeablePtr(p)].rc.finalizer
      && r.value.store[FreeablePtr(p)].rc.destructor == s[FreeablePtr(p)].rc.destructor
      && r.value.store[FreeablePtr(p)].payload == s[FreeablePtr(p)].payload
      && (forall b :: b in s && b != FreeablePtr(p) ==> r.value.store[b] == s[b])
  {
  }

  /** The last release of a block whose finalizer releases nothing emits
      exactly the finalizer event (if it has a finalizer) followed by one
      destructor event on the header, and removes the block. */
  lemma ReleaseLastQuiet(s: Store, p: Addr)
    requires Live(s, p) && s[FreeablePtr(p)].rc.count == 1
    requires Quiet(s[FreeablePtr(p)]) && s[FreeablePtr(p)].rc.destructor.Some?
    ensures Release(s, p) == Success(Step(s - {FreeablePtr(p)},
      FinalizerEvents(s[FreeablePtr(p)].rc.finalizer, p) + [Destroyed(s[FreeablePtr(p)].rc.destructor.value, FreeablePtr(p))]))
  {
    var base := FreeablePtr(p);
    PayloadOfFreeablePtr(p);
    var s1 := WithCount(s, base, 0);
    assert s1 - {base} == s - {base};
  }

  /** The last release of any block, cascade or not, when it succeeds: the
      block's finalizer (if any) is the first event, its destructor the last,
      with the payload and the header address respectively, and the block is
      gone. */
  lemma ReleaseLastOrder(s: Store, p: Addr)
    requires Live(s, p) && s[FreeablePtr(p)].rc.count == 1
    requires Release(s, p).Success?
    ensures var st := Release(s, p).value;
      && FreeablePtr(p) !in st.store
      && |st.log| >= 1
      && st.log[|st.log| - 1] == Destroyed(s[FreeablePtr(p)].rc.destructor.value, FreeablePtr(p))
      && (s[FreeablePtr(p)].rc.finalizer.Some? ==> |st.log| >= 2 && st.log[0] == Finalized(s[FreeablePtr(p)].rc.finalizer.value, p))
      && (s[FreeablePtr(p)].rc.finalizer.None? ==> st.log == [Destroyed(s[FreeablePtr(p)].rc.destructor.value, FreeablePtr(p))])
  {
    PayloadOfFreeablePtr(p);
    ReleaseLastUnfold(s, p);
  }

  /** A cascading finalizer whose linked block has other owners releases it
      exactly once: the linked block survives with one owner fewer, only the
      finalizer itself is logged, and its link is cleared. */
  lemma FinalizeSharedLink(s: Store, base: Addr)
    requires base in s && s[base].rc.count < 1
    requires s[base].rc.finalizer.Some? && s[base].rc.finalizer.value.Cascading?
    requires s[base].payload.next.Some? && Live(s, s[base].payload.next.value)
    requires s[FreeablePtr(s[base].payload.next.value)].rc.count >= 2
    ensures var child := FreeablePtr(s[base].payload.next.value);
      Finalize(s, base)
        == Success(Step(WithCount(s, child, s[child].rc.count - 1)[base := s[base].(payload := Payload(None))],
                        [Finalized(s[base].rc.finalizer.value, PayloadOf(base))]))
  {
    var q := s[base].payload.next.value;
    var child := FreeablePtr(q);
    ReleaseNotLast(s, q);
    var inner := Release(s, q).value;
    assert inner.store == WithCount(s, child, s[child].rc.count - 1);
    assert [Finalized(s[base].rc.finalizer.value, PayloadOf(base))] + inner.log == [Finalized(s[base].rc.finalizer.value, PayloadOf(base))];
  }

  /** A release is refused (the source's behaviour is undefined) when `p` is
      the payload of no allocated block or of a block being torn down. */
  lemma ReleaseFaults(s: Store, p: Addr)
    ensures FreeablePtr(p) !in s ==> Release(s, p) == Failure(Dangling(p))
    ensures FreeablePtr(p) in s && s[FreeablePtr(p)].rc.count < 1 ==> Release(s, p) == Failure(Reentered(p))
  {
  }

  // ---------------------------------------------------------------------
  // Exactly-once accounting over a whole cascade

  lemma DestroysAppend(a: seq<Event>, b: seq<Event>)
    ensures Destroys(a + b) == Destroys(a) + Destroys(b)
    decreases |a|
  {
    if a != [] {
      assert (a + b)[1..] == a[1..] + b;
      DestroysAppend(a[1..], b);
    } else {
      assert a + b == b;
    }
  }

  lemma FinalizesAppend(a: seq<Event>, b: seq<Event>)
    ensures Finalizes(a + b) == Finalizes(a) + Finalizes(b)
    decreases |a|
  {
    if a != [] {
      assert (a + b)[1..] == a[1..] + b;
      FinalizesAppend(a[1..], b);
    } else {
      assert a + b == b;
    }
  }

  /** Appending a destructor event keeps finalizers ahead of destructors. */
  lemma FinalizesFirstThenDestroy(log: seq<Event>, e: Event)
    requires FinalizesFirst(log) && e.Destroyed?
    ensures FinalizesFirst(log + [e])
  {
    var l := log + [e];
    forall i, j | 0 <= i < |l| && 0 <= j < |l| && l[i].Finalized? && l[j].Destroyed? && FreeablePtr(l[i].payload) == l[j].header
      ensures i < j
    {
      if j < |log| {
        assert l[i] == log[i] && l[j] == log[j];
      }
    }
  }

  /** Prepending a finalizer event keeps finalizers ahead of destructors. */
  lemma FinalizeThenFinalizesFirst(e: Event, log: seq<Event>)
    requires FinalizesFirst(log) && e.Finalized?
    ensures FinalizesFirst([e] + log)
  {
    var l := [e] + log;
    forall i, j | 0 <= i < |l| && 0 <= j < |l| && l[i].Finalized? && l[j].Destroyed? && FreeablePtr(l[i].payload) == l[j].header
      ensures i < j
    {
      if i > 0 {
        assert l[i] == log[i - 1] && l[j] == log[j - 1];
      }
    }
  }

  lemma MultisetAddFresh(a: set<Addr>, x: Addr)
    requires x !in a
    ensures multiset(a + {x}) == multiset(a) + multiset{x}
  {
  }

  /** Over a whole release, cascade included: every block that disappears is
      destroyed exactly once, nothing else is destroyed, exactly the
      disappearing blocks that carry a finalizer are finalized, each once, and
      each block's finalizer runs before its destructor. */
  lemma {:induction false} ReleaseAccounting(s: Store, p: Addr)
    requires Release(s, p).Success?
    ensures var st := Release(s, p).value;
      && Destroys(st.log) == multiset(s.Keys - st.store.Keys)
      && Finalizes(st.log) == multiset(WithFinalizer(s, s.Keys - st.store.Keys))
      && FinalizesFirst(st.log)
    decreases |Alive(s)|, 0
  {
    var st := Release(s, p).value;
    var base := FreeablePtr(p);
    if s[base].rc.count >= 2 {
      ReleaseNotLast(s, p);
    } else {
      ReleaseLastUnfold(s, p);
      var s1 := WithCount(s, base, 0);
      AliveShrinks(s, base, 0);
      FinalizeAccounting(s1, base);
      var fin := Finalize(s1, base).value;
      DestroyAccounting(s1, base, fin, fin.store[base].rc.destructor.value);
      assert st.store == fin.store - {base};
      WithFinalizerIgnoresCount(s, base, 0, s.Keys - st.store.Keys);
    }
  }

  /** Which blocks carry a finalizer does not depend on the counts. */
  lemma WithFinalizerIgnoresCount(s: Store, base: Addr, c: int, bs: set<Addr>)
    requires base in s
    ensures WithCount(s, base, c).Keys == s.Keys
    ensures WithFinalizer(WithCount(s, base, c), bs) == WithFinalizer(s, bs)
  {
  }

  /** The last release, opened up: the finalizer step succeeds and the
      release appends the destructor call to its events and drops the block. */
  lemma ReleaseLastUnfold(s: Store, p: Addr)
    requires Release(s, p).Success? && s[FreeablePtr(p)].rc.count < 2
    ensures var base := FreeablePtr(p);
      var f := Finalize(WithCount(s, base, 0), base);
      && s[base].rc.count == 1
      && f.Success?
      && base in f.value.store && f.value.store.Keys <= s.Keys
      && f.value.store[base].rc == WithCount(s, base, 0)[base].rc
      && f.value.store[base].rc.destructor.Some?
      && Release(s, p).value == Step(f.value.store - {base}, f.value.log + [Destroyed(f.value.store[base].rc.destructor.value, base)])
  {
    var base := FreeablePtr(p);
    var s1 := WithCount(s, base, 0);
    AliveShrinks(s, base, 0);
    var f := Finalize(s1, base);
    assert f.Success?;
    var fin := f.value;
    assert KeepsCallbacks(s1, fin.store);
    assert fin.store.Keys <= s1.Keys;
    assert s1.Keys == s.Keys;
  }

  /** The destructor step's share of the accounting: appending the destructor
      event for `base` and dropping `base` from the heap completes the
      finalizer step's accounting. */
  lemma DestroyAccounting(s: Store, base: Addr, fin: Step, d: Destructor)
    requires base in s && base in fin.store && fin.store.Keys <= s.Keys
    requires Destroys(fin.log) == multiset(s.Keys - fin.store.Keys)
    requires Finalizes(fin.log) == multiset(WithFinalizer(s, s.Keys - fin.store.Keys))
      + (if s[base].rc.finalizer.Some? then multiset{base} else multiset{})
    requires FinalizesFirst(fin.log)
    ensures var log := fin.log + [Destroyed(d, base)];
      var gone := s.Keys - (fin.store - {base}).Keys;
      && Destroys(log) == multiset(gone)
      && Finalizes(log) == multiset(WithFinalizer(s, gone))
      && FinalizesFirst(log)
  {
    var e := Destroyed(d, base);
    var gone := s.Keys - fin.store.Keys;
    assert s.Keys - (fin.store - {base}).Keys == gone + {base};
    DestroyedOnce(gone, base, fin.log, e);
    FinalizedOnce(s, gone, base, fin.log, e);
    FinalizesFirstThenDestroy(fin.log, e);
  }

  lemma DestroyedOnce(gone: set<Addr>, base: Addr, log: seq<Event>, e: Event)
    requires base !in gone && e.Destroyed? && e.header == base
    requires Destroys(log) == multiset(gone)
    ensures Destroys(log + [e]) == multiset(gone + {base})
  {
    DestroysAppend(log, [e]);
    assert Destroys([e]) == multiset{base};
    MultisetAddFresh(gone, base);
  }

  lemma FinalizedOnce(s: Store, gone: set<Addr>, base: Addr, log: seq<Event>, e: Event)
    requires base in s && base !in gone && e.Destroyed?
    requires Finalizes(log) == multiset(WithFinalizer(s, gone))
      + (if s[base].rc.finalizer.Some? then multiset{base} else multiset{})
    ensures Finalizes(log + [e]) == multiset(WithFinalizer(s, gone + {base}))
  {
    FinalizesAppend(log, [e]);
    assert Finalizes([e]) == multiset{};
    if s[base].rc.finalizer.Some? {
      assert WithFinalizer(s, gone + {base}) == WithFinalizer(s, gone) + {base};
      MultisetAddFresh(WithFinalizer(s, gone), base);
    } else {
      assert WithFinalizer(s, gone + {base}) == WithFinalizer(s, gone);
    }
  }

  /** The finalizer step's share of the accounting: the block being torn
      down is finalized (if it has a finalizer) but not destroyed, and the
      release it issues accounts for everything else. */
  lemma {:induction false} FinalizeAccounting(s: Store, base: Addr)
    requires base in s && s[base].rc.count < 1
    requires Finalize(s, base).Success?
    ensures var st := Finalize(s, base).value;
      && Destroys(st.log) == multiset(s.Keys - st.store.Keys)
      && Finalizes(st.log) == multiset(WithFinalizer(s, s.Keys - st.store.Keys))
           + (if s[base].rc.finalizer.Some? then multiset{base} else multiset{})
      && FinalizesFirst(st.log)
    decreases |Alive(s)|, 1
  {
    var st := Finalize(s, base).value;
    var p := PayloadOf(base);
    match s[base].rc.finalizer
    case None =>
      assert st.log == [] && st.store == s;
    case Some(f) =>
      var e := Finalized(f, p);
      assert Finalizes([e]) == multiset{base};
      if f.Plain? || s[base].payload.next.None? {
        assert st.log == [e] && st.store == s;
        assert Finalizes([e]) == multiset{FreeablePtr(p)} + Finalizes([]);
      } else {
        var q := s[base].payload.next.value;
        ReleaseAccounting(s, q);
        var inner := Release(s, q).value;
        assert st.log == [e] + inner.log;
        assert st.store.Keys == inner.store.Keys;
        DestroysAppend([e], inner.log);
        FinalizesAppend([e], inner.log);
        FinalizeThenFinalizesFirst(e, inner.log);
      }
  }

  // ---------------------------------------------------------------------
  // Which callbacks run: the ones the heap held when the release began

  /** Every callback in `log` is the one its block carries in `s`: a
      destructor called on a header is that header's destructor, a finalizer
      called on a payload is that payload's finalizer. */
  ghost predicate EventsFrom(s: Store, log: seq<Event>) {
    forall i :: 0 <= i < |log| ==>
      && (log[i].Destroyed? ==> log[i].header in s && s[log[i].header].rc.destructor == Some(log[i].destructor))
      && (log[i].Finalized? ==> FreeablePtr(log[i].payload) in s && s[FreeablePtr(log[i].payload)].rc.finalizer == Some(log[i].finalizer))
  }

  /** Events of two stretches that each come from `s` come from `s` together. */
  lemma EventsFromAppend(s: Store, a: seq<Event>, b: seq<Event>)
    requires EventsFrom(s, a) && EventsFrom(s, b)
    ensures EventsFrom(s, a + b)
  {
    forall i | 0 <= i < |a + b|
      ensures (a + b)[i] == (if i < |a| then a[i] else b[i - |a|])
    {
    }
  }

  /** Events that come from a heap whose callbacks are those of `s` come from
      `s`. */
  lemma EventsFromKept(s: Store, t: Store, log: seq<Event>)
    requires KeepsCallbacks(s, t) && EventsFrom(t, log)
    ensures EventsFrom(s, log)
  {
  }

  /** A successful release only ever calls callbacks the heap held when it
      began: each destructor and finalizer it invokes is the one stored in
      the block it is invoked on. */
  lemma {:induction false} ReleaseEventsFrom(s: Store, p: Addr)
    requires Release(s, p).Success?
    ensures EventsFrom(s, Release(s, p).value.log)
    decreases |Alive(s)|, 0
  {
    var base := FreeablePtr(p);
    if s[base].rc.count >= 2 {
      ReleaseNotLast(s, p);
    } else {
      ReleaseLastUnfold(s, p);
      var s1 := WithCount(s, base, 0);
      AliveShrinks(s, base, 0);
      FinalizeEventsFrom(s1, base);
      var fin := Finalize(s1, base).value;
      assert KeepsCallbacks(s, s1);
      EventsFromKept(s, s1, fin.log);
      var d := fin.store[base].rc.destructor.value;
      assert EventsFrom(s, [Destroyed(d, base)]);
      EventsFromAppend(s, fin.log, [Destroyed(d, base)]);
    }
  }

  /** The finalizer step of a release calls only the finalizer of `base` and
      callbacks the heap held when it began. */
  lemma {:induction false} FinalizeEventsFrom(s: Store, base: Addr)
    requires base in s && s[base].rc.count < 1
    requires Finalize(s, base).Success?
    ensures EventsFrom(s, Finalize(s, base).value.log)
    decreases |Alive(s)|, 1
  {
    var p := PayloadOf(base);
    PayloadOfFreeablePtr(p);
    match s[base].rc.finalizer
    case None =>
    case Some(f) =>
      assert EventsFrom(s, [Finalized(f, p)]);
      if f.Cascading? && s[base].payload.next.Some? {
        var q := s[base].payload.next.value;
        ReleaseEventsFrom(s, q);
        EventsFromAppend(s, [Finalized(f, p)], Release(s, q).value.log);
      }
  }

  // ---------------------------------------------------------------------
  // Partners: allocation, retain and the setters against release

  /** Allocating and then releasing once returns the heap to what it was,
      after running the finalizer (if any) on the payload and then the
      destructor (`free` when none was given) on the header. */
  lemma AllocReleaseRoundTrip(s: Store, base: Addr, finalizer: Option<Finalizer>, destructor: Option<Destructor>)
    requires base !in s
    ensures var a := Alloc(s, base, finalizer, destructor);
      Release(a.store, a.ptr) == Success(Step(s, FinalizerEvents(finalizer, a.ptr) + [Destroyed(destructor.GetOr(Free), base)]))
  {
    var a := Alloc(s, base, finalizer, destructor);
    ReleaseLastQuiet(a.store, a.ptr);
    assert a.store - {base} == s;
  }

  /** A release undoes a retain: same heap, no events. */
  lemma ReleaseUndoesRetain(s: Store, p: Addr)
    requires Live(s, p) && 1 <= s[FreeablePtr(p)].rc.count < IntMax
    ensures Release(Retain(s, p), p) == Success(Step(s, []))
  {
    var base := FreeablePtr(p);
    var t := Retain(s, p);
    assert WithCount(t, base, s[base].rc.count) == s;
  }

  /** A retain undoes a release that was not the last. */
  lemma RetainUndoesRelease(s: Store, p: Addr)
    requires Live(s, p) && 2 <= s[FreeablePtr(p)].rc.count <= IntMax
    ensures Release(s, p).Success?
    ensures Retain(Release(s, p).value.store, p) == s
  {
    var base := FreeablePtr(p);
    var t := Release(s, p).value.store;
    assert t == WithCount(s, base, s[base].rc.count - 1);
    assert WithCount(t, base, s[base].rc.count) == s;
  }

  /** The finalizer installed by `set_finalizer` is the one the destroying
      release invokes, first, and the block's destructor still runs last.
      When the new finalizer releases nothing, the whole outcome is known. */
  lemma SetFinalizerUsedAtRelease(s: Store, p: Addr, finalizer: Option<Finalizer>)
    requires Live(s, p) && s[FreeablePtr(p)].rc.count == 1 && s[FreeablePtr(p)].rc.destructor.Some?
    ensures var r := Release(SetFinalizer(s, p, finalizer), p);
      r.Success? ==>
        && |r.value.log| >= 1
        && (finalizer.Some? ==> r.value.log[0] == Finalized(finalizer.value, p))
        && r.value.log[|r.value.log| - 1] == Destroyed(s[FreeablePtr(p)].rc.destructor.value, FreeablePtr(p))
    ensures Quiet(SetFinalizer(s, p, finalizer)[FreeablePtr(p)]) ==>
      Release(SetFinalizer(s, p, finalizer), p)
        == Success(Step(s - {FreeablePtr(p)}, FinalizerEvents(finalizer, p) + [Destroyed(s[FreeablePtr(p)].rc.destructor.value, FreeablePtr(p))]))
  {
    var t := SetFinalizer(s, p, finalizer);
    if Release(t, p).Success? {
      ReleaseLastOrder(t, p);
    }
    if Quiet(t[FreeablePtr(p)]) {
      ReleaseLastQuiet(t, p);
      assert t - {FreeablePtr(p)} == s - {FreeablePtr(p)};
    }
  }

  /** The destructor installed by `set_destructor` is the one the destroying
      release invokes, last.  A null one is called too, which is undefined:
      such a release never succeeds, and when the finalizer releases nothing
      it is exactly the null call that fails. */
  lemma SetDestructorUsedAtRelease(s: Store, p: Addr, destructor: Option<Destructor>)
    requires Live(s, p) && s[FreeablePtr(p)].rc.count == 1
    ensures var r := Release(SetDestructor(s, p, destructor), p);
      r.Success? ==>
        && destructor.Some?
        && |r.value.log| >= 1
        && r.value.log[|r.value.log| - 1] == Destroyed(destructor.value, FreeablePtr(p))
        && (s[FreeablePtr(p)].rc.finalizer.Some? ==> r.value.log[0] == Finalized(s[FreeablePtr(p)].rc.finalizer.value, p))
    ensures destructor.Some? && Quiet(s[FreeablePtr(p)]) ==>
      Release(SetDestructor(s, p, destructor), p)
        == Success(Step(s - {FreeablePtr(p)}, FinalizerEvents(s[FreeablePtr(p)].rc.finalizer, p) + [Destroyed(destructor.value, FreeablePtr(p))]))
    ensures destructor.None? && Quiet(s[FreeablePtr(p)]) ==>
      Release(SetDestructor(s, p, destructor), p) == Failure(NullDestructor(FreeablePtr(p)))
  {
    var t := SetDestructor(s, p, destructor);
    if Release(t, p).Success? {
      ReleaseLastUnfold(t, p);
      ReleaseLastOrder(t, p);
    }
    if destructor.Some? && Quiet(s[FreeablePtr(p)]) {
      ReleaseLastQuiet(t, p);
      assert t - {FreeablePtr(p)} == s - {FreeablePtr(p)};
    }
  }

  /** Each setter overwrites only its own field: the later call wins, and the
      two setters commute. */
  lemma SettersOverwrite(s: Store, p: Addr, f1: Option<Finalizer>, f2: Option<Finalizer>, d1: Option<Destructor>, d2: Option<Destructor>)
    requires Live(s, p)
    ensures SetFinalizer(SetFinalizer(s, p, f1), p, f2) == SetFinalizer(s, p, f2)
    ensures SetDestructor(SetDestructor(s, p, d1), p, d2) == SetDestructor(s, p, d2)
    ensures SetFinalizer(SetDestructor(s, p, d1), p, f1) == SetDestructor(SetFinalizer(s, p, f1), p, d1)
  {
  }

  // ---------------------------------------------------------------------
  // n retains need n + 1 releases

  /** `retain` applied `n` times. */
  function RetainTimes(s: Store, p: Addr, n: nat): (t: Store)
    requires Live(s, p) && s[FreeablePtr(p)].rc.count + n <= IntMax
    ensures t == WithCount(s, FreeablePtr(p), s[FreeablePtr(p)].rc.count + n)
    decreases n
  {
    if n == 0 then
      assert WithCount(s, FreeablePtr(p), s[FreeablePtr(p)].rc.count) == s;
      s
    else
      var t := Retain(s, p);
      assert WithCount(t, FreeablePtr(p), s[FreeablePtr(p)].rc.count + n) == WithCount(s, FreeablePtr(p), s[FreeablePtr(p)].rc.count + n);
      RetainTimes(t, p, n - 1)
  }

  /** `release` applied `n` times, stopping at the first fault, with the
      events of all of them in order. */
  function ReleaseTimes(s: Store, p: Addr, n: nat): Result<Step, Fault>
    decreases n
  {
    if n == 0 then Success(Step(s, []))
    else
      match Release(s, p)
      case Failure(e) => Failure(e)
      case Success(first) =>
        match ReleaseTimes(first.store, p, n - 1)
        case Failure(e) => Failure(e)
        case Success(rest) => Success(Step(rest.store, first.log + rest.log))
  }

  /** While more than `n` owners remain, `n` releases emit nothing and take
      exactly `n` off the count. */
  lemma {:induction false} ReleaseTimesQuiet(s: Store, p: Addr, n: nat)
    requires Live(s, p) && s[FreeablePtr(p)].rc.count > n
    ensures ReleaseTimes(s, p, n) == Success(Step(WithCount(s, FreeablePtr(p), s[FreeablePtr(p)].rc.count - n), []))
    decreases n
  {
    var base := FreeablePtr(p);
    if n == 0 {
      assert WithCount(s, base, s[base].rc.count) == s;
    } else {
      var t := WithCount(s, base, s[base].rc.count - 1);
      assert Release(s, p) == Success(Step(t, []));
      ReleaseTimesQuiet(t, p, n - 1);
      var none: seq<Event> := [];
      assert none + none == none;
      assert WithCount(t, base, s[base].rc.count - n) == WithCount(s, base, s[base].rc.count - n);
    }
  }

  /** After allocation and `n` retains, the first `n` releases emit no event
      and bring the block back to its freshly allocated state; the next one
      finalizes and destroys it and returns the heap to what it was before the
      allocation. */
  lemma AllocRetainsReleases(s: Store, base: Addr, finalizer: Option<Finalizer>, destructor: Option<Destructor>, n: nat)
    requires base !in s && n < IntMax
    ensures var a := Alloc(s, base, finalizer, destructor);
      && ReleaseTimes(RetainTimes(a.store, a.ptr, n), a.ptr, n) == Success(Step(a.store, []))
      && Release(a.store, a.ptr) == Success(Step(s, FinalizerEvents(finalizer, a.ptr) + [Destroyed(destructor.GetOr(Free), base)]))
  {
    var a := Alloc(s, base, finalizer, destructor);
    var t := RetainTimes(a.store, a.ptr, n);
    ReleaseTimesQuiet(t, a.ptr, n);
    assert WithCount(t, base, 1) == a.store;
    AllocReleaseRoundTrip(s, base, finalizer, destructor);
  }
}
