/**
 * The reference-counting allocator: `rc_alloc`, `retain`, `release`,
 * `set_destructor` and `set_finalizer`.
 *
 * The heap is an immutable map from header addresses to blocks.  Callbacks
 * are abstract tags; what the allocator does with them (in which order it
 * calls them, with which address, how often) is recorded in an event log.
 * Uses of a pointer the source leaves undefined are preconditions where the
 * caller can see them coming (retain, the setters), and `Fault`s where they
 * can arise deep inside a cascade of finalizers (release).
 */
module Refc {
  import opened Wrappers
  import opened Layout

  /** The largest value of the C `int` that holds the count. */
  const IntMax: int := 0x7fff_ffff

  /** A finalizer, as an abstract tag.  A `Plain` finalizer takes no further
      ownership action (the tests' `debug_finalize` is one).  A `Cascading`
      finalizer owns the record its payload's `next` field points at: it
      releases that record, then clears the field (the tests'
      `node_finalize`). */
  datatype Finalizer = Plain(tag: nat) | Cascading(tag: nat)

  /** A destructor, as an abstract tag; `Free` is the C library's `free`. */
  datatype Destructor = Free | Custom(tag: nat)

  /** The bookkeeping header `rc_t`.  A stored `None` is a null pointer. */
  datatype Rc = Rc(count: int, finalizer: Option<Finalizer>, destructor: Option<Destructor>)

  /** The part of a payload that a finalizer may read: one link to another
      block's payload address (`node_t.next` in the tests). */
  datatype Payload = Payload(next: Option<Addr>)

  /** One allocation: header and payload together. */
  datatype Block = Block(rc: Rc, payload: Payload)

  /** Every block currently allocated, keyed by its header address. */
  type Store = map<Addr, Block>

  /** What a caller can observe: a finalizer invoked on a payload address, or a
      destructor invoked on a header address. */
  datatype Event = Finalized(finalizer: Finalizer, payload: Addr) | Destroyed(destructor: Destructor, header: Addr)

  /** A new heap together with the events that produced it. */
  datatype Step = Step(store: Store, log: seq<Event>)

  /** A new heap together with the payload address `rc_alloc` returned. */
  datatype Allocation = Allocation(store: Store, ptr: Addr)

  /** Undefined behaviour of the source that a release can run into:
      - `Dangling`: the pointer is not the payload of an allocated block;
      - `Reentered`: the block is already being torn down (its count is below
        one), so the source would run its finalizer a second time;
      - `NullDestructor`: `set_destructor` stored a null destructor, which the
        source then calls. */
  datatype Fault = Dangling(ptr: Addr) | Reentered(ptr: Addr) | NullDestructor(header: Addr)

  /** `p` is the payload address of an allocated block. */
  predicate Live(s: Store, p: Addr) {
    FreeablePtr(p) in s
  }

  /** The blocks no release has yet driven below one: the measure that a
      cascade of releases uses up. */
  function Alive(s: Store): set<Addr> {
    set b | b in s && s[b].rc.count >= 1
  }

  /** The heap with the count of the block at `base` set to `c`. */
  function WithCount(s: Store, base: Addr, c: int): Store
    requires base in s
  {
    s[base := s[base].(rc := s[base].rc.(count := c))]
  }

  /** Every block of `t` was in `s` and still carries the same callbacks. */
  ghost predicate KeepsCallbacks(s: Store, t: Store) {
    && t.Keys <= s.Keys
    && forall b :: b in t ==> b in s && t[b].rc.finalizer == s[b].rc.finalizer && t[b].rc.destructor == s[b].rc.destructor
  }

  /** Every block of `s` that is being torn down is left exactly as it was. */
  ghost predicate KeepsDying(s: Store, t: Store) {
    forall b :: b in s && s[b].rc.count < 1 ==> b in t && t[b] == s[b]
  }

  /** Driving one block below one takes exactly that block out of the
      living ones. */
  lemma AliveShrinks(s: Store, base: Addr, c: int)
    requires base in s && s[base].rc.count >= 1 && c < 1
    ensures Alive(WithCount(s, base, c)) == Alive(s) - {base}
    ensures |Alive(WithCount(s, base, c))| < |Alive(s)|
  {
    var t := WithCount(s, base, c);
    assert Alive(t) == Alive(s) - {base};
    assert Alive(s) == Alive(t) + {base};
  }

  /** `rc_alloc`: a fresh block at `base` (the address malloc chose) with
      count 1, the given finalizer (possibly none) and the given destructor,
      or `free` when none is given.  The caller receives the payload address. */
  function Alloc(s: Store, base: Addr, finalizer: Option<Finalizer>, destructor: Option<Destructor>): (a: Allocation)
    requires base !in s
    ensures FreeablePtr(a.ptr) == base
    ensures a.store.Keys == s.Keys + {base}
    ensures a.store[base].rc.count == 1
    ensures a.store[base].rc.finalizer == finalizer
    ensures destructor.None? ==> a.store[base].rc.destructor == Some(Free)
    ensures destructor.Some? ==> a.store[base].rc.destructor == destructor
    ensures forall b :: b in s ==> a.store[b] == s[b]
  {
    var rc := Rc(1, finalizer, Some(destructor.GetOr(Free)));
    Allocation(s[base := Block(rc, Payload(None))], PayloadOf(base))
  }

  /** `retain`: one more owner.  The count rises by one and nothing else in
      the heap changes.  Overflowing the `int` count is undefined, so it is
      excluded. */
  function Retain(s: Store, p: Addr): (t: Store)
    requires Live(s, p) && s[FreeablePtr(p)].rc.count < IntMax
    ensures t.Keys == s.Keys
    ensures t[FreeablePtr(p)].rc.count == s[FreeablePtr(p)].rc.count + 1
    ensures t[FreeablePtr(p)].rc.finalizer == s[FreeablePtr(p)].rc.finalizer
    ensures t[FreeablePtr(p)].rc.destructor == s[FreeablePtr(p)].rc.destructor
    ensures t[FreeablePtr(p)].payload == s[FreeablePtr(p)].payload
    ensures forall b :: b in s && b != FreeablePtr(p) ==> t[b] == s[b]
  {
    var base := FreeablePtr(p);
    WithCount(s, base, s[base].rc.count + 1)
  }

  /** `set_destructor`: replaces the destructor (a null one included) and
      nothing else. */
  function SetDestructor(s: Store, p: Addr, destructor: Option<Destructor>): (t: Store)
    requires Live(s, p)
    ensures t.Keys == s.Keys
    ensures t[FreeablePtr(p)].rc.destructor == destructor
    ensures t[FreeablePtr(p)].rc.count == s[FreeablePtr(p)].rc.count
    ensures t[FreeablePtr(p)].rc.finalizer == s[FreeablePtr(p)].rc.finalizer
    ensures t[FreeablePtr(p)].payload == s[FreeablePtr(p)].payload
    ensures forall b :: b in s && b != FreeablePtr(p) ==> t[b] == s[b]
  {
    var base := FreeablePtr(p);
    s[base := s[base].(rc := s[base].rc.(destructor := destructor))]
  }

  /** `set_finalizer`: replaces the finalizer (possibly by none) and nothing
      else. */
  function SetFinalizer(s: Store, p: Addr, finalizer: Option<Finalizer>): (t: Store)
    requires Live(s, p)
    ensures t.Keys == s.Keys
    ensures t[FreeablePtr(p)].rc.finalizer == finalizer
    ensures t[FreeablePtr(p)].rc.count == s[FreeablePtr(p)].rc.count
    ensures t[FreeablePtr(p)].rc.destructor == s[FreeablePtr(p)].rc.destructor
    ensures t[FreeablePtr(p)].payload == s[FreeablePtr(p)].payload
    ensures forall b :: b in s && b != FreeablePtr(p) ==> t[b] == s[b]
  {
    var base := FreeablePtr(p);
    s[base := s[base].(rc := s[base].rc.(finalizer := finalizer))]
  }

  /** `release`: one owner fewer.  When the count drops below one, the
      finalizer (if any) runs on the payload, then the destructor runs on the
      header and the block is gone.  Releases issued by the finalizer happen
      in between, in the heap as the finalizer sees it; the destructor is read
      after the finalizer returns, as the source does.

      A successful release never changes a callback and never touches a block
      that is being torn down further up the cascade. */
  function Release(s: Store, p: Addr): (r: Result<Step, Fault>)
    ensures r.Success? ==> KeepsCallbacks(s, r.value.store)
    ensures r.Success? ==> KeepsDying(s, r.value.store)
    decreases |Alive(s)|, 0
  {
    var base := FreeablePtr(p);
    if base !in s then Failure(Dangling(p))
    else if s[base].rc.count < 1 then Failure(Reentered(p))
    else
      var count := s[base].rc.count - 1;
      var s1 := WithCount(s, base, count);
      if count >= 1 then Success(Step(s1, []))
      else
        AliveShrinks(s, base, count);
        match Finalize(s1, base)
        case Failure(e) => Failure(e)
        case Success(fin) =>
          match fin.store[base].rc.destructor
          case None => Failure(NullDestructor(base))
          case Some(d) => Success(Step(fin.store - {base}, fin.log + [Destroyed(d, base)]))
  }

  /** The finalizer step of a release that drove the block at `base` below
      one.  A `Plain` finalizer is only invoked; a `Cascading` one, when its
      payload links to another block, releases that block and then clears the
      link.  The block itself stays in the heap, callbacks and count intact,
      for the destructor to reclaim.

      Without a finalizer nothing happens; a finalizer that releases nothing
      is invoked once on the payload.  A cascading finalizer with a link
      succeeds exactly when the release of the linked block does, logs its
      own invocation before every event of that release, and leaves the heap
      that release produced, with only its own link cleared. */
  function Finalize(s: Store, base: Addr): (r: Result<Step, Fault>)
    requires base in s && s[base].rc.count < 1
    ensures s[base].rc.finalizer.None? ==> r == Success(Step(s, []))
    ensures s[base].rc.finalizer.Some? && (s[base].rc.finalizer.value.Plain? || s[base].payload.next.None?) ==>
      r == Success(Step(s, [Finalized(s[base].rc.finalizer.value, PayloadOf(base))]))
    ensures s[base].rc.finalizer.Some? && s[base].rc.finalizer.value.Cascading? && s[base].payload.next.Some? ==>
      && (r.Success? <==> Release(s, s[base].payload.next.value).Success?)
      && (r.Success? ==>
            && r.value.log == [Finalized(s[base].rc.finalizer.value, PayloadOf(base))] + Release(s, s[base].payload.next.value).value.log
            && r.value.store.Keys == Release(s, s[base].payload.next.value).value.store.Keys
            && r.value.store[base].payload.next == None
            && r.value.store == Release(s, s[base].payload.next.value).value.store[base :=
                 Release(s, s[base].payload.next.value).value.store[base].(payload := Payload(None))])
    ensures r.Success? ==> KeepsCallbacks(s, r.value.store)
    ensures r.Success? ==> base in r.value.store && r.value.store[base].rc == s[base].rc
    ensures r.Success? ==> forall b :: b in s && s[b].rc.count < 1 && b != base ==> b in r.value.store && r.value.store[b] == s[b]
    decreases |Alive(s)|, 1
  {
    var p := PayloadOf(base);
    match s[base].rc.finalizer
    case None => Success(Step(s, []))
    case Some(Plain(tag)) => Success(Step(s, [Finalized(Plain(tag), p)]))
    case Some(Cascading(tag)) =>
      match s[base].payload.next
      case None => Success(Step(s, [Finalized(Cascading(tag), p)]))
      case Some(q) =>
        match Release(s, q)
        case Failure(e) => Failure(e)
        case Success(inner) =>
          var cleared := inner.store[base := inner.store[base].(payload := Payload(None))];
          Success(Step(cleared, [Finalized(Cascading(tag), p)] + inner.log))
  }
}
