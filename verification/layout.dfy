/**
 * The memory layout of a reference-counted block: a bookkeeping header
 * immediately followed by the payload, in one allocation.  Callers only ever
 * see the payload address; every operation steps back one header to find the
 * bookkeeping state.
 */
module Layout {

  /** A machine address. */
  type Addr = int

  /** The size of the bookkeeping header (`sizeof(rc_t)`): an `int` padded to
      eight bytes and two function pointers on an LP64 target.  Nothing in the
      model depends on the value beyond its being positive. */
  const HeaderSize: nat := 24

  /** `rc + 1`: the payload address handed to callers for the block whose
      header starts at `base`. */
  function PayloadOf(base: Addr): (p: Addr)
    ensures FreeablePtr(p) == base
    ensures base < p
  {
    base + HeaderSize
  }

  /** `(rc_t*)ptr - 1`: the start of the block, recovered from a payload
      address.  This is `get_freeable_ptr`, and every operation of the
      allocator locates its header this way. */
  function FreeablePtr(p: Addr): (base: Addr)
    ensures base < p
  {
    p - HeaderSize
  }

  /** Header recovery, the other way round: stepping back one header and
      forward again lands on the same payload address. */
  lemma PayloadOfFreeablePtr(p: Addr)
    ensures PayloadOf(FreeablePtr(p)) == p
  {
  }

  /** Distinct blocks have distinct payload addresses. */
  lemma PayloadOfInjective(a: Addr, b: Addr)
    ensures PayloadOf(a) == PayloadOf(b) <==> a == b
  {
  }
}
