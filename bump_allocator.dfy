/** The bump allocator installed as the global allocator of both Nucleo firmwares
    (`nucleo_postcard` and `nucleo_embassy` carry the same code): a single `remaining` counter
    counts down from the arena size; each allocation subtracts the size and rounds down to the
    alignment with a bit mask. Pointers are modelled as offsets into the arena, `null` as `None`. */
module BumpAllocator {
  import opened Wrappers
  import Grid

  const ARENA_SIZE: nat := 128 * 1024
  const MAX_SUPPORTED_ALIGN: nat := 4096
  /** 2^32: `usize` is 32 bits wide on the Cortex-M7 targets. */
  const USIZE_LIMIT: nat := 0x1_0000_0000

  /** What `Layout` guarantees of an alignment. */
  predicate IsPowerOfTwo(n: nat)
    decreases n
  {
    n == 1 || (n >= 2 && n % 2 == 0 && IsPowerOfTwo(n / 2))
  }

  /** `a & b` on unsigned integers. */
  function BitAnd(a: nat, b: nat): nat
    decreases a
  {
    if a == 0 || b == 0 then 0
    else 2 * BitAnd(a / 2, b / 2) + (if a % 2 == 1 && b % 2 == 1 then 1 else 0)
  }

  /** `!a` on `usize`. */
  function BitNot(a: nat): nat
    requires a < USIZE_LIMIT
  {
    USIZE_LIMIT - 1 - a
  }

  /** Below a power of two, the mask of all ones below it changes nothing. */
  lemma {:induction false} AndOnes(r: nat, limit: nat)
    requires IsPowerOfTwo(limit) && r < limit
    ensures BitAnd(r, limit - 1) == r
  {
    if r > 0 {
      AndOnes(r / 2, limit / 2);
    }
  }

  /** An even mask keeps no bit 0, so the conjunction is twice that of the halves. */
  lemma AndEvenMask(r: nat, mask: nat)
    requires mask % 2 == 0
    ensures BitAnd(r, mask) == 2 * BitAnd(r / 2, mask / 2)
  {
  }

  /** The remainder by an even divisor 2h, from the remainder of the halved dividend by h. */
  lemma ModDouble(r: nat, h: nat)
    requires h > 0
    ensures r % (2 * h) == 2 * ((r / 2) % h) + r % 2
  {
    var q, k := r / 2, r / 2 / h;
    assert q == k * h + q % h;
    assert k * (2 * h) == 2 * (k * h);
    assert Grid.Idx(2 * h, 2 * (q % h) + r % 2, k) == r;
    Grid.IdxDivMod(2 * h, 2 * (q % h) + r % 2, k);
  }

  lemma DoublePowerOfTwo(n: nat)
    requires IsPowerOfTwo(n)
    ensures IsPowerOfTwo(2 * n)
  {
    assert (2 * n) / 2 == n;
  }

  lemma {:induction false} ProductPowerOfTwo(n: nat, m: nat)
    requires IsPowerOfTwo(n) && IsPowerOfTwo(m)
    ensures IsPowerOfTwo(n * m)
    decreases m
  {
    if m != 1 {
      ProductPowerOfTwo(n, m / 2);
      assert n * m == 2 * (n * (m / 2));
      DoublePowerOfTwo(n * (m / 2));
    }
  }

  lemma UsizeLimitIsPowerOfTwo()
    ensures IsPowerOfTwo(USIZE_LIMIT)
  {
    assert IsPowerOfTwo(4);
    ProductPowerOfTwo(4, 4);
    ProductPowerOfTwo(16, 16);
    ProductPowerOfTwo(256, 256);
    ProductPowerOfTwo(65536, 65536);
  }

  /** Masking with `!(align - 1)` clears the low bits: it rounds down to a multiple of `align`. */
  lemma {:induction false} MaskRoundsDown(r: nat, align: nat, limit: nat)
    requires IsPowerOfTwo(align) && IsPowerOfTwo(limit) && align <= limit && r < limit
    ensures BitAnd(r, limit - align) == r - r % align
  {
    if align == 1 {
      AndOnes(r, limit);
    } else if limit == align {
      Grid.IdxDivMod(align, r, 0);
    } else {
      var h := align / 2;
      assert align == 2 * h && IsPowerOfTwo(h) && IsPowerOfTwo(limit / 2);
      assert (limit - align) / 2 == limit / 2 - h;
      AndEvenMask(r, limit - align);
      MaskRoundsDown(r / 2, h, limit / 2);
      ModDouble(r, h);
      assert r == 2 * (r / 2) + r % 2;
    }
  }

  /** Rounding down to a multiple of `align` gives a multiple of `align`. */
  lemma RoundedDownIsMultiple(x: nat, align: nat)
    requires align > 0
    ensures (x - x % align) % align == 0
  {
    assert x - x % align == Grid.Idx(align, 0, x / align);
    Grid.IdxDivMod(align, 0, x / align);
  }

  /** The update closure handed to `fetch_update`: `None` when the request does not fit below
      `remaining`; otherwise the new `remaining`, which is also the start of the block. The block
      is aligned, lies below the old `remaining`, and wastes less than one alignment unit. */
  function Bump(remaining: nat, size: nat, align: nat): (r: Option<nat>)
    requires IsPowerOfTwo(align) && align <= MAX_SUPPORTED_ALIGN && remaining < USIZE_LIMIT
    ensures r.None? <==> size > remaining
    ensures r.Some? ==> r.value % align == 0 && r.value + size <= remaining
    ensures r.Some? ==> remaining - size - r.value < align
  {
    if size > remaining then None
    else
      UsizeLimitIsPowerOfTwo();
      MaskRoundsDown(remaining - size, align, USIZE_LIMIT);
      RoundedDownIsMultiple(remaining - size, align);
      Some(BitAnd(remaining - size, BitNot(align - 1)))
  }

  /** One successful allocation, as recorded by the model. */
  datatype Block = Block(offset: nat, size: nat, align: nat)

  class SimpleAllocator {
    var remaining: nat
    /** Every block handed out so far, oldest first. */
    ghost var blocks: seq<Block>

    /** The arena is allocated from the top down: every block lies in `[remaining, ARENA_SIZE)`,
        is aligned, and ends where no later block begins. */
    ghost predicate Valid()
      reads this
    {
      && remaining <= ARENA_SIZE
      && (forall i | 0 <= i < |blocks| ::
            && remaining <= blocks[i].offset
            && blocks[i].offset + blocks[i].size <= ARENA_SIZE
            && blocks[i].align > 0 && blocks[i].offset % blocks[i].align == 0)
      && (forall i, j | 0 <= i < j < |blocks| :: blocks[j].offset + blocks[j].size <= blocks[i].offset)
    }

    /** The static `ALLOCATOR`: nothing handed out yet. */
    constructor ()
      ensures Valid() && remaining == ARENA_SIZE && blocks == []
    {
      remaining := ARENA_SIZE;
      blocks := [];
    }

    /** `GlobalAlloc::alloc`, run sequentially. */
    method Alloc(size: nat, align: nat) returns (ptr: Option<nat>)
      requires Valid() && IsPowerOfTwo(align)
      modifies this
      ensures Valid() && remaining <= old(remaining)
      ensures align > MAX_SUPPORTED_ALIGN ==> ptr == None
      ensures align <= MAX_SUPPORTED_ALIGN ==> ptr == Bump(old(remaining), size, align)
      ensures ptr.None? ==> remaining == old(remaining) && blocks == old(blocks)
      ensures ptr.Some? ==>
        && remaining == ptr.value
        && blocks == old(blocks) + [Block(ptr.value, size, align)]
    {
      if align > MAX_SUPPORTED_ALIGN {
        return None;
      }
      var next := Bump(remaining, size, align);
      if next.None? {
        return None;
      }
      remaining := next.value;
      blocks := blocks + [Block(next.value, size, align)];
      return next;
    }
  }

  /** Two allocations in a row from a fresh allocator: the second block lies wholly below the
      first, both inside the arena. */
  method AllocTwice(size1: nat, size2: nat) returns (a: Option<nat>, b: Option<nat>)
    ensures a.Some? && b.Some? ==> b.value + size2 <= a.value && a.value + size1 <= ARENA_SIZE
    ensures a.None? ==> size1 > ARENA_SIZE
  {
    var allocator := new SimpleAllocator();
    a := allocator.Alloc(size1, 8);
    b := allocator.Alloc(size2, 8);
  }
}
