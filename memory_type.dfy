/**
 * Choice of a Vulkan memory type: the first memory type that a resource's
 * `memoryTypeBits` mask allows and whose property flags include all the
 * requested ones, or 0 when there is none.
 */
module Rasterization {

  /** Rust's `u32`. */
  newtype u32 = x: int | 0 <= x < 0x1_0000_0000

  /** One entry of `VkPhysicalDeviceMemoryProperties::memoryTypes`. */
  datatype MemoryType = MemoryType(propertyFlags: bv32, heapIndex: u32)

  /**
   * The device's memory properties: `memoryTypes` is the fixed-size table
   * of which the first `memoryTypeCount` entries are valid.
   */
  datatype MemoryProperties = MemoryProperties(memoryTypeCount: u32, memoryTypes: seq<MemoryType>)

  function Pow2(n: nat): (p: nat)
    ensures p >= 1
  {
    if n == 0 then 1 else 2 * Pow2(n - 1)
  }

  /** Bit `i` of `mask` is set. */
  predicate BitSet(mask: u32, i: nat)
  {
    (mask as nat / Pow2(i)) % 2 == 1
  }

  /** `mask` shifted right by one bit, `n` times (`>>= 1` on a `u32` halves it). */
  function Shifted(mask: u32, n: nat): (s: u32)
    ensures s <= mask
  {
    if n == 0 then mask else Shifted(mask, n - 1) / 2
  }

  lemma MulMono(a: nat, b: nat, d: nat)
    requires a <= b
    ensures a * d <= b * d
  {
    assert b * d == a * d + (b - a) * d;
  }

  lemma DivUnique(x: nat, d: nat, q: nat, r: nat)
    requires d >= 1 && x == q * d + r && r < d
    ensures x / d == q
  {
    var q' := x / d;
    assert x == q' * d + x % d;
    if q' > q {
      MulMono(q + 1, q', d);
    } else if q' < q {
      MulMono(q' + 1, q, d);
    }
  }

  lemma DivHalf(x: nat, a: nat)
    requires a >= 1
    ensures x / a / 2 == x / (2 * a)
  {
    var q := x / a;
    var r := x % a;
    assert x == q * a + r;
    assert q == 2 * (q / 2) + q % 2;
    assert x == (q / 2) * (2 * a) + (q % 2 * a + r);
    DivUnique(x, 2 * a, q / 2, q % 2 * a + r);
  }

  /** Shifting right `n` times brings bit `n` to the lowest position. */
  lemma {:induction false} ShiftedIsDiv(mask: u32, n: nat)
    ensures Shifted(mask, n) as nat == mask as nat / Pow2(n)
  {
    if n > 0 {
      ShiftedIsDiv(mask, n - 1);
      DivHalf(mask as nat, Pow2(n - 1));
    }
  }

  /** The lowest bit of the mask shifted `n` times is bit `n` of the mask. */
  lemma ShiftedLowBit(mask: u32, n: nat)
    ensures Shifted(mask, n) % 2 == 1 <==> BitSet(mask, n)
  {
    ShiftedIsDiv(mask, n);
  }

  /** The flags include every requested property (`flags & properties == properties`). */
  predicate HasProperties(flags: bv32, properties: bv32)
  {
    flags & properties == properties
  }

  /** Memory type `i` is allowed by the mask and has the requested properties. */
  predicate Suitable(props: MemoryProperties, typeBits: u32, properties: bv32, i: nat)
    requires i < |props.memoryTypes|
  {
    BitSet(typeBits, i) && HasProperties(props.memoryTypes[i].propertyFlags, properties)
  }

  /**
   * The index of the first suitable memory type among the first
   * `memoryTypeCount`, or 0 when none is suitable.
   */
  method GetMemoryTypeIndex(props: MemoryProperties, typeBits: u32, properties: bv32) returns (r: u32)
    requires props.memoryTypeCount as int <= |props.memoryTypes|
    ensures r == 0 || r < props.memoryTypeCount
    ensures r < props.memoryTypeCount && Suitable(props, typeBits, properties, r as nat) ==>
      forall j :: 0 <= j < r as nat ==> !Suitable(props, typeBits, properties, j)
    ensures (exists j :: 0 <= j < props.memoryTypeCount as nat && Suitable(props, typeBits, properties, j)) <==>
      r < props.memoryTypeCount && Suitable(props, typeBits, properties, r as nat)
    ensures (forall j :: 0 <= j < props.memoryTypeCount as nat ==> !Suitable(props, typeBits, properties, j)) ==>
      r == 0
  {
    var bits := typeBits;
    var i: u32 := 0;
    while i < props.memoryTypeCount
      invariant i <= props.memoryTypeCount
      invariant bits == Shifted(typeBits, i as nat)
      invariant forall j :: 0 <= j < i as nat ==> !Suitable(props, typeBits, properties, j)
    {
      ShiftedLowBit(typeBits, i as nat);
      // `type_bits & 1 == 1` on the remaining mask
      if bits % 2 == 1 {
        if HasProperties(props.memoryTypes[i].propertyFlags, properties) {
          return i;
        }
      }
      bits := bits / 2;
      i := i + 1;
    }
    return 0;
  }
}
