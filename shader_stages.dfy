/** The `ShaderStages` bitmask and the bind-flag test of `DxBuffer`. The
    bitwise operators on `u32` are written out digit by digit. */
module DxBuffer {

  newtype u32 = x: int | 0 <= x < 0x1_0000_0000

  function Pow2(n: nat): (r: nat)
    ensures r > 0
  {
    if n == 0 then 1 else 2 * Pow2(n - 1)
  }

  /** Bit `i` of `x`, counted from the least significant. */
  predicate Bit(x: nat, i: nat)
    decreases i
  {
    if i == 0 then x % 2 == 1 else Bit(x / 2, i - 1)
  }

  /** Bitwise OR of two naturals. */
  function BitOr(x: nat, y: nat): nat
    decreases x + y
  {
    if x == 0 && y == 0 then 0
    else 2 * BitOr(x / 2, y / 2) + (if x % 2 == 1 || y % 2 == 1 then 1 else 0)
  }

  /** Bitwise AND of two naturals. */
  function BitAnd(x: nat, y: nat): nat
    decreases x + y
  {
    if x == 0 || y == 0 then 0
    else 2 * BitAnd(x / 2, y / 2) + (if x % 2 == 1 && y % 2 == 1 then 1 else 0)
  }

  lemma {:induction false} ZeroHasNoBit(i: nat)
    ensures !Bit(0, i)
    decreases i
  {
    if i > 0 {
      ZeroHasNoBit(i - 1);
    }
  }

  /** Each bit of an OR is the OR of the bits. */
  lemma {:induction false} BitOfOr(x: nat, y: nat, i: nat)
    ensures Bit(BitOr(x, y), i) <==> Bit(x, i) || Bit(y, i)
    decreases i
  {
    if x == 0 && y == 0 {
      ZeroHasNoBit(i);
    } else if i > 0 {
      BitOfOr(x / 2, y / 2, i - 1);
    }
  }

  /** Each bit of an AND is the AND of the bits. */
  lemma {:induction false} BitOfAnd(x: nat, y: nat, i: nat)
    ensures Bit(BitAnd(x, y), i) <==> Bit(x, i) && Bit(y, i)
    decreases i
  {
    if x == 0 || y == 0 {
      ZeroHasNoBit(i);
    } else if i > 0 {
      BitOfAnd(x / 2, y / 2, i - 1);
    }
  }

  /** A natural is non-zero exactly when one of its bits is set. */
  lemma {:induction false} NonZeroHasBit(x: nat)
    ensures x != 0 ==> exists i: nat :: Bit(x, i)
    ensures x == 0 ==> forall i: nat :: !Bit(x, i)
    decreases x
  {
    if x == 0 {
      forall i: nat ensures !Bit(x, i) {
        ZeroHasNoBit(i);
      }
    } else if x % 2 == 1 {
      var i: nat := 0;
      assert Bit(x, i);
    } else {
      assert x / 2 != 0;
      NonZeroHasBit(x / 2);
      var i: nat :| Bit(x / 2, i);
      assert Bit(x, i + 1);
    }
  }

  /** OR stays within `n` bits. */
  lemma {:induction false} OrBelow(x: nat, y: nat, n: nat)
    requires x < Pow2(n) && y < Pow2(n)
    ensures BitOr(x, y) < Pow2(n)
    decreases n
  {
    if n > 0 && !(x == 0 && y == 0) {
      OrBelow(x / 2, y / 2, n - 1);
    }
  }

  /** AND never exceeds its left operand. */
  lemma {:induction false} AndBelow(x: nat, y: nat)
    ensures BitAnd(x, y) <= x
    decreases x + y
  {
    if x != 0 && y != 0 {
      AndBelow(x / 2, y / 2);
    }
  }

  /** `1 << n` has exactly bit `n` set. */
  lemma {:induction false} BitOfPow2(n: nat, i: nat)
    ensures Bit(Pow2(n), i) <==> i == n
    decreases n
  {
    if i > 0 {
      if n == 0 {
        ZeroHasNoBit(i - 1);
      } else {
        BitOfPow2(n - 1, i - 1);
      }
    }
  }

  lemma Pow2Of32()
    ensures Pow2(32) == 0x1_0000_0000
  {
    assert Pow2(8) == 0x100;
    assert Pow2(16) == 0x1_0000;
    assert Pow2(24) == 0x100_0000;
  }

  /** `enum class ShaderStages : u32`, kept as its underlying value. */
  datatype ShaderStages = ShaderStages(bits: u32)

  /** Bit `i` of a mask. */
  predicate HasBit(s: ShaderStages, i: nat) {
    Bit(s.bits as nat, i)
  }

  const None := ShaderStages(0)
  /** `1 << 0` */
  const Vertex := ShaderStages(1)
  /** `1 << 1` */
  const Pixel := ShaderStages(2)
  /** `1 << 2` */
  const Compute := ShaderStages(4)

  /** `operator|`: bitwise OR of the underlying values. */
  function Or(a: ShaderStages, b: ShaderStages): (r: ShaderStages)
    ensures forall i: nat :: HasBit(r, i) <==> HasBit(a, i) || HasBit(b, i)
  {
    var x: nat, y: nat := a.bits as nat, b.bits as nat;
    Pow2Of32();
    OrBelow(x, y, 32);
    forall i: nat ensures Bit(BitOr(x, y), i) <==> Bit(x, i) || Bit(y, i) {
      BitOfOr(x, y, i);
    }
    ShaderStages(BitOr(x, y) as u32)
  }

  /** `operator&`: bitwise AND of the underlying values. */
  function And(a: ShaderStages, b: ShaderStages): (r: ShaderStages)
    ensures forall i: nat :: HasBit(r, i) <==> HasBit(a, i) && HasBit(b, i)
  {
    var x: nat, y: nat := a.bits as nat, b.bits as nat;
    AndBelow(x, y);
    forall i: nat ensures Bit(BitAnd(x, y), i) <==> Bit(x, i) && Bit(y, i) {
      BitOfAnd(x, y, i);
    }
    ShaderStages(BitAnd(x, y) as u32)
  }

  /** `HasStage(stages, stage)`: true exactly when the masks share a set bit. */
  function HasStage(stages: ShaderStages, stage: ShaderStages): (r: bool)
    ensures r ==> exists i: nat :: HasBit(stages, i) && HasBit(stage, i)
    ensures !r ==> forall i: nat :: !(HasBit(stages, i) && HasBit(stage, i))
  {
    var common := And(stages, stage);
    NonZeroHasBit(common.bits as nat);
    assert common.bits != 0 ==> exists i: nat :: HasBit(stages, i) && HasBit(stage, i) by {
      if common.bits != 0 {
        var i: nat :| Bit(common.bits as nat, i);
        assert HasBit(common, i);
      }
    }
    common.bits != 0
  }

  /** The stage constants are 0, 1, 2 and 4: `None` has no bit, and each
      other stage is the single bit 0, 1 or 2 respectively. */
  lemma StageBits(i: nat)
    ensures !HasBit(None, i)
    ensures HasBit(Vertex, i) <==> i == 0
    ensures HasBit(Pixel, i) <==> i == 1
    ensures HasBit(Compute, i) <==> i == 2
  {
    ZeroHasNoBit(i);
    BitOfPow2(0, i);
    BitOfPow2(1, i);
    BitOfPow2(2, i);
  }

  /** No mask has the empty stage. */
  lemma NeverHasNone(s: ShaderStages)
    ensures !HasStage(s, None)
  {
    forall i: nat ensures !HasBit(None, i) {
      ZeroHasNoBit(i);
    }
  }

  /** Membership distributes over `operator|`. */
  lemma HasStageOfOr(a: ShaderStages, b: ShaderStages, t: ShaderStages)
    ensures HasStage(Or(a, b), t) <==> HasStage(a, t) || HasStage(b, t)
  {
  }

  /** A vertex-and-pixel mask has those two stages but not the compute stage. */
  lemma VertexPixelMask()
    ensures HasStage(Or(Vertex, Pixel), Vertex)
    ensures HasStage(Or(Vertex, Pixel), Pixel)
    ensures !HasStage(Or(Vertex, Pixel), Compute)
  {
    StageBits(0);
    StageBits(1);
    forall i: nat ensures !(HasBit(Or(Vertex, Pixel), i) && HasBit(Compute, i)) {
      StageBits(i);
    }
  }

  /** The part of `D3D11_BUFFER_DESC` that `SupportsBinding` reads. */
  datatype BufferDescription = BufferDescription(byteWidth: u32, bindFlags: u32)

  /** `DxBuffer::SupportsBinding(bind)`: true exactly when the description's
      bind flags share a set bit with `bind` (the same test as `HasStage`,
      on `D3D11_BIND_FLAG` values). */
  function SupportsBinding(description: BufferDescription, bind: u32): (r: bool)
    ensures r ==> exists i: nat :: HasBit(ShaderStages(description.bindFlags), i) && HasBit(ShaderStages(bind), i)
    ensures !r ==> forall i: nat :: !(HasBit(ShaderStages(description.bindFlags), i) && HasBit(ShaderStages(bind), i))
  {
    HasStage(ShaderStages(description.bindFlags), ShaderStages(bind))
  }
}
