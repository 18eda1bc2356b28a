/**
 * The integer helpers of Framework.h: clamp, isPowerOf2, getLowerPowerOf2, the
 * align_to macro, the bit-flag operators generated for FboAttachmentType and
 * to_string(ShaderType).
 */
module Framework {

  // ---------------------------------------------------------------------------
  // clamp
  // ---------------------------------------------------------------------------

  /** clamp(val, minVal, maxVal) = min(max(val, minVal), maxVal), instantiated at int. */
  function Clamp(v: int, lo: int, hi: int): (r: int)
    // with an ordered range the result lies in it and moves v as little as possible
    ensures lo <= hi ==> lo <= r <= hi
    ensures lo <= v <= hi ==> r == v
    ensures v < lo && lo <= hi ==> r == lo
    ensures hi < v ==> r == hi
    // an inverted range: min is applied last, so the upper bound wins
    ensures hi < lo ==> r == hi
  {
    var m := if v < lo then lo else v;
    if hi < m then hi else m
  }

  // ---------------------------------------------------------------------------
  // isPowerOf2
  // ---------------------------------------------------------------------------

  /** The number of one bits of a 64-bit word. */
  function SetBitCount(a: bv64): nat
    decreases a
  {
    if a == 0 then 0 else (if a & 1 == 1 then 1 else 0) + SetBitCount(a >> 1)
  }

  /**
   * isPowerOf2(a): the argument is first converted to uint64_t, and the test is
   * `(t & (t - 1)) == 0`. The parameter here is that converted word.
   */
  predicate IsPowerOf2(t: bv64)
  {
    t & (t - 1) == 0
  }

  lemma {:induction false} NoSetBitsOnlyForZero(a: bv64)
    ensures SetBitCount(a) == 0 <==> a == 0
    decreases a
  {
    if a != 0 && a & 1 == 0 {
      NoSetBitsOnlyForZero(a >> 1);
    }
  }

  /**
   * `t & (t - 1)` clears the lowest set bit, so isPowerOf2 holds exactly for the
   * words with at most one bit set: every power of two, and also zero.
   */
  lemma {:induction false} IsPowerOf2Characterization(t: bv64)
    ensures IsPowerOf2(t) <==> SetBitCount(t) <= 1
    ensures t == 0 ==> IsPowerOf2(t)
    decreases t
  {
    if t == 0 {
    } else if t & 1 == 1 {
      NoSetBitsOnlyForZero(t >> 1);
      OddWordTest(t);
    } else {
      EvenWordTest(t);
      IsPowerOf2Characterization(t >> 1);
    }
  }

  lemma OddWordTest(t: bv64)
    requires t & 1 == 1
    ensures IsPowerOf2(t) <==> t >> 1 == 0
  {
  }

  lemma EvenWordTest(t: bv64)
    requires t != 0 && t & 1 == 0
    ensures IsPowerOf2(t) <==> IsPowerOf2(t >> 1)
  {
  }

  // ---------------------------------------------------------------------------
  // getLowerPowerOf2
  // ---------------------------------------------------------------------------

  /** n is 2^k for some k. */
  predicate IsPow2(n: nat)
    decreases n
  {
    n == 1 || (n > 1 && n % 2 == 0 && IsPow2(n / 2))
  }

  /**
   * getLowerPowerOf2(a): 1 shifted to the highest set bit of a (found by the
   * _BitScanReverse intrinsic, which is specified here by its result). The source
   * asserts a != 0; a is a uint32_t.
   */
  function LowerPowerOf2(a: nat): (p: nat)
    requires 0 < a <= 0xFFFF_FFFF
    ensures IsPow2(p)
    ensures p <= a < 2 * p
    decreases a
  {
    if a == 1 then 1 else 2 * LowerPowerOf2(a / 2)
  }

  /** The result is the only power of two with p <= a < 2p. */
  lemma {:induction false} LowerPowerOf2Unique(a: nat, q: nat)
    requires 0 < a <= 0xFFFF_FFFF
    requires IsPow2(q) && q <= a < 2 * q
    ensures q == LowerPowerOf2(a)
    decreases a
  {
    if a > 1 {
      assert q != 1;
      assert IsPow2(q / 2) && q / 2 <= a / 2 < 2 * (q / 2);
      LowerPowerOf2Unique(a / 2, q / 2);
    }
  }

  // ---------------------------------------------------------------------------
  // align_to
  // ---------------------------------------------------------------------------

  /**
   * align_to(_alignment, _val) = ((_val + _alignment - 1) / _alignment) * _alignment,
   * for a positive alignment and unbounded (non-overflowing) unsigned values.
   */
  function AlignTo(alignment: nat, v: nat): (r: nat)
    requires alignment > 0
    // the least multiple of the alignment that is not below v
    ensures r % alignment == 0
    ensures v <= r < v + alignment
    ensures v % alignment == 0 ==> r == v
  {
    var q := (v + alignment - 1) / alignment;
    AlignToBounds(alignment, v, q);
    q * alignment
  }

  lemma AlignToBounds(alignment: nat, v: nat, q: nat)
    requires alignment > 0
    requires q == (v + alignment - 1) / alignment
    ensures (q * alignment) % alignment == 0
    ensures v <= q * alignment < v + alignment
    ensures v % alignment == 0 ==> q * alignment == v
  {
    var s := v + alignment - 1;
    var rem := s % alignment;
    assert s == q * alignment + rem && 0 <= rem < alignment;
    assert (q * alignment) % alignment == 0 by {
      MultipleModulo(q, alignment);
    }
    if v % alignment == 0 {
      var k := v / alignment;
      assert v == k * alignment;
      assert s == k * alignment + (alignment - 1);
      DivisionUnique(s, alignment, k, alignment - 1);
    }
  }

  lemma MultipleModulo(q: nat, d: nat)
    requires d > 0
    ensures (q * d) % d == 0
  {
    DivisionUnique(q * d, d, q, 0);
  }

  /** Euclidean division has one quotient and remainder. */
  lemma DivisionUnique(n: nat, d: nat, q: nat, rem: nat)
    requires d > 0 && rem < d && n == q * d + rem
    ensures n / d == q && n % d == rem
  {
    var q0, r0 := n / d, n % d;
    assert n == q0 * d + r0 && 0 <= r0 < d;
    if q0 < q {
      MulAddOne(q0, q - q0 - 1, d);
    } else if q < q0 {
      MulAddOne(q, q0 - q - 1, d);
    }
  }

  /** (a + 1 + k) * d == a * d + d + k * d, and the last term is not negative. */
  lemma MulAddOne(a: nat, k: nat, d: nat)
    ensures (a + 1 + k) * d == a * d + d + k * d
    ensures k * d >= 0
  {
  }

  // ---------------------------------------------------------------------------
  // FboAttachmentType and enum_class_operators
  // ---------------------------------------------------------------------------

  /** The enum's underlying value; the operators go through static_cast<int>, a 32-bit int. */
  type FboAttachmentType = bv32

  const None: FboAttachmentType := 0
  const Color: FboAttachmentType := 1
  const Depth: FboAttachmentType := 2
  const Stencil: FboAttachmentType := 4
  const All: FboAttachmentType := Color | Depth | Stencil

  /** The named single-buffer flags that a value contains. */
  function Flags(v: FboAttachmentType): (s: set<FboAttachmentType>)
    ensures s <= {Color, Depth, Stencil}
  {
    (if v & Color != 0 then {Color} else {})
    + (if v & Depth != 0 then {Depth} else {})
    + (if v & Stencil != 0 then {Stencil} else {})
  }

  /** operator& */
  function And(a: FboAttachmentType, b: FboAttachmentType): (r: FboAttachmentType)
    ensures Flags(r) == Flags(a) * Flags(b)
    ensures r & !(a & b) == 0
  {
    a & b
  }

  /** operator| */
  function Or(a: FboAttachmentType, b: FboAttachmentType): (r: FboAttachmentType)
    ensures Flags(r) == Flags(a) + Flags(b)
    ensures a & !r == 0 && b & !r == 0
  {
    a | b
  }

  /** is_set(val, flag) = (val & flag) != None */
  function IsSet(val: FboAttachmentType, flag: FboAttachmentType): (r: bool)
    // for flags made only of the three named bits, "some named bit in common"
    ensures flag & !All == 0 ==> (r <==> Flags(val) * Flags(flag) != {})
    ensures r ==> val != None && flag != None
  {
    And(val, flag) != None
  }

  /** All is 7 and contains each single flag. */
  lemma AllContainsEverySingleFlag()
    ensures All == 7
    ensures IsSet(All, Color) && IsSet(All, Depth) && IsSet(All, Stencil)
    ensures !IsSet(All, None)
    ensures Flags(All) == {Color, Depth, Stencil}
  {
  }

  /** A variable of type FboAttachmentType, so that the compound operators can update it in place. */
  class FboAttachmentVar {
    var value: FboAttachmentType

    constructor (v: FboAttachmentType)
      ensures value == v
    {
      value := v;
    }

    /** operator|=: a = a | b; returns the updated a. */
    method OrAssign(b: FboAttachmentType) returns (r: FboAttachmentType)
      modifies this
      ensures value == Or(old(value), b) && r == value
      ensures Flags(value) == Flags(old(value)) + Flags(b)
    {
      value := Or(value, b);
      r := value;
    }

    /** operator&=: a = a & b; returns the updated a. */
    method AndAssign(b: FboAttachmentType) returns (r: FboAttachmentType)
      modifies this
      ensures value == And(old(value), b) && r == value
      ensures Flags(value) == Flags(old(value)) * Flags(b)
    {
      value := And(value, b);
      r := value;
    }
  }

  // ---------------------------------------------------------------------------
  // to_string(ShaderType)
  // ---------------------------------------------------------------------------

  datatype ShaderType = Vertex | Pixel | Hull | Domain | Geometry | Compute | Count

  /**
   * to_string(ShaderType). Compute and Count reach should_not_get_here(), so the
   * caller must not pass them.
   */
  function ShaderTypeName(t: ShaderType): (r: string)
    requires t != Compute && t != Count
    ensures |r| > 0
    ensures forall i :: 0 <= i < |r| ==> 'a' <= r[i] <= 'z'
  {
    match t
    case Vertex => "vertex"
    case Pixel => "pixel"
    case Hull => "hull"
    case Domain => "domain"
    case Geometry => "geometry"
  }

  /** Distinct shader stages get distinct names. */
  lemma ShaderTypeNameInjective(a: ShaderType, b: ShaderType)
    requires a != Compute && a != Count && b != Compute && b != Count
    requires ShaderTypeName(a) == ShaderTypeName(b)
    ensures a == b
  {
  }
}
