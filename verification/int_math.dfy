/** The integer helpers of BAFunctions.h and their copies in BASparseArray.h:
    the two `powi` routines, `NextPowerOf2` and `countBits`.
    `NSInteger` products are taken as unbounded: the C code leaves signed
    overflow undefined, so only the in-range behaviour is modelled. */
module IntMath {
  import opened Arith

  /** A `UInt8`: the unit of byte buffers and samples. */
  type Byte = bv8

  // ---------------------------------------------------------------------------
  // powi, BAFunctions.h: square-and-multiply, seeded with 0 for a zero base

  /** The state of the `while (exp)` loop: `result` so far, the squared `base`,
      the remaining `exp`. One call is one iteration. */
  function PowiLoop(result: int, base: int, exp: nat): (r: int)
    ensures r == result * Pow(base, exp)
    decreases exp
  {
    if exp == 0 then result
    else
      var result' := if exp % 2 == 1 then result * base else result;
      PowSplit(base, exp);
      PowiLoop(result', base * base, exp / 2)
  }

  /** One iteration's arithmetic: `base^exp = (base or 1) * (base*base)^(exp/2)`. */
  lemma PowSplit(base: int, exp: nat)
    requires exp > 0
    ensures Pow(base, exp) == (if exp % 2 == 1 then base else 1) * Pow(base * base, exp / 2)
  {
    PowOfProduct(base, base, exp / 2);
    PowAdd(base, exp / 2, exp / 2);
    if exp % 2 == 1 {
      PowAdd(base, 1, 2 * (exp / 2));
      assert exp == 1 + 2 * (exp / 2);
    } else {
      assert exp == 2 * (exp / 2);
    }
  }

  /** `powi` of BAFunctions.h: the result starts at `base ? 1 : 0`. */
  function Powi(base: int, exp: nat): (r: int)
    ensures base != 0 ==> r == Pow(base, exp)
    ensures base == 0 ==> r == 0
  {
    PowiLoop(if base != 0 then 1 else 0, base, exp)
  }

  // ---------------------------------------------------------------------------
  // powi, BASparseArray.h: repeated multiplication, 1 for a zero exponent

  /** The `while (--exp) result *= base;` loop with `k` iterations left. */
  function PowiRepeat(result: int, base: int, k: nat): (r: int)
    ensures r == result * Pow(base, k)
    decreases k
  {
    if k == 0 then result
    else PowiRepeat(result * base, base, k - 1)
  }

  /** `powi` of BASparseArray.h: `exp == 0` answers 1 before the loop. */
  function PowiSparse(base: int, exp: nat): (r: int)
    ensures r == Pow(base, exp)
  {
    if exp == 0 then 1 else PowiRepeat(base, base, exp - 1)
  }

  /** The two `powi` routines agree everywhere except at `(0, 0)`, where the
      BAFunctions.h one answers 0 and the BASparseArray.h one answers 1. */
  lemma PowiAgreement(base: int, exp: nat)
    ensures (base != 0 || exp != 0) ==> Powi(base, exp) == PowiSparse(base, exp)
    ensures Powi(0, 0) == 0 && PowiSparse(0, 0) == 1
  {
    if base == 0 && exp != 0 {
      assert Pow(0, exp) == 0 * Pow(0, exp - 1);
    }
  }

  // ---------------------------------------------------------------------------
  // NextPowerOf2 (identical in BAFunctions.h and BASparseArray.h), on uint32_t

  predicate IsPowerOf2(v: bv32) {
    v != 0 && v & (v - 1) == 0
  }

  /** Decrement, smear the highest set bit downwards, increment; all in 32-bit
      arithmetic, so 0 wraps to 0xFFFFFFFF and back to 0. */
  function NextPowerOf2(v: bv32): (r: bv32)
    ensures 1 <= v <= 0x8000_0000 ==> IsPowerOf2(r) && v <= r && r >> 1 < v
    ensures (v == 0 || v > 0x8000_0000) ==> r == 0
  {
    var v1 := v - 1;
    var v2 := v1 | (v1 >> 1);
    var v3 := v2 | (v2 >> 2);
    var v4 := v3 | (v3 >> 4);
    var v5 := v4 | (v4 >> 8);
    var v6 := v5 | (v5 >> 16);
    v6 + 1
  }

  lemma NextPowerOf2Idempotent(v: bv32)
    requires IsPowerOf2(v)
    ensures NextPowerOf2(v) == v
    ensures NextPowerOf2(NextPowerOf2(v)) == NextPowerOf2(v)
  {
  }

  // ---------------------------------------------------------------------------
  // countBits

  /** The number of `true` entries of `s`: the reference count for `countBits`
      and for every cached set-bit count of the bit arrays. */
  function CountTrue(s: seq<bool>): nat
    decreases |s|
  {
    if |s| == 0 then 0
    else CountTrue(s[..|s| - 1]) + (if s[|s| - 1] then 1 else 0)
  }

  lemma {:induction false} CountTrueBound(s: seq<bool>)
    ensures CountTrue(s) <= |s|
    decreases |s|
  {
    if |s| > 0 {
      CountTrueBound(s[..|s| - 1]);
    }
  }

  /** The set of positions holding `true`: an order-free reading of "the set
      bits", independent of the left-to-right scan `CountTrue` performs. */
  function TrueIndices(s: seq<bool>): (ix: set<int>)
    ensures forall i :: i in ix <==> 0 <= i < |s| && s[i]
  {
    set i | 0 <= i < |s| && s[i]
  }

  /** The scan counts exactly the positions holding `true`. */
  lemma {:induction false} CountTrueIsCardinality(s: seq<bool>)
    ensures CountTrue(s) == |TrueIndices(s)|
    decreases |s|
  {
    if |s| == 0 {
      assert TrueIndices(s) == {};
    } else {
      var init := s[..|s| - 1];
      CountTrueIsCardinality(init);
      if s[|s| - 1] {
        assert TrueIndices(s) == TrueIndices(init) + {|s| - 1};
        assert |s| - 1 !in TrueIndices(init);
      } else {
        assert TrueIndices(s) == TrueIndices(init);
      }
    }
  }

  lemma {:induction false} CountTrueAppend(a: seq<bool>, b: seq<bool>)
    ensures CountTrue(a + b) == CountTrue(a) + CountTrue(b)
    decreases |b|
  {
    if |b| > 0 {
      assert (a + b)[..|a + b| - 1] == a + b[..|b| - 1];
      CountTrueAppend(a, b[..|b| - 1]);
    } else {
      assert a + b == a;
    }
  }

  lemma {:induction false} CountTrueConstant(n: nat, v: bool)
    ensures CountTrue(seq(n, _ => v)) == (if v then n else 0)
    decreases n
  {
    if n > 0 {
      assert seq(n, _ => v)[..n - 1] == seq(n - 1, _ => v);
      CountTrueConstant(n - 1, v);
    }
  }

  /** A count of zero means no entry is set, and a full count means every entry is. */
  lemma {:induction false} CountTrueExtremes(s: seq<bool>)
    ensures CountTrue(s) == 0 <==> forall i | 0 <= i < |s| :: !s[i]
    ensures CountTrue(s) == |s| <==> forall i | 0 <= i < |s| :: s[i]
    decreases |s|
  {
    if |s| > 0 {
      var init := s[..|s| - 1];
      CountTrueExtremes(init);
      CountTrueBound(init);
      assert forall i | 0 <= i < |s| - 1 :: s[i] == init[i];
    }
  }

  /** Changing one entry changes the count by the difference at that entry. */
  lemma CountTrueUpdate(s: seq<bool>, i: nat, v: bool)
    requires i < |s|
    ensures CountTrue(s[i := v]) + (if s[i] then 1 else 0) == CountTrue(s) + (if v then 1 else 0)
  {
    var t := s[i := v];
    assert s == s[..i] + [s[i]] + s[i + 1..];
    assert t == s[..i] + [v] + s[i + 1..];
    CountTrueAppend(s[..i] + [s[i]], s[i + 1..]);
    CountTrueAppend(s[..i], [s[i]]);
    CountTrueAppend(s[..i] + [v], s[i + 1..]);
    CountTrueAppend(s[..i], [v]);
    assert CountTrue([s[i]]) == (if s[i] then 1 else 0) by {
      assert [s[i]][..0] == [];
    }
    assert CountTrue([v]) == (if v then 1 else 0) by {
      assert [v][..0] == [];
    }
  }

  /** `u` is `s` padded with clear entries and then entry `i` set to `v`:
      the count moves by one exactly when entry `i` flips. */
  lemma CountPaddedUpdate(s: seq<bool>, u: seq<bool>, i: nat, v: bool)
    requires |s| <= |u| && i < |u| && u[i] == v
    requires forall j | 0 <= j < |u| && j != i :: u[j] == (j < |s| && s[j])
    ensures CountTrue(u) + (if i < |s| && s[i] then 1 else 0) == CountTrue(s) + (if v then 1 else 0)
  {
    var pad := seq(|u| - |s|, _ => false);
    var padded := s + pad;
    CountTrueAppend(s, pad);
    CountTrueConstant(|u| - |s|, false);
    CountTrueUpdate(padded, i, v);
    assert u == padded[i := v];
  }


  /** `countBits(bits, length)`: counts the set entries among the first `length`
      of a `BOOL` buffer, which must hold at least `length` entries. */
  method CountBits(bits: seq<bool>, length: nat) returns (count: nat)
    requires length <= |bits|
    ensures count == CountTrue(bits[..length])
    ensures count <= length
  {
    count := 0;
    var i := 0;
    while i < length
      invariant i <= length
      invariant count == CountTrue(bits[..i])
      invariant count <= i
    {
      assert bits[..i + 1][..i] == bits[..i];
      if bits[i] {
        count := count + 1;
      }
      i := i + 1;
    }
  }
}
