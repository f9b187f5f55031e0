/**
 * The HyperLogLog register machine of HLLCounter.
 *
 * A counter owns 2^b byte registers. A 32-bit fingerprint is split into a
 * register index (its top b bits) and a rank (one more than the number of
 * leading zeros of its remaining 32 - b bits); adding the fingerprint raises
 * the indexed register to the rank, and the union of two counters is their
 * pointwise maximum. The cardinality estimate computed from the registers is
 * floating-point arithmetic and is not part of this module.
 */
module Hll {
  import opened Bits

  /** A register value: every value a counter ever stores lies in 0..33. */
  type Rank = r: int | 0 <= r <= 33

  /** The numbers of index bits for which the shifts of the counter are well defined. */
  predicate ValidBits(b: int)
  {
    1 <= b <= 30
  }

  // ---------------------------------------------------------------------
  // Splitting a fingerprint
  // ---------------------------------------------------------------------

  /** `getRegisterIndex`: `hash >>> (32 - b)`, the top b bits of the fingerprint. */
  function RegisterIndex(b: int, h: Fingerprint): (i: nat)
    requires ValidBits(b)
    ensures i < Pow2(b)
  {
    Pow2Monotone(32 - b, 32);
    ShiftRight(h, 32 - b)
  }

  /** The 32 - b bits of the fingerprint that are not used for the index. */
  function LowBits(b: int, h: Fingerprint): (low: nat)
    requires ValidBits(b)
    ensures low < Pow2(32 - b)
  {
    h % Pow2(32 - b)
  }

  /** The split loses nothing: index and low bits together give back the fingerprint. */
  lemma SplitFingerprint(b: int, h: Fingerprint)
    requires ValidBits(b)
    ensures h == RegisterIndex(b, h) * Pow2(32 - b) + LowBits(b, h)
  {
    var p := Pow2(32 - b);
    assert RegisterIndex(b, h) == h / p;
    assert LowBits(b, h) == h % p;
    DivMod(h, p);
  }

  /**
   * `getLeadingZeroes`: the leading zeros of `hash << b`, that is, of the low
   * 32 - b bits of the fingerprint followed by b zero bits. It is 32 exactly
   * when all low bits are zero; otherwise it counts the zeros of the low
   * field above its highest set bit.
   */
  function LeadingZeroes(b: int, h: Fingerprint): (z: nat)
    requires ValidBits(b)
    ensures z <= 32
    ensures z == 32 <==> LowBits(b, h) == 0
    ensures z < 32 ==> z < 32 - b && Pow2(31 - b - z) <= LowBits(b, h) < Pow2(32 - b - z)
  {
    var z := NumberOfLeadingZeros(ShiftLeft(h, b));
    LeadingZeroesOfShift(b, h, z);
    z
  }

  /** What `numberOfLeadingZeros(hash << b)` says about the low bits of the fingerprint. */
  lemma LeadingZeroesOfShift(b: int, h: Fingerprint, z: nat)
    requires ValidBits(b) && z == NumberOfLeadingZeros(ShiftLeft(h, b))
    ensures z <= 32
    ensures z == 32 <==> LowBits(b, h) == 0
    ensures z < 32 ==> z < 32 - b && Pow2(31 - b - z) <= LowBits(b, h) < Pow2(32 - b - z)
  {
    var low, x := LowBits(b, h), ShiftLeft(h, b);
    ShiftLeftKeepsLowBits(h, b);
    assert x == low * Pow2(b);
    if low >= 1 {
      MulAtLeast(low, Pow2(b));
    }
    if z < 32 {
      assert Pow2(31 - z) <= x < Pow2(32 - z);
      LeadingZeroesRange(low, b, z, x);
    }
  }

  /** The bounds of `numberOfLeadingZeros(low * 2^b)` transferred to low. */
  lemma LeadingZeroesRange(low: nat, b: nat, z: nat, x: nat)
    requires x == low * Pow2(b)
    requires z < 32 && Pow2(31 - z) <= x < Pow2(32 - z)
    ensures z < 32 - b && Pow2(31 - b - z) <= low < Pow2(32 - b - z)
  {
    var c := Pow2(b);
    assert low >= 1;
    MulAtLeast(c, low);
    assert c * low == low * c;
    if 32 - z <= b {
      Pow2Monotone(32 - z, b);
    }
    Pow2Add(31 - b - z, b);
    Pow2Add(32 - b - z, b);
    MulMonotone(Pow2(31 - b - z), low, c);
    MulStrict(low, Pow2(32 - b - z), c);
  }

  lemma MulMonotone(a: nat, d: nat, c: nat)
    requires c >= 1 && a * c <= d * c
    ensures a <= d
  {
    assert a * c == (a - d) * c + d * c;
    if a > d {
      MulAtLeast(c, a - d);
    }
  }

  lemma MulStrict(a: nat, d: nat, c: nat)
    requires c >= 1 && a * c < d * c
    ensures a < d
  {
    assert a * c == (a - d) * c + d * c;
  }

  /** The value `add` stores: `(byte) (leadingzeroes + 1)`, never wrapped since it is at most 33. */
  function RankOf(b: int, h: Fingerprint): (r: Rank)
    requires ValidBits(b)
    ensures LowBits(b, h) != 0 ==> 1 <= r <= 32 - b
    ensures LowBits(b, h) == 0 ==> r == 33
  {
    LeadingZeroes(b, h) + 1
  }

  // ---------------------------------------------------------------------
  // Register sequences
  // ---------------------------------------------------------------------

  function Max(x: Rank, y: Rank): Rank
  {
    if x < y then y else x
  }

  /** The registers of a new counter. */
  function Zeros(n: nat): (regs: seq<Rank>)
    ensures |regs| == n
  {
    seq(n, _ => 0)
  }

  /** What `add` does to the registers: register i is raised to at least r. */
  function Raise(regs: seq<Rank>, i: nat, r: Rank): (result: seq<Rank>)
    requires i < |regs|
    ensures |result| == |regs|
  {
    regs[i := Max(regs[i], r)]
  }

  /** What `union` does to the registers: the pointwise maximum. */
  function UnionRegisters(s: seq<Rank>, t: seq<Rank>): (u: seq<Rank>)
    requires |s| <= |t|
    ensures |u| == |s|
  {
    seq(|s|, i requires 0 <= i < |s| => Max(s[i], t[i]))
  }

  /** s holds at least the value of t in every register. */
  predicate Dominates(s: seq<Rank>, t: seq<Rank>)
  {
    |s| == |t| && forall i :: 0 <= i < |s| ==> t[i] <= s[i]
  }

  /** The number of zero registers, counted from the front like `emptyRegisters`. */
  function CountZeros(regs: seq<Rank>): (n: nat)
    ensures n <= |regs|
  {
    if regs == [] then 0
    else CountZeros(regs[..|regs| - 1]) + (if regs[|regs| - 1] == 0 then 1 else 0)
  }

  /**
   * Raising one register: it then holds the maximum of its old value and r,
   * every other register is unchanged, and the registers differ from the old
   * ones exactly when r was larger than the old value.
   */
  lemma RaiseEffect(regs: seq<Rank>, i: nat, r: Rank)
    requires i < |regs|
    ensures Dominates(Raise(regs, i, r), regs)
    ensures r <= Raise(regs, i, r)[i]
    ensures forall j :: 0 <= j < |regs| && j != i ==> Raise(regs, i, r)[j] == regs[j]
    ensures Raise(regs, i, r) != regs <==> regs[i] < r
  {
    if regs[i] < r {
      assert Raise(regs, i, r)[i] != regs[i];
    }
  }

  /**
   * The union is the least upper bound of its two arguments: it dominates
   * both, and every sequence that dominates both dominates it.
   */
  lemma UnionLeastUpperBound(s: seq<Rank>, t: seq<Rank>, u: seq<Rank>)
    requires |s| == |t|
    ensures Dominates(UnionRegisters(s, t), s) && Dominates(UnionRegisters(s, t), t)
    ensures Dominates(u, s) && Dominates(u, t) ==> Dominates(u, UnionRegisters(s, t))
  {
  }

  /** The union changes s exactly when t is larger in some register. */
  lemma UnionChanges(s: seq<Rank>, t: seq<Rank>)
    requires |s| <= |t|
    ensures UnionRegisters(s, t) != s <==> exists i :: 0 <= i < |s| && s[i] < t[i]
  {
    if exists i :: 0 <= i < |s| && s[i] < t[i] {
      var i :| 0 <= i < |s| && s[i] < t[i];
      assert UnionRegisters(s, t)[i] != s[i];
    }
  }

  /** Unioning the same counter twice: the second union changes nothing. */
  lemma UnionIdempotent(s: seq<Rank>, t: seq<Rank>)
    requires |s| <= |t|
    ensures UnionRegisters(UnionRegisters(s, t), t) == UnionRegisters(s, t)
    ensures !exists i :: 0 <= i < |s| && UnionRegisters(s, t)[i] < t[i]
  {
  }

  /** Unioning a into a copy of b gives the registers of unioning b into a copy of a. */
  lemma UnionCommutes(s: seq<Rank>, t: seq<Rank>)
    requires |s| == |t|
    ensures UnionRegisters(s, t) == UnionRegisters(t, s)
  {
  }

  /** Registers that only grow leave no more zero registers than before. */
  lemma {:induction false} CountZerosShrinks(s: seq<Rank>, t: seq<Rank>)
    requires Dominates(t, s)
    ensures CountZeros(t) <= CountZeros(s)
  {
    if s != [] {
      CountZerosShrinks(s[..|s| - 1], t[..|t| - 1]);
    }
  }

  /** A new counter has all its registers empty. */
  lemma {:induction false} CountZerosOfZeros(n: nat)
    ensures CountZeros(Zeros(n)) == n
  {
    if n > 0 {
      CountZerosOfZeros(n - 1);
      assert Zeros(n)[..n - 1] == Zeros(n - 1);
    }
  }

  // ---------------------------------------------------------------------
  // What the registers say about the added items
  // ---------------------------------------------------------------------

  /**
   * regs records exactly the items of S when item x goes to register
   * index(x) with rank rank(x): every item's rank is at most its register,
   * and every nonzero register is the rank of some item of S placed there.
   */
  ghost predicate Records(index: int -> nat, rank: int -> Rank, regs: seq<Rank>, S: set<int>)
  {
    && (forall x :: x in S ==> index(x) < |regs| && rank(x) <= regs[index(x)])
    && (forall i :: 0 <= i < |regs| && regs[i] != 0 ==> exists x :: x in S && index(x) == i && rank(x) == regs[i])
  }

  /** The pointwise maximum of registers recording S and registers recording T records S + T. */
  lemma RecordsUnion(index: int -> nat, rank: int -> Rank, s: seq<Rank>, t: seq<Rank>, S: set<int>, T: set<int>)
    requires |s| == |t| && Records(index, rank, s, S) && Records(index, rank, t, T)
    ensures Records(index, rank, UnionRegisters(s, t), S + T)
  {
    var u := UnionRegisters(s, t);
    forall i | 0 <= i < |u| && u[i] != 0
      ensures exists y :: y in S + T && index(y) == i && rank(y) == u[i]
    {
      if s[i] < t[i] {
        var y :| y in T && index(y) == i && rank(y) == t[i];
        assert y in S + T;
      } else {
        var y :| y in S && index(y) == i && rank(y) == s[i];
        assert y in S + T;
      }
    }
  }

  /** Registers recording the same items are equal. */
  lemma RecordsUnique(index: int -> nat, rank: int -> Rank, s: seq<Rank>, t: seq<Rank>, S: set<int>)
    requires |s| == |t| && Records(index, rank, s, S) && Records(index, rank, t, S)
    ensures s == t
  {
    forall i | 0 <= i < |s|
      ensures s[i] == t[i]
    {
      if s[i] != 0 {
        var x :| x in S && index(x) == i && rank(x) == s[i];
        assert s[i] <= t[i];
      }
      if t[i] != 0 {
        var x :| x in S && index(x) == i && rank(x) == t[i];
        assert t[i] <= s[i];
      }
    }
  }

  /** The register a counter with b index bits puts an item in. */
  function ItemIndex(b: int, hash: int -> Fingerprint): int -> nat
    requires ValidBits(b)
  {
    x => RegisterIndex(b, hash(x))
  }

  /** The rank a counter with b index bits records for an item. */
  function ItemRank(b: int, hash: int -> Fingerprint): int -> Rank
    requires ValidBits(b)
  {
    x => RankOf(b, hash(x))
  }

  /**
   * regs is the register state of a counter into which exactly the items of
   * S were added: every item's rank is recorded at its index, and every
   * nonzero register is the rank of some item of S with that index.
   */
  ghost predicate Sketches(b: int, hash: int -> Fingerprint, regs: seq<Rank>, S: set<int>)
    requires ValidBits(b)
  {
    |regs| == Pow2(b) && Records(ItemIndex(b, hash), ItemRank(b, hash), regs, S)
  }

  /** A new counter sketches the empty set. */
  lemma SketchEmpty(b: int, hash: int -> Fingerprint)
    requires ValidBits(b)
    ensures Sketches(b, hash, Zeros(Pow2(b)), {})
  {
  }

  /** Adding x to a counter for S gives a counter for S + {x}. */
  lemma SketchAdd(b: int, hash: int -> Fingerprint, regs: seq<Rank>, S: set<int>, x: int)
    requires ValidBits(b) && Sketches(b, hash, regs, S)
    ensures Sketches(b, hash, Raise(regs, RegisterIndex(b, hash(x)), RankOf(b, hash(x))), S + {x})
  {
    var index, rank := ItemIndex(b, hash), ItemRank(b, hash);
    assert index(x) == RegisterIndex(b, hash(x)) && rank(x) == RankOf(b, hash(x));
    var regs' := Raise(regs, index(x), rank(x));
    forall y | y in S + {x}
      ensures index(y) < |regs'| && rank(y) <= regs'[index(y)]
    {
      if y != x {
        assert y in S;
      }
    }
    forall i | 0 <= i < |regs'| && regs'[i] != 0
      ensures exists y :: y in S + {x} && index(y) == i && rank(y) == regs'[i]
    {
      if i == index(x) && regs[i] < rank(x) {
        assert x in S + {x};
      } else {
        assert regs'[i] == regs[i];
        var y :| y in S && index(y) == i && rank(y) == regs[i];
        assert y in S + {x};
      }
    }
  }

  /** The union of a counter for S and a counter for T is a counter for S + T. */
  lemma SketchUnion(b: int, hash: int -> Fingerprint, s: seq<Rank>, t: seq<Rank>, S: set<int>, T: set<int>)
    requires ValidBits(b) && Sketches(b, hash, s, S) && Sketches(b, hash, t, T)
    ensures Sketches(b, hash, UnionRegisters(s, t), S + T)
  {
    RecordsUnion(ItemIndex(b, hash), ItemRank(b, hash), s, t, S, T);
  }

  /** The registers are determined by the set of added items, whatever the order of additions. */
  lemma SketchUnique(b: int, hash: int -> Fingerprint, s: seq<Rank>, t: seq<Rank>, S: set<int>)
    requires ValidBits(b) && Sketches(b, hash, s, S) && Sketches(b, hash, t, S)
    ensures s == t
  {
    RecordsUnique(ItemIndex(b, hash), ItemRank(b, hash), s, t, S);
  }

  // ---------------------------------------------------------------------
  // The counter
  // ---------------------------------------------------------------------

  /** `HLLCounter`: b and the register array are fixed at construction; the registers change in place. */
  class HLLCounter {
    const b: int
    const counter: array<Rank>

    ghost predicate Valid()
    {
      ValidBits(b) && counter.Length == Pow2(b)
    }

    /** `getRegister`: the value of register j. */
    function GetRegister(j: int): (r: Rank)
      requires 0 <= j < counter.Length
      reads counter
      ensures r == counter[..][j]
    {
      counter[j]
    }

    /** `getNumberOfRegisters`: the length of the register array, 2^b for a valid counter. */
    function GetNumberOfRegisters(): (p: nat)
      ensures Valid() ==> p == Pow2(b)
    {
      counter.Length
    }

    /** `HLLCounter(int b)`: 2^b registers, all zero. */
    constructor (b: int)
      requires ValidBits(b)
      ensures Valid() && this.b == b
      ensures fresh(counter) && counter[..] == Zeros(Pow2(b))
    {
      this.b := b;
      counter := new Rank[Pow2(b)](_ => 0);
    }

    /** `HLLCounter(HLLCounter toCopy)`: the same b and equal registers in a fresh array. */
    constructor Copy(toCopy: HLLCounter)
      requires toCopy.Valid()
      ensures Valid() && b == toCopy.b
      ensures fresh(counter) && counter[..] == toCopy.counter[..]
    {
      b := toCopy.b;
      var regs := toCopy.counter;
      counter := new Rank[regs.Length](i reads regs requires 0 <= i < regs.Length => regs[i]);
    }

    /**
     * `add(int item)`: raises the register at the index of `hash(item)` to the
     * rank of `hash(item)`, touching no other register, and reports whether
     * the register grew.
     */
    method Add(item: int, hash: int -> Fingerprint) returns (changed: bool)
      requires Valid()
      modifies counter
      ensures counter[..] == Raise(old(counter[..]), RegisterIndex(b, hash(item)), RankOf(b, hash(item)))
      ensures changed <==> old(counter[RegisterIndex(b, hash(item))]) < RankOf(b, hash(item))
    {
      var h := hash(item);
      var index := RegisterIndex(b, h);
      var val := RankOf(b, h);
      if val > counter[index] {
        counter[index] := val;
        changed := true;
      } else {
        changed := false;
      }
    }

    /** `emptyRegisters`: the number of registers that are still zero. */
    method EmptyRegisters() returns (emptyBuckets: nat)
      ensures emptyBuckets == CountZeros(counter[..])
    {
      emptyBuckets := 0;
      for i := 0 to counter.Length
        invariant emptyBuckets == CountZeros(counter[..i])
      {
        assert counter[..i + 1][..i] == counter[..i];
        if counter[i] == 0 {
          emptyBuckets := emptyBuckets + 1;
        }
      }
      assert counter[..counter.Length] == counter[..];
    }

    /**
     * `union(HLLCounter other)`: each register becomes the maximum of itself
     * and the register of other at the same index; other is only read, even
     * when it is this very counter. Reports whether some register grew.
     */
    method Union(other: HLLCounter) returns (changed: bool)
      requires counter.Length <= other.counter.Length
      modifies counter
      ensures counter[..] == UnionRegisters(old(counter[..]), old(other.counter[..]))
      ensures changed <==> exists i :: 0 <= i < counter.Length && old(counter[i]) < old(other.counter[i])
    {
      changed := false;
      for i := 0 to counter.Length
        invariant forall j :: 0 <= j < i ==> counter[j] == Max(old(counter[j]), old(other.counter[j]))
        invariant forall j :: i <= j < counter.Length ==> counter[j] == old(counter[j])
        invariant forall j :: i <= j < other.counter.Length ==> other.counter[j] == old(other.counter[j])
        invariant changed <==> exists j :: 0 <= j < i && old(counter[j]) < old(other.counter[j])
      {
        var otherVal := other.GetRegister(i);
        var val := counter[i];
        if otherVal > val {
          counter[i] := otherVal;
          changed := true;
        }
      }
    }
  }
}
