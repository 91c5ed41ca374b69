/** Machine words and the bit operations the runtime applies to them.

The sources use unsigned 32- and 64-bit arithmetic.  Words are modelled as bounded naturals, with
every wrap-around written out.  The bitwise operators are defined bit by bit, and the lemmas relate
the source's shift-and-mask expressions to division and remainder. */
module Words {

  const B32: nat := 0x1_0000_0000
  const B64: nat := 0x1_0000_0000_0000_0000

  /** The index that ends every free list (0xFFFFFFFF). */
  const SENTINEL: nat := 0xFFFF_FFFF

  type Word32 = x: nat | x < 0x1_0000_0000
  type Word64 = x: nat | x < 0x1_0000_0000_0000_0000

  // ---------- bit operations ----------

  function Pow2(k: nat): (p: nat)
    ensures p >= 1
  {
    if k == 0 then 1 else 2 * Pow2(k - 1)
  }

  function BitAnd(x: nat, y: nat): nat {
    if x == 0 || y == 0 then 0 else 2 * BitAnd(x / 2, y / 2) + (x % 2) * (y % 2)
  }

  function BitOr(x: nat, y: nat): nat
    decreases x + y
  {
    if x == 0 then y
    else if y == 0 then x
    else 2 * BitOr(x / 2, y / 2) + (if x % 2 == 1 || y % 2 == 1 then 1 else 0)
  }

  /** Bit `k` of `x`. */
  predicate Bit(x: nat, k: nat) { if k == 0 then x % 2 == 1 else Bit(x / 2, k - 1) }

  /** The operators work bit by bit. */
  lemma {:induction false} BitByBit(x: nat, y: nat, k: nat)
    ensures Bit(BitAnd(x, y), k) <==> Bit(x, k) && Bit(y, k)
    ensures Bit(BitOr(x, y), k) <==> Bit(x, k) || Bit(y, k)
    decreases k
  {
    NoBits(k);
    if k > 0 {
      BitByBit(x / 2, y / 2, k - 1);
    }
    if x > 0 && y > 0 {
      HalvesOfAnd(x, y);
      HalvesOfOr(x, y);
    }
  }

  lemma {:induction false} NoBits(k: nat)
    ensures !Bit(0, k)
  {
    if k > 0 {
      NoBits(k - 1);
    }
  }

  lemma HalvesOfAnd(x: nat, y: nat)
    requires x > 0 && y > 0
    ensures BitAnd(x, y) / 2 == BitAnd(x / 2, y / 2) && (BitAnd(x, y) % 2 == 1 <==> x % 2 == 1 && y % 2 == 1)
  {
  }

  lemma HalvesOfOr(x: nat, y: nat)
    requires x > 0 && y > 0
    ensures BitOr(x, y) / 2 == BitOr(x / 2, y / 2) && (BitOr(x, y) % 2 == 1 <==> x % 2 == 1 || y % 2 == 1)
  {
  }

  /** Masking with `2^k - 1` is remainder modulo `2^k`. */
  lemma {:induction false} MaskIsRemainder(x: nat, k: nat)
    ensures BitAnd(x, Pow2(k) - 1) == x % Pow2(k)
  {
    if k > 0 {
      var p := Pow2(k - 1);
      MaskIsRemainder(x / 2, k - 1);
      RemainderOfDouble(x, p);
      var m := 2 * p - 1;
      assert m / 2 == p - 1 && m % 2 == 1;
      assert x > 0 ==> BitAnd(x, m) == 2 * BitAnd(x / 2, p - 1) + x % 2;
    }
  }

  lemma RemainderOfDouble(x: nat, p: nat)
    requires p > 0
    ensures x % (2 * p) == 2 * ((x / 2) % p) + x % 2
  {
    var q, r := (x / 2) / p, (x / 2) % p;
    assert x / 2 == q * p + r;
    assert x == q * (2 * p) + (2 * r + x % 2);
    RemainderUnique(x, 2 * p, q, 2 * r + x % 2);
  }

  lemma RemainderUnique(x: int, m: int, q: int, r: int)
    requires m > 0 && 0 <= r < m && x == q * m + r
    ensures x / m == q && x % m == r
  {
    var q', r' := x / m, x % m;
    QuotientsAgree(m, q, r, q', r');
  }

  lemma QuotientsAgree(m: int, q: int, r: int, q': int, r': int)
    requires 0 <= r < m && 0 <= r' < m && q * m + r == q' * m + r'
    ensures q == q' && r == r'
  {
    assert (q - q') * m == r' - r;
    MultipleOutgrows(q - q', m);
  }

  lemma MultipleOutgrows(d: int, m: int)
    requires m > 0
    ensures d >= 1 ==> d * m >= m
    ensures d <= -1 ==> d * m <= -m
  {
  }

  /** Or-ing two words whose set bits do not overlap adds them. */
  lemma {:induction false} OrOfDisjointHalves(hi: nat, lo: nat, k: nat)
    requires lo < Pow2(k)
    ensures BitOr(hi * Pow2(k), lo) == hi * Pow2(k) + lo
  {
    if k > 0 && hi > 0 && lo > 0 {
      var p := Pow2(k - 1);
      assert hi * Pow2(k) == 2 * (hi * p);
      OrOfDisjointHalves(hi, lo / 2, k - 1);
    }
  }

  /** The capacity test of the mask-indexed rings, `(c & (c - 1)) == 0`, admits exactly the powers of two. */
  lemma {:induction false} PowerOfTwoTest(c: nat)
    requires c > 0
    ensures BitAnd(c, c - 1) == 0 <==> exists k: nat :: c == Pow2(k)
  {
    if BitAnd(c, c - 1) == 0 {
      var k := PowerOfTwoWitness(c);
    }
    if k: nat :| c == Pow2(k) {
      MaskIsRemainder(c, k);
      RemainderUnique(c, c, 1, 0);
    }
  }

  lemma {:induction false} PowerOfTwoWitness(c: nat) returns (k: nat)
    requires c > 0 && BitAnd(c, c - 1) == 0
    ensures c == Pow2(k)
  {
    if c == 1 {
      k := 0;
      assert Pow2(0) == 1;
    } else if c % 2 == 1 {
      assert (c - 1) / 2 == c / 2;
      BitAndSelf(c / 2);
      assert false;
    } else {
      assert (c - 1) / 2 == c / 2 - 1;
      var j := PowerOfTwoWitness(c / 2);
      k := j + 1;
    }
  }

  lemma {:induction false} BitAndSelf(x: nat)
    ensures BitAnd(x, x) == x
  {
    if x > 0 {
      BitAndSelf(x / 2);
      HalvesOfAnd(x, x);
    }
  }

  /** Ring positions less than a full turn apart use different slots. */
  lemma SlotsDiffer(i: nat, j: nat, capacity: nat)
    requires i < j < i + capacity
    ensures i % capacity != j % capacity
  {
    if i % capacity == j % capacity {
      var q, p := i / capacity, j / capacity;
      assert j - i == (p - q) * capacity;
      MultipleOutgrows(p - q, capacity);
    }
  }

  // ---------- the tagged head word ----------

  /** Truncation to 32 bits. */
  function Wrap32(n: nat): Word32 { n % 0x1_0000_0000 }

  lemma WrapSucc(n: nat)
    ensures Wrap32(Wrap32(n) + 1) == Wrap32(n + 1)
  {
  }

  /** The two halves of the atomic head word: ABA counter above, cell index (or sentinel) below. */
  datatype Head = Head(tag: Word32, index: Word32)

  function Pack(h: Head): Word64 { h.tag * 0x1_0000_0000 + h.index }

  function Unpack(w: Word64): Head { Head(w / 0x1_0000_0000, w % 0x1_0000_0000) }

  /** `pack` and `unpack` are inverse, so comparing head words compares both halves. */
  lemma PackUnpack(h: Head, w: Word64)
    ensures Unpack(Pack(h)) == h
    ensures Pack(Unpack(w)) == w
    ensures Pack(h) == w <==> h == Unpack(w)
  {
    RemainderUnique(Pack(h), B32, h.tag, h.index);
  }

  /** The head a successful CAS installs: tag plus one, wrapping at 2^32, over a new index. */
  function Bump(h: Head, index: Word32): Head { Head(Wrap32(h.tag + 1), index) }

  /** Left shift by 32 in a 64-bit register. */
  function Shl32(x: Word64): Word64 { (x * 0x1_0000_0000) % 0x1_0000_0000_0000_0000 }

  /** Right shift by 32. */
  function Shr32(x: Word64): Word64 { x / 0x1_0000_0000 }

  /** The head word a CAS installs, as the pool computes it with shifts and masks in 64-bit registers. */
  function BumpWord(head: Word64, low: Word64): nat {
    BitOr(Shl32(Shr32(head) + 1), BitAnd(low, SENTINEL))
  }

  /** The pool's shift-and-mask expression increments the tag modulo 2^32 and replaces the index. */
  lemma BumpIsShiftAndMask(head: Word64, low: Word64)
    ensures BumpWord(head, low) == Pack(Bump(Unpack(head), Wrap32(low)))
  {
    var h := Wrap32(Shr32(head) + 1);
    ShiftedTag(Shr32(head) + 1);
    Pow2Of32();
    MaskIsRemainder(low, 32);
    OrOfDisjointHalves(h, Wrap32(low), 32);
  }

  lemma ShiftedTag(h: nat)
    requires h <= B32
    ensures Shl32(h) == Wrap32(h) * B32
  {
    if h == B32 {
      RemainderUnique(h * B32, B64, 1, 0);
      RemainderUnique(h, B32, 1, 0);
    } else {
      RemainderUnique(h * B32, B64, 0, h * B32);
      RemainderUnique(h, B32, 0, h);
    }
  }

  lemma Pow2Of32()
    ensures Pow2(32) == 0x1_0000_0000
  {
    assert Pow2(8) == 256;
    assert Pow2(16) == 65536;
    assert Pow2(24) == 0x100_0000;
  }
}
