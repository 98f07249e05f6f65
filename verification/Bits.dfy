/** Numbers as sequences of bits, in both orders, and the bitwise operators as arithmetic. */
module Bits {
  import opened Arithmetic
  import opened Common
  import opened Sequences

  function Bit(b: bool): nat {
    if b then 1 else 0
  }

  // ----- Least significant bit first -----

  function Value(bits: seq<bool>): (r: nat) {
    if bits == [] then 0 else Bit(bits[0]) + 2 * Value(bits[1..])
  }

  function BitsOf(value: nat, count: nat): (bits: seq<bool>)
    ensures |bits| == count
  {
    if count == 0 then [] else [value % 2 == 1] + BitsOf(value / 2, count - 1)
  }

  lemma {:induction false} ValueBound(bits: seq<bool>)
    ensures Value(bits) < Pow2(|bits|)
  {
    if bits != [] {
      ValueBound(bits[1..]);
    }
  }

  lemma {:induction false} ValueConcat(a: seq<bool>, b: seq<bool>)
    ensures Value(a + b) == Value(a) + Pow2(|a|) * Value(b)
  {
    if a == [] {
      assert a + b == b;
    } else {
      ValueConcat(a[1..], b);
      ConcatRest(a, b);
      MulAssoc(2, Pow2(|a| - 1), Value(b));
    }
  }

  /** The low bits are the remainder and the high bits the quotient. */
  lemma ValueSplit(bits: seq<bool>, k: nat)
    requires k <= |bits|
    ensures Value(bits[..k]) == Value(bits) % Pow2(k) && Value(bits[k..]) == Value(bits) / Pow2(k)
  {
    hide Value, Pow2;
    ValueConcat(bits[..k], bits[k..]);
    ValueBound(bits[..k]);
    assert bits == bits[..k] + bits[k..];
    DivModUnique(Value(bits), Value(bits[k..]), Value(bits[..k]), Pow2(k));
  }

  lemma {:induction false} ValueOfBits(value: nat, count: nat)
    requires value < Pow2(count)
    ensures Value(BitsOf(value, count)) == value
  {
    if count > 0 {
      ValueOfBits(value / 2, count - 1);
      assert BitsOf(value, count)[1..] == BitsOf(value / 2, count - 1);
    }
  }

  lemma {:induction false} BitsOfValue(bits: seq<bool>)
    ensures BitsOf(Value(bits), |bits|) == bits
  {
    if bits != [] {
      BitsOfValue(bits[1..]);
      var v := Value(bits[1..]);
      assert Value(bits) == Bit(bits[0]) + 2 * v && Value(bits) / 2 == v;
    }
  }

  lemma {:induction false} ValueZeros(bits: seq<bool>)
    requires forall i :: 0 <= i < |bits| ==> !bits[i]
    ensures Value(bits) == 0
  {
    if bits != [] {
      ValueZeros(bits[1..]);
    }
  }

  function Zeros(n: nat): (bits: seq<bool>)
    ensures |bits| == n
  {
    seq(n, _ => false)
  }

  /** The bits of bytes in the order they are stored, each least significant bit first. */
  function BytesBits(bytes: seq<Byte>): (bits: seq<bool>)
    ensures |bits| == 8 * |bytes|
  {
    if bytes == [] then [] else BitsOf(bytes[0], 8) + BytesBits(bytes[1..])
  }

  lemma {:induction false} BytesBitsConcat(a: seq<Byte>, b: seq<Byte>)
    ensures BytesBits(a + b) == BytesBits(a) + BytesBits(b)
  {
    hide BytesBits, BitsOf;
    if a == [] {
      BytesBitsNone();
      assert a + b == b;
    } else {
      BytesBitsConcat(a[1..], b);
      ConcatRest(a, b);
      BytesBitsStep(a);
      BytesBitsStep(a + b);
      Associative(BitsOf(a[0], 8), BytesBits(a[1..]), BytesBits(b));
    }
  }

  lemma BytesBitsNone()
    ensures BytesBits([]) == []
  {
  }

  lemma BytesBitsStep(bytes: seq<Byte>)
    requires bytes != []
    ensures BytesBits(bytes) == BitsOf(bytes[0], 8) + BytesBits(bytes[1..])
  {
  }

  /** The first `n` bytes of a little-endian word in memory. */
  function LowBytes(word: nat, n: nat): (bytes: seq<Byte>)
    ensures |bytes| == n
  {
    if n == 0 then [] else [word % 256] + LowBytes(word / 256, n - 1)
  }

  /** The little-endian word whose first bytes are `bytes` and whose other bytes are zero. */
  function FromBytes(bytes: seq<Byte>): nat {
    if bytes == [] then 0 else bytes[0] + 256 * FromBytes(bytes[1..])
  }

  lemma Pow2Of8()
    ensures Pow2(8) == 256
  {
    assert Pow2(4) == 16;
    Pow2Add(4, 4);
  }

  lemma LowBytesStep(word: nat, n: nat)
    requires n > 0
    ensures LowBytes(word, n) == [word % 256] + LowBytes(word / 256, n - 1)
    ensures LowBytes(word, n)[0] == word % 256 && LowBytes(word, n)[1..] == LowBytes(word / 256, n - 1)
  {
  }

  lemma {:induction false} LowBytesBits(bits: seq<bool>, n: nat)
    requires 8 * n <= |bits|
    ensures BytesBits(LowBytes(Value(bits), n)) == bits[..8 * n]
  {
    if n > 0 {
      hide Value, BitsOf, Pow2, BytesBits, LowBytes;
      Pow2Of8();
      ValueSplit(bits, 8);
      ValueBound(bits[..8]);
      BitsOfValue(bits[..8]);
      LowBytesBits(bits[8..], n - 1);
      LowBytesStep(Value(bits), n);
      BytesBitsStep(LowBytes(Value(bits), n));
      assert bits[..8 * n] == bits[..8] + bits[8..][..8 * (n - 1)];
    }
  }

  lemma {:induction false} FromBytesBits(bytes: seq<Byte>)
    ensures FromBytes(bytes) == Value(BytesBits(bytes))
  {
    if bytes != [] {
      Pow2Of8();
      FromBytesBits(bytes[1..]);
      ValueOfBits(bytes[0], 8);
      ValueConcat(BitsOf(bytes[0], 8), BytesBits(bytes[1..]));
    }
  }

  // ----- Bitwise operators -----

  function Or(a: nat, b: nat): nat
    decreases a + b
  {
    if a == 0 && b == 0 then 0 else Bit(a % 2 == 1 || b % 2 == 1) + 2 * Or(a / 2, b / 2)
  }

  function And(a: nat, b: nat): nat
    decreases a + b
  {
    if a == 0 && b == 0 then 0 else Bit(a % 2 == 1 && b % 2 == 1) + 2 * And(a / 2, b / 2)
  }

  function ShiftLeft64(a: nat, k: nat): nat
    requires k < 64
  {
    (a * Pow2(k)) % Pow2(64)
  }

  function ShiftRight(a: nat, k: nat): nat {
    DivNonneg(a, Pow2(k));
    a / Pow2(k)
  }

  lemma {:induction false} OrZero(a: nat)
    ensures Or(a, 0) == a && Or(0, a) == a
  {
    if a > 0 {
      OrZero(a / 2);
    }
  }

  /** Or with bits above those of `a` is a sum. */
  lemma {:induction false} OrAbove(a: nat, b: nat, k: nat)
    requires a < Pow2(k)
    ensures Or(a, b * Pow2(k)) == a + b * Pow2(k)
  {
    if k == 0 {
      OrZero(b);
    } else {
      var c := b * Pow2(k - 1);
      assert b * Pow2(k) == 2 * c;
      MulNonneg(b, Pow2(k - 1));
      OrAbove(a / 2, b, k - 1);
      if a != 0 || c != 0 {
        assert (2 * c) / 2 == c && (2 * c) % 2 == 0;
      } else {
        OrZero(0);
      }
    }
  }

  lemma {:induction false} AndZero(b: nat)
    ensures And(0, b) == 0 && And(b, 0) == 0
  {
    if b > 0 {
      AndZero(b / 2);
    }
  }

  /** And with a mask of the low bits is a remainder. */
  lemma {:induction false} AndMask(a: nat, k: nat)
    ensures And(a, Pow2(k) - 1) == a % Pow2(k)
  {
    hide And;
    if k == 0 {
      AndZero(a);
    } else {
      AndMask(a / 2, k - 1);
      HalfMod(a, Pow2(k - 1));
      AndOdd(a, Pow2(k - 1) - 1);
    }
  }

  lemma AndOdd(a: nat, m: nat)
    ensures And(a, 2 * m + 1) == a % 2 + 2 * And(a / 2, m)
  {
    assert (2 * m + 1) / 2 == m && (2 * m + 1) % 2 == 1;
  }

  lemma HalfMod(a: nat, p: nat)
    requires p > 0
    ensures a % (2 * p) == a % 2 + 2 * ((a / 2) % p)
  {
    var h := a / 2;
    DivMod(h, p);
    var q, r := h / p, h % p;
    assert a == 2 * h + a % 2;
    MulAssoc(2, q, p);
    assert q * (2 * p) == 2 * (q * p);
    DivModUnique(a, q, 2 * r + a % 2, 2 * p);
  }

  lemma Below(a: nat, i: nat, j: nat)
    requires a < Pow2(i) && i <= j
    ensures a < Pow2(j) && a % Pow2(j) == a
  {
    Pow2Monotone(i, j);
    DivModUnique(a, 0, a, Pow2(j));
  }

  /** A shift that does not push bits out. */
  lemma ShiftLeftFits(a: nat, n: nat, k: nat)
    requires a < Pow2(n) && n + k <= 64 && k < 64
    ensures ShiftLeft64(a, k) == a * Pow2(k)
  {
    MulLt(a, Pow2(n), Pow2(k));
    Pow2Add(n, k);
    MulNonneg(a, Pow2(k));
    Below(a * Pow2(k), n + k, 64);
  }

  // ----- Most significant bit first -----

  function ValueBE(bits: seq<bool>): nat {
    if bits == [] then 0 else 2 * ValueBE(bits[..|bits| - 1]) + Bit(bits[|bits| - 1])
  }

  function BitsOfBE(value: nat, count: nat): (bits: seq<bool>)
    ensures |bits| == count
  {
    if count == 0 then [] else BitsOfBE(value / 2, count - 1) + [value % 2 == 1]
  }

  lemma {:induction false} ValueOfBitsBE(value: nat, count: nat)
    ensures ValueBE(BitsOfBE(value, count)) == value % Pow2(count)
  {
    if count > 0 {
      ValueOfBitsBE(value / 2, count - 1);
      var bits := BitsOfBE(value, count);
      assert bits[..count - 1] == BitsOfBE(value / 2, count - 1);
      HalfMod(value, Pow2(count - 1));
    }
  }

  lemma {:induction false} ValueConcatBE(a: seq<bool>, b: seq<bool>)
    ensures ValueBE(a + b) == ValueBE(a) * Pow2(|b|) + ValueBE(b)
  {
    hide ValueBE;
    if b == [] {
      assert a + b == a;
      ValueNoneBE();
    } else {
      var n, c := |b| - 1, a + b;
      ValueConcatBE(a, b[..n]);
      assert c[..|c| - 1] == a + b[..n] && c[|c| - 1] == b[n];
      ValueStepBE(c);
      ValueStepBE(b);
      MulTwice(ValueBE(a), Pow2(n));
    }
  }

  lemma ValueNoneBE()
    ensures ValueBE([]) == 0
  {
  }

  lemma ValueStepBE(bits: seq<bool>)
    requires bits != []
    ensures ValueBE(bits) == 2 * ValueBE(bits[..|bits| - 1]) + Bit(bits[|bits| - 1])
  {
  }

  lemma MulTwice(a: int, b: int)
    ensures a * (2 * b) == 2 * (a * b)
  {
  }

  lemma {:induction false} ValueBoundBE(bits: seq<bool>)
    ensures ValueBE(bits) < Pow2(|bits|)
  {
    if bits != [] {
      ValueBoundBE(bits[..|bits| - 1]);
    }
  }

  lemma {:induction false} BitAtBE(value: nat, count: nat, i: nat)
    requires i < count
    ensures BitsOfBE(value, count)[i] <==> (value / Pow2(count - 1 - i)) % 2 == 1
  {
    if i < count - 1 {
      BitAtBE(value / 2, count - 1, i);
      DivDiv(value, Pow2(count - 2 - i));
    }
  }

  lemma DivDiv(a: nat, p: nat)
    requires p > 0
    ensures (a / 2) / p == a / (2 * p)
  {
    var h := a / 2;
    DivMod(h, p);
    var q, r := h / p, h % p;
    assert a == 2 * h + a % 2;
    assert q * (2 * p) == 2 * (q * p);
    DivModUnique(a, q, 2 * r + a % 2, 2 * p);
  }

  /** The bits of bytes in the order they are stored, each most significant bit first. */
  function BytesBitsBE(bytes: seq<Byte>): (bits: seq<bool>)
    ensures |bits| == 8 * |bytes|
  {
    if bytes == [] then [] else BitsOfBE(bytes[0], 8) + BytesBitsBE(bytes[1..])
  }

  lemma {:induction false} BytesBitsConcatBE(a: seq<Byte>, b: seq<Byte>)
    ensures BytesBitsBE(a + b) == BytesBitsBE(a) + BytesBitsBE(b)
  {
    hide BytesBitsBE, BitsOfBE;
    BytesBitsNoneBE();
    if a == [] {
      assert a + b == b;
    } else {
      BytesBitsConcatBE(a[1..], b);
      ConcatRest(a, b);
      BytesBitsStepBE(a);
      BytesBitsStepBE(a + b);
      Associative(BitsOfBE(a[0], 8), BytesBitsBE(a[1..]), BytesBitsBE(b));
    }
  }

  lemma BytesBitsNoneBE()
    ensures BytesBitsBE([]) == []
  {
  }

  lemma BytesBitsStepBE(bytes: seq<Byte>)
    requires bytes != []
    ensures BytesBitsBE(bytes) == BitsOfBE(bytes[0], 8) + BytesBitsBE(bytes[1..])
  {
  }

  lemma {:induction false} BitsOfValueBE(bits: seq<bool>)
    ensures BitsOfBE(ValueBE(bits), |bits|) == bits
  {
    if bits != [] {
      var n := |bits| - 1;
      BitsOfValueBE(bits[..n]);
      var v := ValueBE(bits[..n]);
      assert ValueBE(bits) == 2 * v + Bit(bits[n]) && ValueBE(bits) / 2 == v;
    }
  }
}
