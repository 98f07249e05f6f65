/** The Internet checksum of RFC 1071, computed from words loaded on a little-endian host. */
module InternetChecksums {
  import opened Common

  const U32: nat := 0x1_0000_0000

  // ----- The sum the code accumulates -----

  function LowFirst(a: int, b: int): int {
    a + 256 * b
  }

  function HighFirst(a: int, b: int): int {
    256 * a + b
  }

  /** The sum of the 16-bit words, first byte low; a last odd byte counts as a low one. */
  function Sum(bytes: seq<Byte>): nat {
    if bytes == [] then 0
    else if |bytes| == 1 then bytes[0]
    else LowFirst(bytes[0], bytes[1]) + Sum(bytes[2..])
  }

  lemma {:induction false} SumConcat(a: seq<Byte>, b: seq<Byte>)
    requires |a| % 2 == 0
    ensures Sum(a + b) == Sum(a) + Sum(b)
    decreases |a|
  {
    if a == [] {
      assert a + b == b;
    } else {
      SumConcat(a[2..], b);
      assert (a + b)[2..] == a[2..] + b;
    }
  }

  lemma {:induction false} SumBound(bytes: seq<Byte>)
    ensures Sum(bytes) <= 65535 * ((|bytes| + 1) / 2)
    ensures Sum(bytes) == 0 <==> forall i :: 0 <= i < |bytes| ==> bytes[i] == 0
    decreases |bytes|
  {
    if |bytes| >= 2 {
      SumBound(bytes[2..]);
      assert forall i :: 2 <= i < |bytes| ==> bytes[i] == bytes[2..][i - 2];
    }
  }

  // ----- The checksum of RFC 1071 -----

  /** One's complement addition of section 1 of RFC 1071: the carry out of the top is added at the bottom. */
  function OnesAdd(a: nat, b: nat): nat {
    if a + b < 65536 then a + b else a + b - 65535
  }

  /** The one's complement sum of the words in network order; a last odd byte is a high one. */
  function OnesSum(bytes: seq<Byte>): (r: nat)
    ensures r < 65536
  {
    if bytes == [] then 0
    else if |bytes| == 1 then HighFirst(bytes[0], 0)
    else OnesAdd(HighFirst(bytes[0], bytes[1]), OnesSum(bytes[2..]))
  }

  /** The complement of the sum. */
  function Checksum(bytes: seq<Byte>): nat {
    65535 - OnesSum(bytes)
  }

  // ----- Byte order -----

  function Swapped(x: nat): nat
    requires x < 65536
  {
    256 * (x % 256) + x / 256
  }

  /** Congruent modulo 65535. */
  ghost predicate Congruent(a: int, b: int) {
    (a - b) % 65535 == 0
  }

  lemma CongruentBy(a: int, b: int, k: int)
    requires a - b == 65535 * k
    ensures Congruent(a, b) && Congruent(b, a)
  {
  }

  lemma CongruentTransitive(a: int, b: int, c: int)
    requires Congruent(a, b) && Congruent(b, c)
    ensures Congruent(a, c)
  {
    CongruentBy(a, c, (a - b) / 65535 + (b - c) / 65535);
  }

  /** Swapping the bytes is multiplying by 256, as section 2(B) of RFC 1071 has it. */
  lemma SwappedIsTimes256(x: nat)
    requires x < 65536
    ensures Congruent(256 * x, Swapped(x))
  {
    CongruentBy(256 * x, Swapped(x), x / 256);
  }

  lemma {:induction false} OnesSumIsTimes256(bytes: seq<Byte>)
    ensures Congruent(256 * Sum(bytes), OnesSum(bytes)) && (OnesSum(bytes) == 0 <==> Sum(bytes) == 0)
    decreases |bytes|
  {
    if |bytes| == 1 || bytes == [] {
      CongruentBy(256 * Sum(bytes), OnesSum(bytes), 0);
    } else {
      OnesSumIsTimes256(bytes[2..]);
      OneWordMore(bytes[0], bytes[1], Sum(bytes[2..]), OnesSum(bytes[2..]));
    }
  }

  lemma OneWordMore(a: Byte, b: Byte, s: nat, o: nat)
    requires o < 65536 && Congruent(256 * s, o) && (o == 0 <==> s == 0)
    ensures Congruent(256 * (LowFirst(a, b) + s), OnesAdd(HighFirst(a, b), o))
    ensures OnesAdd(HighFirst(a, b), o) == 0 <==> LowFirst(a, b) + s == 0
  {
    var k := (256 * s - o) / 65535;
    var carry := if HighFirst(a, b) + o < 65536 then 0 else 1;
    CongruentBy(256 * (LowFirst(a, b) + s), OnesAdd(HighFirst(a, b), o), k + (b as int) + carry);
  }

  /** Two sums that are congruent, and zero together, are the same. */
  lemma SameSum(a: nat, b: nat)
    requires a < 65536 && b < 65536 && Congruent(a, b) && (a == 0 <==> b == 0)
    ensures a == b
  {
  }

  lemma Times256Cancels(a: int, b: int)
    requires Congruent(256 * a, 256 * b)
    ensures Congruent(a, b)
  {
    var k := (256 * a - 256 * b) / 65535;
    // 256 * 256 is one more than 65535
    CongruentBy(a, b, 256 * k - (a - b));
  }

  // ----- Folding -----

  /** The number below 65536 that folding ends with. */
  ghost predicate FoldOf(x: nat, r: nat) {
    r < 65536 && Congruent(x, r) && (r == 0 <==> x == 0)
  }

  lemma FoldStep(x: nat, output: nat)
    requires output >= 65536 && Congruent(x, output) && (output == 0 <==> x == 0)
    ensures var next := output % 65536 + output / 65536; next < output && Congruent(x, next) && (next == 0 <==> x == 0)
  {
    CongruentBy(output, output % 65536 + output / 65536, output / 65536);
    CongruentTransitive(x, output, output % 65536 + output / 65536);
  }

  /**
   * Folding the accumulated state gives the sum in network order, with its bytes swapped, if and only if
   * nothing was lost.
   */
  lemma FoldedIsOnesSum(bytes: seq<Byte>, state: nat, r: nat)
    requires FoldOf(state, r)
    ensures Swapped(r) == OnesSum(bytes) <==> Congruent(state, Sum(bytes)) && (state == 0 <==> Sum(bytes) == 0)
  {
    hide Congruent, Sum, OnesSum;
    var sum := Sum(bytes);
    SwappedZero(r);
    OnesSumIsTimes256(bytes);
    SwappedIsTimes256(r);
    Times256(state, r);
    CongruentTransitive(256 * state, 256 * r, Swapped(r));
    if Congruent(state, sum) && (state == 0 <==> sum == 0) {
      CongruentBack(state, sum);
      Times256(sum, state);
      CongruentBack(256 * state, Swapped(r));
      CongruentTransitive(256 * sum, 256 * state, Swapped(r));
      CongruentBack(256 * sum, Swapped(r));
      CongruentTransitive(Swapped(r), 256 * sum, OnesSum(bytes));
      SameSum(Swapped(r), OnesSum(bytes));
    }
    if Swapped(r) == OnesSum(bytes) {
      CongruentBack(256 * sum, OnesSum(bytes));
      CongruentTransitive(256 * state, Swapped(r), 256 * sum);
      Times256Cancels(state, sum);
    }
  }

  lemma SwappedZero(x: nat)
    requires x < 65536
    ensures Swapped(x) < 65536 && (Swapped(x) == 0 <==> x == 0)
  {
  }

  /** The bytes of the complement, low first, are those of the swapped complement, high first. */
  lemma ComplementSwaps(x: nat)
    requires x < 65536
    ensures var c := 65535 - x; 0 <= c / 256 < 256 && HighFirst(c % 256, c / 256) == 65535 - Swapped(x)
  {
    var high, low := x / 256, x % 256;
    assert 65535 - x == 256 * (255 - high) + (255 - low);
  }

  lemma Times256(a: int, b: int)
    requires Congruent(a, b)
    ensures Congruent(256 * a, 256 * b)
  {
    CongruentBy(256 * a, 256 * b, 256 * ((a - b) / 65535));
  }

  lemma CongruentBack(a: int, b: int)
    requires Congruent(a, b)
    ensures Congruent(b, a)
  {
    CongruentBy(a, b, (a - b) / 65535);
  }

  // ----- The class -----

  class InternetChecksum {
    var state: nat
    var unevenPayload: bool
    /** Everything summed up so far. */
    ghost var payload: seq<Byte>

    ghost predicate Valid()
      reads this
    {
      state == Sum(payload) % U32 && (unevenPayload <==> |payload| % 2 == 1)
    }

    constructor ()
      ensures Valid() && payload == []
    {
      state, unevenPayload, payload := 0, false, [];
    }

    /** update: the state is a 32-bit number. */
    method Update(bytes: seq<Byte>)
      requires Valid() && !unevenPayload
      modifies this
      ensures Valid() && payload == old(payload) + bytes
    {
      hide Sum;
      ghost var sum := Sum(payload);
      assert |payload| % 2 == 0;
      assert bytes[..0] == [];
      SumNothing();
      for i := 0 to |bytes| / 2
        invariant state == (sum + Sum(bytes[..2 * i])) % U32 && payload == old(payload) && !unevenPayload
      {
        var word := LowFirst(bytes[i * 2], bytes[i * 2 + 1]);
        SumWord(bytes, i);
        AddsUp(sum + Sum(bytes[..2 * i]), word);
        state := (state + word) % U32;
      }
      SumConcat(payload, bytes);
      SumLast(bytes);
      if |bytes| % 2 == 1 {
        AddsUp(sum + Sum(bytes[..|bytes| - 1]), bytes[|bytes| - 1]);
        state := (state + bytes[|bytes| - 1]) % U32;
        unevenPayload := true;
      }
      payload := payload + bytes;
    }

    /** The bytes of digest in memory, in network order. */
    method Digest() returns (first: Byte, second: Byte)
      requires Valid()
      ensures HighFirst(first, second) == Checksum(payload) <==> Accurate(payload)
      ensures |payload| <= 131074 ==> HighFirst(first, second) == Checksum(payload)
    {
      hide Congruent, Sum, OnesSum, HighFirst, Accurate;
      CongruentBy(state, state, 0);
      var output := state;
      while output / 65536 != 0
        invariant output >= 0 && Congruent(state, output) && (output == 0 <==> state == 0)
        decreases output
      {
        FoldStep(state, output);
        output := output % 65536 + output / 65536;
      }
      FoldedIsOnesSum(payload, state, output);
      AccurateIff(payload);
      if |payload| <= 131074 {
        NothingLost(payload);
      }
      ComplementSwaps(output);
      var complement := 65535 - output;
      first, second := complement % 256, complement / 256;
    }
  }

  lemma SumNothing()
    ensures Sum([]) == 0 && forall b: Byte :: Sum([b]) == b
  {
  }

  lemma AddsUp(a: nat, b: nat)
    ensures (a % U32 + b) % U32 == (a + b) % U32
  {
  }

  lemma SumLast(bytes: seq<Byte>)
    ensures |bytes| % 2 == 0 ==> Sum(bytes[..2 * (|bytes| / 2)]) == Sum(bytes)
    ensures |bytes| % 2 == 1 ==> Sum(bytes) == Sum(bytes[..2 * (|bytes| / 2)]) + bytes[|bytes| - 1]
  {
    hide Sum;
    var n := 2 * (|bytes| / 2);
    assert bytes == bytes[..n] + bytes[n..];
    SumConcat(bytes[..n], bytes[n..]);
    SumNothing();
    assert bytes[n..] == if |bytes| % 2 == 0 then [] else [bytes[|bytes| - 1]];
  }

  lemma SumWord(bytes: seq<Byte>, i: nat)
    requires 2 * i + 1 < |bytes|
    ensures Sum(bytes[..2 * (i + 1)]) == Sum(bytes[..2 * i]) + LowFirst(bytes[i * 2], bytes[i * 2 + 1])
  {
    var word := bytes[2 * i..2 * (i + 1)];
    assert bytes[..2 * (i + 1)] == bytes[..2 * i] + word;
    SumConcat(bytes[..2 * i], word);
    assert word[2..] == [];
  }

  /** Up to 65537 words, the 32 bits do not overflow. */
  lemma NothingLost(bytes: seq<Byte>)
    requires |bytes| <= 131074
    ensures Sum(bytes) < U32 && Congruent(Sum(bytes) % U32, Sum(bytes))
  {
    hide Sum;
    SumBound(bytes);
    CongruentBy(Sum(bytes), Sum(bytes), 0);
  }

  // ----- The bound is exact -----

  function Repeat(b: Byte, n: nat): (r: seq<Byte>)
    ensures |r| == n
  {
    seq(n, _ => b)
  }

  lemma {:induction false} SumOnes(m: nat)
    ensures Sum(Repeat(255, 2 * m)) == 65535 * m
  {
    if m > 0 {
      SumOnes(m - 1);
      assert Repeat(255, 2 * m)[2..] == Repeat(255, 2 * (m - 1));
    }
  }

  /** Any longer payload can overflow the 32 bits, and then the digest is wrong. */
  lemma LongerCanFail(n: nat) returns (bytes: seq<Byte>)
    requires n > 131074
    ensures |bytes| == n && !Congruent(Sum(bytes) % U32, Sum(bytes))
  {
    hide Sum, Repeat;
    var ones, rest := Repeat(255, 131074), [1] + Repeat(0, n - 131075);
    bytes := ones + rest;
    SumOnes(65537);
    SumConcat(ones, rest);
    SumRest(n - 131075);
  }

  /**
   * What the 32 bits lose is a multiple of 65535 times 2^32, and not everything: for 2^32 is congruent
   * to one.
   */
  predicate Accurate(bytes: seq<Byte>) {
    (Sum(bytes) / U32) % 65535 == 0 && (Sum(bytes) % U32 == 0 ==> Sum(bytes) == 0)
  }

  lemma AccurateIff(bytes: seq<Byte>)
    ensures var state := Sum(bytes) % U32;
            Accurate(bytes) <==> Congruent(state, Sum(bytes)) && (state == 0 <==> Sum(bytes) == 0)
  {
    hide Sum;
    LostIsCongruent(Sum(bytes));
  }

  lemma LostIsCongruent(sum: nat)
    ensures Congruent(sum % U32, sum) <==> (sum / U32) % 65535 == 0
  {
    var lost := sum / U32;
    assert sum == lost * U32 + sum % U32;
    assert sum % U32 - sum == 65535 * (-65537 * lost) - lost;
    RemainderOf(-65537 * lost, lost);
  }

  lemma RemainderOf(k: int, lost: int)
    ensures (65535 * k - lost) % 65535 == 0 <==> lost % 65535 == 0
  {
  }

  lemma AccurateIfShort(bytes: seq<Byte>)
    requires |bytes| <= 131074
    ensures Accurate(bytes)
  {
    hide Sum;
    NothingLost(bytes);
    AccurateIff(bytes);
  }

  lemma AccurateMeans(bytes: seq<Byte>)
    ensures Accurate(bytes) ==> Congruent(Sum(bytes) % U32, Sum(bytes))
  {
    AccurateIff(bytes);
  }

  /** 131074 bytes is exactly as much as is always summed up right. */
  lemma BoundIsExact(n: nat)
    ensures (forall bytes: seq<Byte> :: |bytes| == n ==> Accurate(bytes)) <==> n <= 131074
  {
    hide Accurate;
    if n <= 131074 {
      forall bytes: seq<Byte> | |bytes| == n
        ensures Accurate(bytes)
      {
        AccurateIfShort(bytes);
      }
    } else {
      var bytes := LongerCanFail(n);
      AccurateMeans(bytes);
    }
  }

  lemma SumRest(n: nat)
    ensures Sum([1] + Repeat(0, n)) == 1
  {
    var s := [1] + Repeat(0, n);
    if n > 0 {
      assert s[2..] == Repeat(0, n - 1);
      SumBound(Repeat(0, n - 1));
    }
  }
}
