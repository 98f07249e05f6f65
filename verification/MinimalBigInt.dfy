/** The fixed-capacity integer that exact decimal-to-float conversion scales by powers of ten. */
module DecimalScaling {
  import opened Arithmetic
  import opened Common
  import opened Words
  import opened Storage
  import opened Shifts
  import opened Multiply

  const WORDS_IN_U64: nat := if WORD_SIZE == 64 then 1 else 2
  const MAX_WORDS_NEEDED: nat := 58 * WORDS_IN_U64

  function Pow(b: nat, n: nat): nat {
    if n == 0 then 1 else MulNonneg(b, Pow(b, n - 1)); b * Pow(b, n - 1)
  }

  lemma {:induction false} PowAdd(b: nat, i: nat, j: nat)
    ensures Pow(b, i + j) == Pow(b, i) * Pow(b, j)
  {
    if i > 0 {
      PowAdd(b, i - 1, j);
      MulAssoc(b, Pow(b, i - 1), Pow(b, j));
    }
  }

  lemma {:induction false} TenIsFiveTimesTwo(n: nat)
    ensures Pow(10, n) == Pow(5, n) * Pow2(n)
  {
    if n > 0 {
      TenIsFiveTimesTwo(n - 1);
      var a, b := Pow(5, n - 1), Pow2(n - 1);
      assert (5 * a) * (2 * b) == 10 * (a * b);
    }
  }

  lemma {:induction false} PowMonotone(b: nat, i: nat, j: nat)
    requires b > 0 && i <= j
    ensures Pow(b, i) <= Pow(b, j)
  {
    if i < j {
      PowMonotone(b, i, j - 1);
      MulLe(1, b, Pow(b, j - 1));
    }
  }

  /** The lowest `i + 1` bits of `n` are its lowest `i` bits and bit `i`. */
  lemma LowBits(n: nat, i: nat)
    ensures n % Pow2(i + 1) == n % Pow2(i) + ((n / Pow2(i)) % 2) * Pow2(i)
    ensures (n / Pow2(i)) % 2 == 0 || (n / Pow2(i)) % 2 == 1
    ensures n % Pow2(i + 1) <= n
  {
    hide Pow2;
    var p := Pow2(i);
    Pow2Step(i);
    var q, r := n / p, n % p;
    DivMod(n, p);
    DivNonneg(n, p);
    var h, b := q / 2, q % 2;
    MulDist(2 * h, b, p);
    MulAssoc(h, 2, p);
    MulLe(0, b, p);
    MulLe(b, 1, p);
    DivModUnique(n, h, b * p + r, 2 * p);
    MulNonneg(h, 2 * p);
  }

  lemma Pow2Step(i: nat)
    ensures Pow2(i + 1) == 2 * Pow2(i)
  {
  }

  const POWERS_COUNT: nat := 11

  /** Entry `i` of the table holds 5^(2^i). On 32-bit hosts most entries end in a zero word. */
  predicate IsPowerOf5Table(table: seq<seq<Word>>) {
    |table| == POWERS_COUNT &&
    forall i :: 0 <= i < POWERS_COUNT ==> 0 < |table[i]| <= MAX_WORDS_NEEDED && Val(table[i]) == Pow(5, Pow2(i))
  }

  /** The entries that the bits of the exponent select have no leading zero words. */
  predicate SelectsTrimmed(table: seq<seq<Word>>, exponent: nat)
    requires IsPowerOf5Table(table)
  {
    forall i :: 0 <= i < POWERS_COUNT && (exponent / Pow2(i)) % 2 == 1 ==> table[i][|table[i]| - 1] != 0
  }

  // ----- Lengths -----

  /** Of `n` words that hold the value, one is dropped if it is zero. */
  function TrimmedLength(n: nat, value: nat): nat {
    if n > 0 && value < Weight(n - 1) then n - 1 else n
  }

  /** The number of words used after a multiplication with a factor of `size` words. */
  function ProductLength(used: nat, size: nat, product: nat): nat {
    if size == 1 then (if product < Weight(used) then used else used + 1)
    else TrimmedLength(Min(MAX_WORDS_NEEDED, used + size), product)
  }

  /**
   * The number of words used after a multiplication with the entries that the lowest `i` bits of the exponent
   * select.
   */
  function PowerLength(used: nat, value: nat, exponent: nat, table: seq<seq<Word>>, i: nat): nat
    requires IsPowerOf5Table(table) && i <= POWERS_COUNT
  {
    if i == 0 then used else
    var before := PowerLength(used, value, exponent, table, i - 1);
    if (exponent / Pow2(i - 1)) % 2 == 1
    then ProductLength(before, |table[i - 1]|, Scaled(value, exponent % Pow2(i)))
    else before
  }

  function Scaled(value: nat, n: nat): nat {
    MulNonneg(value, Pow(5, n));
    value * Pow(5, n)
  }

  /** The words used are exactly those the value needs. */
  predicate Needs(value: nat, used: nat) {
    used > 0 && Weight(used - 1) <= value < Weight(used)
  }

  /** The top word of `n` used words is nonzero exactly when the value needs all of them. */
  lemma TopWord(ws: seq<Word>, n: nat)
    requires 0 < n <= |ws| && AllAre(ws[n..], 0)
    ensures ws[n - 1] != 0 <==> Val(ws) >= Weight(n - 1)
    ensures Val(ws) < Weight(n)
  {
    hide Val, Shift, Up;
    ValTrim(ws, n);
    ValBound(ws[..n]);
    ValStep(ws, n - 1);
    ValBound(ws[..n - 1]);
    ShiftAdd(0, 0, n - 1);
    if ws[n - 1] != 0 {
      ShiftLe(1, ws[n - 1], n - 1);
    }
  }

  lemma Trimmed(ws: seq<Word>, n: nat)
    requires 0 < n <= |ws| && AllAre(ws[n..], 0) && ws[n - 1] == 0
    ensures AllAre(ws[n - 1..], 0)
  {
    assert ws[n - 1..] == [ws[n - 1]] + ws[n..];
  }

  /** The first `i` words have been multiplied by `factor`, with a carry into word `i`. */
  predicate ScaledUpTo(was: seq<Word>, ws: seq<Word>, factor: Word, i: nat, carry: Word)
    requires i <= |was| && i <= |ws|
  {
    Val(ws[..i]) + Shift(carry, i) == Val(was[..i]) * factor
  }

  lemma ScaledNone(ws: seq<Word>, factor: Word)
    ensures ScaledUpTo(ws, ws, factor, 0, 0)
  {
  }

  lemma ScaledStep(was: seq<Word>, ws: seq<Word>, factor: Word, i: nat, carry: Word, low: Word, high: Word)
    requires i < |was| && i < |ws| && ScaledUpTo(was, ws, factor, i, carry)
    requires low + Up(high) == WideMultiply(was[i], factor) + carry
    ensures ScaledUpTo(was, ws[i := low], factor, i + 1, high)
  {
    hide Val, Shift, Up;
    var now, w: int, f: int := ws[i := low], was[i], factor;
    assert now[..i] == ws[..i];
    ValStep(now, i);
    ValStep(was, i);
    MulDist(Val(was[..i]), Shift(w, i), f);
    ShiftMul(f, w, i);
    ShiftAdd(low, Up(high), i);
    ShiftUp(high, i);
    ShiftAdd(f * w, carry, i);
  }

  /** A product that fits needs a carry word only where there is room for one. */
  lemma ScaledAll(was: seq<Word>, ws: seq<Word>, factor: Word, n: nat, carry: Word)
    requires n <= |was| == |ws| && AllAre(was[n..], 0) && AllAre(ws[n..], 0)
    requires ScaledUpTo(was, ws, factor, n, carry) && Val(was) * factor < Weight(|was|)
    ensures carry == 0 ==> Val(ws) == Val(was) * factor < Weight(n)
    ensures carry != 0 ==>
              n < |ws| && Val(ws[n := carry]) == Val(was) * factor >= Weight(n) && AllAre(ws[n := carry][n + 1..], 0)
  {
    hide Val, Shift, Up;
    ValTrim(was, n);
    ValTrim(ws, n);
    ValBound(ws[..n]);
    ShiftAdd(0, 0, n);
    if carry != 0 {
      ShiftLe(1, carry, n);
      if n == |ws| {
        ShiftAdd(0, 0, n);
      }
      var now := ws[n := carry];
      ValTrim(now, n + 1);
      ValStep(now, n);
      assert now[..n] == ws[..n];
    }
  }

  /** A product of `n1` and `n2` words fits n1 + n2 words, or the capacity. */
  lemma ProductFitsIn(ws: seq<Word>, n1: nat, factor: seq<Word>, n: nat)
    requires n1 <= |ws| && AllAre(ws[n1..], 0)
    requires n == Min(|ws|, n1 + |factor|) && Val(ws) * Val(factor) < Weight(|ws|)
    ensures 0 <= Val(ws) * Val(factor) < Weight(n)
  {
    hide Val, Weight;
    var n2, a, b := |factor|, Val(ws), Val(factor);
    ValTrim(ws, n1);
    ValBound(ws[..n1]);
    ValBound(factor);
    WeightSplit(n1, n2);
    MulNonneg(a, b);
    MulLe(a, Weight(n1), b);
    MulLt(b, Weight(n2), Weight(n1));
  }

  /** With nonzero top words on both sides one word too many is all it can be. */
  lemma ProductNeeds(value: nat, n1: nat, factor: nat, n2: nat)
    requires Needs(value, n1) && Needs(factor, n2) && value * factor < Weight(MAX_WORDS_NEEDED)
    ensures value * factor >= 0 && Needs(value * factor, ProductLength(n1, n2, value * factor))
  {
    hide Weight;
    var product := value * factor;
    ScaledBetween(Weight(n1 - 1), value, Weight(n1), Weight(n2 - 1), factor, Weight(n2));
    WeightSplit(n1, n2);
    WeightSplit(n1 - 1, n2 - 1);
    if n2 == 1 {
      MulLe(1, factor, value);
    } else {
      var n := Min(MAX_WORDS_NEEDED, n1 + n2);
      if n >= 2 {
        WeightMonotone(n - 2, n1 + n2 - 2);
      }
    }
  }

  lemma ScaledBetween(lo: int, a: int, hi: int, lo': int, b: int, hi': int)
    requires 0 < lo <= a < hi && 0 < lo' <= b < hi'
    ensures 0 < lo * lo' <= a * b < hi * hi'
  {
    MulLt(0, lo, lo');
    MulLe(lo, a, lo');
    MulLe(lo', b, a);
    MulLt(a, hi, b);
    MulLt(b, hi', hi);
  }

  lemma WeightMonotone(i: nat, j: nat)
    requires i <= j
    ensures Weight(i) <= Weight(j)
  {
    ShiftMonotone(1, i, j);
  }

  /** A result that fits the first `n` words, with zeroes above it, is the value of all of them. */
  lemma Stored(span: Span, was: seq<Word>, now: seq<Word>, result: nat)
    requires span.offset == 0 && span.size <= |was| && span.OnlyChanged(was, now) && AllAre(was[span.size..], 0)
    requires Val(now[..span.size]) == result % Weight(span.size) && result < Weight(span.size)
    ensures AllAre(now[span.size..], 0) && Val(now) == result
  {
    hide Val, Weight;
    assert now[span.size..] == was[span.size..];
    DivModUnique(result, 0, result, Weight(span.size));
    ValTrim(now, span.size);
  }

  class MinimalBigInt {
    var usedLength: nat
    const words: array<Word>

    predicate Valid()
      reads this, words
    {
      && words.Length == MAX_WORDS_NEEDED
      && usedLength <= MAX_WORDS_NEEDED
      && AllAre(words[usedLength..], 0)
    }

    /** The value is positive and its top used word is nonzero. */
    predicate Normalized()
      requires Valid()
      reads this, words
    {
      usedLength > 0 && words[usedLength - 1] != 0
    }

    function Value(): nat
      reads words
    {
      Val(words[..])
    }

    /** It is normalized exactly if the value needs all the words that are used. */
    lemma NormalizedIff()
      requires Valid()
      ensures Normalized() <==> Needs(Value(), usedLength)
    {
      hide Val, Weight;
      if usedLength > 0 {
        TopWord(words[..], usedLength);
      }
    }

    constructor ()
      ensures Valid() && fresh(words) && Value() == 0 && usedLength == 0
    {
      usedLength := 0;
      words := new Word[MAX_WORDS_NEEDED](_ => 0);
      new;
      ValZeros(words[..]);
    }

    /** The copy the multiplications read while they overwrite the original. */
    constructor Copy(other: MinimalBigInt)
      requires other.Valid()
      ensures Valid() && fresh(words) && words[..] == other.words[..] && usedLength == other.usedLength
    {
      usedLength := other.usedLength;
      words := new Word[MAX_WORDS_NEEDED](i requires 0 <= i < other.words.Length reads other.words => other.words[i]);
      new;
      assert words[..] == other.words[..];
    }
  
    /** The used words, grown to `newLength` or to the capacity. */
    method GetStorage(newLength: nat) returns (span: Span)
      requires Valid()
      modifies this
      ensures Valid() && usedLength == if newLength > old(usedLength) then Min(MAX_WORDS_NEEDED, newLength)
              else old(usedLength)
      ensures span == Span(false, words, 0, usedLength)
    {
      if newLength > usedLength {
        assert words[Min(MAX_WORDS_NEEDED, newLength)..]
               == words[usedLength..][Min(MAX_WORDS_NEEDED, newLength) - usedLength..];
        usedLength := Min(MAX_WORDS_NEEDED, newLength);
      }
      span := Span(false, words, 0, usedLength);
    }

    method TrimLastWordIfZero()
      requires Valid()
      modifies this
      ensures Valid() && words[..] == old(words[..]) && usedLength == TrimmedLength(old(usedLength), Value())
    {
      hide Val, Weight;
      if usedLength > 0 {
        TopWord(words[..], usedLength);
        if words[usedLength - 1] == 0 {
          Trimmed(words[..], usedLength);
          usedLength := usedLength - 1;
        }
      }
    }

    method MultiplyWithWord(factor: Word)
      requires Valid() && Value() * factor < Weight(MAX_WORDS_NEEDED)
      modifies this, words
      ensures Valid() && Value() == old(Value()) * factor && usedLength == ProductLength(old(usedLength), 1, Value())
    {
      hide Val, Weight, ScaledUpTo, WideMultiply, Up, Shift;
      ghost var was := words[..];
      var carry: Word, i := 0, 0;
      ScaledNone(was, factor);
      while i < usedLength
        invariant 0 <= i <= usedLength == old(usedLength)
        invariant forall k :: i <= k < words.Length ==> words[k] == was[k]
        invariant ScaledUpTo(was, words[..], factor, i, carry)
      {
        ProductFits(words[i], factor, carry);
        var result: DoubleWord := WideMultiply(words[i], factor) + carry;
        LowHigh(result);
        ScaledStep(was, words[..], factor, i, carry, Low(result), High(result));
        ghost var before := words[..];
        carry, words[i] := High(result), Low(result);
        assert words[..] == before[i := Low(result)];
        i := i + 1;
      }
      assert words[usedLength..] == was[usedLength..];
      ScaledAll(was, words[..], factor, usedLength, carry);
      if carry != 0 {
        ghost var before := words[..];
        words[usedLength] := carry;
        assert words[..] == before[usedLength := carry];
        usedLength := usedLength + 1;
      }
    }
  
    /** The product with a longer factor, computed from a copy into the grown storage. */
    method MultiplyWithStorage(factor: Span)
      requires Valid()
      requires factor.Valid() && !factor.signed && factor.data != words && 2 <= factor.size <= MAX_BIG_INT_LENGTH
      requires Value() * Val(factor.Words()) < Weight(MAX_WORDS_NEEDED)
      modifies this, words
      ensures Valid() && Value() == old(Value()) * Val(factor.Words())
      ensures usedLength == ProductLength(old(usedLength), factor.size, Value())
    {
      hide Val, Weight;
      ghost var was, product := words[..], Value() * Val(factor.Words());
      var copy := new MinimalBigInt.Copy(this);
      ghost var n := Min(MAX_WORDS_NEEDED, usedLength + factor.size);
      ProductFitsIn(was, usedLength, factor.Words(), n);
      ValTrim(was, usedLength);
      var source := Span(false, copy.words, 0, usedLength);
      assert source.Words() == was[..usedLength];
      var target := GetStorage(usedLength + factor.size);
      BaselineMul(source, factor, target);
      assert words[..][..n] == target.Words();
      Stored(target, was, words[..], product);
      TrimLastWordIfZero();
    }

    /** A factor that needs two words only arises where words are 32 bits wide. */
    method MultiplyWithSmall(value: nat)
      requires Valid() && value < 0x1_0000_0000_0000_0000 && Value() * value < Weight(MAX_WORDS_NEEDED)
      modifies this, words
      ensures Valid() && Value() == old(Value()) * value
      ensures usedLength == ProductLength(old(usedLength), if value < BASE then 1 else 2, Value())
    {
      if value <= BASE - 1 {
        MultiplyWithWord(value);
      } else {
        hide Val, Weight;
        HighFits(value);
        var data := new Word[2](i => if i == 0 then value % BASE else value / BASE);
        var factor := Span(false, data, 0, 2);
        assert factor.Words() == [value % BASE, value / BASE];
        ValTwo(factor.Words());
        MultiplyWithStorage(factor);
      }
    }
  
    method MultiplyWithConstant(factor: seq<Word>)
      requires Valid() && 0 < |factor| <= MAX_WORDS_NEEDED && Value() * Val(factor) < Weight(MAX_WORDS_NEEDED)
      modifies this, words
      ensures Valid() && Value() == old(Value()) * Val(factor)
      ensures usedLength == ProductLength(old(usedLength), |factor|, Value())
    {
      hide Val, Weight;
      if |factor| == 1 {
        ValOne(factor);
        MultiplyWithSmall(factor[0]);
      } else {
        var data := new Word[|factor|](i requires 0 <= i < |factor| => factor[i]);
        var span := Span(false, data, 0, |factor|);
        assert span.Words() == factor;
        MultiplyWithStorage(span);
      }
    }

    /** add_small: one or two words are added, and a carry if there is one. */
    method AddSmall(value: nat)
      requires Valid() && value < 0x1_0000_0000_0000_0000 && Value() + value < Weight(MAX_WORDS_NEEDED)
      modifies this, words
      ensures Valid() && Value() == old(Value()) + value && usedLength == SumLength(old(usedLength), value, Value())
      ensures Normalized() <==> Needs(Value(), usedLength)
    {
      hide Val, Weight, Needs;
      if usedLength == 0 && value <= BASE - 1 {
        ghost var was := words[..];
        words[0] := value;
        assert words[..] == was[0 := value];
        assert words[1..] == was[0..][1..];
        FirstWord(was, words[..]);
        usedLength := 1;
      } else {
        AddStorage(value);
      }
      NormalizedIff();
    }

    method AddStorage(value: nat)
      requires Valid() && value < 0x1_0000_0000_0000_0000 && Value() + value < Weight(MAX_WORDS_NEEDED)
      modifies this, words
      ensures Valid() && Value() == old(Value()) + value
      ensures usedLength == var n := Max(old(usedLength), WORDS_IN_U64); if Value() < Weight(n) then n else n + 1
    {
      hide Val, Weight, Fits;
      ghost var was := words[..];
      var small := SmallStorage(value);
      var initial := GetStorage(0);
      var expanded := GetStorage(Max(usedLength, WORDS_IN_U64));
      ghost var n := usedLength;
      assert initial.Words() == was[..initial.size];
      ValTrim(was, initial.size);
      ShortFits(initial.Words(), n);
      ShortFits(small.Words(), n);
      var overflow := Add(false, initial, small, expanded, false);
      assert words[..][..n] == expanded.Words() && words[n..] == was[n..];
      SumOverflow(was, initial.size, value, words[..], n, overflow);
      if overflow != 0 {
        ghost var before := words[..];
        words[usedLength] := 1;
        assert words[..] == before[n := 1];
        usedLength := usedLength + 1;
      }
    }

    /** add_digits: the digits of `value` follow those there are. */
    method AddDigits(value: nat, digits: nat)
      requires Valid() && value < 0x1_0000_0000_0000_0000 && digits < 20
      requires Value() * Pow(10, digits) + value < Weight(MAX_WORDS_NEEDED)
      modifies this, words
      ensures Valid() && Value() == old(Value()) * Pow(10, digits) + value
      ensures var used := ProductLength(old(usedLength), if Pow(10, digits) < BASE then 1
                                        else 2, old(Value()) * Pow(10, digits));
              usedLength == SumLength(used, value, Value())
      ensures Normalized() <==> Needs(Value(), usedLength)
    {
      hide Val, Weight, Pow, Needs, ProductLength;
      TenFits(digits);
      MultiplyWithSmall(Pow(10, digits));
      AddSmall(value);
    }

    /**
     * Binary exponentiation over the table of 5^(2^i). The value is exact for every table; it stays
     * normalized where the entries used have no leading zero words, and in general exactly if it needs
     * the number of words that `PowerLength` counts.
     */
    method MultiplyWithPowerOf5(exponent: nat, powerOf5: seq<seq<Word>>)
      requires Valid() && exponent < Pow2(POWERS_COUNT) && IsPowerOf5Table(powerOf5)
      requires Value() * Pow(5, exponent) < Weight(MAX_WORDS_NEEDED)
      modifies this, words
      ensures Valid() && Value() == old(Value()) * Pow(5, exponent)
      ensures usedLength == PowerLength(old(usedLength), old(Value()), exponent, powerOf5, POWERS_COUNT)
      ensures Normalized() <==> Needs(Value(), usedLength)
      ensures old(Normalized()) && SelectsTrimmed(powerOf5, exponent) ==> Normalized()
    {
      hide Val, Weight, Pow2, Pow, Needs, ProductLength, PowerLength;
      var i := 0;
      NoBits(exponent);
      ghost var start, used, normalized := Value(), usedLength, Normalized() && SelectsTrimmed(powerOf5, exponent);
      PowerLengthNone(used, start, exponent, powerOf5);
      NormalizedIff();
      while i < POWERS_COUNT
        invariant 0 <= i <= POWERS_COUNT
        invariant Valid() && Value() == Scaled(start, exponent % Pow2(i)) &&
                  usedLength == PowerLength(used, start, exponent, powerOf5, i)
        invariant normalized ==> Needs(Value(), usedLength)
      {
        LowBits(exponent, i);
        PowerLengthStep(used, start, exponent, powerOf5, i);
        if (exponent / Pow2(i)) % 2 == 1 {
          ScaledByPower(start, exponent % Pow2(i), Pow2(i), exponent, Weight(MAX_WORDS_NEEDED));
          ghost var value, length := Value(), usedLength;
          MultiplyWithConstant(powerOf5[i]);
          if normalized {
            EntryNeeds(powerOf5[i]);
            ProductNeeds(value, length, Val(powerOf5[i]), |powerOf5[i]|);
          }
        }
        i := i + 1;
      }
      DivModUnique(exponent, 0, exponent, Pow2(POWERS_COUNT));
      NormalizedIff();
    }

    method MultiplyWithPowerOf2(exponent: nat)
      requires Valid() && Value() * Pow2(exponent) < Weight(MAX_WORDS_NEEDED)
      requires Value() == 0 ==> exponent <= MAX_WORDS_NEEDED * WORD_SIZE
      modifies this, words
      ensures Valid() && Value() == old(Value()) * Pow2(exponent)
      ensures usedLength == ShiftedLength(old(usedLength), exponent, Value())
      ensures Normalized() <==> Needs(Value(), usedLength)
      ensures old(Normalized()) ==> Normalized()
    {
      hide Val, Weight, Pow2, Needs;
      NormalizedIff();
      ghost var value, length := Value(), usedLength;
      if exponent != 0 {
        ghost var was, product := words[..], Value() * Pow2(exponent);
        var maxNewLength := usedLength + (exponent + WORD_SIZE - 1) / WORD_SIZE;
        ShiftFits(was, usedLength, exponent, Min(MAX_WORDS_NEEDED, maxNewLength));
        if usedLength != MAX_WORDS_NEEDED {
          words[usedLength] := 0;
          assert words[..] == was;
        }
        var storage := GetStorage(maxNewLength);
        ValTrim(was, usedLength);
        assert storage.Words() == was[..usedLength];
        ShiftLeft(storage, exponent, storage);
        assert words[..][..usedLength] == storage.Words();
        Stored(storage, was, words[..], product);
        TrimLastWordIfZero();
      } else {
        assert Pow2(0) == 1 by { Pow2AtZero(); }
      }
      NormalizedIff();
      if Needs(value, length) {
        ShiftNeeds(value, length, exponent);
      }
    }

    /**
     * Scales by exactly 10^exponent whenever the result fits the array, whatever the value and the table.
     * It stays normalized where the entries used have no leading zero words.
     */
    method MultiplyWithPowerOf10(exponent: nat, powerOf5: seq<seq<Word>>)
      requires Valid() && exponent < Pow2(POWERS_COUNT) && IsPowerOf5Table(powerOf5)
      requires Value() * Pow(10, exponent) < Weight(MAX_WORDS_NEEDED)
      modifies this, words
      ensures Valid() && Value() == old(Value()) * Pow(10, exponent)
      ensures var used := PowerLength(old(usedLength), old(Value()), exponent, powerOf5, POWERS_COUNT);
              usedLength == ShiftedLength(used, exponent, Value())
      ensures Normalized() <==> Needs(Value(), usedLength)
      ensures old(Normalized()) && SelectsTrimmed(powerOf5, exponent) ==> Normalized()
    {
      hide Val, Weight, Pow2, Pow, Needs, PowerLength, SelectsTrimmed, IsPowerOf5Table;
      TenIsFiveTimesTwo(exponent);
      MulAssoc(Value(), Pow(5, exponent), Pow2(exponent));
      MulNonneg(Value(), Pow(5, exponent));
      MulLe(1, Pow2(exponent), Value() * Pow(5, exponent));
      MultiplyWithPowerOf5(exponent, powerOf5);
      TableExponents(exponent);
      MultiplyWithPowerOf2(exponent);
    }
  }

  /** The number of words used after an addition of a value of 64 bits. */
  function SumLength(used: nat, value: nat, sum: nat): nat {
    if used == 0 && value < BASE then 1 else
    var n := Max(used, WORDS_IN_U64); if sum < Weight(n) then n else n + 1
  }

  /** get_storage_of a value of 64 bits */
  method SmallStorage(value: nat) returns (small: Span)
    requires value < 0x1_0000_0000_0000_0000
    ensures small.Valid() && !small.signed && small.size == WORDS_IN_U64 && fresh(small.data) &&
            Val(small.Words()) == value
  {
    SmallFits(value);
    var data := new Word[WORDS_IN_U64](i => if i == 0 then value % BASE else value / BASE);
    small := Span(false, data, 0, WORDS_IN_U64);
    SmallVal(value, small.Words());
  }

  lemma ShortFits(ws: seq<Word>, n: nat)
    requires |ws| <= n
    ensures Fits(false, ws, n)
  {
  }

  lemma SmallFits(value: nat)
    requires value < 0x1_0000_0000_0000_0000
    ensures value / BASE < BASE && (WORDS_IN_U64 == 1 ==> value < BASE)
  {
  }

  lemma SmallVal(value: nat, ws: seq<Word>)
    requires value < 0x1_0000_0000_0000_0000 && |ws| == WORDS_IN_U64 && ws[0] == value % BASE
    requires WORDS_IN_U64 == 2 ==> value / BASE < BASE && ws[1] == value / BASE
    ensures Val(ws) == value
  {
    hide Val;
    if WORDS_IN_U64 == 1 {
      ValOne(ws);
    } else {
      ValTwo(ws);
    }
  }

  lemma FirstWord(was: seq<Word>, ws: seq<Word>)
    requires |was| > 0 && AllAre(was, 0) && |ws| == |was| && ws[1..] == was[1..]
    ensures AllAre(ws[1..], 0) && Val(was) == 0 && Val(ws) == ws[0]
  {
    hide Val;
    ValZeros(was);
    assert AllAre(ws[1..], 0);
    ValTrim(ws, 1);
    ValOne(ws[..1]);
  }

  /** What the addition leaves over goes into one more word, for which there is room. */
  lemma SumOverflow(was: seq<Word>, used: nat, value: nat, ws: seq<Word>, n: nat, overflow: int)
    requires |was| == |ws| && used <= n <= |ws| && n >= WORDS_IN_U64 && AllAre(was[used..], 0) && ws[n..] == was[n..]
    requires value < 0x1_0000_0000_0000_0000 && Val(was) + value < Weight(|ws|)
    requires Val(was) + value == Val(ws[..n]) + overflow * Weight(n)
    ensures overflow == 0 ==> AllAre(ws[n..], 0) && Val(ws) == Val(was) + value < Weight(n)
    ensures overflow != 0 ==>
              n < |ws| && AllAre(ws[n := 1][n + 1..], 0) && Val(ws[n := 1]) == Val(was) + value >= Weight(n)
  {
    hide Val, Weight;
    assert was[n..] == was[used..][n - used..];
    ValTrim(was, used);
    ValBound(was[..used]);
    WeightMonotone(used, n);
    SmallWeight(n);
    ValBound(ws[..n]);
    var w := Weight(n);
    if overflow != 0 {
      OnlyOne(overflow, w, Val(was) + value - Val(ws[..n]));
      var now := ws[n := 1];
      assert now[..n] == ws[..n] && now[n + 1..] == ws[n..][1..];
      ValTrim(now, n + 1);
      ValStep(now, n);
      WeightIsShift(n);
    } else {
      ValTrim(ws, n);
    }
  }

  lemma OnlyOne(k: int, w: int, x: int)
    requires w > 0 && k != 0 && x == k * w && -w < x < 2 * w
    ensures k == 1
  {
    if k < 0 {
      MulLe(k, -1, w);
    } else if k > 1 {
      MulLe(2, k, w);
    }
  }

  lemma SmallWeight(n: nat)
    requires n >= WORDS_IN_U64
    ensures Weight(n) >= 0x1_0000_0000_0000_0000
  {
    ShiftMonotone(1, WORDS_IN_U64, n);
    if WORDS_IN_U64 == 1 {
      ShiftOnce(1);
    } else {
      ShiftTwice();
    }
  }

  lemma WeightIsShift(n: nat)
    ensures Shift(1, n) == Weight(n)
  {
  }

  lemma TenFits(digits: nat)
    requires digits < 20
    ensures Pow(10, digits) < 0x1_0000_0000_0000_0000
  {
    PowMonotone(10, digits, 19);
    PowAdd(10, 9, 10);
    PowAdd(10, 4, 5);
    PowAdd(10, 5, 5);
    assert Pow(10, 4) == 10_000 && Pow(10, 5) == 100_000;
  }

  /** A table entry with a zero word on top, as most are on 32-bit hosts, leaves one in the product. */
  method LeadingZeroExample(table: seq<seq<Word>>) returns (five: MinimalBigInt)
    requires IsPowerOf5Table(table) && table[0] == [5, 0]
    ensures five.Valid() && five.Value() == 5 && !five.Normalized()
  {
    hide Val, Weight;
    five := new MinimalBigInt();
    ExampleFits();
    five.AddSmall(1);
    five.MultiplyWithPowerOf5(1, table);
    ExampleLength(table);
  }

  lemma ExampleFits()
    ensures 1 < BASE <= Weight(MAX_WORDS_NEEDED) && Pow(5, 1) == 5 && 1 < Pow2(POWERS_COUNT)
  {
    WeightOne();
    WeightMonotone(1, MAX_WORDS_NEEDED);
  }

  lemma ExampleLength(table: seq<seq<Word>>)
    requires IsPowerOf5Table(table) && |table[0]| == 2
    ensures PowerLength(1, 1, 1, table, POWERS_COUNT) == 2 && !Needs(5, 2)
  {
    hide Weight, Pow2, Pow;
    WeightOne();
    WeightMonotone(1, 2);
    PowerLengthRest(table, POWERS_COUNT);
    ExampleFits();
    PowerLengthNone(1, 1, 1, table);
    PowerLengthStep(1, 1, 1, table, 0);
    LowBits(1, 0);
    Pow2AtZero();
    Pow2Step(0);
  }

  lemma {:induction false} PowerLengthRest(table: seq<seq<Word>>, i: nat)
    requires IsPowerOf5Table(table) && 1 <= i <= POWERS_COUNT
    ensures PowerLength(1, 1, 1, table, i) == PowerLength(1, 1, 1, table, 1)
  {
    hide PowerLength, ProductLength, Pow, Scaled;
    if i > 1 {
      PowerLengthRest(table, i - 1);
      PowerLengthStep(1, 1, 1, table, i - 1);
      Pow2Monotone(1, i - 1);
      assert Pow2(1) == 2;
      DivModUnique(1, 0, 1, Pow2(i - 1));
    }
  }

  lemma TableExponents(exponent: nat)
    requires exponent < Pow2(POWERS_COUNT)
    ensures exponent <= MAX_WORDS_NEEDED * WORD_SIZE
  {
    Pow2Add(5, 6);
    assert Pow2(5) == 32 && Pow2(6) == 64;
  }

  lemma PowerLengthNone(used: nat, value: nat, exponent: nat, table: seq<seq<Word>>)
    requires IsPowerOf5Table(table)
    ensures PowerLength(used, value, exponent, table, 0) == used
  {
  }

  lemma PowerLengthStep(used: nat, value: nat, exponent: nat, table: seq<seq<Word>>, i: nat)
    requires IsPowerOf5Table(table) && i < POWERS_COUNT
    ensures var before := PowerLength(used, value, exponent, table, i);
            PowerLength(used, value, exponent, table, i + 1)
            == if (exponent / Pow2(i)) % 2 == 1
              then ProductLength(before, |table[i]|, Scaled(value, exponent % Pow2(i + 1))) else before
  {
    hide ProductLength, Pow, Scaled;
  }

  lemma EntryNeeds(entry: seq<Word>)
    requires |entry| > 0 && entry[|entry| - 1] != 0
    ensures Needs(Val(entry), |entry|)
  {
    hide Val, Weight;
    TopWord(entry, |entry|);
  }

  lemma NoBits(n: nat)
    ensures Pow(5, n % Pow2(0)) == 1
  {
  }

  lemma Pow2AtZero()
    ensures Pow2(0) == 1
  {
  }

  lemma ScaledByPower(v: nat, e: nat, step: nat, total: nat, limit: nat)
    requires e + step <= total && v * Pow(5, total) < limit
    ensures (v * Pow(5, e)) * Pow(5, step) == v * Pow(5, e + step) < limit
  {
    hide Pow;
    PowAdd(5, e, step);
    MulAssoc(v, Pow(5, e), Pow(5, step));
    PowMonotone(5, e + step, total);
    MulLe(Pow(5, e + step), Pow(5, total), v);
  }

  /** The number of words used after a shift. */
  function ShiftedLength(used: nat, bits: nat, value: nat): nat {
    if bits == 0 then used else TrimmedLength(Min(MAX_WORDS_NEEDED, used + (bits + WORD_SIZE - 1) / WORD_SIZE), value)
  }

  lemma ShiftFits(ws: seq<Word>, used: nat, bits: nat, n: nat)
    requires used <= |ws| == MAX_WORDS_NEEDED && AllAre(ws[used..], 0) && bits > 0
    requires Val(ws) * Pow2(bits) < Weight(|ws|) && n == Min(|ws|, used + (bits + WORD_SIZE - 1) / WORD_SIZE)
    requires Val(ws) == 0 ==> bits <= |ws| * WORD_SIZE
    ensures bits <= n * WORD_SIZE && 0 <= Val(ws) * Pow2(bits) < Weight(n)
  {
    hide Val, Weight, Pow2;
    var grown := (bits + WORD_SIZE - 1) / WORD_SIZE;
    ValTrim(ws, used);
    ValBound(ws[..used]);
    WeightIsPow2(grown);
    Pow2Monotone(bits, grown * WORD_SIZE);
    WeightSplit(used, grown);
    MulNonneg(Val(ws), Pow2(bits));
    MulLt(Val(ws), Weight(used), Pow2(bits));
    MulLe(Pow2(bits), Weight(grown), Weight(used));
    if Val(ws) > 0 && bits > |ws| * WORD_SIZE {
      WeightIsPow2(|ws|);
      Pow2Monotone(|ws| * WORD_SIZE, bits);
      MulLe(1, Val(ws), Pow2(bits));
    }
  }

  /** A value shifted left is within one word of the length reserved for it. */
  lemma ShiftNeeds(value: nat, used: nat, bits: nat)
    requires Needs(value, used) && value * Pow2(bits) < Weight(MAX_WORDS_NEEDED)
    ensures value * Pow2(bits) >= 0 && Needs(value * Pow2(bits), ShiftedLength(used, bits, value * Pow2(bits)))
  {
    hide Weight, Pow2;
    MulNonneg(value, Pow2(bits));
    if bits == 0 {
      Pow2AtZero();
    } else {
      var grown := (bits + WORD_SIZE - 1) / WORD_SIZE;
      var n := Min(MAX_WORDS_NEEDED, used + grown);
      ShiftedBetween(value, used, bits, grown);
      if n >= 2 {
        WeightMonotone(n - 2, used + grown - 2);
      }
    }
  }

  lemma ShiftedBetween(v: nat, used: nat, bits: nat, grown: nat)
    requires used > 0 && Weight(used - 1) <= v < Weight(used)
    requires grown > 0 && (grown - 1) * WORD_SIZE <= bits <= grown * WORD_SIZE
    ensures 0 < Weight(used + grown - 2) <= v * Pow2(bits) < Weight(used + grown)
  {
    hide Weight, Pow2;
    var p := Pow2(bits);
    WeightIsPow2(grown);
    WeightIsPow2(grown - 1);
    Pow2Monotone(bits, grown * WORD_SIZE);
    Pow2Monotone((grown - 1) * WORD_SIZE, bits);
    WeightSplit(used, grown);
    WeightSplit(used - 1, grown - 1);
    MulLt(v, Weight(used), p);
    MulLe(p, Weight(grown), Weight(used));
    MulLe(Weight(used - 1), v, p);
    MulLe(Weight(grown - 1), p, Weight(used - 1));
    MulLt(0, Weight(used - 1), Weight(grown - 1));
  }
}
