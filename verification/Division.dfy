/** Knuth's Algorithm D (section 4.3.1 of The Art of Computer Programming, volume 2). */
module Division {
  import opened Arithmetic
  import opened Common
  import opened Words
  import opened Storage
  import opened Shifts
  import opened Multiply

  // ----- The trial digit -----

  /**
   * What is known of a window `u` of the dividend and the divisor `v`: their leading words, the rest
   * being less than BASE^k. `v` is normalized and `u` is less than BASE times `v`.
   */
  predicate Leading(u: int, u2: Word, u1: Word, u0: Word, v: int, v1: Word, v0: Word, k: nat) {
    && Shift(Up(Up(u2) + u1) + u0, k) <= u < Shift(Up(Up(u2) + u1) + u0 + 1, k)
    && Shift(Up(v1) + v0, k) <= v < Shift(Up(v1) + v0 + 1, k)
    && 2 * v1 >= BASE
    && u < Up(v)
  }

  /** No digit above `qhat` is right, and at most one below it. */
  predicate AtMostOneOff(u: int, v: int, qhat: int) {
    u < (qhat + 1) * v && (qhat - 1) * v <= u
  }

  /** The quotient of the leading two words by the leading word is never too small. */
  lemma NotTooSmall(u: int, u2: Word, u1: Word, u0: Word, v: int, v1: Word, v0: Word, k: nat, q: int)
    requires Leading(u, u2, u1, u0, v, v1, v0, k) && q >= 0
    requires Up(u2) + u1 < (q + 1) * v1
    ensures u < (q + 1) * v
  {
    hide Shift;
    UpMul(q + 1, v1);
    assert Up(Up(u2) + u1) + u0 + 1 <= Up((q + 1) * v1);
    ShiftLe(Up(Up(u2) + u1) + u0 + 1, (q + 1) * Up(v1), k);
    ShiftMul(q + 1, Up(v1), k);
    ShiftLe(Up(v1), Up(v1) + v0, k);
    MulLe(Shift(Up(v1), k), v, q + 1);
  }

  /** A digit that fails the test with the second word of the divisor is too large. */
  lemma TooLarge(u: int, u2: Word, u1: Word, u0: Word, v: int, v1: Word, v0: Word, k: nat, q: int, r: int)
    requires Leading(u, u2, u1, u0, v, v1, v0, k) && q >= 0
    requires Up(u2) + u1 == q * v1 + r && q * v0 > Up(r) + u0
    ensures u < q * v
  {
    hide Shift;
    UpMul(q, v1);
    MulDist(Up(v1), v0, q);
    ShiftLe(Up(Up(u2) + u1) + u0 + 1, q * (Up(v1) + v0), k);
    ShiftMul(q, Up(v1) + v0, k);
    MulLe(Shift(Up(v1) + v0, k), v, q);
  }

  /** A digit that passes the test is too large by at most one. */
  lemma CloseEnough(u: int, u2: Word, u1: Word, u0: Word, v: int, v1: Word, v0: Word, k: nat, q: int, r: int)
    requires Leading(u, u2, u1, u0, v, v1, v0, k) && 0 <= q < BASE
    requires Up(u2) + u1 == q * v1 + r && q * v0 <= Up(r) + u0
    ensures (q - 1) * v <= u
  {
    hide Shift, Up;
    var t, leading := Up(v1) + v0, Up(Up(u2) + u1) + u0;
    TestPassed(u2, u1, u0, v1, v0, q, r);
    MulLe(v, Shift(t + 1, k), q);
    ShiftMul(q, t + 1, k);
    MulDist(t, 1, q);
    ShiftLe(q * (t + 1), leading + q, k);
    ShiftAdd(leading, q, k);
    TopAtLeastBase(v1, v0);
    ShiftLe(q, t, k);
    MulDist(q, 1, v);
  }

  lemma TestPassed(u2: Word, u1: Word, u0: Word, v1: Word, v0: Word, q: int, r: int)
    requires Up(u2) + u1 == q * v1 + r && q * v0 <= Up(r) + u0
    ensures q * (Up(v1) + v0) <= Up(Up(u2) + u1) + u0
  {
    UpMul(q, v1);
    MulDist(Up(v1), v0, q);
  }

  lemma TopAtLeastBase(v1: Word, v0: Word)
    requires 2 * v1 >= BASE
    ensures BASE <= Up(v1) + v0
  {
  }

  /** When the leading words agree, the largest digit is too large by at most one. */
  lemma LargestDigit(u: int, u2: Word, u1: Word, u0: Word, v: int, v1: Word, v0: Word, k: nat)
    requires Leading(u, u2, u1, u0, v, v1, v0, k) && u2 == v1
    ensures AtMostOneOff(u, v, BASE - 1)
  {
    hide Shift;
    var t := Up(v1) + v0;
    MulLe(v, Shift(t + 1, k), BASE - 2);
    ShiftMul(BASE - 2, t + 1, k);
    MulLe(t + 1, Up(v1) + BASE, BASE - 2);
    assert (BASE - 2) * (Up(v1) + BASE) <= Up(Up(v1)) by {
      LargestDigitBound(v1);
    }
    ShiftLe((BASE - 2) * (t + 1), Up(Up(u2) + u1) + u0, k);
    UpIsBase(v);
  }

  lemma LargestDigitBound(v1: Word)
    requires 2 * v1 >= BASE
    ensures (BASE - 2) * (Up(v1) + BASE) <= Up(Up(v1))
  {
    assert (BASE - 2) * (Up(v1) + BASE) == Up(Up(v1) + BASE) - 2 * (Up(v1) + BASE);
  }

  function Dword(low: Word, high: Word): DoubleWord {
    Up(high) + low
  }

  method DivModWords(dividendLow: Word, dividendHigh: Word, divisor: Word) returns (quotient: Word, remainder: Word)
    requires dividendHigh < divisor
    ensures Up(dividendHigh) + dividendLow == quotient * divisor + remainder && remainder < divisor
  {
    var dividend := Dword(dividendLow, dividendHigh);
    DivMod(dividend, divisor);
    WordQuotient(dividend, divisor, dividendHigh);
    remainder := dividend % divisor;
    quotient := dividend / divisor;
  }

  lemma WordQuotient(dividend: int, divisor: int, high: int)
    requires 0 <= high < divisor && 0 <= dividend < Up(high + 1)
    ensures 0 <= dividend / divisor < BASE
  {
    DivMod(dividend, divisor);
    DivNonneg(dividend, divisor);
    UpIsBase(divisor);
    if dividend / divisor >= BASE {
      MulLe(BASE, dividend / divisor, divisor);
    }
  }

  predicate IsQhatTooLarge(qhat: Word, rhat: Word, u0: Word, v0: Word) {
    WideMultiply(qhat, v0) > Dword(u0, rhat)
  }

  /** The trial digit `q` with remainder `r` still satisfies what the leading words say, after one decrement too. */
  lemma Decrement(x: int, q: int, v1: int, r: int)
    requires x == q * v1 + r
    ensures x == (q - 1) * v1 + (r + v1)
  {
    MulDist(q, 1, v1);
  }

  lemma LargeRemainder(q: int, v0: int, r: int, u0: int)
    requires 0 <= q < BASE && 0 <= v0 < BASE && r >= BASE && u0 >= 0
    ensures q * v0 <= Up(r) + u0
  {
    MulLe(q, BASE, v0);
    UpIsBase(v0);
  }

  /** D3: the digit estimated from the leading words is right or one too large. */
  method TrialDigit(u2: Word, u1: Word, u0: Word, v1: Word, v0: Word, ghost u: int, ghost v: int, ghost k: nat)
    returns (qhat: Word)
    requires u2 <= v1 && Leading(u, u2, u1, u0, v, v1, v0, k)
    ensures AtMostOneOff(u, v, qhat)
  {
    hide Leading, Shift, WideMultiply;
    if u2 == v1 {
      qhat := BASE - 1;
      LargestDigit(u, u2, u1, u0, v, v1, v0, k);
    } else {
      var rhat;
      qhat, rhat := DivModWords(u1, u2, v1);
      qhat := Refine(qhat, rhat, u2, u1, u0, v1, v0, u, v, k);
    }
  }

  method Refine(qhat0: Word, rhat0: Word, u2: Word, u1: Word, u0: Word, v1: Word, v0: Word, ghost u: int, ghost v: int,
                ghost k: nat)
    returns (qhat: Word)
    requires Leading(u, u2, u1, u0, v, v1, v0, k)
    requires Up(u2) + u1 == qhat0 * v1 + rhat0 && rhat0 < v1
    ensures AtMostOneOff(u, v, qhat)
  {
    qhat := qhat0;
    var rhat := rhat0;
    ghost var x, q: int, r: int := Up(u2) + u1, qhat0, rhat0;
    assert 2 * v1 >= BASE;
    hide Leading, Shift, Up;
    MulDist(q, 1, v1);
    NotTooSmall(u, u2, u1, u0, v, v1, v0, k, q);
    if IsQhatTooLarge(qhat, rhat, u0, v0) {
      TooLarge(u, u2, u1, u0, v, v1, v0, k, q, r);
      Decrement(x, q, v1, r);
      qhat := qhat - 1;
      var carry: bool;
      rhat, carry := AddWords(rhat, v1, false);
      var isTooLarge := !carry && IsQhatTooLarge(qhat, rhat, u0, v0);
      SecondTest(u, u2, u1, u0, v, v1, v0, k, q - 1, r + v1, isTooLarge);
      if isTooLarge {
        qhat := qhat - 1;
      }
    } else {
      CloseEnough(u, u2, u1, u0, v, v1, v0, k, q, r);
    }
  }

  /**
   * After one decrement the digit is refined at most once more, and only a remainder within a word can ask for
   * that.
   */
  lemma SecondTest(u: int, u2: Word, u1: Word, u0: Word, v: int, v1: Word, v0: Word, k: nat, q: int, r: int,
                   isTooLarge: bool)
    requires Leading(u, u2, u1, u0, v, v1, v0, k) && 0 <= q < BASE && v1 <= r
    requires Up(u2) + u1 == q * v1 + r && u < (q + 1) * v
    requires isTooLarge <==> r < BASE && q * v0 > Up(r) + u0
    ensures isTooLarge ==> q >= 1
    ensures AtMostOneOff(u, v, if isTooLarge then q - 1 else q)
  {
    assert 2 * v1 >= BASE;
    hide Leading, Shift, Up;
    if isTooLarge {
      TooLarge(u, u2, u1, u0, v, v1, v0, k, q, r);
      Decrement(Up(u2) + u1, q, v1, r);
      LargeRemainder(q - 1, v0, r + v1, u0);
      CloseEnough(u, u2, u1, u0, v, v1, v0, k, q - 1, r + v1);
    } else {
      if r >= BASE {
        LargeRemainder(q, v0, r, u0);
      }
      CloseEnough(u, u2, u1, u0, v, v1, v0, k, q, r);
    }
  }

  // ----- Multiply and subtract -----

  /** The first `j` words of the window have had `qhat` times those of the divisor taken away. */
  predicate SubtractedUpTo(was: seq<Word>, ws: seq<Word>, vs: seq<Word>, qhat: Word, j: nat, mulCarry: Word,
                           subCarry: bool)
    requires j <= |was| && j <= |ws| && j <= |vs|
  {
    Val(ws[..j]) + Val(vs[..j]) * qhat == Val(was[..j]) + Shift(mulCarry + Bit(subCarry), j)
  }

  lemma SubtractedNone(was: seq<Word>, vs: seq<Word>, qhat: Word)
    ensures SubtractedUpTo(was, was, vs, qhat, 0, 0, false)
  {
  }

  lemma SubtractStep(was: seq<Word>, ws: seq<Word>, vs: seq<Word>, qhat: Word, j: nat, mc: Word, sc: bool,
                     product: int, output: Word, mc': Word, sc': bool)
    requires j < |was| && j < |ws| && j < |vs|
    requires SubtractedUpTo(was, ws, vs, qhat, j, mc, sc)
    requires product == WideMultiply(qhat, vs[j])
    requires output - Up(Bit(sc')) == was[j] - (product + mc - Up(mc')) - Bit(sc)
    ensures SubtractedUpTo(was, ws[j := output], vs, qhat, j + 1, mc', sc')
  {
    hide Val, Shift, Up;
    var now := ws[j := output];
    assert now[..j] == ws[..j];
    ValStep(now, j);
    ValStep(vs, j);
    ValStep(was, j);
    MulDist(Val(vs[..j]), Shift(vs[j], j), qhat);
    ShiftMul(qhat, vs[j], j);
    UpAdd(mc', Bit(sc'));
    SubtractAlgebra(output, product, mc, Bit(sc), was[j], mc' + Bit(sc'), j);
  }

  lemma SubtractAlgebra(output: int, product: int, mc: int, sc: int, w: int, c: int, j: nat)
    requires output + product + (mc + sc) == w + Up(c)
    ensures Shift(output, j) + Shift(product, j) + Shift(mc + sc, j) == Shift(w, j) + Shift(c, j + 1)
  {
    hide Shift, Up;
    ShiftAdd(output, product, j);
    ShiftAdd(output + product, mc + sc, j);
    ShiftAdd(w, Up(c), j);
    ShiftUp(c, j);
  }

  /** D4: takes `qhat` times the divisor from the window and reports whether that went below zero. */
  method MultiplySubtract(window: Span, divisor: Span, divisorLen: nat, qhat: Word) returns (subCarry: bool)
    requires window.Valid() && divisor.Valid() && window.data != divisor.data
    requires divisorLen <= divisor.size && window.size == divisorLen + 1
    modifies window.data
    ensures window.OnlyChanged(old(window.data[..]), window.data[..])
    ensures Val(window.Words()) + Val(divisor.Words()[..divisorLen]) * qhat
         == old(Val(window.Words())) + Shift(Bit(subCarry), divisorLen + 1)
  {
    hide Val, Shift, Up, SubtractedUpTo, WideMultiply, Low, High;
    ghost var was, vs := window.Words(), divisor.Words();
    var mulCarry: Word, j := 0, 0;
    subCarry := false;
    SubtractedNone(was, vs, qhat);
    while j < divisorLen
      invariant 0 <= j <= divisorLen
      invariant window.OnlyChanged(old(window.data[..]), window.data[..])
      invariant forall k :: j <= k < window.size ==> window.Words()[k] == was[k]
      invariant SubtractedUpTo(was, window.Words(), vs, qhat, j, mulCarry, subCarry)
    {
      ProductFits(qhat, divisor.Get(j), mulCarry);
      var mulResult: DoubleWord := WideMultiply(qhat, divisor.Get(j)) + mulCarry;
      LowHigh(mulResult);
      var output, sc := SubWords(window.Get(j), Low(mulResult), subCarry);
      SubtractStep(was, window.Words(), vs, qhat, j, mulCarry, subCarry,
                   WideMultiply(qhat, divisor.Get(j)), output, High(mulResult), sc);
      window.Put(j, output);
      mulCarry, subCarry := High(mulResult), sc;
      j := j + 1;
    }
    ghost var ws, mc, sc0 := window.Words(), mulCarry, subCarry;
    var output;
    output, subCarry := SubWords(window.Get(divisorLen), mulCarry, subCarry);
    window.Put(divisorLen, output);
    SubtractLast(was, ws, vs, qhat, divisorLen, mc, sc0, output, subCarry);
  }

  lemma SubtractLast(was: seq<Word>, ws: seq<Word>, vs: seq<Word>, qhat: Word, n: nat, mc: Word, sc: bool,
                     output: Word, sc': bool)
    requires |was| == |ws| == n + 1 && n <= |vs|
    requires SubtractedUpTo(was, ws, vs, qhat, n, mc, sc)
    requires output - Up(Bit(sc')) == was[n] - mc - Bit(sc)
    ensures Val(ws[n := output]) + Val(vs[..n]) * qhat == Val(was) + Shift(Bit(sc'), n + 1)
  {
    hide Val, Shift, Up;
    var now := ws[n := output];
    assert now[..n] == ws[..n] && now[..n + 1] == now && was[..n + 1] == was;
    ValStep(now, n);
    ValStep(was, n);
    ShiftAdd(0, 0, n);
    SubtractAlgebra(output, 0, mc, Bit(sc), was[n], Bit(sc'), n);
  }

  // ----- One digit of the quotient -----

  lemma LeadingWords(us: seq<Word>, vs: seq<Word>)
    requires |vs| >= 2 && |us| == |vs| + 1 && 2 * vs[|vs| - 1] >= BASE && Val(us[1..]) < Val(vs)
    ensures var n := |vs|;
            us[n] <= vs[n - 1] && Leading(Val(us), us[n], us[n - 1], us[n - 2], Val(vs), vs[n - 1], vs[n - 2], n - 2)
  {
    hide Val, Shift, Up;
    var n := |vs|;
    LeadingThree(us);
    LeadingTwo(vs);
    ValSplit(us, 1);
    UpOfRest(us, vs);
    assert vs[..n] == vs && us[1..][..n] == us[1..];
    if us[n] > vs[n - 1] {
      TopWordDecides(vs, us[1..], n - 1);
    }
  }

  lemma UpOfRest(us: seq<Word>, vs: seq<Word>)
    requires |us| > 0 && Val(us[1..]) < Val(vs)
    ensures Val(us) < Up(Val(vs))
  {
    hide Val;
    ValSplit(us, 1);
    ValOne(us[..1]);
    assert Shift(Val(us[1..]), 1) == Up(Shift(Val(us[1..]), 0));
  }

  lemma LeadingTwo(vs: seq<Word>)
    requires |vs| >= 2
    ensures var n := |vs|;
            Shift(Up(vs[n - 1]) + vs[n - 2], n - 2) <= Val(vs) < Shift(Up(vs[n - 1]) + vs[n - 2] + 1, n - 2)
  {
    hide Val, Shift, Up;
    var n := |vs|;
    ValSplit(vs, n - 2);
    ValTwo(vs[n - 2..]);
    ValBound(vs[..n - 2]);
    ShiftAdd(Up(vs[n - 1]) + vs[n - 2], 1, n - 2);
  }

  lemma LeadingThree(us: seq<Word>)
    requires |us| >= 3
    ensures var n := |us| - 1;
            var t := Up(Up(us[n]) + us[n - 1]) + us[n - 2];
            Shift(t, n - 2) <= Val(us) < Shift(t + 1, n - 2)
  {
    hide Val, Shift, Up;
    var n := |us| - 1;
    var top := us[n - 2..];
    ValSplit(us, n - 2);
    ValSplit(top, 1);
    ValOne(top[..1]);
    ValTwo(top[1..]);
    ShiftOne(Val(top[1..]));
    ValBound(us[..n - 2]);
    ShiftAdd(Val(top), 1, n - 2);
  }

  lemma ShiftOne(x: int)
    ensures Shift(x, 1) == Up(x)
  {
    assert Shift(x, 1) == Up(Shift(x, 0));
  }

  /** Without a borrow the window holds the remainder; with one, adding the divisor back once gives it. */
  lemma Remainder(u: int, v: int, qhat: int, borrow: bool, w: int, n: nat)
    requires AtMostOneOff(u, v, qhat) && u >= 0 && 0 <= v < Weight(n)
    requires 0 <= w < Weight(n + 1) && w + v * qhat == u + Shift(Bit(borrow), n + 1)
    ensures !borrow ==> w + v * qhat == u && w < v
    ensures borrow ==> qhat >= 1 && 0 <= u - v * (qhat - 1) < v && w + v == u - v * (qhat - 1) + Weight(n + 1)
  {
    hide Shift, Up;
    MulDist(qhat, 1, v);
    ShiftAdd(0, 0, n + 1);
    if borrow && qhat <= 0 {
      MulLe(qhat, 0, v);
    }
  }

  lemma WrappedOnce(x: int, y: int, r: int, m: int)
    requires 0 <= x < m && 0 <= y < m && x + m == y + r * m
    ensures r == 1 && x == y
  {
    DivModUnique(x + m, 1, x, m);
    DivModUnique(x + m, r, y, m);
  }

  /** D3 to D6 for the digit whose window ends at word `i` of the dividend. */
  method DivideDigit(dividend: Span, divisor: Span, i: nat, divisorLen: nat, ghost window: Span) returns (digit: Word)
    requires dividend.Valid() && divisor.Valid() && dividend.data != divisor.data
    requires !dividend.signed && !divisor.signed
    requires 2 <= divisorLen <= divisor.size && divisorLen <= i < dividend.size
    requires window == dividend.Slice(i - divisorLen, i + 1)
    requires AllAre(divisor.Words()[divisorLen..], 0) && 2 * divisor.Words()[divisorLen - 1] >= BASE
    requires Val(window.Words()[1..]) < Val(divisor.Words()[..divisorLen])
    modifies dividend.data
    ensures window.OnlyChanged(old(dividend.data[..]), dividend.data[..])
    ensures Val(window.Words()) + Val(divisor.Words()[..divisorLen]) * digit == old(Val(window.Words()))
    ensures Val(window.Words()) < Val(divisor.Words()[..divisorLen])
  {
    hide Val, Shift, Up, Weight, Leading, AtMostOneOff;
    ghost var us, vs := window.Words(), divisor.Words()[..divisorLen];
    ghost var u, v := Val(us), Val(vs);
    LeadingWords(us, vs);
    assert us[divisorLen] == dividend.Get(i) && us[divisorLen - 1] == dividend.Get(i - 1) &&
           us[divisorLen - 2] == dividend.Get(i - 2);
    var divisorApprox := divisor.Get(divisorLen - 1);
    assert dividend.Get(i) <= divisorApprox;  // the first VERIFY
    var qhat := TrialDigit(dividend.Get(i), dividend.Get(i - 1), dividend.Get(i - 2), divisorApprox,
                           divisor.Get(divisorLen - 2),
                           u, v, divisorLen - 2);

    var part := dividend.Slice(i - divisorLen, i + 1);
    var subCarry := MultiplySubtract(part, divisor, divisorLen, qhat);
    ValBound(vs);
    ValBound(part.Words());
    Remainder(u, v, qhat, subCarry, Val(part.Words()), divisorLen);
    if subCarry {
      AddBack(part, divisor, divisorLen, u - v * (qhat - 1));
    }
    digit := qhat - Bit(subCarry);
  }

  /** D6: adding the divisor back wraps around exactly once. */
  method AddBack(part: Span, divisor: Span, divisorLen: nat, ghost remainder: int)
    requires part.Valid() && divisor.Valid() && part.data != divisor.data
    requires !part.signed && !divisor.signed && part.size == divisorLen + 1 && divisorLen <= divisor.size
    requires AllAre(divisor.Words()[divisorLen..], 0)
    requires 0 <= remainder < Val(divisor.Words()[..divisorLen])
    requires Val(part.Words()) + Val(divisor.Words()[..divisorLen]) == remainder + Weight(divisorLen + 1)
    modifies part.data
    ensures part.OnlyChanged(old(part.data[..]), part.data[..])
    ensures Val(part.Words()) == remainder
  {
    hide Val, Shift, Up, Weight;
    ValTrim(divisor.Words(), divisorLen);
    ValBound(divisor.Words()[..divisorLen]);
    assert part.size < divisor.size ==> divisor.Words()[part.size..] == divisor.Words()[divisorLen..][1..];
    assert divisor.FitsIn(part.size);
    var overflow := Add(false, part, divisor, part, false);
    ValBound(part.Words());
    WeightGrows(divisorLen);
    WrappedOnce(remainder, Val(part.Words()), overflow, Weight(divisorLen + 1));
    assert overflow == 1;  // the second VERIFY
  }

  lemma WeightGrows(n: nat)
    ensures Weight(n) <= Weight(n + 1)
  {
    ShiftMonotone(1, n, n + 1);
  }

  // ----- Normalizing -----

  function CountLeadingZeroes(w: Word): (n: nat)
    requires w > 0
    decreases BASE - w
  {
    if 2 * w >= BASE then 0 else 1 + CountLeadingZeroes(2 * w)
  }

  lemma {:induction false} LeadingZeroes(w: Word)
    requires w > 0
    ensures 2 * (w * Pow2(CountLeadingZeroes(w)) as int) >= BASE && w * Pow2(CountLeadingZeroes(w)) as int < BASE
    ensures CountLeadingZeroes(w) < WORD_SIZE
    decreases BASE - w
  {
    var n := CountLeadingZeroes(w);
    if 2 * w < BASE {
      LeadingZeroes(2 * w);
      MulAssoc(w, 2, Pow2(n - 1));
    } else {
      assert Pow2(0) == 1;
    }
    if n >= WORD_SIZE {
      BaseIsPow2();
      Pow2Monotone(WORD_SIZE, n);
      MulLe(1, w, Pow2(n));
    }
  }

  lemma ModSmall(x: int, m: int)
    requires 0 <= x < m
    ensures x % m == x
  {
    DivModUnique(x, 0, x, m);
  }

  /** Scaling a value of `n` words by less than a word gives a value of `n + 1` words. */
  lemma ScaledFits(ws: seq<Word>, n: nat, bits: nat)
    requires n < |ws| && AllAre(ws[n..], 0) && bits < WORD_SIZE
    ensures Val(ws) * Pow2(bits) < Shift(Pow2(bits), n) <= Weight(n + 1) <= Weight(|ws|)
    ensures 2 * Pow2(bits) <= BASE
  {
    hide Val, Shift, Pow2, Up;
    ValTrim(ws, n);
    ValBound(ws[..n]);
    MulLt(Val(ws), Weight(n), Pow2(bits));
    ShiftWeight(Pow2(bits), n);
    Pow2Room(bits);
    ShiftLe(Pow2(bits), Up(1), n);
    ShiftUp(1, n);
    ShiftMonotone(1, n + 1, |ws|);
  }

  lemma Pow2Room(bits: nat)
    requires bits < WORD_SIZE
    ensures 2 * Pow2(bits) <= BASE && Pow2(bits) <= Up(1)
  {
    BaseIsPow2();
    Pow2Monotone(bits + 1, WORD_SIZE);
  }

  /** The normalized divisor: its value is scaled, its top word is at least half the base. */
  lemma NormalizedDivisor(ws: seq<Word>, out: seq<Word>, n: nat, bits: nat)
    requires 0 < n <= |ws| == |out| && AllAre(ws[n..], 0) && ws[n - 1] > 0 && bits == CountLeadingZeroes(ws[n - 1])
    requires Val(out) == (Val(ws) * Pow2(bits)) % Weight(|ws|)
    ensures Val(out[..n]) == Val(ws) * Pow2(bits)
    ensures AllAre(out[n..], 0) && 2 * out[n - 1] >= BASE
  {
    hide Val, Shift, Pow2, Up, CountLeadingZeroes;
    var t: int, p := ws[n - 1], Pow2(bits);
    LeadingZeroes(ws[n - 1]);
    ValTrim(ws, n);
    ValStep(ws, n - 1);
    ValBound(ws[..n - 1]);
    TopScaled(Val(ws), t, bits, n);
    ShiftMonotone(1, n, |ws|);
    ModSmall(Val(ws) * p, Weight(|ws|));
    ValSmall(out, n);
    ValTrim(out, n);
    ValStep(out, n - 1);
    ValBound(out[..n - 1]);
    TopHalf(Val(out), out[n - 1], t * p, n);
  }

  lemma TopScaled(v: int, t: int, bits: nat, n: nat)
    requires n > 0 && bits < WORD_SIZE && 0 < t && t * Pow2(bits) < BASE
    requires Shift(t, n - 1) <= v < Shift(t, n - 1) + Weight(n - 1)
    ensures Shift(t * Pow2(bits), n - 1) <= v * Pow2(bits) < Weight(n)
  {
    hide Shift, Pow2, Up;
    var p := Pow2(bits);
    NextMultiple(t, bits);
    ShiftAdd(t, 1, n - 1);
    MulLt(v, Shift(t + 1, n - 1), p);
    MulLe(Shift(t, n - 1), v, p);
    ShiftMul(p, t + 1, n - 1);
    ShiftMul(p, t, n - 1);
    UpOne();
    ShiftLe((t + 1) * p, Up(1), n - 1);
    ShiftUp(1, n - 1);
  }

  /** Below the base, the next multiple of a power of two is at most the base. */
  lemma NextMultiple(t: int, bits: nat)
    requires bits < WORD_SIZE && t * Pow2(bits) < BASE
    ensures (t + 1) * Pow2(bits) <= BASE
  {
    hide Pow2;
    var p, pp := Pow2(bits), Pow2(WORD_SIZE - bits);
    BaseIsPow2();
    Pow2Add(WORD_SIZE - bits, bits);
    if t + 1 > pp {
      MulLe(pp, t, p);
    }
    MulLe(t + 1, pp, p);
  }

  lemma UpOne()
    ensures Up(1) == BASE
  {
  }

  lemma TopHalf(v: int, w: int, t: int, n: nat)
    requires n > 0 && Shift(t, n - 1) <= v < Shift(w, n - 1) + Weight(n - 1) && 2 * t >= BASE
    ensures 2 * w >= BASE
  {
    hide Shift;
    ShiftAdd(w, 1, n - 1);
    ShiftLe(t, w + 1, n - 1);
    assert t <= w;
  }

  /** The normalized dividend: scaled, one word longer, and its leading window below the divisor. */
  lemma NormalizedDividend(ws: seq<Word>, out: seq<Word>, len: nat, bits: nat, vs: seq<Word>)
    requires len < |ws| == |out| && AllAre(ws[len..], 0) && bits < WORD_SIZE
    requires Val(out) == (Val(ws) * Pow2(bits)) % Weight(|ws|)
    requires 2 <= |vs| <= len + 1 && 2 * vs[|vs| - 1] >= BASE
    ensures Val(out) == Val(ws) * Pow2(bits)
    ensures AllAre(out[len + 1..], 0)
    ensures Val(out[len + 1 - |vs|..len + 1]) < Val(vs)
  {
    hide Val, Shift, Pow2, Up;
    var n := |vs|;
    ScaledFits(ws, len, bits);
    MulNonneg(Val(ws), Pow2(bits));
    ModSmall(Val(ws) * Pow2(bits), Weight(|ws|));
    TopWordSmall(out, len, Pow2(bits));
    var us := out[len + 1 - n..len + 1];
    assert us[..n] == us && vs[..n] == vs && us[n - 1] == out[len];
    TopWordDecides(us, vs, n - 1);
  }

  lemma TopWordSmall(ws: seq<Word>, len: nat, p: nat)
    requires len < |ws| && Val(ws) < Shift(p, len) <= Weight(len + 1)
    ensures AllAre(ws[len + 1..], 0) && ws[len] < p
  {
    hide Val, Shift, Up;
    ValSmall(ws, len + 1);
    ValTrim(ws, len + 1);
    ValStep(ws, len);
    ShiftLe(ws[len], p, len);
  }

  // ----- The whole division -----

  lemma WindowVal(ws: seq<Word>, a: nat, b: nat)
    requires a <= b <= |ws|
    ensures Val(ws) == Val(ws[..a]) + Shift(Val(ws[a..b]), a) + Shift(Val(ws[b..]), b)
  {
    hide Val, Shift;
    ValSplit(ws, b);
    ValSplit(ws[..b], a);
    assert ws[..b][..a] == ws[..a] && ws[..b][a..] == ws[a..b];
  }

  /** The digits found so far, times the divisor, and what is left of the dividend make up the dividend. */
  predicate Divided(total: int, ds: seq<Word>, vs: seq<Word>, qs: seq<Word>, i: nat, m: nat)
    requires i <= m <= |qs|
  {
    Val(ds) + Val(vs) * Shift(Val(qs[i..m]), i) == total
  }

  lemma DividedPrefix(total: int, ds: seq<Word>, vs: seq<Word>, qs: seq<Word>, qs': seq<Word>, m: nat)
    requires m <= |qs| == |qs'| && Divided(total, ds, vs, qs, 0, m) && qs'[..m] == qs[..m]
    ensures Divided(total, ds, vs, qs', 0, m)
  {
    assert qs'[0..m] == qs'[..m] && qs[0..m] == qs[..m];
  }

  lemma DividedStep(total: int, ds: seq<Word>, ds': seq<Word>, vs: seq<Word>, qs: seq<Word>, i: nat, m: nat,
                    digit: Word)
    requires i < m <= |qs| && |ds| == |ds'| && i + |vs| < |ds|
    requires Divided(total, ds, vs, qs, i + 1, m)
    requires ds'[..i] == ds[..i] && ds'[i + |vs| + 1..] == ds[i + |vs| + 1..]
    requires Val(ds'[i..i + |vs| + 1]) + Val(vs) * digit == Val(ds[i..i + |vs| + 1])
    ensures Divided(total, ds', vs, qs[i := digit], i, m)
  {
    hide Val, Shift;
    var b, v := i + |vs| + 1, Val(vs);
    WindowVal(ds, i, b);
    WindowVal(ds', i, b);
    ShiftAdd(Val(ds'[i..b]), v * digit, i);
    ShiftMul(v, digit, i);
    OneDigitMore(qs, i, m, digit);
    MulDist(Shift(digit, i), Shift(Val(qs[i + 1..m]), i + 1), v);
  }

  lemma OneDigitMore(qs: seq<Word>, i: nat, m: nat, digit: Word)
    requires i < m <= |qs|
    ensures Shift(Val(qs[i := digit][i..m]), i) == Shift(digit, i) + Shift(Val(qs[i + 1..m]), i + 1)
  {
    hide Val, Shift;
    assert qs[i := digit][i..m] == [digit] + qs[i + 1..m];
    ValConcat([digit], qs[i + 1..m]);
    ValOne([digit]);
    var rest := Val(qs[i + 1..m]);
    ShiftAdd(digit, Shift(rest, 1), i);
    ShiftShift(rest, 1, i);
  }

  lemma DividedNone(ds: seq<Word>, vs: seq<Word>, qs: seq<Word>, m: nat)
    requires m <= |qs|
    ensures Divided(Val(ds), ds, vs, qs, m, m)
  {
    hide Shift;
    assert qs[m..m] == [];
    ShiftAdd(0, 0, m);
  }

  lemma OutsideWindow(span: Span, lo: nat, hi: nat, was: seq<Word>, now: seq<Word>, ws: seq<Word>, ws': seq<Word>)
    requires span.Valid() && lo <= hi <= span.size && span.data.Length == |was| &&
             span.Slice(lo, hi).OnlyChanged(was, now)
    requires ws == was[span.offset..span.offset + span.size] && ws' == now[span.offset..span.offset + span.size]
    ensures span.OnlyChanged(was, now) && ws'[..lo] == ws[..lo] && ws'[hi..] == ws[hi..]
  {
    assert forall k :: 0 <= k < lo || hi <= k < span.size ==>
           ws'[k] == now[span.offset + k] == was[span.offset + k] == ws[k];
  }

  /** `DivideDigit` seen from the whole dividend: only the window changes, and it loses its top word. */
  method DivideWindow(dividend: Span, divisor: Span, i: nat, divisorLen: nat) returns (digit: Word)
    requires dividend.Valid() && divisor.Valid() && dividend.data != divisor.data
    requires !dividend.signed && !divisor.signed
    requires 2 <= divisorLen <= divisor.size && divisorLen <= i < dividend.size
    requires AllAre(divisor.Words()[divisorLen..], 0) && 2 * divisor.Words()[divisorLen - 1] >= BASE
    requires Val(dividend.Words()[i - divisorLen + 1..i + 1]) < Val(divisor.Words()[..divisorLen])
    modifies dividend.data
    ensures dividend.OnlyChanged(old(dividend.data[..]), dividend.data[..])
    ensures dividend.Words()[..i - divisorLen] == old(dividend.Words())[..i - divisorLen]
    ensures dividend.Words()[i + 1..] == old(dividend.Words())[i + 1..]
    ensures Val(dividend.Words()[i - divisorLen..i + 1]) + Val(divisor.Words()[..divisorLen]) * digit
         == Val(old(dividend.Words())[i - divisorLen..i + 1])
    ensures dividend.Words()[i] == 0
    ensures Val(dividend.Words()[i - divisorLen..i]) < Val(divisor.Words()[..divisorLen])
  {
    hide Val, AllAre;
    ghost var at, vs := i - divisorLen, divisor.Words()[..divisorLen];
    ghost var window := dividend.Slice(at, i + 1);
    assert window.Words()[1..] == dividend.Words()[at + 1..i + 1];
    ghost var was, ds := dividend.data[..], dividend.Words();
    digit := DivideDigit(dividend, divisor, i, divisorLen, window);
    assert window == dividend.Slice(at, i + 1);
    OutsideWindow(dividend, at, i + 1, was, dividend.data[..], ds, dividend.Words());
    WindowShrinks(window.Words(), vs);
    assert window.Words()[..divisorLen] == dividend.Words()[at..i];
  }

  /** D2 to D7: every digit of the quotient, highest first, leaving the scaled remainder in the dividend. */
  method DivideDigits(dividend: Span, divisor: Span, quotient: Span, dividendLen: nat, divisorLen: nat)
    requires dividend.Valid() && divisor.Valid() && quotient.Valid()
    requires !dividend.signed && !divisor.signed
    requires dividend.data != divisor.data && quotient.data != dividend.data && quotient.data != divisor.data
    requires 2 <= divisorLen <= divisor.size && divisorLen <= dividendLen + 1 <= dividend.size
    requires dividendLen + 1 - divisorLen <= quotient.size
    requires AllAre(divisor.Words()[divisorLen..], 0) && 2 * divisor.Words()[divisorLen - 1] >= BASE
    requires AllAre(dividend.Words()[dividendLen + 1..], 0)
    requires Val(dividend.Words()[dividendLen + 1 - divisorLen..dividendLen + 1]) < Val(divisor.Words()[..divisorLen])
    modifies dividend.data, quotient.data
    ensures dividend.OnlyChanged(old(dividend.data[..]), dividend.data[..])
    ensures quotient.OnlyChanged(old(quotient.data[..]), quotient.data[..])
    ensures Divided(old(Val(dividend.Words())), dividend.Words(), divisor.Words()[..divisorLen],
                    quotient.Words(), 0, dividendLen + 1 - divisorLen)
    ensures AllAre(dividend.Words()[divisorLen..], 0)
    ensures Val(dividend.Words()[..divisorLen]) < Val(divisor.Words()[..divisorLen])
  {
    hide Val, Shift, Up, Divided, AllAre;
    ghost var vs, total, m := divisor.Words()[..divisorLen], Val(dividend.Words()), dividendLen + 1 - divisorLen;
    var i := dividendLen + 1;
    DividedNone(dividend.Words(), vs, quotient.Words(), m);
    while i > divisorLen
      invariant divisorLen <= i <= dividendLen + 1
      invariant dividend.OnlyChanged(old(dividend.data[..]), dividend.data[..])
      invariant quotient.OnlyChanged(old(quotient.data[..]), quotient.data[..])
      invariant AllAre(dividend.Words()[i..], 0)
      invariant Val(dividend.Words()[i - divisorLen..i]) < Val(vs)
      invariant Divided(total, dividend.Words(), vs, quotient.Words(), i - divisorLen, m)
    {
      i := i - 1;
      ghost var ds := dividend.Words();
      var digit := DivideWindow(dividend, divisor, i, divisorLen);
      DividedStep(total, ds, dividend.Words(), vs, quotient.Words(), i - divisorLen, m, digit);
      OneMoreZero(dividend.Words(), i);
      quotient.Put(i - divisorLen, digit);
    }
    assert dividend.Words()[0..divisorLen] == dividend.Words()[..divisorLen];
  }

  lemma OneMoreZero(ws: seq<Word>, i: nat)
    requires i < |ws| && ws[i] == 0 && AllAre(ws[i + 1..], 0)
    ensures AllAre(ws[i..], 0)
  {
    assert ws[i..] == [ws[i]] + ws[i + 1..];
  }

  /** A remainder below the divisor leaves the top word of its window empty. */
  lemma WindowShrinks(us: seq<Word>, vs: seq<Word>)
    requires |us| == |vs| + 1 && Val(us) < Val(vs)
    ensures us[|vs|] == 0 && Val(us[..|vs|]) < Val(vs)
  {
    hide Val, Shift;
    ValBound(vs);
    ValSmall(us, |vs|);
    ValTrim(us, |vs|);
  }

  /** Undoing the scaling of dividend and divisor: the quotient is theirs, the remainder is scaled. */
  lemma Unscale(dividend: int, divisor: int, p: int, q: int, left: int)
    requires p > 0 && divisor > 0 && 0 <= left < divisor * p && left + (divisor * p) * q == dividend * p
    ensures q == dividend / divisor && left / p == dividend % divisor
  {
    var r := dividend - divisor * q;
    MulAssoc(divisor, q, p);
    MulDist(dividend, divisor * q, p);
    assert left == r * p;
    if r < 0 {
      MulLe(r, -1, p);
    } else if r >= divisor {
      MulLe(divisor, r, p);
    }
    DivModUnique(dividend, q, r, divisor);
    DivModUnique(left, r, 0, p);
  }

  lemma DividedTotal(dividend: int, divisor: int, bits: nat, ds: seq<Word>, vs: seq<Word>, qs: seq<Word>, m: nat)
    requires m <= |qs| && |vs| <= |ds| && divisor > 0
    requires Divided(dividend * Pow2(bits), ds, vs, qs, 0, m) && Val(vs) == divisor * Pow2(bits)
    requires AllAre(ds[|vs|..], 0) && Val(ds[..|vs|]) < Val(vs) && AllAre(qs[m..], 0)
    ensures Val(qs) == dividend / divisor
    ensures Val(ds[..|vs|]) / Pow2(bits) == dividend % divisor
  {
    hide Val, Shift, Pow2;
    ValTrim(ds, |vs|);
    ValTrim(qs, m);
    assert qs[0..m] == qs[..m];
    ShiftZero(Val(qs));
    Unscale(dividend, divisor, Pow2(bits), Val(qs), Val(ds));
  }

  method FillZeroes(span: Span, from: nat)
    requires span.Valid() && from <= span.size
    modifies span.data
    ensures span.OnlyChanged(old(span.data[..]), span.data[..])
    ensures span.Words()[..from] == old(span.Words())[..from] && AllAre(span.Words()[from..], 0)
  {
    var i := from;
    while i < span.size
      invariant from <= i <= span.size
      invariant span.OnlyChanged(old(span.data[..]), span.data[..])
      invariant span.Words()[..from] == old(span.Words())[..from]
      invariant forall k :: from <= k < i ==> span.Words()[k] == 0
    {
      span.Put(i, 0);
      i := i + 1;
    }
  }

  lemma NonzeroValue(ws: seq<Word>, n: nat)
    requires 0 < n <= |ws| && ws[n - 1] > 0
    ensures Val(ws) > 0
  {
    if AllAre(ws, 0) {
      assert false;
    }
    assert ExtendSign(false) == 0;
    NotFill(ws, false);
  }

  /** D1: scales both operands so that the top word of the divisor is at least half the base. */
  method Normalize(dividend: Span, divisor: Span, dividendLen: nat, divisorLen: nat) returns (shift: nat)
    requires dividend.Valid() && divisor.Valid() && dividend.data != divisor.data
    requires 2 <= divisorLen <= divisor.size && divisorLen <= dividendLen + 1 <= dividend.size
    requires divisor.Words()[divisorLen - 1] > 0 && AllAre(divisor.Words()[divisorLen..], 0)
    requires AllAre(dividend.Words()[dividendLen..], 0)
    modifies dividend.data, divisor.data
    ensures shift < WORD_SIZE
    ensures Val(divisor.Words()[..divisorLen]) == old(Val(divisor.Words())) * Pow2(shift)
    ensures AllAre(divisor.Words()[divisorLen..], 0) && 2 * divisor.Words()[divisorLen - 1] >= BASE
    ensures Val(dividend.Words()) == old(Val(dividend.Words())) * Pow2(shift)
    ensures AllAre(dividend.Words()[dividendLen + 1..], 0)
    ensures Val(dividend.Words()[dividendLen + 1 - divisorLen..dividendLen + 1]) < Val(divisor.Words()[..divisorLen])
  {
    hide Val, Pow2, Weight, AllAre, CountLeadingZeroes;
    ghost var us, vs := dividend.Words(), divisor.Words();
    LeadingZeroes(divisor.Get(divisorLen - 1));
    shift := CountLeadingZeroes(divisor.Get(divisorLen - 1));
    ShiftLeft(dividend, shift, dividend);
    assert divisor.Words() == vs;
    ghost var ds := dividend.Words();
    ShiftLeft(divisor, shift, divisor);
    assert dividend.Words() == ds;
    NormalizedDivisor(vs, divisor.Words(), divisorLen, shift);
    NormalizedDividend(us, ds, dividendLen, shift, divisor.Words()[..divisorLen]);
  }

  /** D8: the scaled remainder, shifted back into the words of `remainder` that the dividend covers. */
  method Unnormalize(dividend: Span, remainder: Span, shift: nat, divisorLen: nat)
    requires dividend.Valid() && remainder.Valid() && dividend.data != remainder.data
    requires shift < WORD_SIZE && 0 < divisorLen <= dividend.size && divisorLen <= remainder.size
    requires AllAre(dividend.Words()[divisorLen..], 0)
    modifies remainder.data
    ensures remainder.Prefix(Min(remainder.size, dividend.size)).OnlyChanged(old(remainder.data[..]),
          remainder.data[..])
    ensures Val(remainder.Words()[..Min(remainder.size, dividend.size)])
            == Val(dividend.Words()[..divisorLen]) / Pow2(shift)
  {
    hide Val, Pow2;
    var size := Min(remainder.size, dividend.size);
    ghost var ds := dividend.Words()[..size];
    assert dividend.Prefix(size).Words() == ds;
    ValTrim(ds, divisorLen);
    assert ds[..divisorLen] == dividend.Words()[..divisorLen];
    ShiftRight(dividend.Prefix(size), shift, remainder.Prefix(size));
    assert remainder.Prefix(size).Words() == remainder.Words()[..size];
  }

  /**
   * Division of `dividend` by `divisor`. Both storages are overwritten; the quotient's storage and
   * the first words of the remainder's receive the results.
   */
  method DivModInternal(dividend: Span, divisor: Span, quotient: Span, remainder: Span,
                        dividendLen: nat, divisorLen: nat, restoreRemainder: bool)
    requires dividend.Valid() && divisor.Valid() && quotient.Valid() && remainder.Valid()
    requires !dividend.signed && !divisor.signed && !quotient.signed && !remainder.signed
    requires dividend.data != divisor.data && quotient.data != dividend.data && quotient.data != divisor.data
    requires remainder.data != dividend.data && remainder.data != divisor.data && remainder.data != quotient.data
    requires 2 <= divisorLen <= divisor.size && divisorLen <= dividendLen + 1 <= dividend.size
    requires divisor.Words()[divisorLen - 1] > 0 && AllAre(divisor.Words()[divisorLen..], 0)
    requires AllAre(dividend.Words()[dividendLen..], 0)
    requires dividendLen + 1 - divisorLen <= quotient.size
    requires restoreRemainder ==> divisorLen <= remainder.size
    modifies dividend.data, divisor.data, quotient.data, remainder.data
    ensures old(Val(divisor.Words())) > 0
    ensures Val(quotient.Words()) == old(Val(dividend.Words())) / old(Val(divisor.Words()))
    ensures restoreRemainder ==>
              Val(remainder.Words()[..Min(remainder.size, dividend.size)])
              == old(Val(dividend.Words())) % old(Val(divisor.Words()))
    ensures quotient.OnlyChanged(old(quotient.data[..]), quotient.data[..])
    ensures if restoreRemainder
            then remainder.Prefix(Min(remainder.size, dividend.size)).OnlyChanged(old(remainder.data[..]),
                  remainder.data[..])
            else remainder.data[..] == old(remainder.data[..])
  {
    hide Val, Pow2, Divided, AllAre;
    NonzeroValue(divisor.Words(), divisorLen);
    var shift := Normalize(dividend, divisor, dividendLen, divisorLen);
    DivideDigits(dividend, divisor, quotient, dividendLen, divisorLen);
    ghost var ds, vs, m := dividend.Words(), divisor.Words()[..divisorLen], dividendLen + 1 - divisorLen;
    ghost var qs := quotient.Words();
    FillZeroes(quotient, dividendLen + 1 - divisorLen);
    DividedPrefix(old(Val(dividend.Words())) * Pow2(shift), ds, vs, qs, quotient.Words(), m);
    DividedTotal(old(Val(dividend.Words())), old(Val(divisor.Words())), shift, ds, vs, quotient.Words(), m);
    if restoreRemainder {
      Unnormalize(dividend, remainder, shift, divisorLen);
    }
  }
}
