/** Shifts of a whole storage by any number of bits. */
module Shifts {
  import opened Arithmetic
  import opened Words
  import opened Storage

  // ----- Powers of two -----

  lemma BaseIsPow2()
    ensures BASE == Pow2(WORD_SIZE)
  {
    hide Pow2;
    Pow2At4();
    Pow2Add(4, 4);
    Pow2Add(8, 8);
    Pow2Add(16, 16);
    Pow2Add(32, 32);
  }

  lemma Pow2At4()
    ensures Pow2(4) == 16
  {
  }

  lemma {:induction false} WeightIsPow2(i: nat)
    ensures Weight(i) == Pow2(i * WORD_SIZE)
  {
    if i > 0 {
      WeightIsPow2(i - 1);
      BaseIsPow2();
      Pow2Add((i - 1) * WORD_SIZE, WORD_SIZE);
      UpIsBase(Weight(i - 1));
      assert (i - 1) * WORD_SIZE + WORD_SIZE == i * WORD_SIZE;
    }
  }

  lemma UpIsBase(x: int)
    ensures Up(x) == x * BASE
  {
  }

  // ----- Shifting one word -----

  /** `w << bits` in WordType: the bits that leave the word are lost. */
  function Shl(w: Word, bits: nat): Word {
    (w * Pow2(bits)) % BASE
  }

  function Shr(w: Word, bits: nat): Word {
    DivNonneg(w, Pow2(bits));
    w / Pow2(bits)
  }

  /** The halves of a word whose high part has `m` values and whose low part has `mm`. */
  lemma Halves(w: int, h: int, l: int, m: int, mm: int)
    requires m > 0 && mm > 0 && m * mm == BASE && 0 <= w < BASE
    requires w == h * mm + l && 0 <= l < mm
    ensures h < m
    ensures l * m + m <= BASE
    ensures w * m == h * BASE + l * m
  {
    if h >= m {
      MulLe(m, h, mm);
    }
    MulLe(l + 1, mm, m);
    MulDist(l, 1, m);
    MulDist(h * mm, l, m);
    MulAssoc(h, mm, m);
  }

  /**
   * `w << bits` and the bits that fell out of it make up w * 2^bits, and `w << bits` has only zeroes
   * where bits of the next lower word arrive, so that `|` acts as `+`.
   */
  lemma ShlShr(w: Word, bits: nat)
    requires bits <= WORD_SIZE
    ensures Shl(w, bits) + Up(Shr(w, WORD_SIZE - bits)) == w * Pow2(bits)
    ensures Shl(w, bits) == (w % Pow2(WORD_SIZE - bits)) * Pow2(bits)
    ensures Shl(w, bits) + Pow2(bits) <= BASE
    ensures Shr(w, WORD_SIZE - bits) < Pow2(bits)
  {
    hide Pow2;
    var m, mm := Pow2(bits), Pow2(WORD_SIZE - bits);
    BaseIsPow2();
    Pow2Add(bits, WORD_SIZE - bits);
    DivMod(w, mm);
    Halves(w, w / mm, w % mm, m, mm);
    var l := (w % mm) * m;
    assert l >= 0 by { MulNonneg(w % mm, m); }
    DivModUnique(w * m, w / mm, l, BASE);
    UpIsBase(w / mm);
  }

  // ----- Shifting a storage left -----

  /** The bits word `k - 1` sends into word `k`. */
  function CarriedUp(ws: seq<Word>, bits: nat, k: nat): Word
    requires bits <= WORD_SIZE && k <= |ws|
  {
    if k == 0 then 0 else Shr(ws[k - 1], WORD_SIZE - bits)
  }

  function ShlWord(ws: seq<Word>, bits: nat, k: nat): (w: Word)
    requires bits <= WORD_SIZE && k < |ws|
  {
    ShlShr(ws[k], bits);
    if k > 0 then ShlShr(ws[k - 1], bits); Shl(ws[k], bits) + CarriedUp(ws, bits, k) else Shl(ws[k], bits)
  }

  /** Word `i` of `ws` shifted left by `offset` words and `bits` bits. */
  function LeftWord(ws: seq<Word>, offset: nat, bits: nat, i: nat): Word
    requires bits <= WORD_SIZE && i < |ws|
  {
    if i < offset then 0 else ShlWord(ws, bits, i - offset)
  }

  lemma {:induction false} ShlVal(ws: seq<Word>, bits: nat, out: seq<Word>, k: nat)
    requires bits <= WORD_SIZE && k <= |out| <= |ws|
    requires forall i :: 0 <= i < |out| ==> out[i] == ShlWord(ws, bits, i)
    ensures Val(out[..k]) + Shift(CarriedUp(ws, bits, k), k) == Pow2(bits) * Val(ws[..k])
  {
    hide Val, Shift, Shl, Shr, Pow2, Up;
    if k == 0 {
      ValZeros(out[..0]);
      ValZeros(ws[..0]);
      ShiftAdd(0, 0, 0);
    } else {
      ShlVal(ws, bits, out, k - 1);
      ShlShr(ws[k - 1], bits);
      ValStep(out, k - 1);
      ValStep(ws, k - 1);
      ShlStep(Pow2(bits), ws[k - 1], Shl(ws[k - 1], bits), CarriedUp(ws, bits, k - 1), CarriedUp(ws, bits, k), k - 1);
      MulDist(Val(ws[..k - 1]), Shift(ws[k - 1], k - 1), Pow2(bits));
    }
  }

  lemma ShlStep(p: int, w: int, shl: int, carriedIn: int, carriedOut: int, i: nat)
    requires shl + Up(carriedOut) == w * p
    ensures Shift(shl + carriedIn, i) + Shift(carriedOut, i + 1) == Shift(carriedIn, i) + Shift(w, i) * p
  {
    hide Shift, Up;
    ShiftAdd(shl, carriedIn, i);
    ShiftAdd(shl, Up(carriedOut), i);
    ShiftUp(carriedOut, i);
    ShiftMul(p, w, i);
  }

  /** The words of a left shift denote the value times the power of two, modulo the storage's weight. */
  lemma LeftVal(ws: seq<Word>, offset: nat, bits: nat, out: seq<Word>)
    requires bits <= WORD_SIZE && |out| == |ws| && offset <= |ws|
    requires forall i :: 0 <= i < |ws| ==> out[i] == LeftWord(ws, offset, bits, i)
    ensures Val(out) == (Val(ws) * Pow2(offset * WORD_SIZE + bits)) % Weight(|ws|)
  {
    hide Val, Shift, Pow2, Up, ShlWord, CarriedUp, Weight;
    var n, m := |ws|, |ws| - offset;
    var p, high := Pow2(bits), out[offset..];
    ValSplit(out, offset);
    ValZeros(out[..offset]);
    ShlVal(ws, bits, high, m);
    assert high[..m] == high;
    ValSplit(ws, m);
    var c, top := CarriedUp(ws, bits, m), Val(ws[m..]);
    MulDist(Val(ws[..m]), Shift(top, m), p);
    ShiftMul(p, top, m);
    ShiftAdd(c, p * top, m);
    var k := c + p * top;
    assert p * Val(ws) == Val(high) + Shift(k, m);
    ShiftAdd(Val(high), Shift(k, m), offset);
    ShiftShift(k, m, offset);
    WeightIsPow2(offset);
    Pow2Add(offset * WORD_SIZE, bits);
    ShiftWeight(p * Val(ws), offset);
    MulAssoc(Val(ws), p, Weight(offset));
    TotalMod(Val(ws) * Pow2(offset * WORD_SIZE + bits), out, k);
  }

  /** Written from the top down, so the operand may be the result itself. */
  method ShiftLeft(operand: Span, shift: nat, result: Span)
    requires operand.Valid() && result.Valid() && operand.size == result.size
    requires operand.data != result.data || operand.offset <= result.offset
    requires shift <= result.size * WORD_SIZE
    modifies result.data
    ensures result.OnlyChanged(old(result.data[..]), result.data[..])
    ensures Val(result.Words()) == (old(Val(operand.Words())) * Pow2(shift)) % Weight(result.size)
  {
    hide Val, Pow2, Weight, ShlWord;
    var size, offset, remainder := operand.size, shift / WORD_SIZE, shift % WORD_SIZE;
    ghost var ws := operand.Words();
    if remainder == 0 {
      MoveUp(operand, offset, result);
    } else {
      MoveUpBits(operand, offset, remainder, result);
    }
    var i := 0;
    while i < offset
      invariant 0 <= i <= offset
      invariant forall k :: 0 <= k < i || offset <= k < size ==> result.Words()[k] == LeftWord(ws, offset, remainder, k)
      invariant result.OnlyChanged(old(result.data[..]), result.data[..])
    {
      result.Put(i, 0);
      i := i + 1;
    }
    LeftVal(ws, offset, remainder, result.Words());
  }

  method MoveUp(operand: Span, offset: nat, result: Span)
    requires operand.Valid() && result.Valid() && operand.size == result.size && offset <= operand.size
    requires operand.data != result.data || operand.offset <= result.offset
    modifies result.data
    ensures result.OnlyChanged(old(result.data[..]), result.data[..])
    ensures forall k :: offset <= k < result.size ==> result.Words()[k] == LeftWord(old(operand.Words()), offset, 0, k)
  {
    hide ShlWord;
    ghost var ws := operand.Words();
    var i := operand.size;
    while i > offset
      invariant offset <= i <= operand.size
      invariant forall k :: i <= k < result.size ==> result.Words()[k] == LeftWord(ws, offset, 0, k)
      invariant forall j :: 0 <= j < result.data.Length && !(result.offset + i <= j < result.offset + result.size) ==>
                              result.data[j] == old(result.data[j])
    {
      i := i - 1;
      ShiftByNothing(ws, i - offset);
      result.Put(i, operand.data[operand.offset + i - offset]);
    }
  }

  lemma ShiftByNothing(ws: seq<Word>, k: nat)
    requires k < |ws|
    ensures ShlWord(ws, 0, k) == ws[k]
  {
    assert Pow2(0) == 1;
    ShlShr(ws[k], 0);
    if k > 0 {
      ShlShr(ws[k - 1], 0);
    }
    DivModUnique(ws[k], 0, ws[k], BASE);
  }

  method MoveUpBits(operand: Span, offset: nat, remainder: nat, result: Span)
    requires operand.Valid() && result.Valid() && operand.size == result.size && offset < operand.size
    requires operand.data != result.data || operand.offset <= result.offset
    requires 0 < remainder < WORD_SIZE
    modifies result.data
    ensures result.OnlyChanged(old(result.data[..]), result.data[..])
    ensures forall k :: offset <= k < result.size ==>
              result.Words()[k] == LeftWord(old(operand.Words()), offset, remainder, k)
  {
    hide Shl, Shr;
    ghost var ws := operand.Words();
    var i := operand.size - 1;
    while i > offset
      invariant offset <= i < operand.size
      invariant forall k :: i < k < result.size ==> result.Words()[k] == LeftWord(ws, offset, remainder, k)
      invariant forall j :: 0 <= j < result.data.Length && !(result.offset + i < j < result.offset + result.size) ==>
                              result.data[j] == old(result.data[j])
    {
      var high, low := operand.data[operand.offset + i - offset], operand.data[operand.offset + i - offset - 1];
      assert high == ws[i - offset] && low == ws[i - offset - 1];
      ShlShr(high, remainder);
      ShlShr(low, remainder);
      assert Shl(high, remainder) + Shr(low, WORD_SIZE - remainder) == LeftWord(ws, offset, remainder, i);
      result.Put(i, Shl(high, remainder) + Shr(low, WORD_SIZE - remainder));
      i := i - 1;
    }
    assert operand.data[operand.offset] == ws[0];
    result.Put(offset, Shl(operand.data[operand.offset], remainder));
  }

  // ----- Shifting a storage right -----

  /** The bits word `k` sends into word `k - 1`; there are none above the top. */
  function CarriedDown(ws: seq<Word>, bits: nat, k: nat): Word
    requires bits <= WORD_SIZE && k <= |ws|
  {
    if k == |ws| then 0 else Shl(ws[k], WORD_SIZE - bits)
  }

  function ShrWord(ws: seq<Word>, bits: nat, k: nat): Word
    requires bits <= WORD_SIZE && k < |ws|
  {
    ShlShr(ws[k], WORD_SIZE - bits);
    if k + 1 < |ws| then ShlShr(ws[k + 1], WORD_SIZE - bits); Shr(ws[k], bits) + CarriedDown(ws, bits, k + 1)
    else Shr(ws[k], bits)
  }

  /** Word `i` of `ws` shifted right by `offset` words and `bits` bits. */
  function RightWord(ws: seq<Word>, offset: nat, bits: nat, i: nat): Word
    requires bits <= WORD_SIZE && i < |ws|
  {
    if i + offset < |ws| then ShrWord(ws, bits, i + offset) else 0
  }

  lemma {:induction false} ShrVal(ws: seq<Word>, bits: nat, out: seq<Word>, k: nat)
    requires bits <= WORD_SIZE && k <= |out| == |ws|
    requires forall i :: 0 <= i < |out| ==> out[i] == ShrWord(ws, bits, i)
    ensures Up(Val(out[..k])) + CarriedDown(ws, bits, 0)
            == Pow2(WORD_SIZE - bits) * Val(ws[..k]) + Shift(CarriedDown(ws, bits, k), k)
  {
    hide Val, Shift, Shl, Shr, Pow2, Up;
    if k == 0 {
      ValZeros(out[..0]);
      ValZeros(ws[..0]);
      UpAdd(0, 0);
      ShiftZero(CarriedDown(ws, bits, 0));
    } else {
      ShrVal(ws, bits, out, k - 1);
      ShlShr(ws[k - 1], WORD_SIZE - bits);
      ValStep(out, k - 1);
      ValStep(ws, k - 1);
      ShrStep(Pow2(WORD_SIZE - bits), ws[k - 1], Shr(ws[k - 1], bits), CarriedDown(ws, bits, k - 1),
              CarriedDown(ws, bits, k), k - 1);
      UpAdd(Val(out[..k - 1]), Shift(out[k - 1], k - 1));
      MulDist(Val(ws[..k - 1]), Shift(ws[k - 1], k - 1), Pow2(WORD_SIZE - bits));
    }
  }

  lemma UpAdd(x: int, y: int)
    ensures Up(x + y) == Up(x) + Up(y)
  {
  }

  lemma ShiftZero(x: int)
    ensures Shift(x, 0) == x
  {
  }

  lemma ShrStep(p: int, w: int, shr: int, carriedOut: int, carriedIn: int, i: nat)
    requires carriedOut + Up(shr) == w * p
    ensures Up(Shift(shr + carriedIn, i)) + Shift(carriedOut, i) == Shift(w, i) * p + Shift(carriedIn, i + 1)
  {
    hide Shift;
    ShiftUp(shr + carriedIn, i);
    ShiftUp(carriedIn, i);
    ShiftAdd(Up(shr), Up(carriedIn), i);
    ShiftAdd(carriedOut, Up(shr), i);
    ShiftMul(p, w, i);
  }

  /** Shifting right by fewer bits than a word: quotient and remainder by the power of two. */
  lemma RightBits(ws: seq<Word>, bits: nat, out: seq<Word>) returns (l: nat)
    requires bits <= WORD_SIZE && |out| == |ws|
    requires forall i :: 0 <= i < |out| ==> out[i] == ShrWord(ws, bits, i)
    ensures Val(ws) == Val(out) * Pow2(bits) + l && l < Pow2(bits)
  {
    hide Val, Shift, Shl, Shr, Pow2, Up;
    var n, m, mm := |ws|, Pow2(bits), Pow2(WORD_SIZE - bits);
    BaseIsPow2();
    Pow2Add(WORD_SIZE - bits, bits);
    ShrVal(ws, bits, out, n);
    assert out[..n] == out && ws[..n] == ws;
    ShiftAdd(0, 0, n);
    if n == 0 {
      l := 0;
      ValZeros(ws);
      ValZeros(out);
    } else {
      ShlShr(ws[0], WORD_SIZE - bits);
      l := ws[0] % m;
      DivideThrough(Val(ws), Val(out), l, m, mm);
    }
  }

  lemma DivideThrough(w: int, v: int, l: int, m: int, mm: int)
    requires mm > 0 && mm * m == BASE && Up(v) + l * mm == mm * w
    ensures w == v * m + l
  {
    UpIsBase(v);
    hide Up;
    MulAssoc(v, m, mm);
    MulDist(v * m, l, mm);
    Cancel(w, v * m + l, mm);
  }

  lemma Cancel(a: int, b: int, c: int)
    requires c > 0 && a * c == b * c
    ensures a == b
  {
    if a != b {
      MulDist(a, b, c);
      MulAway(a - b, c);
    }
  }

  /** The words of a right shift denote the quotient by the power of two. */
  lemma RightVal(ws: seq<Word>, offset: nat, bits: nat, out: seq<Word>)
    requires bits <= WORD_SIZE && |out| == |ws| && offset <= |ws|
    requires forall i :: 0 <= i < |ws| ==> out[i] == RightWord(ws, offset, bits, i)
    ensures Val(out) == Val(ws) / Pow2(offset * WORD_SIZE + bits)
  {
    hide Val, Shift, Pow2, Up, Shl, Shr;
    var m, low, high := |ws| - offset, ws[..offset], ws[offset..];
    ValSplit(ws, offset);
    ValTrim(out, m);
    forall i | 0 <= i < m
      ensures out[..m][i] == ShrWord(high, bits, i)
    {
      assert out[i] == ShrWord(ws, bits, i + offset);
    }
    var l := RightBits(high, bits, out[..m]);
    var p, q := Pow2(bits), Val(out);
    ShiftAdd(q * p, l, offset);
    ValBound(low);
    ShiftLe(l + 1, p, offset);
    ShiftAdd(l, 1, offset);
    ShiftMul(q, p, offset);
    ShiftWeight(p, offset);
    WeightIsPow2(offset);
    Pow2Add(offset * WORD_SIZE, bits);
    ShiftNonneg(l, offset);
    DivModUnique(Val(ws), q, Val(low) + Shift(l, offset), Pow2(offset * WORD_SIZE + bits));
  }

  /** Written from the bottom up, so the operand may be the result itself. */
  method ShiftRight(operand: Span, shift: nat, result: Span)
    requires operand.Valid() && result.Valid() && operand.size == result.size
    requires operand.SafeAhead(result)
    requires shift < result.size * WORD_SIZE
    modifies result.data
    ensures result.OnlyChanged(old(result.data[..]), result.data[..])
    ensures Val(result.Words()) == old(Val(operand.Words())) / Pow2(shift)
  {
    hide Val, Pow2, ShrWord;
    var size, offset, remainder := operand.size, shift / WORD_SIZE, shift % WORD_SIZE;
    ghost var ws := operand.Words();
    if remainder == 0 {
      MoveDown(operand, offset, result);
    } else {
      MoveDownBits(operand, offset, remainder, result);
    }
    var i := size - offset;
    while i < size
      invariant size - offset <= i <= size
      invariant forall k :: 0 <= k < i ==> result.Words()[k] == RightWord(ws, offset, remainder, k)
      invariant result.OnlyChanged(old(result.data[..]), result.data[..])
    {
      result.Put(i, 0);
      i := i + 1;
    }
    RightVal(ws, offset, remainder, result.Words());
  }

  lemma ShiftDownByNothing(ws: seq<Word>, k: nat)
    requires k < |ws|
    ensures ShrWord(ws, 0, k) == ws[k]
  {
    hide Shl;
    assert Pow2(0) == 1;
    BaseIsPow2();
    if k + 1 < |ws| {
      ShlShr(ws[k + 1], WORD_SIZE);
    }
  }

  method MoveDown(operand: Span, offset: nat, result: Span)
    requires operand.Valid() && result.Valid() && operand.size == result.size && offset < operand.size
    requires operand.SafeAhead(result)
    modifies result.data
    ensures result.OnlyChanged(old(result.data[..]), result.data[..])
    ensures forall k :: 0 <= k < result.size - offset ==>
              result.Words()[k] == RightWord(old(operand.Words()), offset, 0, k)
  {
    hide ShrWord;
    ghost var ws := operand.Words();
    var i := 0;
    while i < operand.size - offset
      invariant 0 <= i <= operand.size - offset
      invariant forall k :: 0 <= k < i ==> result.Words()[k] == RightWord(ws, offset, 0, k)
      invariant forall j :: 0 <= j < result.data.Length && !(result.offset <= j < result.offset + i) ==>
                              result.data[j] == old(result.data[j])
    {
      ShiftDownByNothing(ws, i + offset);
      result.Put(i, operand.data[operand.offset + i + offset]);
      i := i + 1;
    }
  }

  method MoveDownBits(operand: Span, offset: nat, remainder: nat, result: Span)
    requires operand.Valid() && result.Valid() && operand.size == result.size && offset < operand.size
    requires operand.SafeAhead(result)
    requires 0 < remainder < WORD_SIZE
    modifies result.data
    ensures result.OnlyChanged(old(result.data[..]), result.data[..])
    ensures forall k :: 0 <= k < result.size - offset ==>
              result.Words()[k] == RightWord(old(operand.Words()), offset, remainder, k)
  {
    hide Shl, Shr;
    ghost var ws := operand.Words();
    var i := 0;
    while i < operand.size - offset - 1
      invariant 0 <= i <= operand.size - offset - 1
      invariant forall k :: 0 <= k < i ==> result.Words()[k] == RightWord(ws, offset, remainder, k)
      invariant forall j :: 0 <= j < result.data.Length && !(result.offset <= j < result.offset + i) ==>
                              result.data[j] == old(result.data[j])
    {
      var low, high := operand.data[operand.offset + i + offset], operand.data[operand.offset + i + offset + 1];
      assert low == ws[i + offset] && high == ws[i + offset + 1];
      ShlShr(high, WORD_SIZE - remainder);
      ShlShr(low, WORD_SIZE - remainder);
      assert Shr(low, remainder) + Shl(high, WORD_SIZE - remainder) == RightWord(ws, offset, remainder, i);
      result.Put(i, Shr(low, remainder) + Shl(high, WORD_SIZE - remainder));
      i := i + 1;
    }
    assert operand.data[operand.offset + operand.size - 1] == ws[operand.size - 1];
    result.Put(operand.size - offset - 1, Shr(operand.data[operand.offset + operand.size - 1], remainder));
  }
}
