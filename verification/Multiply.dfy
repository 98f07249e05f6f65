/** Schoolbook multiplication, one column of the result at a time. */
module Multiply {
  import opened Arithmetic
  import opened Common
  import opened Words
  import opened Storage

  // ----- Columns and rows of a product -----

  function WideMultiply(word1: Word, word2: Word): (r: DoubleWord)
    ensures r <= SQUARE
  {
    var x: int, y: int := word1, word2;
    MulNonneg(x, y);
    MulLe(x, BASE - 1, y);
    MulLe(y, BASE - 1, BASE - 1);
    x * y
  }

  function Term(a: seq<Word>, b: seq<Word>, c: nat, j: nat): nat
    requires j < |a|
  {
    if 0 <= c - j < |b| then WideMultiply(a[j], b[c - j]) else 0
  }

  /** The sum of the products a[j] * b[c - j] over j < k. */
  function Column(a: seq<Word>, b: seq<Word>, c: nat, k: nat): nat
    requires k <= |a|
  {
    if k == 0 then 0 else Column(a, b, c, k - 1) + Term(a, b, c, k - 1)
  }

  /** The words of `b` that word `j` of the other factor meets in the first `c` columns. */
  function Met(b: seq<Word>, c: nat, j: nat): seq<Word> {
    if c < j then [] else if c - j >= |b| then b else b[..c - j]
  }

  /** The part of the product that falls into the first `c` columns, summed by rows j < k. */
  function Rows(a: seq<Word>, b: seq<Word>, c: nat, k: nat): int
    requires k <= |a|
  {
    if k == 0 then 0 else Rows(a, b, c, k - 1) + Shift(a[k - 1] * Val(Met(b, c, k - 1)), k - 1)
  }

  lemma {:induction false} RowsNone(a: seq<Word>, b: seq<Word>, k: nat)
    requires k <= |a|
    ensures Rows(a, b, 0, k) == 0
  {
    if k > 0 {
      RowsNone(a, b, k - 1);
      assert Met(b, 0, k - 1) == [];
      ShiftAdd(0, 0, k - 1);
    }
  }

  /** One more column takes one more word of each row. */
  lemma {:induction false} RowsStep(a: seq<Word>, b: seq<Word>, c: nat, k: nat)
    requires k <= |a|
    ensures Rows(a, b, c + 1, k) == Rows(a, b, c, k) + Shift(Column(a, b, c, k), c)
  {
    hide Val, Shift;
    if k == 0 {
      ShiftAdd(0, 0, c);
    } else {
      var j := k - 1;
      RowsStep(a, b, c, j);
      RowGrows(a, b, c, j);
      ShiftAdd(Column(a, b, c, j), Term(a, b, c, j), c);
    }
  }

  lemma RowGrows(a: seq<Word>, b: seq<Word>, c: nat, j: nat)
    requires j < |a|
    ensures Shift(a[j] * Val(Met(b, c + 1, j)), j) == Shift(a[j] * Val(Met(b, c, j)), j) + Shift(Term(a, b, c, j), c)
  {
    hide Val, Shift;
    if 0 <= c - j < |b| {
      var d, w: int, x: int := c - j, a[j], b[c - j];
      ValStep(b, d);
      assert Met(b, c, j) == b[..d] && Met(b, c + 1, j) == b[..d + 1];
      TermShifts(w, Val(b[..d]), x, d, j);
    } else {
      assert Met(b, c, j) == Met(b, c + 1, j);
      ShiftAdd(0, 0, c);
    }
  }

  lemma TermShifts(w: int, v: int, x: int, d: nat, j: nat)
    ensures Shift(w * (v + Shift(x, d)), j) == Shift(w * v, j) + Shift(w * x, d + j)
  {
    hide Shift;
    MulDist(v, Shift(x, d), w);
    ShiftMul(w, x, d);
    ShiftAdd(w * v, Shift(w * x, d), j);
    ShiftShift(w * x, d, j);
  }

  /** What the first `n` columns leave out is a multiple of BASE^n. */
  lemma {:induction false} RowsTotal(a: seq<Word>, b: seq<Word>, n: nat, k: nat) returns (h: int)
    requires k <= |a|
    ensures Val(a[..k]) * Val(b) == Rows(a, b, n, k) + Shift(h, n)
  {
    hide Val, Shift;
    if k == 0 {
      h := 0;
      ValZeros(a[..0]);
      ShiftAdd(0, 0, n);
    } else {
      var j := k - 1;
      var h0 := RowsTotal(a, b, n, j);
      var h1 := RowRest(a[j], b, n, j);
      h := h0 + h1;
      ValStep(a, j);
      ShiftMul(Val(b), a[j], j);
      MulDist(Val(a[..j]), Shift(a[j], j), Val(b));
      ShiftAdd(h0, h1, n);
    }
  }

  lemma RowRest(w: Word, b: seq<Word>, n: nat, j: nat) returns (h: int)
    ensures Shift(w * Val(b), j) == Shift(w * Val(Met(b, n, j)), j) + Shift(h, n)
  {
    hide Val, Shift;
    if n < j {
      ValZeros([]);
      h := Shift(w * Val(b), j - n);
      ShiftShift(w * Val(b), j - n, n);
      ShiftAdd(0, 0, j);
    } else if n - j >= |b| {
      h := 0;
      ShiftAdd(0, 0, n);
    } else {
      var m := n - j;
      h := w * Val(b[m..]);
      ValSplit(b, m);
      TermShifts(w, Val(b[..m]), Val(b[m..]), m, j);
    }
  }

  // ----- The column loop -----

  lemma {:induction false} ColumnFrom(a: seq<Word>, b: seq<Word>, c: nat, k: nat, k': nat)
    requires k <= k' <= |a| && forall j :: k <= j < k' ==> Term(a, b, c, j) == 0
    ensures Column(a, b, c, k') == Column(a, b, c, k)
  {
    if k < k' {
      ColumnFrom(a, b, c, k, k' - 1);
    }
  }

  const SQUARE: nat := (BASE - 1) * (BASE - 1)

  /** The most that `terms` products can add up to. */
  function Most(terms: nat): nat {
    MulNonneg(terms, SQUARE);
    terms * SQUARE
  }

  lemma MostStep(terms: nat)
    ensures Most(terms + 1) == Most(terms) + SQUARE
  {
    MulDist(terms, 1, SQUARE);
  }

  /** A column of at most `limit` products, with a carry that fits, fits into a word and a carry that fits. */
  lemma ColumnFits(sum: int, terms: nat, limit: nat)
    requires terms <= limit < BASE && sum <= Most(terms)
    ensures Up(limit) + sum <= Up(Up(limit))
  {
    assert SQUARE == Up(BASE) - 2 * BASE + 1;
    MulLe(terms, limit, SQUARE);
    MulDist(Up(BASE) - 2 * BASE, 1, limit);
    assert limit * SQUARE == limit * Up(BASE) - 2 * limit * BASE + limit;
    UpMul(limit, BASE);
  }

  lemma UpMonotone(x: int, y: int)
    ensures Up(x) < Up(y) <==> x < y
  {
  }

  function Low(x: DoubleWord): Word {
    x % BASE
  }

  function High(x: DoubleWord): Word {
    HighFits(x);
    x / BASE
  }

  lemma HighFits(x: int)
    requires 0 <= x < Up(BASE)
    ensures 0 <= x / BASE < BASE && x % BASE + Up(x / BASE) == x
  {
  }

  /** Adds one product to the column: its low word to the digit, its high word to the carry. */
  method Accumulate(digit: Word, carry: DoubleWord, x: DoubleWord, ghost limit: nat)
    returns (digit': Word, carry': DoubleWord)
    requires limit < BASE && digit + Up(carry) + x <= Up(Up(limit))
    ensures digit' + Up(carry') == digit + Up(carry) + x
  {
    var ncarry: bool;
    digit', ncarry := AddWords(digit, Low(x), false);
    HighFits(x);
    UpMonotone(Up(limit), carry + High(x) + Bit(ncarry));
    UpMonotone(limit, BASE);
    carry' := carry + (High(x) + Bit(ncarry));
  }

  /** Column `i` of the product, with the carry from the columns below it. */
  method MulColumn(data1: Span, data2: Span, size1: nat, size2: nat, i: nat, carryIn: DoubleWord)
    returns (digit: Word, carry: DoubleWord)
    requires data1.Valid() && data2.Valid()
    requires size1 == data1.size || i < size1 < data1.size
    requires size2 == data2.size || i < size2 < data2.size
    requires size2 < BASE && carryIn <= Up(size2)
    ensures digit + Up(carry) == carryIn + Column(data1.Words(), data2.Words(), i, data1.size)
    ensures carry <= Up(size2)
  {
    hide Up, Term, WideMultiply, SQUARE, Most, Column;
    ghost var a, b := data1.Words(), data2.Words();
    digit, carry := Low(carryIn), High(carryIn);
    HighFits(carryIn);
    var startIndex := if i >= size2 then i - size2 + 1 else 0;
    var endIndex := Min(i + 1, size1);
    var j := startIndex;
    TermsBefore(a, b, i, Min(j, data1.size), size2);
    ghost var sum: int, terms: nat := 0, 0;
    while j < endIndex
      invariant startIndex <= j && (j <= endIndex || j == startIndex)
      invariant digit + Up(carry) == carryIn + sum
      invariant terms == j - startIndex && 0 <= sum <= Most(terms)
      invariant sum == Column(a, b, i, Min(j, data1.size))
    {
      var x := WideMultiply(data1.Get(j), data2.Get(i - j));
      TermIs(a, b, i, j);
      MostStep(terms);
      sum, terms := sum + x, terms + 1;
      ColumnFits(sum, terms, size2);
      digit, carry := Accumulate(digit, carry, x, size2);
      j := j + 1;
    }
    TermsAfter(a, b, i, Min(j, data1.size));
    ColumnFits(sum, terms, size2);
    UpMonotone(Up(size2), carry);
  }

  lemma TermIs(a: seq<Word>, b: seq<Word>, c: nat, j: nat)
    requires j < |a| && j <= c < j + |b|
    ensures Column(a, b, c, j + 1) == Column(a, b, c, j) + WideMultiply(a[j], b[c - j])
  {
  }

  lemma TermsBefore(a: seq<Word>, b: seq<Word>, c: nat, k: nat, size2: nat)
    requires k <= |a| && (k == 0 || (size2 == |b| && k <= c - size2 + 1))
    ensures Column(a, b, c, k) == 0
  {
    ColumnFrom(a, b, c, 0, k);
  }

  lemma TermsAfter(a: seq<Word>, b: seq<Word>, c: nat, k: nat)
    requires k <= |a| && (k == |a| || k > c)
    ensures Column(a, b, c, |a|) == Column(a, b, c, k)
  {
    ColumnFrom(a, b, c, k, |a|);
  }

  // ----- The product -----

  /** The columns add up to the product, modulo the weight of as many words as there are columns. */
  lemma ColumnsTotal(a: seq<Word>, b: seq<Word>, ws: seq<Word>, carry: int)
    requires Val(ws) + Shift(carry, |ws|) == Rows(a, b, |ws|, |a|)
    ensures Val(ws) == (Val(a) * Val(b)) % Weight(|ws|)
  {
    hide Val, Shift, Weight, Rows;
    var h := RowsTotal(a, b, |ws|, |a|);
    assert a[..|a|] == a;
    ShiftAdd(carry, h, |ws|);
    TotalMod(Val(a) * Val(b), ws, carry + h);
  }

  lemma ColumnStep(a: seq<Word>, b: seq<Word>, ws: seq<Word>, i: nat, carry: int, digit: Word, ncarry: int)
    requires i < |ws| && Val(ws[..i]) + Shift(carry, i) == Rows(a, b, i, |a|)
    requires digit + Up(ncarry) == carry + Column(a, b, i, |a|)
    ensures Val(ws[i := digit][..i + 1]) + Shift(ncarry, i + 1) == Rows(a, b, i + 1, |a|)
  {
    hide Val, Shift, Up;
    var now := ws[i := digit];
    assert now[..i] == ws[..i];
    ValStep(now, i);
    RowsStep(a, b, i, |a|);
    ShiftAdd(digit, Up(ncarry), i);
    ShiftUp(ncarry, i);
    ShiftAdd(carry, Column(a, b, i, |a|), i);
  }

  /** The schoolbook columns, lowest first. */
  method MulColumns(data1: Span, data2: Span, result: Span)
    requires data1.Valid() && data2.Valid() && result.Valid()
    requires data1.data != result.data && data2.data != result.data
    requires data2.size < BASE
    modifies result.data
    ensures result.OnlyChanged(old(result.data[..]), result.data[..])
    ensures Val(result.Words()) == (Val(data1.Words()) * Val(data2.Words())) % Weight(result.size)
  {
    hide Val, Shift, Up, Column, Rows, Weight;
    var size1, size2 := Min(data1.size, result.size), Min(data2.size, result.size);
    ghost var a, b := data1.Words(), data2.Words();
    var carry: DoubleWord, i := 0, 0;
    NothingYet(a, b, result.Words(), size2);
    while i < result.size
      invariant 0 <= i <= result.size
      invariant result.OnlyChanged(old(result.data[..]), result.data[..])
      invariant carry <= Up(size2)
      invariant Val(result.Words()[..i]) + Shift(carry, i) == Rows(a, b, i, |a|)
    {
      var digit, ncarry := MulColumn(data1, data2, size1, size2, i, carry);
      ColumnStep(a, b, result.Words(), i, carry, digit, ncarry);
      result.Put(i, digit);
      carry := ncarry;
      i := i + 1;
    }
    assert result.Words()[..i] == result.Words();
    ColumnsTotal(a, b, result.Words(), carry);
  }

  lemma NothingYet(a: seq<Word>, b: seq<Word>, ws: seq<Word>, size2: nat)
    ensures Val(ws[..0]) + Shift(0, 0) == Rows(a, b, 0, |a|) && 0 <= Up(size2)
  {
    RowsNone(a, b, |a|);
  }

  // ----- Signs -----

  lemma ModShift(x: int, k: int, m: int)
    requires m > 0
    ensures (x + k * m) % m == x % m
  {
    DivMod(x, m);
    MulDist(x / m, k, m);
    DivModUnique(x + k * m, x / m + k, x % m, m);
  }

  lemma ModFactor(x: int, p: int, y: int, m: int)
    requires m > 0
    ensures ((x - p * m) * y) % m == (x * y) % m
  {
    MulDist(x, p * m, y);
    Regroup(p, m, y);
    ModShift(x * y, -(p * y), m);
  }

  lemma Regroup(p: int, m: int, y: int)
    ensures (p * m) * y == (p * y) * m && -(p * y) * m == -((p * y) * m)
  {
    MulAssoc(p, m, y);
    MulAssoc(p, y, m);
  }

  /** Multiples of the modulus taken from the factors do not change the product. */
  lemma ModProduct(x: int, y: int, p: int, q: int, m: int)
    requires m > 0
    ensures ((x - p * m) * (y - q * m)) % m == (x * y) % m
  {
    var x', y' := x - p * m, y - q * m;
    ModFactor(x, p, y', m);
    ModFactor(y, q, x, m);
    assert x * y' == y' * x && x * y == y * x by {
      Commutes(x, y');
      Commutes(x, y);
    }
  }

  lemma Commutes(x: int, y: int)
    ensures x * y == y * x
  {
  }

  /** The product of the magnitudes, with its sign put back. */
  lemma MagnitudeProduct(x: int, y: int, s1: bool, s2: bool, m: int)
    requires m > 0
    ensures var p := (Negated(s1, x) * Negated(s2, y)) % m; (x * y) % m == if s1 == s2 then p else (0 - p) % m
  {
    var z := Negated(s1, x) * Negated(s2, y);
    NegatedProduct(x, y, s1, s2);
    if s1 != s2 {
      DivMod(z, m);
      ModShift(-z, z / m, m);
    }
  }

  lemma NegatedProduct(x: int, y: int, s1: bool, s2: bool)
    ensures Negated(s1, x) * Negated(s2, y) == Negated(s1 != s2, x * y)
  {
    MulDist(0, x, y);
    MulDist(0, y, x);
    MulDist(0, y, -x);
  }

  /** A storage at least as long as the result counts the same with and without its sign. */
  lemma LongProduct(signed1: bool, a: seq<Word>, signed2: bool, b: seq<Word>, n: nat)
    requires (signed1 ==> |a| > 0) && (signed2 ==> |b| > 0) && n <= |a| && n <= |b|
    ensures (SignedVal(signed1, a) * SignedVal(signed2, b)) % Weight(n) == (Val(a) * Val(b)) % Weight(n)
  {
    hide Val, Weight, IsNegative;
    var p := if IsNegative(signed1, a) then Weight(|a| - n) else 0;
    var q := if IsNegative(signed2, b) then Weight(|b| - n) else 0;
    WeightSplit(|a| - n, n);
    WeightSplit(|b| - n, n);
    ModProduct(Val(a), Val(b), p, q, Weight(n));
  }

  lemma WeightSplit(i: nat, j: nat)
    ensures Weight(i + j) == Weight(i) * Weight(j)
  {
    ShiftWeight(Weight(i), j);
    ShiftShift(1, i, j);
  }

  /** Negating a negative storage gives its magnitude. */
  lemma Magnitude(signed: bool, ws: seq<Word>)
    requires (signed ==> |ws| > 0) && IsNegative(signed, ws)
    ensures (0 - Val(ws)) % Weight(|ws|) == -SignedVal(signed, ws)
  {
    hide Val, Weight;
    ValBound(ws);
    TopBitPositive(ws);
    DivModUnique(0 - Val(ws), -1, Weight(|ws|) - Val(ws), Weight(|ws|));
  }

  lemma TopBitPositive(ws: seq<Word>)
    requires |ws| > 0 && 2 * ws[|ws| - 1] >= BASE
    ensures Val(ws) > 0
  {
    ShiftPos(ws[|ws| - 1], |ws| - 1);
  }

  /**
   * Two single words are widened without their signs. That is right where no operand is negative or
   * the result is one word, and else only for the least numbers and, in two words, for a zero.
   */
  predicate SingleWordsExact(negative1: bool, word1: Word, negative2: bool, word2: Word, size: nat) {
    || size == 1 || (!negative1 && !negative2)
    || (negative1 && negative2 && word1 + word2 == BASE)
    || (size == 2 && negative1 != negative2 && (if negative1 then word2 else word1) == 0)
  }

  predicate ProductExact(signed1: bool, a: seq<Word>, signed2: bool, b: seq<Word>, size: nat)
    requires (signed1 ==> |a| > 0) && (signed2 ==> |b| > 0)
  {
    |a| == |b| == 1 ==> SingleWordsExact(IsNegative(signed1, a), a[0], IsNegative(signed2, b), b[0], size)
  }

  /** The words of an operand, or of its magnitude in a buffer of its own. */
  method Normalize(operand: Span, flip: bool) returns (data: Span)
    requires operand.Valid() && (flip ==> operand.Negative())
    ensures data.Valid() && !data.signed && data.size == operand.size
    ensures data.data == operand.data || fresh(data.data)
    ensures Val(data.Words()) == if flip then -operand.Value() else Val(operand.Words())
  {
    hide Val, Weight;
    data := operand.(signed := false);
    if flip {
      var inverted := new Word[operand.size];
      data := Span(false, inverted, 0, operand.size);
      var _ := Negate(operand, data);
      Magnitude(operand.signed, operand.Words());
    } else {
      assert data.Words() == operand.Words();
    }
  }

  /**
   * The product of operands of any sizes and signs, modulo the weight of the result. It is exact unless
   * both operands are single words, and then exactly if `SingleWordsExact` holds.
   */
  method BaselineMul(operand1: Span, operand2: Span, result: Span)
    requires operand1.Valid() && operand2.Valid() && result.Valid()
    requires operand1.size <= MAX_BIG_INT_LENGTH && operand2.size <= MAX_BIG_INT_LENGTH
    requires operand1.data != result.data && operand2.data != result.data
    requires operand1.size == operand2.size == 1 ==> result.size >= 1
    modifies result.data
    ensures result.OnlyChanged(old(result.data[..]), result.data[..])
    ensures Val(result.Words()) == (operand1.Value() * operand2.Value()) % Weight(result.size)
       <==> ProductExact(operand1.signed, operand1.Words(), operand2.signed, operand2.Words(), result.size)
    decreases operand1.size < operand2.size
  {
    hide Val, Weight, SignedVal, SingleWordsExact;
    if operand1.size == 1 && operand2.size == 1 {
      MulSingleWords(operand1, operand2, result);
    } else if operand1.size < operand2.size {
      BaselineMul(operand2, operand1, result);
    } else {
      MulLongWords(operand1, operand2, result);
    }
  }

  method MulSingleWords(operand1: Span, operand2: Span, result: Span)
    requires operand1.Valid() && operand2.Valid() && result.Valid()
    requires operand1.data != result.data && operand2.data != result.data
    requires operand1.size == operand2.size == 1 <= result.size
    modifies result.data
    ensures result.OnlyChanged(old(result.data[..]), result.data[..])
    ensures Val(result.Words()) == (operand1.Value() * operand2.Value()) % Weight(result.size)
       <==> SingleWordsExact(operand1.Negative(), operand1.Get(0), operand2.Negative(), operand2.Get(0), result.size)
  {
    hide Val, Weight, SignedVal, SingleWordsExact, WideMultiply, Low, High;
    var value := WideMultiply(operand1.Get(0), operand2.Get(0));
    var fill := ExtendSign(operand1.Negative() != operand2.Negative());
    result.Put(0, Low(value));
    if result.size > 1 {
      result.Put(1, High(value));
      var i := 2;
      while i < result.size
        invariant 2 <= i <= result.size
        invariant result.Words()[..2] == [Low(value), High(value)]
        invariant forall k :: 2 <= k < i ==> result.Words()[k] == fill
        invariant result.OnlyChanged(old(result.data[..]), result.data[..])
      {
        result.Put(i, fill);
        i := i + 1;
      }
    }
    SingleWords(operand1.signed, operand1.Words(), operand2.signed, operand2.Words(), result.Words());
  }

  method MulLongWords(operand1: Span, operand2: Span, result: Span)
    requires operand1.Valid() && operand2.Valid() && result.Valid() && operand1.size >= operand2.size
    requires operand1.data != result.data && operand2.data != result.data && operand2.size < BASE
    modifies result.data
    ensures result.OnlyChanged(old(result.data[..]), result.data[..])
    ensures Val(result.Words()) == (operand1.Value() * operand2.Value()) % Weight(result.size)
  {
    hide Val, Weight, SignedVal;
    var sign1, sign2 := operand1.Negative(), operand2.Negative();
    var normalizes := operand2.size < result.size;
    var data1 := Normalize(operand1, sign1 && normalizes);
    var data2 := Normalize(operand2, sign2 && normalizes);
    MulColumns(data1, data2, result);
    if normalizes {
      NotNegative(operand1.signed, operand1.Words());
      NotNegative(operand2.signed, operand2.Words());
      MagnitudeProduct(operand1.Value(), operand2.Value(), sign1, sign2, Weight(result.size));
      if sign1 != sign2 {
        var _ := Negate(result, result);
      }
    } else {
      LongProduct(operand1.signed, operand1.Words(), operand2.signed, operand2.Words(), result.size);
    }
  }

  lemma NotNegative(signed: bool, ws: seq<Word>)
    requires (signed ==> |ws| > 0)
    ensures !IsNegative(signed, ws) ==> SignedVal(signed, ws) == Val(ws)
  {
  }

  /** What multiplying two words without their signs and filling up with the sign of the product comes to. */
  lemma SingleWords(signed1: bool, a: seq<Word>, signed2: bool, b: seq<Word>, ws: seq<Word>)
    requires |a| == |b| == 1 && |ws| > 0
    requires ws[0] == Low(WideMultiply(a[0], b[0]))
    requires |ws| > 1 ==> ws[1] == High(WideMultiply(a[0], b[0]))
    requires var fill := ExtendSign(IsNegative(signed1, a) != IsNegative(signed2, b)); forall k :: 2 <= k < |ws| ==>
               ws[k] == fill
    ensures Val(ws) == (SignedVal(signed1, a) * SignedVal(signed2, b)) % Weight(|ws|)
       <==> SingleWordsExact(IsNegative(signed1, a), a[0], IsNegative(signed2, b), b[0], |ws|)
  {
    hide Val, Weight, Low, High, WideMultiply, Up, Shift, SingleWordsExact;
    var x := WideMultiply(a[0], b[0]);
    SingleProduct(a, b);
    LowHigh(x);
    if |ws| == 1 {
      ValOne(ws);
      ShiftOnce(High(x));
      TotalMod(x, ws, High(x));
      LongProduct(signed1, a, signed2, b, 1);
      OneWordExact(IsNegative(signed1, a), a[0], IsNegative(signed2, b), b[0]);
    } else {
      FilledVal(x, ws, IsNegative(signed1, a) != IsNegative(signed2, b));
      SignedProduct(signed1, a, signed2, b);
      DoubleWordExact(IsNegative(signed1, a), a[0], IsNegative(signed2, b), b[0], ws);
    }
  }

  lemma ShiftOnce(x: int)
    ensures Shift(x, 1) == Up(x)
  {
    assert Shift(x, 1) == Up(Shift(x, 0));
  }

  lemma OneWordExact(negative1: bool, word1: Word, negative2: bool, word2: Word)
    ensures SingleWordsExact(negative1, word1, negative2, word2, 1)
  {
  }

  /** The value of a double word with its upper words filled up. */
  lemma FilledVal(x: DoubleWord, ws: seq<Word>, negative: bool)
    requires |ws| >= 2 && ws[0] == Low(x) && ws[1] == High(x) && forall k :: 2 <= k < |ws| ==>
               ws[k] == ExtendSign(negative)
    ensures Val(ws) == x + if negative then Weight(|ws|) - Up(BASE) else 0
  {
    hide Val, Low, High, Up, Shift;
    LowHigh(x);
    ValSplit(ws, 2);
    ValTwo(ws[..2]);
    if negative {
      ValOnes(ws[2..]);
      ShiftAdd(Weight(|ws| - 2), 1, 2);
      ShiftShift(1, |ws| - 2, 2);
      ShiftTwice();
    } else {
      ValZeros(ws[2..]);
      ShiftAdd(0, 0, 2);
    }
  }

  lemma ShiftTwice()
    ensures Shift(1, 2) == Up(BASE)
  {
    ShiftUp(1, 1);
    ShiftOnce(1);
  }

  /** The signed product of two words, from their unsigned one. */
  lemma SignedProduct(signed1: bool, a: seq<Word>, signed2: bool, b: seq<Word>)
    requires |a| == |b| == 1
    ensures var s1, s2 := Bit(IsNegative(signed1, a)), Bit(IsNegative(signed2, b));
            SignedVal(signed1, a) * SignedVal(signed2, b)
            == WideMultiply(a[0], b[0]) - Up(s1 * b[0] + s2 * a[0]) + s1 * s2 * Up(BASE)
  {
    hide Val, Weight, IsNegative;
    ValOne(a);
    ValOne(b);
    WeightOne();
    TakenOff(a[0], b[0], IsNegative(signed1, a), IsNegative(signed2, b));
  }

  lemma TakenOff(x: int, y: int, s1: bool, s2: bool)
    ensures (if s1 then x - BASE else x) * (if s2 then y - BASE else y)
         == x * y - Up(Bit(s1) * y + Bit(s2) * x) + Bit(s1) * Bit(s2) * Up(BASE)
  {
    var y' := if s2 then y - BASE else y;
    MulDist(x, BASE, y');
    MulDist(y, BASE, x);
    UpIs(x);
    UpIs(y');
    hide Up;
    UpLinear(y, BASE);
    UpLinear(x, y);
    assert Bit(s1) * y == if s1 then y else 0;
    assert Bit(s2) * x == if s2 then x else 0;
  }

  lemma UpIs(x: int)
    ensures BASE * x == Up(x)
  {
  }

  lemma UpLinear(x: int, y: int)
    ensures Up(x + y) == Up(x) + Up(y) && Up(x - y) == Up(x) - Up(y) && Up(0) == 0
  {
  }

  /** Where the value of the words and the signed product differ by a multiple of the weight. */
  lemma DoubleWordExact(s1: bool, word1: Word, s2: bool, word2: Word, ws: seq<Word>)
    requires |ws| >= 2 && (s1 ==> 2 * word1 >= BASE) && (s2 ==> 2 * word2 >= BASE)
    requires Val(ws) == WideMultiply(word1, word2) + if s1 != s2 then Weight(|ws|) - Up(BASE) else 0
    ensures var product := WideMultiply(word1, word2) - Up(Bit(s1) * word2 + Bit(s2) * word1)
            + Bit(s1) * Bit(s2) * Up(BASE);
            Val(ws) == product % Weight(|ws|) <==> SingleWordsExact(s1, word1, s2, word2, |ws|)
  {
    hide Val, WideMultiply, Weight;
    var product := WideMultiply(word1, word2) - Up(Bit(s1) * word2 + Bit(s2) * word1) + Bit(s1) * Bit(s2) * Up(BASE);
    var m := Weight(|ws|);
    ValBound(ws);
    WeightFrom2(|ws|);
    SameMod(Val(ws), product, if s1 != s2 && |ws| > 2 then 1 else 0, m);
  }

  /**
   * Numbers less than two multiples apart have the same remainder only if they are `k` multiples apart, for
   * one `k`.
   */
  lemma SameMod(v: int, x: int, k: int, m: int)
    requires 0 <= v < m && -m < v - x - k * m < m
    ensures v == x % m <==> v - x == k * m
  {
    DivMod(x, m);
    var d := -(x / m) - k;
    MulDist(-(x / m), k, m);
    if v == x % m {
      if d != 0 {
        MulAway(d, m);
      }
    } else if v - x == k * m {
      DivModUnique(x, -k, v, m);
    }
  }

  lemma WeightFrom2(n: nat)
    requires n >= 2
    ensures Weight(n) >= Up(BASE) && (n == 2 <==> Weight(n) == Up(BASE))
  {
    hide Up;
    ShiftTwice();
    ShiftMonotone(1, 2, n);
    if n > 2 {
      ShiftMonotone(1, 3, n);
      ShiftUp(1, 2);
      UpLarger(Shift(1, 2));
    }
  }

  lemma UpLarger(x: int)
    ensures x > 0 ==> Up(x) > x
  {
  }

  /** Minus one times one in two words is not minus one. */
  method MinusOneTimesOne() returns (words: seq<Word>)
    ensures |words| == 2 && Val(words) != (-1 * 1) % Weight(2)
  {
    hide Val, Weight;
    var data1, data2, data := new Word[1](_ => BASE - 1), new Word[1](_ => 1), new Word[2](_ => 0);
    var operand1, operand2, result := Span(true, data1, 0, 1), Span(true, data2, 0, 1), Span(true, data, 0, 2);
    assert operand1.Words() == [BASE - 1] && operand2.Words() == [1];
    ValOne(operand1.Words());
    ValOne(operand2.Words());
    WeightOne();
    BaselineMul(operand1, operand2, result);
    words := result.Words();
  }

  lemma WeightOne()
    ensures Weight(1) == BASE
  {
    ShiftOnce(1);
  }

  lemma ProductFits(w: Word, factor: Word, carry: Word)
    ensures WideMultiply(w, factor) + carry < Up(BASE)
  {
  }

  lemma LowHigh(x: DoubleWord)
    ensures Low(x) + Up(High(x)) == x
  {
    HighFits(x);
  }

  lemma SingleProduct(a: seq<Word>, b: seq<Word>)
    requires |a| == |b| == 1
    ensures Val(a) * Val(b) == WideMultiply(a[0], b[0])
  {
    hide Val;
    ValOne(a);
    ValOne(b);
  }

  lemma ValOne(ws: seq<Word>)
    requires |ws| == 1
    ensures Val(ws) == ws[0]
  {
    assert ws[..0] == [];
  }

  lemma ValTwo(ws: seq<Word>)
    requires |ws| == 2
    ensures Val(ws) == ws[0] + Up(ws[1])
  {
    ValOne(ws[..1]);
    assert Shift(ws[1], 1) == Up(Shift(ws[1], 0));
  }
}
