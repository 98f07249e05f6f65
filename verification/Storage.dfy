/** Views of word arrays, and signed addition, subtraction and comparison on them. */
module Storage {
  import opened Arithmetic
  import opened Words

  /** StorageSpan: `size` words of `data` from `offset` on, read as signed or unsigned. */
  datatype Span = Span(signed: bool, data: array<Word>, offset: nat, size: nat) {

    predicate Valid() {
      offset + size <= data.Length && (signed ==> size > 0)
    }

    function Words(): (ws: seq<Word>)
      requires Valid()
      reads data
      ensures |ws| == size
    {
      data[offset..offset + size]
    }

    function Get(i: nat): (w: Word)
      requires Valid() && i < size
      reads data
      ensures w == Words()[i]
    {
      data[offset + i]
    }

    method Put(i: nat, w: Word)
      requires Valid() && i < size
      modifies data
      ensures data[..] == old(data[..])[offset + i := w]
      ensures Words() == old(Words())[i := w]
    {
      data[offset + i] := w;
    }

    predicate Negative()
      requires Valid()
      reads data
    {
      IsNegative(signed, Words())
    }

    function Value(): int
      requires Valid()
      reads data
    {
      SignedVal(signed, Words())
    }

    function Prefix(n: nat): Span
      requires n <= size
    {
      Span(false, data, offset, n)
    }

    /** The words from `lo` up to `hi` as an unsigned span of their own. */
    function Slice(lo: nat, hi: nat): (r: Span)
      requires Valid() && lo <= hi <= size
      reads data
      ensures r.Valid() && r.Words() == Words()[lo..hi]
    {
      var r := Span(false, data, offset + lo, hi - lo);
      assert forall k :: 0 <= k < hi - lo ==> r.Words()[k] == Words()[lo..hi][k];
      r
    }

    predicate FitsIn(n: nat)
      requires Valid()
      reads data
    {
      Fits(signed, Words(), n)
    }

    /** Word `i` of this span is still intact while words below `i` of `result` are written. */
    predicate SafeAhead(result: Span) {
      data != result.data || offset >= result.offset
    }

    /** The cells of `now` outside this span hold what `was` held there. */
    predicate OnlyChanged(was: seq<Word>, now: seq<Word>) {
      |was| == |now| && forall j :: 0 <= j < |now| && !(offset <= j < offset + size) ==> now[j] == was[j]
    }
  }

  function ExtendSign(sign: bool): Word {
    if sign then BASE - 1 else 0
  }

  function Bit(b: bool): int {
    if b then 1 else 0
  }

  function Negated(negate: bool, x: int): int {
    if negate then -x else x
  }

  function ExtendedWord(signed: bool, ws: seq<Word>, i: nat): Word
    requires signed ==> |ws| > 0
  {
    if i < |ws| then ws[i] else ExtendSign(IsNegative(signed, ws))
  }

  /** A storage cut or sign-extended to `n` words. */
  function Extended(signed: bool, ws: seq<Word>, n: nat): (r: seq<Word>)
    requires signed ==> |ws| > 0
    ensures |r| == n
  {
    seq(n, i requires 0 <= i < n => ExtendedWord(signed, ws, i))
  }

  predicate AllAre(ws: seq<Word>, w: Word) {
    forall k :: 0 <= k < |ws| ==> ws[k] == w
  }

  /** The words from `n` on, if any, only repeat the sign. */
  predicate Fits(signed: bool, ws: seq<Word>, n: nat)
    requires signed ==> |ws| > 0
  {
    n < |ws| ==> AllAre(ws[n..], ExtendSign(IsNegative(signed, ws)))
  }

  /** A storage whose words from `m` on only repeat its sign has the value of its first `m` words with that sign. */
  lemma HighBitsAgree(signed: bool, ws: seq<Word>, m: nat)
    requires (signed ==> |ws| > 0) && m <= |ws| && AllAre(ws[m..], ExtendSign(IsNegative(signed, ws)))
    ensures SignedVal(signed, ws) == Val(ws[..m]) - Shift(Bit(IsNegative(signed, ws)), m)
  {
    hide Val, Shift;
    ValSplit(ws, m);
    if IsNegative(signed, ws) {
      ValOnes(ws[m..]);
      ShiftAdd(Weight(|ws| - m), 1, m);
      ShiftShift(1, |ws| - m, m);
    } else {
      ValZeros(ws[m..]);
      ShiftAdd(0, 0, m);
    }
  }

  /** Cutting or extending changes the value by a multiple of the new length's weight. */
  lemma ExtendedVal(signed: bool, ws: seq<Word>, n: nat) returns (q: int)
    requires signed ==> |ws| > 0
    ensures Val(Extended(signed, ws, n)) == SignedVal(signed, ws) + Shift(q, n)
    ensures Fits(signed, ws, n) ==> q == Bit(IsNegative(signed, ws))
  {
    hide Val, Shift, IsNegative;
    var e, neg := Extended(signed, ws, n), Bit(IsNegative(signed, ws));
    if Fits(signed, ws, n) {
      q := neg;
      ExtendedFits(signed, ws, n);
    } else {
      ValSplit(ws, n);
      assert e == ws[..n];
      q := Shift(neg, |ws| - n) - Val(ws[n..]);
      ShiftAdd(Shift(neg, |ws| - n), Val(ws[n..]), n);
      ShiftShift(neg, |ws| - n, n);
      ShiftAdd(0, 0, |ws|);
    }
  }

  lemma ExtendedFits(signed: bool, ws: seq<Word>, n: nat)
    requires (signed ==> |ws| > 0) && Fits(signed, ws, n)
    ensures Val(Extended(signed, ws, n)) == SignedVal(signed, ws) + Shift(Bit(IsNegative(signed, ws)), n)
  {
    hide Val, Shift, IsNegative;
    var e := Extended(signed, ws, n);
    if n < |ws| {
      HighBitsAgree(signed, ws, n);
      assert e == ws[..n];
    } else {
      assert e[..|ws|] == ws;
      ExtendedTop(signed, ws, e);
    }
  }

  lemma ExtendedTop(signed: bool, ws: seq<Word>, e: seq<Word>)
    requires (signed ==> |ws| > 0) && |ws| <= |e| && e[..|ws|] == ws
    requires AllAre(e[|ws|..], ExtendSign(IsNegative(signed, ws)))
    ensures Val(e) == SignedVal(signed, ws) + Shift(Bit(IsNegative(signed, ws)), |e|)
  {
    hide Val, Shift;
    var n, top := |e|, e[|ws|..];
    ValSplit(e, |ws|);
    if IsNegative(signed, ws) {
      ValOnes(top);
      ShiftAdd(Weight(n - |ws|), 1, |ws|);
      ShiftShift(1, n - |ws|, |ws|);
    } else {
      ValZeros(top);
      ShiftAdd(0, 0, |ws|);
      ShiftAdd(0, 0, n);
    }
  }

  method AddWords(word1: Word, word2: Word, carry: bool) returns (output: Word, ncarry: bool)
    ensures output + Up(Bit(ncarry)) == word1 + word2 + Bit(carry)
  {
    ncarry := word1 + word2 >= BASE;
    output := if ncarry then word1 + word2 - BASE else word1 + word2;
    if carry {
      output := if output == BASE - 1 then 0 else output + 1;
      if output == 0 {
        ncarry := true;
      }
    }
  }

  method SubWords(word1: Word, word2: Word, carry: bool) returns (output: Word, ncarry: bool)
    ensures output - Up(Bit(ncarry)) == word1 - word2 - Bit(carry)
  {
    ncarry := word1 < word2;
    output := if ncarry then word1 - word2 + BASE else word1 - word2;
    if carry {
      if output == 0 {
        ncarry := true;
      }
      output := if output == 0 then BASE - 1 else output - 1;
    }
  }

  method AddOrSubWords(subtract: bool, word1: Word, word2: Word, carry: bool) returns (output: Word, ncarry: bool)
    ensures output + Negated(subtract, Up(Bit(ncarry))) == word1 + Negated(subtract, word2 + Bit(carry))
  {
    if !subtract {
      output, ncarry := AddWords(word1, word2, carry);
    } else {
      output, ncarry := SubWords(word1, word2, carry);
    }
  }

  /** One column of an addition or a subtraction, moved to its weight. */
  lemma CarryStep(subtract: bool, x: int, y: int, c: int, out: int, nc: int, i: nat)
    requires out + Negated(subtract, Up(nc)) == x + Negated(subtract, y + c)
    ensures Shift(out, i) + Negated(subtract, Shift(nc, i + 1))
            == Shift(x, i) + Negated(subtract, Shift(y, i) + Shift(c, i))
  {
    ShiftUp(nc, i);
    ShiftAdd(out, Up(nc), i);
    ShiftAdd(x, y + c, i);
    ShiftAdd(y, c, i);
  }

  /** The first `i` columns are done: `ws` holds their sum or difference up to a carry into column `i`. */
  predicate AddedUpTo(subtract: bool, e1: seq<Word>, e2: seq<Word>, ws: seq<Word>, i: nat, carryIn: bool, carry: bool)
    requires i <= |e1| && i <= |e2| && i <= |ws|
  {
    Val(ws[..i]) + Negated(subtract, Shift(Bit(carry), i))
      == Val(e1[..i]) + Negated(subtract, Val(e2[..i]) + Bit(carryIn))
  }

  lemma AddedNone(subtract: bool, e1: seq<Word>, e2: seq<Word>, ws: seq<Word>, carryIn: bool)
    ensures AddedUpTo(subtract, e1, e2, ws, 0, carryIn, carryIn)
  {
  }

  lemma AddStep(subtract: bool, e1: seq<Word>, e2: seq<Word>, ws: seq<Word>, i: nat, carryIn: bool, carry: bool,
                output: Word, ncarry: bool)
    requires i < |e1| && i < |e2| && i < |ws|
    requires AddedUpTo(subtract, e1, e2, ws, i, carryIn, carry)
    requires output + Negated(subtract, Up(Bit(ncarry))) == e1[i] + Negated(subtract, e2[i] + Bit(carry))
    ensures AddedUpTo(subtract, e1, e2, ws[i := output], i + 1, carryIn, ncarry)
  {
    hide Val, Shift, Up;
    var now := ws[i := output];
    assert now[..i] == ws[..i];
    ValStep(now, i);
    ValStep(e1, i);
    ValStep(e2, i);
    CarryStep(subtract, e1[i], e2[i], Bit(carry), output, Bit(ncarry), i);
  }

  /** `e` is what reading past the end of `ws` as `fill` gives. */
  predicate Reads(e: seq<Word>, ws: seq<Word>, fill: Word) {
    forall k :: 0 <= k < |e| ==> e[k] == if k < |ws| then ws[k] else fill
  }

  /** The word loop of `Add`, over operands cut or extended to the result's size. */
  method AddDigits(subtract: bool, operand1: Span, operand2: Span, fill1: Word, fill2: Word, result: Span,
                   carryIn: bool,
                   ghost e1: seq<Word>, ghost e2: seq<Word>)
    returns (carry: bool)
    requires operand1.Valid() && operand2.Valid() && result.Valid()
    requires operand1.SafeAhead(result) && operand2.SafeAhead(result)
    requires |e1| == |e2| == result.size && Reads(e1, operand1.Words(), fill1) && Reads(e2, operand2.Words(), fill2)
    modifies result.data
    ensures result.OnlyChanged(old(result.data[..]), result.data[..])
    ensures AddedUpTo(subtract, e1, e2, result.Words(), result.size, carryIn, carry)
  {
    hide AddedUpTo, Up, Val, Shift, Negated, IsNegative, SignedVal;
    carry := carryIn;
    var i := 0;
    ghost var ws := result.Words();
    AddedNone(subtract, e1, e2, ws, carryIn);
    while i < result.size
      invariant 0 <= i <= result.size == |ws|
      invariant forall k :: 0 <= k < result.size ==> result.data[result.offset + k] == ws[k]
      invariant forall j :: 0 <= j < result.data.Length && !(result.offset <= j < result.offset + i) ==>
                              result.data[j] == old(result.data[j])
      invariant AddedUpTo(subtract, e1, e2, ws, i, carryIn, carry)
    {
      var word1 := if i < operand1.size then operand1.data[operand1.offset + i] else fill1;
      var word2 := if i < operand2.size then operand2.data[operand2.offset + i] else fill2;
      assert word1 == e1[i] && word2 == e2[i];
      var output, ncarry := AddOrSubWords(subtract, word1, word2, carry);
      AddStep(subtract, e1, e2, ws, i, carryIn, carry, output, ncarry);
      result.data[result.offset + i], carry, ws := output, ncarry, ws[i := output];
      i := i + 1;
    }
    assert result.Words() == ws;
  }

  function Overflow(subtract: bool, sign1: bool, sign2: bool, carry: bool, sign: bool): int {
    if !subtract then -Bit(sign1) - Bit(sign2) + Bit(carry) + Bit(sign)
    else -Bit(sign1) + Bit(sign2) - Bit(carry) + Bit(sign)
  }

  /** What the finished word loop says about the two's complement values. */
  lemma AddTotal(subtract: bool, signed1: bool, ws1: seq<Word>, signed2: bool, ws2: seq<Word>, ws: seq<Word>,
                 carryIn: bool, carry: bool) returns (k: int)
    requires (signed1 ==> |ws1| > 0) && (signed2 ==> |ws2| > 0)
    requires AddedUpTo(subtract, Extended(signed1, ws1, |ws|), Extended(signed2, ws2, |ws|), ws, |ws|, carryIn, carry)
    ensures SignedVal(signed1, ws1) + Negated(subtract, SignedVal(signed2, ws2) + Bit(carryIn))
            == Val(ws) + Shift(k, |ws|)
    ensures Fits(signed1, ws1, |ws|) && Fits(signed2, ws2, |ws|) ==>
              k == Overflow(subtract, IsNegative(signed1, ws1), IsNegative(signed2, ws2), carry, false)
  {
    hide Val, Shift, Up, IsNegative, SignedVal;
    var n := |ws|;
    var e1, e2 := Extended(signed1, ws1, n), Extended(signed2, ws2, n);
    assert ws[..n] == ws && e1[..n] == e1 && e2[..n] == e2;
    var q1 := ExtendedVal(signed1, ws1, n);
    var q2 := ExtendedVal(signed2, ws2, n);
    k := Negated(subtract, Bit(carry)) - q1 - Negated(subtract, q2);
    Gather(subtract, Bit(carry), q1, q2, n);
  }

  /** A value taken modulo a weight is what is left after a multiple of it is taken away. */
  lemma TotalMod(total: int, ws: seq<Word>, k: int)
    requires total == Val(ws) + Shift(k, |ws|)
    ensures Val(ws) == total % Weight(|ws|)
  {
    hide Val, Shift, Weight;
    ValBound(ws);
    ShiftWeight(k, |ws|);
    DivModUnique(total, k, Val(ws), Weight(|ws|));
  }

  lemma TotalSigned(total: int, signed: bool, ws: seq<Word>, k: int)
    requires (signed ==> |ws| > 0) && total == Val(ws) + Shift(k, |ws|)
    ensures total == SignedVal(signed, ws) + (k + Bit(IsNegative(signed, ws))) * Weight(|ws|)
  {
    hide Val, IsNegative;
    var neg := Bit(IsNegative(signed, ws));
    ShiftAdd(k, neg, |ws|);
    ShiftWeight(k + neg, |ws|);
    ShiftAdd(0, 0, |ws|);
  }

  lemma Gather(subtract: bool, c: int, q1: int, q2: int, i: nat)
    ensures Shift(Negated(subtract, c) - q1 - Negated(subtract, q2), i)
         == Negated(subtract, Shift(c, i)) - Shift(q1, i) - Negated(subtract, Shift(q2, i))
  {
    ShiftAdd(c, q2, i);
    ShiftAdd(0, c - q2, i);
    ShiftAdd(0, 0, i);
    ShiftAdd(Negated(subtract, c - q2), q1, i);
  }

  /**
   * a ± b = c + r * BASE^size for the returned r, whenever the operands fit the result; longer
   * operands still give the result modulo BASE^size.
   */
  method Add(subtract: bool, operand1: Span, operand2: Span, result: Span, carryIn: bool) returns (r: int)
    requires operand1.Valid() && operand2.Valid() && result.Valid()
    requires operand1.SafeAhead(result) && operand2.SafeAhead(result)
    modifies result.data
    ensures result.OnlyChanged(old(result.data[..]), result.data[..])
    ensures Val(result.Words())
         == (old(operand1.Value()) + Negated(subtract, old(operand2.Value()) + Bit(carryIn))) % Weight(result.size)
    ensures old(operand1.FitsIn(result.size)) && old(operand2.FitsIn(result.size)) ==>
              old(operand1.Value()) + Negated(subtract, old(operand2.Value()) + Bit(carryIn))
              == result.Value() + r * Weight(result.size)
  {
    hide AddedUpTo, Val, Weight, IsNegative, SignedVal, Fits;
    var sign1, sign2 := operand1.Negative(), operand2.Negative();
    ghost var ws1, ws2 := operand1.Words(), operand2.Words();
    ghost var e1 := Extended(operand1.signed, ws1, result.size);
    ghost var e2 := Extended(operand2.signed, ws2, result.size);
    var carry := AddDigits(subtract, operand1, operand2, ExtendSign(sign1), ExtendSign(sign2), result, carryIn, e1, e2);
    ghost var k := AddTotal(subtract, operand1.signed, ws1, operand2.signed, ws2, result.Words(), carryIn, carry);
    ghost var total := old(operand1.Value()) + Negated(subtract, old(operand2.Value()) + Bit(carryIn));
    TotalMod(total, result.Words(), k);
    TotalSigned(total, result.signed, result.Words(), k);
    r := Overflow(subtract, sign1, sign2, carry, result.Negative());
  }

  // ----- Negation -----

  /** negate: the two's complement of the words; tells whether they were not all zero. In place is allowed. */
  method Negate(operand: Span, result: Span) returns (nonzero: bool)
    requires operand.Valid() && result.Valid() && operand.size == result.size && operand.SafeAhead(result)
    modifies result.data
    ensures result.OnlyChanged(old(result.data[..]), result.data[..])
    ensures Val(result.Words()) == (0 - old(Val(operand.Words()))) % Weight(result.size)
    ensures nonzero <==> old(Val(operand.Words())) != 0
  {
    hide AddedUpTo, Up, Val, Shift, Negated, Weight;
    ghost var zeros: seq<Word>, words, ws := seq(operand.size, _ => 0), operand.Words(), result.Words();
    var carry, i := false, 0;
    AddedNone(true, zeros, words, ws, false);
    while i < operand.size
      invariant 0 <= i <= operand.size == |ws| == |words|
      invariant forall k :: 0 <= k < result.size ==> result.data[result.offset + k] == ws[k]
      invariant forall j :: 0 <= j < result.data.Length && !(result.offset <= j < result.offset + i) ==>
                              result.data[j] == old(result.data[j])
      invariant AddedUpTo(true, zeros, words, ws, i, false, carry)
    {
      assert operand.data[operand.offset + i] == words[i];
      var output, ncarry := AddOrSubWords(true, 0, operand.data[operand.offset + i], carry);
      AddStep(true, zeros, words, ws, i, false, carry, output, ncarry);
      result.data[result.offset + i], carry, ws := output, ncarry, ws[i := output];
      i := i + 1;
    }
    assert result.Words() == ws;
    NegatedTotal(zeros, words, ws, carry);
    return carry;
  }

  lemma NegatedTotal(zeros: seq<Word>, words: seq<Word>, ws: seq<Word>, carry: bool)
    requires |zeros| == |words| == |ws| && AllAre(zeros, 0) && AddedUpTo(true, zeros, words, ws, |ws|, false, carry)
    ensures Val(ws) == (0 - Val(words)) % Weight(|ws|) && (carry <==> Val(words) != 0)
  {
    hide Val, Weight, Shift;
    var n := |ws|;
    assert zeros[..n] == zeros && words[..n] == words && ws[..n] == ws;
    ValZeros(zeros);
    ValBound(words);
    ValBound(ws);
    ShiftWeight(Bit(carry), n);
    ShiftWeight(-Bit(carry), n);
    ShiftAdd(Bit(carry), -Bit(carry), n);
    ShiftAdd(0, 0, n);
    TotalMod(0 - Val(words), ws, -Bit(carry));
  }

  // ----- Comparison -----

  function Sign(x: int): int {
    if x > 0 then 1 else if x < 0 then -1 else 0
  }

  /** Words other than all zeroes are positive; words other than all ones leave room for one more. */
  lemma {:induction false} NotFill(ws: seq<Word>, sign: bool)
    requires !AllAre(ws, ExtendSign(sign))
    ensures if sign then Val(ws) < Weight(|ws|) - 1 else Val(ws) > 0
  {
    var n := |ws| - 1;
    var low, top := ws[..n], ws[n];
    ValBound(low);
    ShiftUp(1, n);
    ShiftAdd(Up(1), 1, n);
    if AllAre(low, ExtendSign(sign)) {
      assert top != ExtendSign(sign);
      if sign {
        ShiftLe(top + 1, BASE - 1, n);
        ShiftAdd(top, 1, n);
      } else {
        ShiftLe(1, top, n);
      }
    } else {
      NotFill(low, sign);
      ShiftLe(top, BASE - 1, n);
      ShiftNonneg(top, n);
    }
  }

  /** A storage with a word from `m` on that differs from its sign lies beyond every `m`-word storage of that sign. */
  lemma HighBitsDiffer(signed: bool, ws: seq<Word>, m: nat)
    requires (signed ==> |ws| > 0) && m <= |ws| && !AllAre(ws[m..], ExtendSign(IsNegative(signed, ws)))
    ensures if IsNegative(signed, ws) then SignedVal(signed, ws) + Weight(m) < 0 else SignedVal(signed, ws) >= Weight(m)
  {
    hide Val, Shift;
    var high := ws[m..];
    ValSplit(ws, m);
    NotFill(high, IsNegative(signed, ws));
    if IsNegative(signed, ws) {
      ValBound(ws[..m]);
      ShiftLe(Val(high) + 1, Weight(|high|) - 1, m);
      ShiftAdd(Val(high), 1, m);
      ShiftAdd(Weight(|high|), 1, m);
      ShiftShift(1, |high|, m);
    } else {
      ShiftLe(1, Val(high), m);
    }
  }

  /** The highest differing word decides. */
  lemma TopWordDecides(ws1: seq<Word>, ws2: seq<Word>, i: nat)
    requires i < |ws1| && i < |ws2| && ws1[i] < ws2[i]
    ensures Val(ws1[..i + 1]) < Val(ws2[..i + 1])
  {
    hide Val, Shift;
    ValStep(ws1, i);
    ValStep(ws2, i);
    ValBound(ws1[..i]);
    ShiftLe(ws1[i] + 1, ws2[i], i);
    ShiftAdd(ws1[i], 1, i);
  }

  /** Where two operands of one sign differ above word `m`, the longer one is further from zero. */
  lemma CompareHigh(signed1: bool, ws1: seq<Word>, signed2: bool, ws2: seq<Word>)
    requires (signed1 ==> |ws1| > 0) && (signed2 ==> |ws2| > 0) && |ws1| >= |ws2|
    requires IsNegative(signed1, ws1) == IsNegative(signed2, ws2)
    ensures !AllAre(ws1[|ws2|..], ExtendSign(IsNegative(signed1, ws1))) ==>
              if IsNegative(signed1, ws1) then SignedVal(signed1, ws1) < SignedVal(signed2, ws2)
              else SignedVal(signed1, ws1) > SignedVal(signed2, ws2)
    ensures AllAre(ws1[|ws2|..], ExtendSign(IsNegative(signed1, ws1))) ==>
              SignedVal(signed1, ws1) - SignedVal(signed2, ws2) == Val(ws1[..|ws2|]) - Val(ws2)
  {
    hide Val, Shift, IsNegative;
    var m := |ws2|;
    ValBound(ws2);
    if AllAre(ws1[m..], ExtendSign(IsNegative(signed1, ws1))) {
      HighBitsAgree(signed1, ws1, m);
      HighBitsAgree(signed2, ws2, m);
      assert ws2[..m] == ws2;
    } else {
      HighBitsDiffer(signed1, ws1, m);
    }
  }

  /** Whether a word of `operand` from `m` on differs from the fill word. */
  method DifferInHighBits(operand: Span, m: nat, compareValue: Word) returns (differ: bool)
    requires operand.Valid() && m <= operand.size
    ensures differ <==> !AllAre(operand.Words()[m..], compareValue)
  {
    differ := false;
    var i := operand.size;
    while i > m
      invariant m <= i <= operand.size
      invariant differ <==> !AllAre(operand.Words()[i..], compareValue)
    {
      i := i - 1;
      assert operand.Words()[i..] == [operand.Get(i)] + operand.Words()[i + 1..];
      if operand.Get(i) != compareValue {
        differ := true;
      }
    }
  }

  /** The sign of a - b for any mix of sizes and signs; with the hint, only whether they differ. */
  method Compare(operand1: Span, operand2: Span, isForInequality: bool) returns (r: int)
    requires operand1.Valid() && operand2.Valid()
    ensures r == 0 <==> operand1.Value() == operand2.Value()
    ensures !isForInequality ==> r == Sign(operand1.Value() - operand2.Value())
  {
    hide Val, IsNegative;
    var sign1, sign2 := operand1.Negative(), operand2.Negative();
    var size1, size2 := operand1.size, operand2.size;
    ghost var ws1, ws2 := operand1.Words(), operand2.Words();
    ValBound(ws1);
    ValBound(ws2);

    if sign1 != sign2 {
      if sign1 {
        return -1;
      }
      return 1;
    }

    var compareValue := ExtendSign(sign1);
    var differInHighBits := false;
    if size1 > size2 {
      differInHighBits := DifferInHighBits(operand1, size2, compareValue);
    } else if size1 < size2 {
      differInHighBits := DifferInHighBits(operand2, size1, compareValue);
    }
    if size1 >= size2 {
      CompareHigh(operand1.signed, ws1, operand2.signed, ws2);
    } else {
      CompareHigh(operand2.signed, ws2, operand1.signed, ws1);
    }
    if differInHighBits {
      return if (size1 > size2) != sign1 then 1 else -1;
    }

    var i := if size1 > size2 then size2 else size1;
    assert ws1[..size1] == ws1 && ws2[..size2] == ws2;
    assert operand1.Value() - operand2.Value() == Val(ws1[..i]) - Val(ws2[..i]);
    while i > 0
      invariant 0 <= i <= size1 && i <= size2
      invariant operand1.Value() - operand2.Value() == Val(ws1[..i]) - Val(ws2[..i])
    {
      i := i - 1;
      var word1, word2 := operand1.Get(i), operand2.Get(i);
      ValStep(ws1, i);
      ValStep(ws2, i);
      if word1 < word2 {
        TopWordDecides(ws1, ws2, i);
      } else if word1 > word2 {
        TopWordDecides(ws2, ws1, i);
      }
      if isForInequality {
        if word1 != word2 {
          return 1;
        }
      } else {
        if word1 > word2 {
          return 1;
        }
        if word1 < word2 {
          return -1;
        }
      }
    }
    assert ws1[..0] == ws2[..0];
    return 0;
  }
}
