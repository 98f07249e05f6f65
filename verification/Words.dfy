/** Machine words and little-endian word sequences: what the storage of a big integer denotes. */
module Words {

  /** Words are u32 or u64. Which of the two is left open, so every result holds for both. */
  type WordBase = b: nat | b == 0x1_0000_0000 || b == 0x1_0000_0000_0000_0000 witness 0x1_0000_0000

  const BASE: WordBase
  const WORD_SIZE: nat := if BASE == 0x1_0000_0000 then 32 else 64
  const MAX_BIG_INT_LENGTH: nat := if BASE == 0x1_0000_0000 then 0x400_0000 else 0x2000_0000

  type Word = w: int | 0 <= w < BASE
  type DoubleWord = w: int | 0 <= w < Up(BASE)

  /** BASE * x, written with literal factors so that the solver sees linear terms. */
  function Up(x: int): (r: int) {
    if BASE == 0x1_0000_0000 then 0x1_0000_0000 * x else 0x1_0000_0000_0000_0000 * x
  }

  /** x * BASE^i: `x` moved up by `i` words. */
  function Shift(x: int, i: nat): int {
    if i == 0 then x else Up(Shift(x, i - 1))
  }

  /** The weight of word `i`: BASE^i. */
  function Weight(i: nat): (r: nat)
    ensures r > 0
  {
    ShiftPos(1, i);
    Shift(1, i)
  }

  /** The natural number stored little-endian in `ws`. */
  function Val(ws: seq<Word>): nat {
    if ws == [] then 0
    else
      var n := |ws| - 1;
      ShiftNonneg(ws[n], n);
      Val(ws[..n]) + Shift(ws[n], n)
  }

  /** A signed storage is negative when its top bit is set. */
  predicate IsNegative(signed: bool, ws: seq<Word>)
    requires signed ==> |ws| > 0
  {
    signed && 2 * ws[|ws| - 1] >= BASE
  }

  /** The two's complement reading of a signed storage, the plain one of an unsigned storage. */
  function SignedVal(signed: bool, ws: seq<Word>): int
    requires signed ==> |ws| > 0
  {
    if IsNegative(signed, ws) then Val(ws) - Weight(|ws|) else Val(ws)
  }

  // ----- Shift is linear -----

  lemma {:induction false} ShiftPos(x: int, i: nat)
    requires x > 0
    ensures Shift(x, i) > 0
  {
    if i > 0 {
      ShiftPos(x, i - 1);
    }
  }

  lemma {:induction false} ShiftNonneg(x: int, i: nat)
    requires x >= 0
    ensures Shift(x, i) >= 0
  {
    if i > 0 {
      ShiftNonneg(x, i - 1);
    }
  }

  lemma {:induction false} ShiftAdd(x: int, y: int, i: nat)
    ensures Shift(x + y, i) == Shift(x, i) + Shift(y, i)
    ensures Shift(x - y, i) == Shift(x, i) - Shift(y, i)
  {
    if i > 0 {
      ShiftAdd(x, y, i - 1);
    }
  }

  lemma ShiftLe(x: int, y: int, i: nat)
    ensures x <= y <==> Shift(x, i) <= Shift(y, i)
    ensures x < y <==> Shift(x, i) < Shift(y, i)
  {
    ShiftAdd(y, x, i);
    ShiftAdd(x, y, i);
    if x < y {
      ShiftPos(y - x, i);
    } else if y < x {
      ShiftPos(x - y, i);
    }
  }

  lemma {:induction false} ShiftShift(x: int, i: nat, j: nat)
    ensures Shift(Shift(x, i), j) == Shift(x, i + j)
  {
    if j > 0 {
      ShiftShift(x, i, j - 1);
    }
  }

  lemma {:induction false} ShiftUp(x: int, i: nat)
    ensures Shift(Up(x), i) == Shift(x, i + 1) == Up(Shift(x, i))
  {
    if i > 0 {
      ShiftUp(x, i - 1);
    }
  }

  lemma {:induction false} ShiftMul(x: int, y: int, i: nat)
    ensures Shift(x * y, i) == x * Shift(y, i)
  {
    if i > 0 {
      ShiftMul(x, y, i - 1);
      UpMul(x, Shift(y, i - 1));
    }
  }

  lemma UpMul(x: int, y: int)
    ensures Up(x * y) == x * Up(y)
  {
  }

  lemma ShiftWeight(x: int, i: nat)
    ensures Shift(x, i) == x * Weight(i)
  {
    ShiftMul(x, 1, i);
  }

  lemma {:induction false} ShiftMonotone(x: int, i: nat, j: nat)
    requires i <= j && x >= 0
    ensures Shift(x, i) <= Shift(x, j)
  {
    if i < j {
      ShiftMonotone(x, i, j - 1);
      ShiftNonneg(x, j - 1);
    }
  }

  // ----- Values -----

  /** Extending a prefix by one word adds that word at its weight. */
  lemma ValStep(ws: seq<Word>, i: nat)
    requires i < |ws|
    ensures Val(ws[..i + 1]) == Val(ws[..i]) + Shift(ws[i], i)
  {
    assert ws[..i + 1][..i] == ws[..i];
  }

  lemma {:induction false} ValBound(ws: seq<Word>)
    ensures Val(ws) < Weight(|ws|)
  {
    if ws != [] {
      var n := |ws| - 1;
      ValBound(ws[..n]);
      ShiftLe(ws[n], BASE - 1, n);
      ShiftAdd(Up(1), 1, n);
      ShiftUp(1, n);
    }
  }

  lemma {:induction false} ValConcat(low: seq<Word>, high: seq<Word>)
    ensures Val(low + high) == Val(low) + Shift(Val(high), |low|)
  {
    if high == [] {
      assert low + high == low;
      ShiftAdd(0, 0, |low|);
    } else {
      var n := |high| - 1;
      assert (low + high)[..|low| + n] == low + high[..n];
      ValConcat(low, high[..n]);
      ShiftAdd(Val(high[..n]), Shift(high[n], n), |low|);
      ShiftShift(high[n], n, |low|);
    }
  }

  lemma ValSplit(ws: seq<Word>, k: nat)
    requires k <= |ws|
    ensures Val(ws) == Val(ws[..k]) + Shift(Val(ws[k..]), k)
  {
    hide Val, Shift;
    ValConcat(ws[..k], ws[k..]);
    assert ws[..k] + ws[k..] == ws;
  }

  lemma {:induction false} ValZeros(ws: seq<Word>)
    requires forall k :: 0 <= k < |ws| ==> ws[k] == 0
    ensures Val(ws) == 0
  {
    if ws != [] {
      var n := |ws| - 1;
      ValZeros(ws[..n]);
      ShiftAdd(0, 0, n);
    }
  }

  /** Words that are all ones denote one less than the next weight. */
  lemma {:induction false} ValOnes(ws: seq<Word>)
    requires forall k :: 0 <= k < |ws| ==> ws[k] == BASE - 1
    ensures Val(ws) == Weight(|ws|) - 1
  {
    if ws != [] {
      var n := |ws| - 1;
      ValOnes(ws[..n]);
      ShiftAdd(Up(1), 1, n);
      ShiftUp(1, n);
    }
  }

  /** Zero words from `k` on do not change the value. */
  lemma ValTrim(ws: seq<Word>, k: nat)
    requires k <= |ws| && forall i :: k <= i < |ws| ==> ws[i] == 0
    ensures Val(ws) == Val(ws[..k])
  {
    ValSplit(ws, k);
    ValZeros(ws[k..]);
    ShiftAdd(0, 0, k);
  }

  /** A value below Weight(k) leaves every word from `k` on zero. */
  lemma {:induction false} ValSmall(ws: seq<Word>, k: nat)
    requires k <= |ws| && Val(ws) < Weight(k)
    ensures forall i :: k <= i < |ws| ==> ws[i] == 0
  {
    if k < |ws| {
      var n := |ws| - 1;
      ShiftMonotone(1, k, n);
      ShiftLe(1, ws[n], n);
      ShiftNonneg(ws[n], n);
      ValSmall(ws[..n], k);
    }
  }
}
