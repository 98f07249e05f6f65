/** Reading and writing bits, least significant first, through a 64-bit buffer on a little-endian host. */
module LittleEndianBitStreams {
  import opened Arithmetic
  import opened Bits
  import opened Common
  import opened Sequences

  const BIT_BUFFER_SIZE: nat := 64

  /** lsb_mask */
  function LsbMask(bits: nat): nat {
    Pow2(bits) - 1
  }

  // ----- The buffer as bits -----

  /** The low `count` bits of the buffer are `bits` and the others are zero. */
  ghost predicate Buffers(buffer: nat, count: nat, bits: seq<bool>) {
    count <= BIT_BUFFER_SIZE && |bits| == count && buffer == Value(bits)
  }

  lemma BuffersMore(buffer: nat, count: nat, bits: seq<bool>, more: seq<bool>)
    requires Buffers(buffer, count, bits) && count < BIT_BUFFER_SIZE && count + |more| <= BIT_BUFFER_SIZE
    ensures Buffers(Or(buffer, ShiftLeft64(Value(more), count)), count + |more|, bits + more)
  {
    ValueBound(bits);
    ValueBound(more);
    ShiftLeftFits(Value(more), |more|, count);
    OrAbove(buffer, Value(more), count);
    ValueConcat(bits, more);
  }

  lemma BuffersLess(buffer: nat, count: nat, bits: seq<bool>, k: nat)
    requires Buffers(buffer, count, bits) && k <= count
    ensures Buffers(ShiftRight(buffer, k), count - k, bits[k..])
    ensures And(buffer, LsbMask(k)) == Value(bits[..k])
  {
    ValueSplit(bits, k);
    AndMask(buffer, k);
  }

  lemma BuffersZeros(buffer: nat, count: nat, bits: seq<bool>, n: nat)
    requires Buffers(buffer, count, bits) && count + n <= BIT_BUFFER_SIZE
    ensures Buffers(buffer, count + n, bits + Zeros(n))
  {
    ValueZeros(Zeros(n));
    ValueConcat(bits, Zeros(n));
  }

  // ----- Writing -----

  /** Bit by bit, what is set in either. */
  function OrBits(a: seq<bool>, b: seq<bool>): (r: seq<bool>)
    requires |a| == |b|
    ensures |r| == |a|
  {
    seq(|a|, i requires 0 <= i < |a| => a[i] || b[i])
  }

  lemma {:induction false} OrValue(a: seq<bool>, b: seq<bool>)
    requires |a| == |b|
    ensures Or(Value(a), Value(b)) == Value(OrBits(a, b))
  {
    hide OrBits;
    if a == [] {
      OrZero(0);
      OrBitsNone(a, b);
    } else {
      OrValue(a[1..], b[1..]);
      OrBitsRest(a, b);
      OrStep(Bit(a[0]), Value(a[1..]), Bit(b[0]), Value(b[1..]));
    }
  }

  lemma OrBitsNone(a: seq<bool>, b: seq<bool>)
    requires |a| == |b| == 0
    ensures OrBits(a, b) == []
  {
  }

  lemma OrBitsRest(a: seq<bool>, b: seq<bool>)
    requires |a| == |b| > 0
    ensures OrBits(a, b)[0] == (a[0] || b[0]) && OrBits(a, b)[1..] == OrBits(a[1..], b[1..])
  {
  }

  lemma OrStep(a: nat, x: nat, b: nat, y: nat)
    requires a < 2 && b < 2
    ensures Or(a + 2 * x, b + 2 * y) == Bit(a == 1 || b == 1) + 2 * Or(x, y)
  {
    assert (a + 2 * x) / 2 == x && (a + 2 * x) % 2 == a && (b + 2 * y) / 2 == y && (b + 2 * y) % 2 == b;
    if a + 2 * x == 0 && b + 2 * y == 0 {
      OrZero(0);
    }
  }

  lemma {:induction false} BitsOfSplit(value: nat, i: nat, j: nat)
    ensures ShiftRight(value, i) >= 0 && BitsOf(value, i + j) == BitsOf(value, i) + BitsOf(ShiftRight(value, i), j)
  {
    hide BitsOf;
    if i == 0 {
      BitsOfNone(value);
      assert ShiftRight(value, 0) == value;
    } else {
      BitsOfSplit(value / 2, i - 1, j);
      BitsOfStep(value, i);
      BitsOfStep(value, i + j);
      HalfShift(value, i);
      Associative([value % 2 == 1], BitsOf(value / 2, i - 1), BitsOf(ShiftRight(value, i), j));
    }
  }

  lemma BitsOfNone(value: nat)
    ensures BitsOf(value, 0) == []
  {
  }

  lemma BitsOfStep(value: nat, count: nat)
    requires count > 0
    ensures BitsOf(value, count) == [value % 2 == 1] + BitsOf(value / 2, count - 1)
  {
  }

  lemma HalfShift(value: nat, i: nat)
    requires i > 0
    ensures ShiftRight(value / 2, i - 1) == ShiftRight(value, i)
  {
    var p, h := Pow2(i - 1), value / 2;
    DivMod(h, p);
    var q, x := h / p, h % p;
    assert Pow2(i) == 2 * p;
    assert value == 2 * h + value % 2;
    assert q * (2 * p) == 2 * (q * p);
    DivModUnique(value, q, 2 * x + value % 2, 2 * p);
  }

  lemma {:induction false} BitsOfLow(value: nat, k: nat)
    ensures BitsOf(value % Pow2(k), k) == BitsOf(value, k) && Value(BitsOf(value, k)) == value % Pow2(k)
  {
    if k > 0 {
      var p := Pow2(k - 1);
      BitsOfLow(value / 2, k - 1);
      HalfMod(value, p);
      var low, rest := value % (2 * p), (value / 2) % p;
      assert low / 2 == rest && low % 2 == value % 2;
      BitsOfStep(value, k);
      BitsOfStep(low, k);
    }
  }

  /** A shift to the left within 64 bits drops the bits pushed out. */
  lemma ShiftedBits(value: nat, k: nat)
    requires k < BIT_BUFFER_SIZE
    ensures ShiftLeft64(value, k) == Value(Zeros(k) + BitsOf(value, BIT_BUFFER_SIZE - k))
  {
    hide BitsOf, Value, Pow2;
    var n := BIT_BUFFER_SIZE - k;
    ValueConcat(Zeros(k), BitsOf(value, n));
    ValueZeros(Zeros(k));
    BitsOfLow(value, n);
    var p, q, low := Pow2(k), value / Pow2(n), value % Pow2(n);
    DivMod(value, Pow2(n));
    Pow2Add(n, k);
    MulDist(q * Pow2(n), low, p);
    MulAssoc(q, Pow2(n), p);
    MulNonneg(low, p);
    MulLt(low, Pow2(n), p);
    DivModUnique(value * p, q, low * p, Pow2(BIT_BUFFER_SIZE));
  }

  lemma OrBitsAbove(pending: seq<bool>, above: seq<bool>, bits: seq<bool>)
    requires |above| == |bits|
    ensures OrBits(pending + above, Zeros(|pending|) + bits) == pending + OrBits(above, bits)
  {
  }

  /** The bits, with those that lie above the ones written before set too. */
  function Disturbed(above: seq<bool>, bits: seq<bool>): (r: seq<bool>)
    ensures |r| == |bits|
  {
    seq(|bits|, i requires 0 <= i < |bits| => bits[i] || (i < |above| && above[i]))
  }

  /** What lies above after `count` bits of `value` were written. */
  function AboveAfter(above: seq<bool>, value: nat, count: nat): seq<bool> {
    if count == 0 && above != [] then above
    else if count < |above| then OrBits(above, BitsOf(value, |above|))[count..]
    else if count == |above| then Zeros(BIT_BUFFER_SIZE)
    else if count <= |above| + BIT_BUFFER_SIZE then BitsOf(value, |above| + BIT_BUFFER_SIZE)[count..]
    else []
  }

  /**
   * The value has no bits beyond the first `count` that would stay in the buffer, where there is room for
   * `room` bits.
   */
  predicate LeavesClean(room: nat, value: nat, count: nat) {
    || count == room || count == 0
    || ShiftRight(value, count) % Pow2(if count < room then room - count else Max(0, room + BIT_BUFFER_SIZE - count))
       == 0
  }

  lemma NothingDisturbs(above: seq<bool>, bits: seq<bool>)
    requires above == Zeros(|above|)
    ensures Disturbed(above, bits) == bits
  {
  }

  lemma NothingToDisturb(above: seq<bool>)
    ensures Zeros(0) == [] && Disturbed(above, Zeros(0)) == []
  {
  }

  lemma ZeroBitsIff(value: nat, n: nat)
    ensures BitsOf(value, n) == Zeros(n) <==> value % Pow2(n) == 0
  {
    hide BitsOf, Value, Pow2;
    BitsOfLow(value, n);
    if BitsOf(value, n) == Zeros(n) {
      ValueZeros(Zeros(n));
    }
    if value % Pow2(n) == 0 {
      BitsOfZero(n);
    }
  }

  /** Exactly then the buffer stays clean. */
  lemma CleanAfterIff(above: seq<bool>, value: nat, count: nat)
    requires above == Zeros(|above|) && count <= |above| + BIT_BUFFER_SIZE
    ensures AboveAfter(above, value, count) == Zeros(|AboveAfter(above, value, count)|) <==>
              LeavesClean(|above|, value, count)
  {
    hide BitsOf, Value, Pow2, ShiftRight, OrBits;
    if 0 < count < |above| {
      OrBitsZeros(above, BitsOf(value, |above|));
      BitsOfSplit(value, count, |above| - count);
      ZeroBitsIff(ShiftRight(value, count), |above| - count);
    } else if count > |above| {
      BitsOfSplit(value, count, |above| + BIT_BUFFER_SIZE - count);
      ZeroBitsIff(ShiftRight(value, count), |above| + BIT_BUFFER_SIZE - count);
    }
  }

  lemma OrBitsZeros(above: seq<bool>, bits: seq<bool>)
    requires |above| == |bits| && above == Zeros(|above|)
    ensures OrBits(above, bits) == bits
  {
  }

  /** A value without other bits leaves the buffer clean. */
  lemma FittingLeavesClean(room: nat, value: nat, count: nat)
    requires value < Pow2(count)
    ensures LeavesClean(room, value, count)
  {
    DivModUnique(value, 0, value, Pow2(count));
  }

  /** The number of bits that complete the last byte. */
  function Padding(bitCount: nat): (n: nat)
    ensures n < 8
  {
    (8 - bitCount % 8) % 8
  }

  lemma PaddingIs(bitCount: nat)
    ensures Padding(bitCount) == if bitCount % 8 == 0 then 0 else 8 - bitCount % 8
  {
  }

  class LittleEndianOutputBitStream {
    /** The bytes the stream beneath has taken. */
    var bytes: seq<Byte>
    var bitBuffer: nat
    var bitCount: nat
    /** The bits in the buffer, and what lies above them. */
    ghost var pending: seq<bool>
    ghost var above: seq<bool>

    ghost predicate Valid()
      reads this
    {
      |pending| == bitCount && |pending| + |above| == BIT_BUFFER_SIZE && bitBuffer == Value(pending + above)
    }

    /** Nothing lies above the bits in the buffer. */
    ghost predicate Clean()
      reads this
    {
      above == Zeros(|above|)
    }

    /** Everything written, bit by bit. */
    ghost function Written(): seq<bool>
      reads this
    {
      BytesBits(bytes) + pending
    }

    constructor ()
      ensures Valid() && Clean() && Written() == [] && bytes == [] && bitCount == 0
    {
      bytes, bitBuffer, bitCount, pending, above := [], 0, 0, [], Zeros(BIT_BUFFER_SIZE);
      new;
      assert pending + above == Zeros(BIT_BUFFER_SIZE);
      ValueZeros(Zeros(BIT_BUFFER_SIZE));
    }

    /** flush_buffer_to_stream: hands on the whole bytes of the buffer. */
    method FlushBufferToStream()
      requires Valid()
      modifies this
      ensures Valid() && Written() == old(Written()) && bitCount == old(bitCount) % 8
      ensures above == old(above) + Zeros(8 * (old(bitCount) / 8))
    {
      hide Value, LowBytes, BytesBits, ShiftRight, Pow2;
      var bytesToWrite := bitCount / 8;
      FlushBits(bytes, bitBuffer, pending, above, bytesToWrite);
      bytes := bytes + LowBytes(bitBuffer, bytesToWrite);
      if bitCount == BIT_BUFFER_SIZE {
        bitBuffer, bitCount := 0, 0;
      } else {
        bitBuffer := ShiftRight(bitBuffer, bytesToWrite * 8);
        bitCount := bitCount - bytesToWrite * 8;
      }
      pending, above := pending[8 * bytesToWrite..], above + Zeros(8 * bytesToWrite);
    }

    /** Puts bits that fit into the buffer; those of the value beyond them lie above. */
    method Put(value: nat, count: nat)
      requires Valid() && bitCount < BIT_BUFFER_SIZE && bitCount + count <= BIT_BUFFER_SIZE
      modifies this
      ensures Valid() && bitCount == old(bitCount) + count
      ensures Written() == old(Written()) + OrBits(old(above), BitsOf(value, |old(above)|))[..count]
      ensures above == OrBits(old(above), BitsOf(value, |old(above)|))[count..]
    {
      hide Value, BitsOf, BytesBits, OrBits, Or, ShiftLeft64;
      ghost var mixed := OrBits(above, BitsOf(value, |above|));
      ShiftedBits(value, bitCount);
      OrValue(pending + above, Zeros(bitCount) + BitsOf(value, |above|));
      OrBitsAbove(pending, above, BitsOf(value, |above|));
      bitBuffer := Or(bitBuffer, ShiftLeft64(value, bitCount));
      bitCount := bitCount + count;
      assert pending + mixed == (pending + mixed[..count]) + mixed[count..];
      pending, above := pending + mixed[..count], mixed[count..];
    }

    /**
     * write_bits: the low `count` bits of a value of `width` bits, disturbed by what lies above the bits
     * in the buffer. Nothing does as long as no value had other bits that stayed in the buffer.
     */
    method WriteBits(value: nat, count: nat, width: nat)
      requires Valid() && count <= width <= 64
      modifies this
      ensures Valid() && Written() == old(Written()) + Disturbed(old(above), BitsOf(value, count))
      ensures above == AboveAfter(old(above), value, count)
      ensures old(Clean()) ==> Written() == old(Written()) + BitsOf(value, count)
      ensures old(Clean()) ==> (Clean() <==> LeavesClean(|old(above)|, value, count))
      ensures old(bitCount) < BIT_BUFFER_SIZE ==> bitCount < BIT_BUFFER_SIZE
    {
      hide BitsOf, Value, BytesBits, Pow2, OrBits, Disturbed, AboveAfter, LeavesClean;
      if Clean() {
        NothingDisturbs(above, BitsOf(value, count));
        CleanAfterIff(above, value, count);
      }
      var v, c := value, count;
      if bitCount == BIT_BUFFER_SIZE {
        FlushedThenPut(above, value, count);
        FlushBufferToStream();
      } else if count >= BIT_BUFFER_SIZE - bitCount {
        FilledThenPut(above, value, count);
        v, c := FillUp(value, count, width);
        FlushBufferToStream();
      } else {
        PutAlone(above, value, count);
      }
      if c == 0 {
        return;
      }
      Put(v, c);
    }

    /** Fills the buffer with the first bits; the others are left over. */
    method FillUp(value: nat, count: nat, width: nat) returns (v: nat, c: nat)
      requires Valid() && bitCount < BIT_BUFFER_SIZE <= bitCount + count && count <= width <= 64
      modifies this
      ensures Valid() && bitCount == BIT_BUFFER_SIZE && above == [] && c == count - (BIT_BUFFER_SIZE - old(bitCount))
      ensures Written() == old(Written()) + OrBits(old(above), BitsOf(value, |old(above)|))
      ensures c > 0 ==> v == ShiftRight(value, BIT_BUFFER_SIZE - old(bitCount))
    {
      hide BitsOf, Value, BytesBits, Pow2, And, LsbMask, ShiftRight, OrBits;
      var remaining := BIT_BUFFER_SIZE - bitCount;
      MaskedBits(value, remaining);
      ghost var mixed := OrBits(above, BitsOf(value, remaining));
      Put(And(value, LsbMask(remaining)), remaining);
      assert mixed[..remaining] == mixed;
      v, c := value, count - remaining;
      if remaining != width {
        v := ShiftRight(value, remaining);
      }
    }

    lemma WrittenLength()
      requires Valid()
      ensures |Written()| % 8 == bitCount % 8
    {
    }

    /** align_to_byte_boundary: fills up the last byte with zeros, unless they are disturbed. */
    method AlignToByteBoundary()
      requires Valid()
      modifies this
      ensures Valid() && |Written()| % 8 == 0
      ensures Written() == old(Written()) + Disturbed(old(above), Zeros(Padding(old(bitCount))))
      ensures old(Clean()) ==> Clean() && Written() == old(Written()) + Zeros(Padding(old(bitCount)))
    {
      hide BytesBits, BitsOf, Value, AboveAfter, LeavesClean, Pow2, Disturbed, Zeros, Padding;
      hide LittleEndianOutputBitStream.Written;
      PaddingIs(bitCount);
      var offset := bitCount % 8;
      WrittenLength();
      RoundedUp(|Written()|, 8 - offset);
      if offset != 0 {
        BitsOfZero(8 - offset);
        FittingLeavesClean(|above|, 0, 8 - offset);
        WriteBits(0, 8 - offset, 8);
      } else {
        NothingToDisturb(above);
      }
    }
  }

  lemma RoundedUp(length: nat, more: nat)
    requires length % 8 == 8 - more || (more == 8 && length % 8 == 0)
    ensures (length + more) % 8 == 0
  {
  }

  /** Flushing moves bits from the buffer to the bytes. */
  lemma FlushBits(bytes: seq<Byte>, buffer: nat, pending: seq<bool>, above: seq<bool>, n: nat)
    requires |pending| + |above| == BIT_BUFFER_SIZE && buffer == Value(pending + above) && 8 * n <= |pending|
    ensures BytesBits(bytes + LowBytes(buffer, n)) + pending[8 * n..] == BytesBits(bytes) + pending
    ensures ShiftRight(buffer, 8 * n) == Value(pending[8 * n..] + (above + Zeros(8 * n)))
    ensures 8 * n == BIT_BUFFER_SIZE ==> Value(pending[8 * n..] + (above + Zeros(8 * n))) == 0
  {
    hide *;
    LowBytesBits(pending + above, n);
    BytesBitsConcat(bytes, LowBytes(buffer, n));
    FlushedParts(BytesBits(bytes), pending, above, 8 * n);
    ShiftedValue(pending + above, 8 * n);
    ValueThenZeros((pending + above)[8 * n..], 8 * n);
    NoBitsNoValue((pending + above)[8 * n..]);
  }

  lemma FlushedParts(written: seq<bool>, pending: seq<bool>, above: seq<bool>, k: nat)
    requires k <= |pending|
    ensures (written + (pending + above)[..k]) + pending[k..] == written + pending
    ensures (pending + above)[k..] + Zeros(k) == pending[k..] + (above + Zeros(k))
    ensures |(pending + above)[k..]| == |pending| + |above| - k
  {
    assert (pending + above)[..k] == pending[..k];
    assert pending == pending[..k] + pending[k..];
  }

  lemma NoBitsNoValue(bits: seq<bool>)
    ensures |bits| == 0 ==> Value(bits) == 0
  {
  }

  lemma ShiftedValue(bits: seq<bool>, k: nat)
    requires k <= |bits|
    ensures ShiftRight(Value(bits), k) == Value(bits[k..])
  {
    hide Value, Pow2;
    ValueSplit(bits, k);
  }

  lemma MaskedBits(value: nat, k: nat)
    ensures BitsOf(And(value, LsbMask(k)), k) == BitsOf(value, k)
  {
    hide BitsOf, Pow2, And;
    AndMask(value, k);
    BitsOfLow(value, k);
  }

  /** All bits go into the buffer. */
  lemma PutAlone(above: seq<bool>, value: nat, count: nat)
    requires count < |above|
    ensures count > 0 ==> OrBits(above, BitsOf(value, |above|))[..count] == Disturbed(above, BitsOf(value, count))
    ensures count > 0 ==> OrBits(above, BitsOf(value, |above|))[count..] == AboveAfter(above, value, count)
    ensures count == 0 ==> AboveAfter(above, value, count) == above && Disturbed(above, BitsOf(value, count)) == []
  {
    hide BitsOf;
    BitsOfSplit(value, count, |above| - count);
  }

  /** The first bits fill the buffer, and the others go into the empty one. */
  lemma FilledThenPut(above: seq<bool>, value: nat, count: nat)
    requires 0 < |above| <= count <= BIT_BUFFER_SIZE
    ensures var empty, v, c := Zeros(BIT_BUFFER_SIZE), ShiftRight(value, |above|), count - |above|;
            var first, second := OrBits(above, BitsOf(value, |above|)), OrBits(empty, BitsOf(v, BIT_BUFFER_SIZE));
            && first + second[..c] == Disturbed(above, BitsOf(value, count))
            && (c > 0 ==> second[c..] == AboveAfter(above, value, count))
            && (c == 0 ==> empty == AboveAfter(above, value, count) && first == Disturbed(above, BitsOf(value, count)))
            && [] + Zeros(8 * (BIT_BUFFER_SIZE / 8)) == empty
  {
    hide BitsOf, ShiftRight;
    var v, c := ShiftRight(value, |above|), count - |above|;
    BitsOfSplit(value, |above|, BIT_BUFFER_SIZE);
    BitsOfSplit(value, |above|, c);
    BitsOfSplit(v, c, BIT_BUFFER_SIZE - c);
    OrBitsZeros(Zeros(BIT_BUFFER_SIZE), BitsOf(v, BIT_BUFFER_SIZE));
  }

  lemma FlushedThenPut(above: seq<bool>, value: nat, count: nat)
    requires above == [] && count <= BIT_BUFFER_SIZE
    ensures above + Zeros(8 * (BIT_BUFFER_SIZE / 8)) == Zeros(BIT_BUFFER_SIZE)
    ensures var second := OrBits(Zeros(BIT_BUFFER_SIZE), BitsOf(value, BIT_BUFFER_SIZE));
            && second[..count] == Disturbed(above, BitsOf(value, count))
            && (count > 0 ==> second[count..] == AboveAfter(above, value, count))
            && (count == 0 ==>
                  && Zeros(BIT_BUFFER_SIZE) == AboveAfter(above, value, count)
                  && Disturbed(above, BitsOf(value, count)) == [])
  {
    hide BitsOf;
    BitsOfSplit(value, count, BIT_BUFFER_SIZE - count);
    OrBitsZeros(Zeros(BIT_BUFFER_SIZE), BitsOf(value, BIT_BUFFER_SIZE));
  }

  lemma {:induction false} BitsOfZero(n: nat)
    ensures BitsOf(0, n) == Zeros(n) && 0 < Pow2(n)
  {
    if n > 0 {
      BitsOfZero(n - 1);
    }
  }

  /** Two bits of seven, then one of zero: the third bit of seven stays where the zero should be. */
  method DisturbedExample() returns (output: LittleEndianOutputBitStream)
    ensures output.Written() == [true, true, true]
  {
    output := new LittleEndianOutputBitStream();
    hide BytesBits, Value, AboveAfter, LeavesClean, Pow2, LittleEndianOutputBitStream.Written;
    var above := Zeros(BIT_BUFFER_SIZE);
    SevenAbove(above);
    assert output.above == above;
    output.WriteBits(7, 2, 8);
    assert output.above[0];
    output.WriteBits(0, 1, 8);
  }

  lemma SevenAbove(above: seq<bool>)
    requires above == Zeros(BIT_BUFFER_SIZE)
    ensures |AboveAfter(above, 7, 2)| > 0 && AboveAfter(above, 7, 2)[0] && BitsOf(7, 2) == [true, true] &&
            BitsOf(0, 1) == [false]
  {
    hide Pow2;
    BitsOfSplit(7, 2, 62);
    assert BitsOf(7, 3) == [true, true, true];
    BitsOfSplit(7, 3, 61);
    OrBitsZeros(above, BitsOf(7, 64));
  }

  // ----- Reading -----

  /** Spinning: the code asks the stream for no bytes, again and again. */
  datatype Outcome<+T> = Got(value: T) | EndOfStream | Spinning

  /** How full whole bytes can make the buffer. */
  function Reach(bitCount: nat): int {
    BIT_BUFFER_SIZE - (BIT_BUFFER_SIZE - bitCount) % 8
  }

  class LittleEndianInputBitStream {
    /** What the stream beneath has not given yet. */
    var rest: seq<Byte>
    /** The sizes of its next reads, as far as they are short. */
    var lengths: seq<nat>
    const fillWithZero: bool
    /** What the host makes of a shift by all 64 bits, which C++ leaves undefined. */
    const fullShift: nat -> nat
    var bitBuffer: nat
    var bitCount: nat
    ghost var pending: seq<bool>

    ghost predicate Valid()
      reads this
    {
      Buffers(bitBuffer, bitCount, pending)
    }

    /** The bits still to come. */
    ghost function Unread(): seq<bool>
      reads this
    {
      pending + BytesBits(rest)
    }

    /** More bits are asked for than whole bytes can bring, and the stream does not end before that. */
    ghost predicate OutOfReach(count: nat)
      reads this
    {
      count > Reach(bitCount) && |Unread()| > Reach(bitCount)
    }

    constructor (bytes: seq<Byte>, lengths: seq<nat>, fillWithZero: bool, fullShift: nat -> nat)
      ensures Valid() && Unread() == BytesBits(bytes) && bitCount == 0
      ensures this.fillWithZero == fillWithZero && this.fullShift == fullShift
    {
      rest, this.lengths, this.fillWithZero, this.fullShift := bytes, lengths, fillWithZero, fullShift;
      bitBuffer, bitCount, pending := 0, 0, [];
    }

    /** read_some of the stream beneath: at least one byte, unless it has none. */
    method ReadSome(count: nat) returns (bytes: seq<Byte>)
      requires count > 0 && rest != []
      modifies this`rest, this`lengths
      ensures 1 <= |bytes| <= count && bytes + rest == old(rest)
    {
      var n := count;
      if lengths != [] {
        n := if lengths[0] == 0 then 1 else if lengths[0] < count then lengths[0] else count;
        lengths := lengths[1..];
      }
      n := if n < |rest| then n else |rest|;
      bytes := rest[..n];
      rest := rest[n..];
    }

    /** One round of refilling: as many whole bytes as have room. */
    method Pull()
      requires Valid() && bitCount + 8 <= BIT_BUFFER_SIZE && rest != []
      modifies this
      ensures Valid() && bitCount > old(bitCount) && bitCount % 8 == old(bitCount) % 8 && Unread() == old(Unread())
    {
      hide Value, BytesBits, Or, Buffers, Reach, ShiftLeft64, FromBytes;
      var bytes := ReadSome((BIT_BUFFER_SIZE - bitCount) / 8);
      FromBytesBits(bytes);
      BytesBitsConcat(bytes, rest);
      BuffersMore(bitBuffer, bitCount, pending, BytesBits(bytes));
      bitBuffer := Or(bitBuffer, ShiftLeft64(FromBytes(bytes), bitCount));
      bitCount := bitCount + |bytes| * 8;
      pending := pending + BytesBits(bytes);
    }

    /** refill_buffer_from_stream: without room for a byte the code goes on asking for none. */
    method RefillBufferFromStream(requested: nat) returns (outcome: Outcome<()>)
      requires Valid() && requested <= BIT_BUFFER_SIZE
      modifies this
      ensures Valid() && (outcome.Spinning? <==> old(OutOfReach(requested)))
      ensures outcome.EndOfStream? <==> !old(OutOfReach(requested)) && |old(Unread())| < requested && !fillWithZero
      ensures outcome.Got? ==> bitCount >= requested
      ensures |old(Unread())| >= requested ==> bitCount % 8 == old(bitCount) % 8
      ensures outcome.Spinning? ==> rest != [] && bitCount < requested && (BIT_BUFFER_SIZE - bitCount) / 8 == 0
      ensures Unread() == old(Unread()) + if outcome.Got? &&
              |old(Unread())| < requested then Zeros(requested - |old(Unread())|) else []
    {
      hide Value, BytesBits, Or, Reach;
      assert Unread() + [] == Unread();
      ReachBounds(bitCount);
      while requested > bitCount
        invariant Valid() && Reach(bitCount) == Reach(old(bitCount)) && bitCount <= Reach(bitCount)
        invariant bitCount % 8 == old(bitCount) % 8 && Unread() == old(Unread())
        decreases BIT_BUFFER_SIZE - bitCount
      {
        if rest == [] {
          NoBytesNoBits(rest);
          if fillWithZero {
            BuffersZeros(bitBuffer, bitCount, pending, requested - bitCount);
            pending := pending + Zeros(requested - bitCount);
            bitCount := requested;
            return Got(());
          }
          return EndOfStream;
        }
        if BIT_BUFFER_SIZE - bitCount < 8 {
          ReachBounds(bitCount);
          return Spinning;
        }
        ghost var before := bitCount;
        Pull();
        SameReach(before, bitCount);
        ReachBounds(bitCount);
      }
      return Got(());
    }

    /** peek_bits */
    method PeekBits(count: nat) returns (result: Outcome<nat>)
      requires Valid() && count <= BIT_BUFFER_SIZE
      modifies this
      ensures Valid() && (result.Spinning? <==> old(OutOfReach(count)))
      ensures result.EndOfStream? <==> !old(OutOfReach(count)) && |old(Unread())| < count && !fillWithZero
      ensures Unread() == old(Unread()) + if result.Got? &&
              |old(Unread())| < count then Zeros(count - |old(Unread())|) else []
      ensures |old(Unread())| >= count ==> bitCount % 8 == old(bitCount) % 8
      ensures result.Got? ==> count <= bitCount && count <= |Unread()| && result.value == Value(Unread()[..count])
    {
      hide Value, BytesBits, And;
      assert Unread() + [] == Unread();
      if count > bitCount {
        var outcome := RefillBufferFromStream(count);
        if outcome.EndOfStream? {
          return EndOfStream;
        }
        if outcome.Spinning? {
          return Spinning;
        }
      }
      BuffersLess(bitBuffer, bitCount, pending, count);
      assert Unread()[..count] == pending[..count];
      return Got(And(bitBuffer, LsbMask(if count < bitCount then count else bitCount)));
    }

    /** discard_previously_peeked_bits: a full buffer is cleared only if the host clears it. */
    method DiscardPreviouslyPeekedBits(count: nat)
      requires Valid() && count <= BIT_BUFFER_SIZE
      modifies this
      ensures bitCount == (if count < old(bitCount) then old(bitCount) - count else 0)
      ensures Unread() == old(Unread())[old(bitCount) - bitCount..]
      ensures Valid() <==> old(bitCount) < BIT_BUFFER_SIZE || count < BIT_BUFFER_SIZE || fullShift(old(bitBuffer)) == 0
      ensures old(bitCount) == count == BIT_BUFFER_SIZE ==> bitBuffer == fullShift(old(bitBuffer))
    {
      hide Value, BytesBits;
      var n := if count > bitCount then bitCount else count;
      BuffersLess(bitBuffer, bitCount, pending, n);
      bitBuffer := if n < BIT_BUFFER_SIZE then ShiftRight(bitBuffer, n) else fullShift(bitBuffer);
      bitCount := bitCount - n;
      pending := pending[n..];
      NoBitsNoValue(pending);
    }

    /** All of a full buffer. */
    lemma FullBuffer()
      requires Valid() && bitCount == BIT_BUFFER_SIZE
      ensures |Unread()| >= BIT_BUFFER_SIZE && Value(Unread()[..BIT_BUFFER_SIZE]) == bitBuffer
    {
      assert Unread()[..BIT_BUFFER_SIZE] == pending;
    }

    /**
     * read_bits: the next bits of the stream; if there are too few, an error or zeros for the missing
     * ones. Out of reach it does not come back, and after 64 bits at once it goes on right only if the
     * host clears the buffer.
     */
    method ReadBits(count: nat) returns (result: Outcome<nat>)
      requires Valid() && count <= BIT_BUFFER_SIZE
      modifies this
      ensures result.Spinning? <==> old(OutOfReach(count))
      ensures Valid() <==> count < BIT_BUFFER_SIZE || !result.Got? || fullShift(result.value) == 0
      ensures count == BIT_BUFFER_SIZE && result.Got? ==> bitCount == 0 && bitBuffer == fullShift(result.value)
      ensures result.Spinning? ==> Unread() == old(Unread())
      ensures !result.Spinning? && |old(Unread())| >= count ==>
                && result == Got(Value(old(Unread())[..count])) && Unread() == old(Unread())[count..]
                && (bitCount + count) % 8 == old(bitCount) % 8
      ensures !result.Spinning? && |old(Unread())| < count && !fillWithZero ==>
                result == EndOfStream && Unread() == old(Unread())
      ensures !result.Spinning? && |old(Unread())| < count && fillWithZero ==>
                result == Got(Value(old(Unread()))) && Unread() == []
    {
      hide Value, BytesBits, Buffers, Reach;
      ghost var all := Unread();
      assert all + [] == all;
      result := PeekBits(count);
      if !result.Got? {
        return;
      }
      if count == BIT_BUFFER_SIZE {
        AtMostFull();
        FullBuffer();
      }
      DiscardPreviouslyPeekedBits(count);
      if |all| < count {
        assert (all + Zeros(count - |all|))[..count] == all + Zeros(count - |all|);
        ValueThenZeros(all, count - |all|);
      }
    }

    lemma AtMostFull()
      requires Valid()
      ensures bitCount <= BIT_BUFFER_SIZE
    {
    }

    /** align_to_byte_boundary: drops the rest of the current byte and returns it. */
    method AlignToByteBoundary() returns (remaining: nat)
      requires Valid()
      modifies this
      ensures Valid() && bitCount == old(bitCount) - old(bitCount) % 8 && Unread() == old(Unread())[old(bitCount) % 8..]
      ensures old(bitCount) % 8 <= |old(Unread())| && remaining == Value(old(Unread())[..old(bitCount) % 8])
    {
      hide Value, BytesBits, And;
      var offset := bitCount % 8;
      BuffersLess(bitBuffer, bitCount, pending, offset);
      assert Unread()[..offset] == pending[..offset];
      remaining := 0;
      if offset != 0 {
        remaining := And(bitBuffer, LsbMask(offset));
        DiscardPreviouslyPeekedBits(offset);
      } else {
        ValueZeros([]);
      }
    }
  }

  lemma SameReach(a: nat, b: nat)
    requires a % 8 == b % 8 && a <= BIT_BUFFER_SIZE && b <= BIT_BUFFER_SIZE
    ensures Reach(a) == Reach(b)
  {
    MissingBits(a);
    MissingBits(b);
  }

  lemma MissingBits(a: nat)
    requires a <= BIT_BUFFER_SIZE
    ensures (BIT_BUFFER_SIZE - a) % 8 == if a % 8 == 0 then 0 else 8 - a % 8
  {
    var q, r := a / 8, a % 8;
    assert BIT_BUFFER_SIZE - a == if r == 0 then 8 * (8 - q) else 8 * (7 - q) + (8 - r);
  }

  lemma ReachBounds(bitCount: nat)
    requires bitCount <= BIT_BUFFER_SIZE
    ensures bitCount <= Reach(bitCount) <= BIT_BUFFER_SIZE
    ensures BIT_BUFFER_SIZE - bitCount < 8 ==> Reach(bitCount) == bitCount
  {
  }

  lemma NoBytesNoBits(bytes: seq<Byte>)
    ensures bytes == [] ==> BytesBits(bytes) == []
  {
  }

  lemma ValueThenZeros(bits: seq<bool>, n: nat)
    ensures Value(bits + Zeros(n)) == Value(bits)
  {
    ValueConcat(bits, Zeros(n));
    ValueZeros(Zeros(n));
  }

  /** Any read of up to 57 bits can be satisfied, however full the buffer is. */
  lemma AlwaysInReach(bitCount: nat, count: nat)
    requires bitCount <= BIT_BUFFER_SIZE && count <= 57
    ensures count <= Reach(bitCount)
  {
  }

  /** After four bits of sixteen bytes, the code asks for another 61 forever. */
  method OutOfReachExample() returns (result: Outcome<nat>)
    ensures result.Spinning?
  {
    hide BytesBits, Value, Buffers;
    var input := new LittleEndianInputBitStream(seq(16, _ => 0), [], false, x => x);
    AlwaysInReach(0, 4);
    var _ := input.ReadBits(4);
    result := input.ReadBits(61);
  }

  /**
   * On a host that leaves a value alone when it is shifted by all its bits, 64 bits stay in the buffer after
   * they were read.
   */
  method FullShiftExample() returns (input: LittleEndianInputBitStream, result: Outcome<nat>)
    ensures result.Got? && result.value == input.bitBuffer > 0 && input.bitCount == 0 && !input.Valid()
  {
    hide BytesBits, Value, Reach, LittleEndianInputBitStream.Unread;
    var bytes := [1, 0, 0, 0, 0, 0, 0, 0];
    FromBytesBits(bytes);
    SomeValue(bytes);
    assert BytesBits(bytes)[..BIT_BUFFER_SIZE] == BytesBits(bytes);
    input := new LittleEndianInputBitStream(bytes, [], false, x => x);
    ReachOfNone();
    result := input.ReadBits(BIT_BUFFER_SIZE);
  }

  lemma SomeValue(bytes: seq<Byte>)
    requires bytes != [] && bytes[0] > 0
    ensures FromBytes(bytes) > 0
  {
  }

  lemma ReachOfNone()
    ensures Reach(0) == BIT_BUFFER_SIZE
  {
  }

  // ----- Round trip -----

  datatype Item = Item(value: nat, count: nat)

  predicate Encodable(items: seq<Item>) {
    forall i :: 0 <= i < |items| ==> items[i].count <= BIT_BUFFER_SIZE && items[i].value < Pow2(items[i].count)
  }

  /** The number of bits before item `i`. */
  function Offset(items: seq<Item>, i: nat): nat
    requires i <= |items|
  {
    if i == 0 then 0 else Offset(items, i - 1) + items[i - 1].count
  }

  /** Whole bytes reach the end of the item: with what is left of the byte it starts in, it has at most 64 bits. */
  predicate InReach(items: seq<Item>, i: nat)
    requires i < |items|
  {
    Offset(items, i) % 8 + items[i].count <= BIT_BUFFER_SIZE
  }

  /** Reading the item leaves the buffer as it should be. */
  predicate Clears(fullShift: nat -> nat, item: Item) {
    item.count < BIT_BUFFER_SIZE || fullShift(item.value) == 0
  }

  ghost function Encoded(items: seq<Item>): seq<bool> {
    if items == [] then [] else BitsOf(items[0].value, items[0].count) + Encoded(items[1..])
  }

  lemma {:induction false} EncodedMore(items: seq<Item>, item: Item)
    ensures Encoded(items + [item]) == Encoded(items) + BitsOf(item.value, item.count)
  {
    hide Encoded, BitsOf;
    if items == [] {
      assert items + [item] == [item];
      EncodedOne(item);
    } else {
      EncodedMore(items[1..], item);
      ConcatRest(items, [item]);
      EncodedStep(items);
      EncodedStep(items + [item]);
      Associative(BitsOf(items[0].value, items[0].count), Encoded(items[1..]), BitsOf(item.value, item.count));
    }
  }

  lemma EncodedOne(item: Item)
    ensures Encoded([]) == [] && Encoded([item]) == [] + BitsOf(item.value, item.count)
  {
    assert [item][1..] == [];
  }

  lemma EncodedStep(items: seq<Item>)
    requires items != []
    ensures Encoded(items) == BitsOf(items[0].value, items[0].count) + Encoded(items[1..])
  {
  }

  /**
   * What was written, aligned and flushed reads back the same, for every pattern of short reads, up to the
   * first item that is out of reach or comes after 64 bits that the host did not clear.
   */
  method RoundTrip(items: seq<Item>, lengths: seq<nat>, fillWithZero: bool, fullShift: nat -> nat)
    returns (values: seq<nat>, bytes: seq<Byte>)
    requires Encodable(items)
    ensures exists n :: 0 <= n < 8 && BytesBits(bytes) == Encoded(items) + Zeros(n)
    ensures |values| <= |items| && forall i :: 0 <= i < |values| ==> values[i] == items[i].value
    ensures |values| == |items| <==> forall i :: 0 <= i < |items| ==> Reads(items, i, fullShift)
    ensures |values| < |items| ==> !Reads(items, |values|, fullShift)
    ensures (forall i :: 0 <= i < |items| ==> items[i].count <= 57) ==> |values| == |items|
  {
    bytes := WriteAll(items);
    ghost var n :| 0 <= n < 8 && BytesBits(bytes) == Encoded(items) + Zeros(n);
    values := ReadAll(items, bytes, n, lengths, fillWithZero, fullShift);
  }

  /** After the items before it, item `i` can be read. */
  predicate Reads(items: seq<Item>, i: nat, fullShift: nat -> nat)
    requires i < |items|
  {
    InReach(items, i) && (i > 0 ==> Clears(fullShift, items[i - 1]))
  }

  method WriteAll(items: seq<Item>) returns (bytes: seq<Byte>)
    requires Encodable(items)
    ensures exists n :: 0 <= n < 8 && BytesBits(bytes) == Encoded(items) + Zeros(n)
  {
    hide BytesBits, BitsOf, Value, Disturbed, AboveAfter, LeavesClean;
    var output := new LittleEndianOutputBitStream();
    for i := 0 to |items|
      invariant output.Valid() && output.Clean() && fresh(output) && output.Written() == Encoded(items[..i])
    {
      EncodedMore(items[..i], items[i]);
      assert items[..i + 1] == items[..i] + [items[i]];
      FittingLeavesClean(|output.above|, items[i].value, items[i].count);
      output.WriteBits(items[i].value, items[i].count, 64);
    }
    assert items[..|items|] == items;
    ghost var n := Padding(output.bitCount);
    output.AlignToByteBoundary();
    output.FlushBufferToStream();
    Drained(output);
    bytes := output.bytes;
    assert BytesBits(bytes) == Encoded(items) + Zeros(n);
  }

  lemma Drained(output: LittleEndianOutputBitStream)
    requires output.Valid() && |output.Written()| % 8 == 0 && output.bitCount < 8
    ensures output.Written() == BytesBits(output.bytes)
  {
    assert output.pending == [];
  }

  method ReadAll(items: seq<Item>, bytes: seq<Byte>, ghost padding: nat, lengths: seq<nat>, fillWithZero: bool,
                 fullShift: nat -> nat)
    returns (values: seq<nat>)
    requires Encodable(items) && BytesBits(bytes) == Encoded(items) + Zeros(padding)
    ensures |values| <= |items| && forall i :: 0 <= i < |values| ==> values[i] == items[i].value
    ensures forall i :: 0 <= i < |values| ==> Reads(items, i, fullShift)
    ensures |values| < |items| ==> !Reads(items, |values|, fullShift)
  {
    hide BytesBits, BitsOf, Value, Buffers, Reach, InReach, Offset, Encoded, Zeros, Encodable;
    hide LittleEndianInputBitStream.Unread;
    var input := new LittleEndianInputBitStream(bytes, lengths, fillWithZero, fullShift);
    values := [];
    OffsetNone(items);
    for i := 0 to |items|
      invariant fresh(input) && input.fullShift == fullShift && input.Unread() == Encoded(items[i..]) + Zeros(padding)
      invariant input.Valid() <==> i == 0 || Clears(fullShift, items[i - 1])
      invariant |values| == i && (forall j :: 0 <= j < i ==> values[j] == items[j].value && Reads(items, j, fullShift))
      invariant (input.bitCount + Offset(items, i)) % 8 == 0
    {
      if i > 0 && !Clears(fullShift, items[i - 1]) {
        return;
      }
      NextItem(items, i, padding);
      input.AtMostFull();
      ReachAt(input.bitCount, items, i);
      ghost var before := input.bitCount;
      var result := input.ReadBits(items[i].count);
      if result.Spinning? {
        return;
      }
      OffsetMore(items, i, before, input.bitCount);
      values := values + [result.value];
    }
  }

  lemma OffsetNone(items: seq<Item>)
    ensures Offset(items, 0) == 0
  {
  }

  lemma OffsetMore(items: seq<Item>, i: nat, before: nat, bitCount: nat)
    requires i < |items| && (before + Offset(items, i)) % 8 == 0 && (bitCount + items[i].count) % 8 == before % 8
    ensures (bitCount + Offset(items, i + 1)) % 8 == 0
  {
    var a, b := bitCount + items[i].count, Offset(items, i);
    assert a + b == before + b + 8 * (a / 8 - before / 8);
  }

  lemma ReachAt(bitCount: nat, items: seq<Item>, i: nat)
    requires bitCount <= BIT_BUFFER_SIZE && i < |items| && (bitCount + Offset(items, i)) % 8 == 0
    ensures InReach(items, i) <==> items[i].count <= Reach(bitCount)
  {
    hide Offset;
    MissingBits(bitCount);
    RestOfByte(bitCount, Offset(items, i));
  }

  lemma RestOfByte(a: nat, b: nat)
    requires (a + b) % 8 == 0
    ensures b % 8 == if a % 8 == 0 then 0 else 8 - a % 8
  {
    var q := a / 8 + b / 8;
    assert a + b == 8 * q + (a % 8 + b % 8);
  }

  /** The bits of the next item come first. */
  lemma NextItem(items: seq<Item>, i: nat, padding: nat)
    requires Encodable(items) && i < |items|
    ensures var all, count := Encoded(items[i..]) + Zeros(padding), items[i].count;
            && count <= BIT_BUFFER_SIZE && |all| >= count && Value(all[..count]) == items[i].value
            && all[count..] == Encoded(items[i + 1..]) + Zeros(padding)
  {
    hide BitsOf, Value, Encoded;
    var bits, rest := BitsOf(items[i].value, items[i].count), Encoded(items[i + 1..]) + Zeros(padding);
    EncodedStep(items[i..]);
    assert items[i..][1..] == items[i + 1..];
    Associative(bits, Encoded(items[i + 1..]), Zeros(padding));
    assert (bits + rest)[..|bits|] == bits && (bits + rest)[|bits|..] == rest;
    ValueOfBits(items[i].value, items[i].count);
  }
}
