/** Reading and writing bits, most significant first, a byte at a time. */
module BigEndianBitStreams {
  import opened Arithmetic
  import opened Bits
  import opened Common
  import opened Sequences

  // ----- Writing -----

  class BigEndianOutputBitStream {
    /** The bytes the stream beneath has taken. */
    var bytes: seq<Byte>
    var currentByte: nat
    var bitOffset: nat
    ghost var pending: seq<bool>

    ghost predicate Valid()
      reads this
    {
      bitOffset <= 7 && |pending| == bitOffset && currentByte == ValueBE(pending)
    }

    /** Everything written, bit by bit. */
    ghost function Written(): seq<bool>
      reads this
    {
      BytesBitsBE(bytes) + pending
    }

    constructor ()
      ensures Valid() && Written() == [] && bitOffset == 0
    {
      bytes, currentByte, bitOffset, pending := [], 0, 0, [];
    }

    method WriteBit(bit: bool)
      requires Valid()
      modifies this
      ensures Valid() && Written() == old(Written()) + [bit] && bitOffset == (old(bitOffset) + 1) % 8
    {
      hide BytesBitsBE, ValueBE, Or;
      NothingRead();
      NextBit(pending, bit);
      currentByte := 2 * currentByte;
      currentByte := Or(currentByte, Bit(bit));
      bitOffset := bitOffset + 1;
      pending := pending + [bit];
      if bitOffset > 7 {
        WholeByte(bytes, pending);
        bytes := bytes + [currentByte];
        bitOffset, currentByte, pending := 0, 0, [];
      }
    }

    /** write_bits: the low `count` bits of a value of `width` bits. */
    method WriteBits(value: nat, count: nat, ghost width: nat)
      requires Valid() && count <= width <= 64 && value < Pow2(width)
      modifies this
      ensures Valid() && Written() == old(Written()) + BitsOfBE(value, count) &&
              bitOffset == (old(bitOffset) + count) % 8
    {
      hide BytesBitsBE, BitsOfBE, ValueBE;
      var bitCount := count;
      ghost var bits := BitsOfBE(value, count);
      while bitCount > 0
        invariant 0 <= bitCount <= count && Valid() && bitOffset == (old(bitOffset) + (count - bitCount)) % 8
        invariant Written() == old(Written()) + bits[..count - bitCount]
      {
        BitAtBE(value, count, count - bitCount);
        var nextBit := ShiftRight(value, bitCount - 1) % 2 == 1;
        ghost var done := count - bitCount;
        bitCount := bitCount - 1;
        WriteBit(nextBit);
        assert bits[..done] + [bits[done]] == bits[..done + 1];
        Wraps(old(bitOffset) + done);
      }
      assert bits[..count] == bits;
    }

    method AlignToByteBoundary()
      requires Valid()
      modifies this
      ensures Valid() && bitOffset == 0 && Written() == old(Written()) + Zeros((8 - old(bitOffset)) % 8)
    {
      hide BytesBitsBE, BitsOfBE, Pow2;
      if bitOffset != 0 {
        BitsOfZeroBE(8 - bitOffset);
        WriteBits(0, 8 - bitOffset, 32);
      }
    }
  }

  lemma Wraps(a: nat)
    ensures (a % 8 + 1) % 8 == (a + 1) % 8
  {
  }

  lemma NextBit(bits: seq<bool>, bit: bool)
    ensures Or(2 * ValueBE(bits), Bit(bit)) == ValueBE(bits + [bit])
  {
    var v := ValueBE(bits);
    assert (bits + [bit])[..|bits|] == bits;
    OrZero(v);
    assert (2 * v) / 2 == v && (2 * v) % 2 == 0 && Bit(bit) / 2 == 0;
  }

  lemma WholeByte(bytes: seq<Byte>, bits: seq<bool>)
    requires |bits| == 8
    ensures 0 <= ValueBE(bits) < 256 && BytesBitsBE(bytes + [ValueBE(bits)]) == BytesBitsBE(bytes) + bits
  {
    Pow2Of8();
    ValueBoundBE(bits);
    BitsOfValueBE(bits);
    BytesBitsConcatBE(bytes, [ValueBE(bits)]);
    assert BytesBitsBE([ValueBE(bits)]) == bits + BytesBitsBE([]);
  }

  lemma {:induction false} BitsOfZeroBE(n: nat)
    ensures BitsOfBE(0, n) == Zeros(n)
  {
    if n > 0 {
      BitsOfZeroBE(n - 1);
    }
  }

  // ----- Reading -----

  class BigEndianInputBitStream {
    /** What the stream beneath has not given yet. */
    var rest: seq<Byte>
    var currentByte: Option<Byte>
    var bitOffset: nat

    predicate Valid()
      reads this
    {
      bitOffset <= 8 && (currentByte.Some? ==> bitOffset < 8)
    }

    /** The bits still to come. */
    ghost function Unread(): seq<bool>
      requires Valid()
      reads this
    {
      (if currentByte.Some? then BitsOfBE(currentByte.value, 8)[bitOffset..] else []) + BytesBitsBE(rest)
    }

    constructor (bytes: seq<Byte>)
      ensures Valid() && Unread() == BytesBitsBE(bytes)
    {
      rest, currentByte, bitOffset := bytes, None, 0;
    }

    predicate IsAlignedToByteBoundary()
      reads this
    {
      bitOffset % 8 == 0
    }

    method NextByte() returns (ok: bool)
      requires Valid() && currentByte.None?
      modifies this
      ensures Valid() && Unread() == old(Unread()) && (ok <==> old(rest) != []) && (ok <==> currentByte.Some?)
      ensures if ok then |rest| < |old(rest)| else rest == old(rest)
    {
      if rest == [] {
        return false;
      }
      assert BytesBitsBE(rest) == BitsOfBE(rest[0], 8) + BytesBitsBE(rest[1..]);
      currentByte, rest := Some(rest[0]), rest[1..];
      bitOffset := 0;
      return true;
    }

    /** One bit of the current byte. */
    method TakeBit() returns (bit: bool)
      requires Valid() && currentByte.Some?
      modifies this`currentByte, this`bitOffset
      ensures Valid() && |old(Unread())| > 0 && bit == old(Unread())[0] && Unread() == old(Unread())[1..]
    {
      hide BytesBitsBE, BitsOfBE;
      BitAtBE(currentByte.value, 8, bitOffset);
      bit := ShiftRight(currentByte.value, 7 - bitOffset) % 2 == 1;
      ghost var bits := BitsOfBE(currentByte.value, 8);
      assert bits[bitOffset..] == [bits[bitOffset]] + bits[bitOffset + 1..];
      bitOffset := bitOffset + 1;
      if bitOffset == 8 {
        currentByte := None;
      }
    }

    /** All of the current byte, at its start. */
    method TakeByte() returns (byte: Byte)
      requires Valid() && currentByte.Some? && bitOffset == 0
      modifies this`currentByte
      ensures Valid() && |old(Unread())| >= 8 && BitsOfBE(byte, 8) == old(Unread())[..8] &&
              Unread() == old(Unread())[8..]
    {
      hide BytesBitsBE, BitsOfBE;
      byte := currentByte.value;
      currentByte := None;
    }

    /**
     * read_bits: the next bits of the stream, or an error if there are too few. Types of more than
     * eight bits take whole bytes where they can; this makes no difference.
     */
    method ReadBits(count: nat, width: nat) returns (result: Option<nat>)
      requires Valid() && count <= width <= 64
      modifies this
      ensures Valid()
      ensures |old(Unread())| >= count ==>
                result == Some(ValueBE(old(Unread())[..count])) && Unread() == old(Unread())[count..]
      ensures |old(Unread())| < count ==> result == None && Unread() == []
    {
      hide BytesBitsBE, BitsOfBE, ValueBE, Or, Taken, BigEndianInputBitStream.Unread;
      ghost var all := Unread();
      var value, nread := 0, 0;
      TakenNone(all);
      while nread < count
        invariant 0 <= nread <= count && Valid() && Taken(all, nread, Unread(), value)
        decreases count - nread, |rest|
      {
        ghost var before := Unread();
        if currentByte.Some? {
          if width > 8 && count - nread >= 8 && IsAlignedToByteBoundary() {
            var byte := TakeByte();
            TakenByte(all, nread, before, value, byte);
            value := Or(value * 256, byte);
            nread := nread + 8;
          } else {
            var bit := TakeBit();
            TakenBit(all, nread, before, value, bit);
            value := Or(2 * value, Bit(bit));
            nread := nread + 1;
          }
        } else {
          var ok := NextByte();
          if !ok {
            NothingLeft();
            TakenAll(all, nread, before, value);
            return None;
          }
        }
      }
      TakenMeans(all, nread, Unread(), value);
      return Some(value);
    }

    lemma NothingLeft()
      requires Valid() && currentByte.None?
      ensures rest == [] ==> Unread() == []
    {
      NoBytesNoBits(rest);
    }

    /** align_to_byte_boundary: drops the rest of the current byte. */
    method AlignToByteBoundary()
      requires Valid()
      modifies this
      ensures Valid() && Unread() == BytesBitsBE(rest) && rest == old(rest)
    {
      currentByte := None;
      bitOffset := 0;
    }
  }

  /** The first `n` bits of `all` have been taken and are `value`; the others are `unread`. */
  ghost predicate Taken(all: seq<bool>, n: nat, unread: seq<bool>, value: nat) {
    n <= |all| && unread == all[n..] && value == ValueBE(all[..n])
  }

  lemma NothingRead()
    ensures ValueBE([]) == 0
  {
  }

  lemma TakenNone(all: seq<bool>)
    ensures Taken(all, 0, all, 0)
  {
  }

  lemma TakenMeans(all: seq<bool>, n: nat, unread: seq<bool>, value: nat)
    requires Taken(all, n, unread, value)
    ensures n <= |all| && unread == all[n..] && value == ValueBE(all[..n])
  {
  }

  lemma TakenAll(all: seq<bool>, n: nat, unread: seq<bool>, value: nat)
    requires Taken(all, n, unread, value) && unread == []
    ensures |all| == n
  {
  }

  lemma TakenBit(all: seq<bool>, n: nat, unread: seq<bool>, value: nat, bit: bool)
    requires Taken(all, n, unread, value) && |unread| > 0 && bit == unread[0]
    ensures Taken(all, n + 1, unread[1..], Or(2 * value, Bit(bit)))
  {
    hide ValueBE, Or;
    assert all[..n + 1] == all[..n] + [bit];
    NextBit(all[..n], bit);
  }

  lemma TakenByte(all: seq<bool>, n: nat, unread: seq<bool>, value: nat, byte: Byte)
    requires Taken(all, n, unread, value) && |unread| >= 8 && BitsOfBE(byte, 8) == unread[..8]
    ensures Taken(all, n + 8, unread[8..], Or(value * 256, byte))
  {
    hide ValueBE, Or, BitsOfBE;
    AppendByte(all, n, byte);
  }

  lemma NoBytesNoBits(bytes: seq<Byte>)
    ensures bytes == [] ==> BytesBitsBE(bytes) == []
  {
  }

  /** Taking a whole byte is taking its eight bits one after the other. */
  lemma AppendByte(all: seq<bool>, n: nat, byte: Byte)
    requires n + 8 <= |all| && all[n..][..8] == BitsOfBE(byte, 8)
    ensures Or(ValueBE(all[..n]) * 256, byte) == ValueBE(all[..n + 8])
  {
    hide BitsOfBE, ValueBE, Or;
    Pow2Of8();
    var v := ValueBE(all[..n]);
    assert all[..n + 8] == all[..n] + BitsOfBE(byte, 8);
    ValueConcatBE(all[..n], BitsOfBE(byte, 8));
    ValueOfBitsBE(byte, 8);
    Below(byte, 8, 8);
    OrAbove(byte, v, 8);
    OrCommutes(byte, v * 256);
  }

  lemma {:induction false} OrCommutes(a: nat, b: nat)
    ensures Or(a, b) == Or(b, a)
    decreases a + b
  {
    if a != 0 || b != 0 {
      OrCommutes(a / 2, b / 2);
    }
  }

  // ----- Round trip -----

  /**
   * A value of an unsigned type of `width` bits, the number of its bits to write, and the width of the type to
   * read it as.
   */
  datatype Item = Item(value: nat, count: nat, width: nat, readWidth: nat)

  predicate Encodable(items: seq<Item>) {
    forall i :: 0 <= i < |items| ==>
                  items[i].value < Pow2(items[i].width) && items[i].count <= items[i].width <= 64 &&
                    items[i].count <= items[i].readWidth <= 64
  }

  ghost function Encoded(items: seq<Item>): seq<bool> {
    if items == [] then [] else BitsOfBE(items[0].value, items[0].count) + Encoded(items[1..])
  }

  lemma {:induction false} EncodedMore(items: seq<Item>, item: Item)
    ensures Encoded(items + [item]) == Encoded(items) + BitsOfBE(item.value, item.count)
  {
    hide Encoded, BitsOfBE;
    if items == [] {
      assert items + [item] == [item];
      EncodedOne(item);
    } else {
      EncodedMore(items[1..], item);
      ConcatRest(items, [item]);
      EncodedStep(items);
      EncodedStep(items + [item]);
      Associative(BitsOfBE(items[0].value, items[0].count), Encoded(items[1..]), BitsOfBE(item.value, item.count));
    }
  }

  lemma EncodedOne(item: Item)
    ensures Encoded([]) == [] && Encoded([item]) == [] + BitsOfBE(item.value, item.count)
  {
    assert [item][1..] == [];
  }

  lemma EncodedStep(items: seq<Item>)
    requires items != []
    ensures Encoded(items) == BitsOfBE(items[0].value, items[0].count) + Encoded(items[1..])
  {
  }

  /** What was written and aligned reads back the same, whether whole bytes are taken or single bits. */
  method RoundTrip(items: seq<Item>) returns (values: seq<nat>, bytes: seq<Byte>)
    requires Encodable(items)
    ensures |values| == |items| && forall i :: 0 <= i < |items| ==> values[i] == items[i].value % Pow2(items[i].count)
    ensures exists n :: 0 <= n < 8 && BytesBitsBE(bytes) == Encoded(items) + Zeros(n)
  {
    bytes := WriteAll(items);
    ghost var n :| 0 <= n < 8 && BytesBitsBE(bytes) == Encoded(items) + Zeros(n);
    values := ReadAll(items, bytes, n);
  }

  method WriteAll(items: seq<Item>) returns (bytes: seq<Byte>)
    requires Encodable(items)
    ensures exists n :: 0 <= n < 8 && BytesBitsBE(bytes) == Encoded(items) + Zeros(n)
  {
    hide BytesBitsBE, BitsOfBE, ValueBE;
    var output := new BigEndianOutputBitStream();
    for i := 0 to |items|
      invariant output.Valid() && fresh(output) && output.Written() == Encoded(items[..i])
    {
      EncodedMore(items[..i], items[i]);
      assert items[..i + 1] == items[..i] + [items[i]];
      output.WriteBits(items[i].value, items[i].count, items[i].width);
    }
    assert items[..|items|] == items;
    ghost var n := (8 - output.bitOffset) % 8;
    output.AlignToByteBoundary();
    bytes := output.bytes;
    assert BytesBitsBE(bytes) == output.Written() == Encoded(items) + Zeros(n);
  }

  method ReadAll(items: seq<Item>, bytes: seq<Byte>, ghost padding: nat) returns (values: seq<nat>)
    requires Encodable(items) && BytesBitsBE(bytes) == Encoded(items) + Zeros(padding)
    ensures |values| == |items| && forall i :: 0 <= i < |items| ==> values[i] == items[i].value % Pow2(items[i].count)
  {
    hide BytesBitsBE, BitsOfBE, ValueBE;
    var input := new BigEndianInputBitStream(bytes);
    values := [];
    for i := 0 to |items|
      invariant input.Valid() && fresh(input) && input.Unread() == Encoded(items[i..]) + Zeros(padding)
      invariant |values| == i && forall j :: 0 <= j < i ==> values[j] == items[j].value % Pow2(items[j].count)
    {
      ghost var bits, rest := BitsOfBE(items[i].value, items[i].count), Encoded(items[i + 1..]) + Zeros(padding);
      assert items[i..][1..] == items[i + 1..];
      assert Encoded(items[i..]) + Zeros(padding) == bits + rest;
      assert (bits + rest)[..|bits|] == bits && (bits + rest)[|bits|..] == rest;
      ValueOfBitsBE(items[i].value, items[i].count);
      var result := input.ReadBits(items[i].count, items[i].readWidth);
      values := values + [result.value];
    }
  }
}
