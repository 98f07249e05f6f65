/** Searching and counting in a bitmap by whole words. */
module Bitmaps {
  import opened Arithmetic
  import opened Bits
  import opened Common
  import opened Sequences

  /** 8 * sizeof(size_t) */
  const BIT_SIZE: nat := 64

  // ----- The naive search -----

  /** `n` unset bits from `s` on. */
  predicate Fits(bits: seq<bool>, s: nat, n: nat) {
    s + n <= |bits| && forall i :: s <= i < s + n ==> !bits[i]
  }

  /** No place from `e` on and before `s` has room for `n` bits. */
  ghost predicate NoneBetween(bits: seq<bool>, e: nat, s: int, n: nat) {
    forall r: nat :: e <= r < s ==> !Fits(bits, r, n)
  }

  ghost predicate NoneFrom(bits: seq<bool>, e: nat, n: nat) {
    forall r: nat :: e <= r ==> !Fits(bits, r, n)
  }

  /** Position `p` is the end of a run of `free` unset bits, and from `e` on no run before that is long enough. */
  ghost predicate Scanned(bits: seq<bool>, e: nat, p: nat, free: nat, n: nat) {
    e <= p - free <= p <= |bits| && Fits(bits, p - free, free) && NoneBetween(bits, e, p - free, n)
  }

  lemma ScannedNothing(bits: seq<bool>, e: nat, n: nat)
    requires e <= |bits|
    ensures Scanned(bits, e, e, 0, n)
  {
  }

  lemma ScannedUnset(bits: seq<bool>, e: nat, p: nat, free: nat, n: nat, k: nat)
    requires Scanned(bits, e, p, free, n) && Fits(bits, p, k)
    ensures Scanned(bits, e, p + k, free + k, n)
  {
  }

  lemma ScannedSet(bits: seq<bool>, e: nat, p: nat, free: nat, n: nat, k: nat)
    requires Scanned(bits, e, p, free, n) && free < n && 0 < k && p + k <= |bits| && forall i :: p <= i < p + k ==>
               bits[i]
    ensures Scanned(bits, e, p + k, 0, n)
  {
    forall r: nat | e <= r < p + k
      ensures !Fits(bits, r, n)
    {
      if r < p && r >= p - free {
        assert r <= p < r + n && bits[p];
      } else if r >= p {
        assert bits[r];
      }
    }
  }

  lemma ScannedAll(bits: seq<bool>, e: nat, free: nat, n: nat)
    requires Scanned(bits, e, |bits|, free, n) && free < n
    ensures NoneFrom(bits, e, n)
  {
  }

  // ----- Words -----

  lemma BytesBitsSlice(bytes: seq<Byte>, i: nat, j: nat)
    requires i <= j <= |bytes|
    ensures BytesBits(bytes[i..j]) == BytesBits(bytes)[8 * i..8 * j]
  {
    hide BytesBits;
    var a, b, c := bytes[..i], bytes[i..j], bytes[j..];
    ThreeParts(bytes, i, j);
    BytesBitsConcat(a, b + c);
    BytesBitsConcat(b, c);
    Middle(BytesBits(a), BytesBits(b), BytesBits(c));
    assert |BytesBits(a)| == 8 * i && |BytesBits(b)| == 8 * j - 8 * i;
  }

  lemma ThreeParts<T>(s: seq<T>, i: nat, j: nat)
    requires i <= j <= |s|
    ensures s == s[..i] + (s[i..j] + s[j..])
  {
  }

  lemma Middle<T>(a: seq<T>, b: seq<T>, c: seq<T>)
    ensures (a + (b + c))[|a|..|a| + |b|] == b
  {
  }

  function CountTrailingZeroes(v: nat): nat
    requires v > 0
  {
    if v % 2 == 1 then 0 else 1 + CountTrailingZeroes(v / 2)
  }

  /** ~v for a word */
  function Not(v: nat): int {
    Pow2(BIT_SIZE) - 1 - v
  }

  lemma {:induction false} TrailingZeroes(bits: seq<bool>)
    requires Value(bits) > 0
    ensures var k := CountTrailingZeroes(Value(bits)); k < |bits| && bits[k] && forall i :: 0 <= i < k ==> !bits[i]
  {
    if !bits[0] {
      assert Value(bits) == 2 * Value(bits[1..]);
      TrailingZeroes(bits[1..]);
      var k := CountTrailingZeroes(Value(bits[1..]));
      assert CountTrailingZeroes(Value(bits)) == 1 + k;
      forall i | 0 <= i < 1 + k
        ensures !bits[i]
      {
        if i > 0 {
          assert bits[i] == bits[1..][i - 1];
        }
      }
    }
  }

  function Inverted(bits: seq<bool>): (r: seq<bool>)
    ensures |r| == |bits|
  {
    seq(|bits|, i requires 0 <= i < |bits| => !bits[i])
  }

  lemma {:induction false} ValueInverted(bits: seq<bool>)
    ensures Value(Inverted(bits)) == Pow2(|bits|) - 1 - Value(bits)
  {
    if bits != [] {
      ValueInverted(bits[1..]);
      assert Inverted(bits)[1..] == Inverted(bits[1..]);
    }
  }

  /** The number of set bits at the low end of a word whose high bits were shifted in as zeros. */
  lemma TrailingOnes(bits: seq<bool>)
    requires |bits| < BIT_SIZE || (|bits| == BIT_SIZE && exists i :: 0 <= i < |bits| && !bits[i])
    ensures Not(Value(bits)) > 0
    ensures var k := CountTrailingZeroes(Not(Value(bits)));
            k <= |bits| && (forall i :: 0 <= i < k ==> bits[i]) && (k < |bits| ==> !bits[k])
  {
    hide Value, CountTrailingZeroes, Pow2;
    var word := bits + Zeros(BIT_SIZE - |bits|);
    var j := |bits|;
    if |bits| == BIT_SIZE {
      j :| 0 <= j < |bits| && !bits[j];
    }
    assert !word[j];
    var inverted := Inverted(word);
    ValueConcat(bits, Zeros(BIT_SIZE - |bits|));
    ValueZeros(Zeros(BIT_SIZE - |bits|));
    ValueInverted(word);
    assert Value(inverted) == Not(Value(bits));
    assert inverted[j];
    SomeSet(inverted, j);
    TrailingZeroes(inverted);
    var k := CountTrailingZeroes(Value(inverted));
    assert |bits| < BIT_SIZE ==> inverted[|bits|];
    assert forall i :: 0 <= i < k ==> word[i] == !inverted[i];
    assert forall i :: 0 <= i < |bits| ==> word[i] == bits[i];
  }

  lemma {:induction false} SomeSet(bits: seq<bool>, j: nat)
    requires j < |bits| && bits[j]
    ensures Value(bits) > 0
  {
    if j > 0 {
      SomeSet(bits[1..], j - 1);
    }
  }

  lemma {:induction false} ZeroMeansUnset(bits: seq<bool>)
    requires Value(bits) == 0
    ensures forall i :: 0 <= i < |bits| ==> !bits[i]
  {
    forall i | 0 <= i < |bits|
      ensures !bits[i]
    {
      if bits[i] {
        SomeSet(bits, i);
      }
    }
  }

  lemma MaxMeansSet(bits: seq<bool>)
    ensures Value(bits) == Pow2(|bits|) - 1 <==> forall i :: 0 <= i < |bits| ==> bits[i]
  {
    var inverted := Inverted(bits);
    ValueInverted(bits);
    if Value(inverted) == 0 {
      ZeroMeansUnset(inverted);
      assert forall i :: 0 <= i < |bits| ==> !inverted[i] == bits[i];
    } else {
      TrailingZeroes(inverted);
      var k := CountTrailingZeroes(Value(inverted));
      assert !bits[k];
    }
  }

  // ----- The view -----

  datatype BitmapView = BitmapView(data: seq<Byte>, size: nat) {
    predicate Valid() {
      size <= 8 * |data|
    }

    /** The bits in order. */
    ghost function Bits(): (r: seq<bool>)
      requires Valid()
      ensures |r| == size
    {
      BytesBits(data)[..size]
    }

    /** The word at a bucket index, on a little-endian host. */
    function Bucket(index: nat): nat
      requires Valid() && BIT_SIZE * (index + 1) <= size
    {
      FromBytes(data[8 * index..8 * (index + 1)])
    }

    lemma BucketBits(index: nat)
      requires Valid() && BIT_SIZE * (index + 1) <= size
      ensures Bucket(index) == Value(Bits()[BIT_SIZE * index..BIT_SIZE * (index + 1)])
    {
      hide BytesBits, FromBytes, Value;
      FromBytesBits(data[8 * index..8 * (index + 1)]);
      BytesBitsSlice(data, 8 * index, 8 * (index + 1));
      SliceOfSlice(BytesBits(data), 0, size, BIT_SIZE * index, BIT_SIZE * (index + 1));
      assert BytesBits(data)[0..size] == Bits();
    }

    function Get(index: nat): (r: bool)
      requires Valid() && index < size
      ensures r == Bits()[index]
    {
      GetBit(index);
      And(data[index / 8], Pow2(index % 8)) != 0
    }

    lemma GetBit(index: nat)
      requires Valid() && index < size
      ensures Bits()[index] <==> And(data[index / 8], Pow2(index % 8)) != 0
    {
      hide BytesBits, And, BitsOf;
      BytesBitsSlice(data, index / 8, index / 8 + 1);
      OneByte(data[index / 8]);
      assert data[index / 8..index / 8 + 1] == [data[index / 8]];
      assert BytesBits(data)[8 * (index / 8)..8 * (index / 8 + 1)][index % 8] == BytesBits(data)[index];
      ByteBit(data[index / 8], index % 8);
    }

    /** Goes through a word that is neither full nor empty, run by run. Stops at a run that is long enough. */
    method ScanBucket(index: nat, startBit: nat, start0: nat, free0: nat, minimum: nat, ghost e: nat)
      returns (found: bool, start: nat, free: nat, ghost p: nat)
      requires Valid() && startBit < BIT_SIZE && BIT_SIZE * (index + 1) <= size
      requires Scanned(Bits(), e, BIT_SIZE * index + startBit, free0, minimum)
      requires free0 > 0 || minimum == 0 ==> start0 == BIT_SIZE * index + startBit - free0
      requires Bucket(index) != Pow2(BIT_SIZE) - 1
      ensures Scanned(Bits(), e, p, free, minimum) && (free > 0 || minimum == 0 ==> start == p - free)
      ensures found ==> free >= minimum && p < BIT_SIZE * (index + 1) && Bits()[p]
      ensures !found ==> p == BIT_SIZE * (index + 1)
    {
      hide Scanned, Value, CountTrailingZeroes, BitmapView.Bits, Not, ShiftRight, Pow2;
      ghost var bits, end := Bits(), BIT_SIZE * (index + 1);
      BucketNotFull(index);
      var bucket, viewedBits := ShiftRight(Bucket(index), startBit), startBit;
      start, free, p := start0, free0, BIT_SIZE * index + startBit;
      ViewingFrom(bits, BIT_SIZE * index, end, Bucket(index), startBit);
      while viewedBits < BIT_SIZE
        invariant 0 <= viewedBits <= BIT_SIZE && p == BIT_SIZE * index + viewedBits && Viewing(bits, p, end, bucket)
        invariant Scanned(bits, e, p, free, minimum) && (free > 0 || minimum == 0 ==> start == p - free)
        decreases BIT_SIZE - viewedBits
      {
        if bucket == 0 {
          SkipRest(bits, e, p, end, free, minimum);
          if free == 0 {
            start := index * BIT_SIZE + viewedBits;
          }
          free := free + (BIT_SIZE - viewedBits);
          p, viewedBits := end, BIT_SIZE;
          bucket := 0;
          NothingViewed(bits, end);
        } else {
          SkipZeroes(bits, e, p, end, bucket, free, minimum);
          var trailingZeroes := CountTrailingZeroes(bucket);
          bucket := ShiftRight(bucket, trailingZeroes);
          if free == 0 {
            start := index * BIT_SIZE + viewedBits;
          }
          free := free + trailingZeroes;
          viewedBits := viewedBits + trailingZeroes;
          p := p + trailingZeroes;
          if free >= minimum {
            return true, start, free, p;
          }
          SkipOnes(bits, e, p, end, bucket, free, minimum);
          var trailingOnes := CountTrailingZeroes(Not(bucket));
          bucket := ShiftRight(bucket, trailingOnes);
          viewedBits := viewedBits + trailingOnes;
          p := p + trailingOnes;
          free := 0;
        }
      }
      found := false;
    }

    lemma BucketNotFull(index: nat)
      requires Valid() && BIT_SIZE * (index + 1) <= size && Bucket(index) != Pow2(BIT_SIZE) - 1
      ensures Viewing(Bits(), BIT_SIZE * index, BIT_SIZE * (index + 1), Bucket(index))
      ensures exists i :: BIT_SIZE * index <= i < BIT_SIZE * (index + 1) && !Bits()[i]
    {
      hide Value, Pow2, BitmapView.Bits, Bucket;
      BucketBits(index);
      var word := Bits()[BIT_SIZE * index..BIT_SIZE * (index + 1)];
      MaxMeansSet(word);
      var i :| 0 <= i < |word| && !word[i];
      assert !Bits()[BIT_SIZE * index + i];
    }

    lemma BucketFull(index: nat)
      requires Valid() && BIT_SIZE * (index + 1) <= size && Bucket(index) == Pow2(BIT_SIZE) - 1
      ensures forall i :: BIT_SIZE * index <= i < BIT_SIZE * (index + 1) ==> Bits()[i]
    {
      hide Value, Pow2, BitmapView.Bits, Bucket;
      BucketBits(index);
      var word := Bits()[BIT_SIZE * index..BIT_SIZE * (index + 1)];
      MaxMeansSet(word);
      assert forall i :: BIT_SIZE * index <= i < BIT_SIZE * (index + 1) ==> Bits()[i] == word[i - BIT_SIZE * index];
    }

    /**
     * Where a search that is to start at `from` starts. In the middle of an empty word it is the start of
     * that word, and after the last whole word it is the end of that.
     */
    function SearchStart(from: nat): nat
      requires Valid()
    {
      if from / BIT_SIZE >= size / BIT_SIZE then BIT_SIZE * (size / BIT_SIZE)
      else if Bucket(from / BIT_SIZE) == 0 then BIT_SIZE * (from / BIT_SIZE)
      else from
    }

    /** The range is as long as asked for at most, or ends before a set bit or where the whole words do. */
    ghost predicate AsLong(start: nat, length: nat, maximum: nat)
      requires Valid()
    {
      || length == maximum || start + length == BIT_SIZE * (size / BIT_SIZE)
      || (start + length < size && Bits()[start + length])
    }

    lemma CutRun(p: nat, free: nat, minimum: nat, maximum: nat)
      requires Valid() && minimum <= maximum <= free <= p <= BIT_SIZE * (size / BIT_SIZE)
      ensures AsLong(p - free, maximum, maximum) && p - free + minimum <= BIT_SIZE * (size / BIT_SIZE)
    {
    }

    lemma EndedRun(p: nat, free: nat, minimum: nat, maximum: nat)
      requires Valid() && minimum <= free <= p <= BIT_SIZE * (size / BIT_SIZE)
      requires p == BIT_SIZE * (size / BIT_SIZE) || Bits()[p]
      ensures AsLong(p - free, Min(free, maximum), maximum) && p - free + minimum <= BIT_SIZE * (size / BIT_SIZE)
    {
    }

    /**
     * find_next_range_of_unset_bits: the first range of unset bits, from where the search starts, that is
     * long enough. Nothing at all is found anywhere.
     */
    method FindNextRangeOfUnsetBits(from: nat, minimum: nat, maximum: nat) returns (start: nat, length: Option<nat>)
      requires Valid()
      ensures minimum > 0 ==> (length.Some? <==> minimum <= maximum && !NoneFrom(Bits(), SearchStart(from), minimum))
      ensures minimum > 0 && length.Some? ==> Found(Bits(), SearchStart(from), start, length.value, minimum, maximum)
      ensures minimum > 0 && length.Some? ==> (start < from <==> !NoneBetween(Bits(), SearchStart(from), from, minimum))
      ensures minimum > 0 && length.Some? ==>
                if start + minimum <= BIT_SIZE * (size / BIT_SIZE) then AsLong(start, length.value, maximum)
                else length.value == minimum
      ensures minimum == 0 ==> length.Some? && length.value <= maximum
      ensures minimum == 0 && from < BIT_SIZE * (size / BIT_SIZE) ==>
                start == SearchStart(from) && Fits(Bits(), start, length.value) && AsLong(start, length.value, maximum)
      ensures minimum == 0 && from >= BIT_SIZE * (size / BIT_SIZE) ==> start == from && length.value == 0
    {
      hide Scanned, Value, Found, Fits, BitmapView.Bits, Pow2, NoneFrom, NoneBetween;
      start := from;
      if minimum > maximum {
        return start, None;
      }
      ghost var bits, e := Bits(), SearchStart(from);
      var startBucketIndex, startBucketBit := from / BIT_SIZE, from % BIT_SIZE;
      var free: nat := 0;
      if startBucketIndex >= size / BIT_SIZE {
        ScannedNothing(bits, e, minimum);
      } else {
        var found;
        found, start, free, length := ScanWords(from, minimum, maximum);
        if found {
          FoundMeans(bits, e, start, length.value, minimum, maximum);
          FoundBefore(bits, e, start, length.value, minimum, maximum, from);
          return;
        }
      }
      if free < minimum {
        start, length := ScanTrailingBits(start, free, minimum, maximum, e);
        if length.Some? {
          FoundBefore(bits, e, start, length.value, minimum, maximum, from);
        }
        return;
      }
      if startBucketIndex < size / BIT_SIZE {
        FoundRun(bits, e, BIT_SIZE * (size / BIT_SIZE), free, minimum, maximum);
        EndedRun(BIT_SIZE * (size / BIT_SIZE), free, minimum, maximum);
        FoundMeans(bits, e, start, Min(free, maximum), minimum, maximum);
        FoundBefore(bits, e, start, Min(free, maximum), minimum, maximum, from);
      }
      return start, Some(Min(free, maximum));
    }

    /** The words from the one that holds `from` on. */
    method ScanWords(from: nat, minimum: nat, maximum: nat)
      returns (found: bool, start: nat, free: nat, length: Option<nat>)
      requires Valid() && from / BIT_SIZE < size / BIT_SIZE && minimum <= maximum
      ensures found ==> length.Some? && Found(Bits(), SearchStart(from), start, length.value, minimum, maximum)
      ensures found ==> AsLong(start, length.value, maximum) && start + minimum <= BIT_SIZE * (size / BIT_SIZE)
      ensures !found ==> Scanned(Bits(), SearchStart(from), BIT_SIZE * (size / BIT_SIZE), free, minimum)
      ensures !found && (free > 0 || minimum == 0) ==> start == BIT_SIZE * (size / BIT_SIZE) - free
    {
      hide Scanned, Value, Found, Fits, BitmapView.Bits, Pow2, NoneFrom, BitmapView.AsLong, BitmapView.Bucket;
      hide FromBytes, Viewing;
      ghost var bits, e := Bits(), SearchStart(from);
      var index: nat, startBit: nat := from / BIT_SIZE, from % BIT_SIZE;
      start, free := from, 0;
      ghost var p := e;
      ScannedNothing(bits, e, minimum);
      while index < size / BIT_SIZE
        invariant index <= size / BIT_SIZE && startBit < BIT_SIZE &&
                  (index == size / BIT_SIZE ==> startBit == 0 && p == BIT_SIZE * index)
        invariant index < size / BIT_SIZE ==> p == BIT_SIZE * index + if Bucket(index) == 0 then 0 else startBit
        invariant startBit > 0 ==> free == 0
        invariant Scanned(bits, e, p, free, minimum)
        invariant (free > 0 || minimum == 0) && p == BIT_SIZE * index + startBit ==> start == p - free
      {
        if Bucket(index) == Pow2(BIT_SIZE) - 1 {
          FullIsNotEmpty();
          BucketFull(index);
          if free >= minimum {
            FoundRun(bits, e, p, free, minimum, maximum);
            EndedRun(p, free, minimum, maximum);
            return true, start, free, Some(Min(free, maximum));
          }
          ScannedSet(bits, e, p, free, minimum, BIT_SIZE - startBit);
          free, startBit := 0, 0;
        } else {
          BucketNotFull(index);
          if Bucket(index) == 0 {
            SkipRest(bits, e, p, BIT_SIZE * (index + 1), free, minimum);
            if free == 0 {
              start := index * BIT_SIZE;
            }
            free, startBit := free + BIT_SIZE, 0;
            if free >= maximum {
              FoundRun(bits, e, BIT_SIZE * (index + 1), free, minimum, maximum);
              CutRun(BIT_SIZE * (index + 1), free, minimum, maximum);
              return true, start, free, Some(maximum);
            }
          } else {
            found, start, free, p := ScanBucket(index, startBit, start, free, minimum, e);
            if found {
              FoundRun(bits, e, p, free, minimum, maximum);
              EndedRun(p, free, minimum, maximum);
              return true, start, free, Some(Min(free, maximum));
            }
            startBit := 0;
          }
        }
        index := index + 1;
        p := BIT_SIZE * index;
      }
      return false, start, free, None;
    }

    /** The bits after the last whole word, one by one. */
    method ScanTrailingBits(start0: nat, free0: nat, minimum: nat, maximum: nat, ghost e: nat)
      returns (start: nat, length: Option<nat>)
      requires Valid() && Scanned(Bits(), e, BIT_SIZE * (size / BIT_SIZE), free0, minimum) && free0 < minimum <= maximum
      requires free0 > 0 ==> start0 == BIT_SIZE * (size / BIT_SIZE) - free0
      ensures length.Some? <==> !NoneFrom(Bits(), e, minimum)
      ensures length.Some? ==> Found(Bits(), e, start, length.value, minimum, maximum)
      ensures length.Some? ==> length.value == minimum && start + minimum > BIT_SIZE * (size / BIT_SIZE)
    {
      hide Scanned, Found, BitmapView.Bits, NoneFrom;
      ghost var bits := Bits();
      var firstTrailingBit, trailingBits := (size / BIT_SIZE) * BIT_SIZE, size % BIT_SIZE;
      var free: nat := free0;
      start := start0;
      for i := 0 to trailingBits
        invariant Scanned(bits, e, firstTrailingBit + i, free, minimum) && free < minimum
        invariant free > 0 ==> start == firstTrailingBit + i - free
      {
        if !Get(firstTrailingBit + i) {
          ScannedUnset(bits, e, firstTrailingBit + i, free, minimum, 1);
          if free == 0 {
            start := firstTrailingBit + i;
          }
          free := free + 1;
          if free >= minimum {
            FoundRun(bits, e, firstTrailingBit + i + 1, free, minimum, maximum);
            return start, Some(Min(free, maximum));
          }
        } else {
          ScannedSet(bits, e, firstTrailingBit + i, free, minimum, 1);
          free := 0;
        }
      }
      ScannedAll(bits, e, free, minimum);
      return start, None;
    }

    /** find_first_fit: the first place with this many unset bits. */
    method FindFirstFit(minimum: nat) returns (result: Option<nat>)
      requires Valid()
      ensures result.None? <==> NoneFrom(Bits(), 0, minimum)
      ensures result.Some? ==> Fits(Bits(), result.value, minimum) && NoneBetween(Bits(), 0, result.value, minimum)
      ensures result.Some? && minimum > 0 && result.value > 0 ==> Bits()[result.value - 1]
    {
      hide BitmapView.Bits;
      var start, length := FindNextRangeOfUnsetBits(0, minimum, minimum);
      assert minimum == 0 ==> Fits(Bits(), 0, 0);
      assert length.Some? && start > 0 ==> !Fits(Bits(), start - 1, minimum);
      return if length.Some? then Some(start) else None;
    }

    /** A search from the middle of an empty word may find bits before its start. */
    static method FindsEarlierExample() returns (start: nat)
      ensures start < 10
    {
      var view := BitmapView(seq(8, _ => 0), 64);
      EmptyBucket(view.data);
      var length;
      start, length := view.FindNextRangeOfUnsetBits(10, 1, 1);
    }

    // ----- Counting -----

    function SizeInBytes(): nat {
      (size + 7) / 8
    }

    /** The set bits among these bytes of the data. */
    ghost function SetBits(i: nat, j: nat): nat
      requires i <= j <= 8 * |data|
    {
      CountSet(BytesBits(data)[i..j])
    }

    lemma SetBitsSplit(i: nat, j: nat, k: nat)
      requires i <= j <= k <= 8 * |data|
      ensures SetBits(i, k) == SetBits(i, j) + SetBits(j, k)
    {
      hide BytesBits, CountSet;
      var bits := BytesBits(data);
      JoinSlices(bits, i, j, k);
      CountSetConcat(bits[i..j], bits[j..k]);
    }

    /** The set bits of a byte from bit `i` to bit `j` of it. */
    lemma SetBitsOfByte(index: nat, i: nat, j: nat)
      requires index < |data| && i <= j <= 8
      ensures SetBits(8 * index + i, 8 * index + j) == CountSet(BitsOf(data[index], 8)[i..j])
    {
      hide BytesBits, CountSet, BitsOf;
      BytesBitsSlice(data, index, index + 1);
      assert data[index..index + 1] == [data[index]];
      OneByte(data[index]);
      SliceOfSlice(BytesBits(data), 8 * index, 8 * (index + 1), i, j);
    }

    lemma SetBitsOfWord(index: nat)
      requires index + 8 <= |data|
      ensures SetBits(8 * index, 8 * (index + 8)) == Popcount(FromBytes(data[index..index + 8]))
    {
      hide BytesBits, CountSet, FromBytes, Value, Popcount;
      BytesBitsSlice(data, index, index + 8);
      FromBytesBits(data[index..index + 8]);
      PopcountIsCount(BytesBits(data[index..index + 8]));
    }

    /** Counts byte by byte. */
    method CountBytes(from: nat, to: nat) returns (count: nat)
      requires from <= to <= |data|
      ensures count == SetBits(8 * from, 8 * to)
    {
      hide BytesBits, CountSet, BitsOf, Popcount, BitmapView.SetBits;
      count := 0;
      NoSetBits(from);
      for i := from to to
        invariant count == SetBits(8 * from, 8 * i)
      {
        SetBitsSplit(8 * from, 8 * i, 8 * (i + 1));
        SetBitsOfByte(i, 0, 8);
        WholeByteCount(data[i]);
        count := count + Popcount(data[i]);
      }
    }

    /** Counts word by word. */
    method CountWords(from: nat, to: nat) returns (count: nat, end: nat)
      requires from <= |data| && to <= |data| && (from < to ==> (to - from) % 8 == 0)
      ensures end == (if from < to then to else from) && count == SetBits(8 * from, 8 * end)
    {
      hide BytesBits, CountSet, Popcount, FromBytes, BitmapView.SetBits;
      count, end := 0, from;
      NoSetBits(from);
      while end < to
        invariant from <= end && (end < to ==> (to - end) % 8 == 0) && end <= (if from < to then to else from)
        invariant count == SetBits(8 * from, 8 * end)
      {
        SetBitsSplit(8 * from, 8 * end, 8 * (end + 8));
        SetBitsOfWord(end);
        count := count + Popcount(FromBytes(data[end..end + 8]));
        end := end + 8;
      }
    }

    lemma NoSetBits(i: nat)
      requires i <= |data|
      ensures SetBits(8 * i, 8 * i) == 0
    {
    }

    /** The whole bytes in the middle: bytes up to an aligned address, then words, then bytes again. */
    method CountMiddle(address: nat, from: nat, last: nat) returns (count: nat)
      requires from < last <= |data|
      ensures count == SetBits(8 * from, 8 * last)
    {
      hide BytesBits, CountSet, BitmapView.SetBits;
      var large := AlignUp(address + from) - address;
      if large > last {
        large := last;
      }
      var head := CountBytes(from, large);
      var lastLarge := AlignDown(address + last) - address;
      var words, end := CountWords(large, if lastLarge < 0 then 0 else lastLarge);
      var tail := CountBytes(end, last);
      SetBitsSplit(8 * from, 8 * large, 8 * end);
      SetBitsSplit(8 * from, 8 * end, 8 * last);
      return head + words + tail;
    }

    /** count_in_range: the data starts at some address, which decides where the words are. */
    method CountInRange(address: nat, start: nat, len: nat, value: bool) returns (count: nat)
      requires Valid() && start < size && start + len <= size
      ensures count == CountSet(if value then Bits()[start..start + len] else Inverted(Bits()[start..start + len]))
    {
      assert Bits()[start..start + len] == BytesBits(data)[start..start + len];
      CountInverted(Bits()[start..start + len]);
      hide BytesBits, CountSet, BitsOf, Popcount, And;
      if len == 0 {
        NothingSet();
        return 0;
      }
      count := CountSetInRange(address, start, len);
      if !value {
        count := len - count;
      }
    }

    method CountSetInRange(address: nat, start: nat, len: nat) returns (count: nat)
      requires Valid() && 0 < len && start + len <= size
      ensures count == SetBits(start, start + len)
    {
      hide BytesBits, CountSet, BitsOf, Popcount, And, BitmapView.SetBits;
      var first, last := start / 8, (start + len) / 8;
      var byte := And(data[first], FirstByteMask(start % 8));
      if first == last {
        byte := And(byte, LastByteMask((start + len) % 8));
        BothMasks(data[first], start % 8, (start + len) % 8);
        SetBitsOfByte(first, start % 8, (start + len) % 8);
        count := Popcount(byte);
      } else {
        FirstMask(data[first], start % 8);
        SetBitsOfByte(first, start % 8, 8);
        count := Popcount(byte);
        SetBitsSplit(start, 8 * (first + 1), start + len);
        SetBitsSplit(8 * (first + 1), 8 * last, start + len);
        if last < SizeInBytes() {
          byte := And(data[last], LastByteMask((start + len) % 8));
          LastMask(data[last], (start + len) % 8);
          SetBitsOfByte(last, 0, (start + len) % 8);
          count := count + Popcount(byte);
        } else {
          NoSetBits(last);
        }
        first := first + 1;
        if first < last {
          var middle := CountMiddle(address, first, last);
          count := count + middle;
        } else {
          NoSetBits(last);
        }
      }
    }
  }

  lemma FullIsNotEmpty()
    ensures Pow2(BIT_SIZE) - 1 != 0
  {
  }

  lemma EmptyBucket(data: seq<Byte>)
    requires |data| == 8 && forall i :: 0 <= i < 8 ==> data[i] == 0
    ensures FromBytes(data[0..8]) == 0 && Fits(BytesBits(data)[..64], 0, 1)
  {
    var bits := BytesBits(data);
    assert data[0..8] == data;
    ZeroBytes(data);
    FromBytesBits(data);
    ZeroMeansUnset(bits);
  }

  lemma {:induction false} ZeroBytes(data: seq<Byte>)
    requires forall i :: 0 <= i < |data| ==> data[i] == 0
    ensures FromBytes(data) == 0
  {
    if data != [] {
      ZeroBytes(data[1..]);
    }
  }

  /** The word `v` holds the bits from `p` to `end`; those before were looked at. */
  ghost predicate Viewing(bits: seq<bool>, p: nat, end: nat, v: nat) {
    p <= end <= |bits| && end - p <= BIT_SIZE && v == Value(bits[p..end])
  }

  /** Skipping the unset bits at the low end. */
  lemma SkipZeroes(bits: seq<bool>, e: nat, p: nat, end: nat, v: nat, free: nat, n: nat)
    requires Viewing(bits, p, end, v) && Scanned(bits, e, p, free, n) && v > 0
    ensures var k := CountTrailingZeroes(v);
            && p + k < end && bits[p + k] && Viewing(bits, p + k, end, ShiftRight(v, k)) &&
               Scanned(bits, e, p + k, free + k, n)
  {
    var word, k := bits[p..end], CountTrailingZeroes(v);
    TrailingZeroes(word);
    ValueSplit(word, k);
    assert word[k..] == bits[p + k..end];
    hide Scanned, Value, CountTrailingZeroes;
    assert forall i :: p <= i < p + k ==> bits[i] == word[i - p];
    ScannedUnset(bits, e, p, free, n, k);
  }

  /** Skipping the set bits after them. */
  lemma SkipOnes(bits: seq<bool>, e: nat, p: nat, end: nat, v: nat, free: nat, n: nat)
    requires Viewing(bits, p, end, v) && Scanned(bits, e, p, free, n) && free < n && p < end && bits[p]
    requires end - p < BIT_SIZE || exists i :: p <= i < end && !bits[i]
    ensures Not(v) > 0
    ensures var k := CountTrailingZeroes(Not(v));
            0 < k <= end - p && Viewing(bits, p + k, end, ShiftRight(v, k)) && Scanned(bits, e, p + k, 0, n)
  {
    hide Scanned, Value, CountTrailingZeroes;
    var word := bits[p..end];
    if end - p == BIT_SIZE {
      var i :| p <= i < end && !bits[i];
      assert !word[i - p];
    }
    TrailingOnes(word);
    var k := CountTrailingZeroes(Not(v));
    assert word[0];
    ValueSplit(word, k);
    assert word[k..] == bits[p + k..end];
    assert forall i :: p <= i < p + k ==> bits[i] == word[i - p];
    ScannedSet(bits, e, p, free, n, k);
  }

  lemma ViewingFrom(bits: seq<bool>, p: nat, end: nat, v: nat, k: nat)
    requires Viewing(bits, p, end, v) && k <= end - p
    ensures Viewing(bits, p + k, end, ShiftRight(v, k))
  {
    var word := bits[p..end];
    ValueSplit(word, k);
    assert word[k..] == bits[p + k..end];
  }

  lemma NothingViewed(bits: seq<bool>, end: nat)
    requires end <= |bits|
    ensures Viewing(bits, end, end, 0)
  {
  }

  lemma SkipRest(bits: seq<bool>, e: nat, p: nat, end: nat, free: nat, n: nat)
    requires Viewing(bits, p, end, 0) && Scanned(bits, e, p, free, n)
    ensures Scanned(bits, e, end, free + (end - p), n)
  {
    var word := bits[p..end];
    ZeroMeansUnset(word);
    assert forall i :: p <= i < end ==> bits[i] == word[i - p];
    ScannedUnset(bits, e, p, free, n, end - p);
  }

  /** A run at least as long as asked for, the first of its kind, cut to the maximum. */
  ghost predicate Found(bits: seq<bool>, e: nat, start: nat, length: nat, minimum: nat, maximum: nat) {
    minimum <= length <= maximum && e <= start && Fits(bits, start, length) && NoneBetween(bits, e, start, minimum)
  }

  lemma FoundMeans(bits: seq<bool>, e: nat, start: nat, length: nat, minimum: nat, maximum: nat)
    requires Found(bits, e, start, length, minimum, maximum)
    ensures length <= maximum && Fits(bits, start, length) && !NoneFrom(bits, e, minimum)
    ensures minimum == 0 ==> start == e
  {
    assert Fits(bits, start, minimum);
    if minimum == 0 {
      assert Fits(bits, e, 0);
    }
  }

  lemma FoundBefore(bits: seq<bool>, e: nat, start: nat, length: nat, minimum: nat, maximum: nat, from: nat)
    requires Found(bits, e, start, length, minimum, maximum)
    ensures start < from <==> !NoneBetween(bits, e, from, minimum)
  {
    assert Fits(bits, start, minimum);
  }

  lemma FoundRun(bits: seq<bool>, e: nat, p: nat, free: nat, minimum: nat, maximum: nat)
    requires Scanned(bits, e, p, free, minimum) && minimum <= free && minimum <= maximum
    ensures Found(bits, e, p - free, Min(free, maximum), minimum, maximum)
    ensures Fits(bits, p - free, minimum) && !NoneFrom(bits, e, minimum)
  {
  }

  lemma OneByte(b: Byte)
    ensures BytesBits([b]) == BitsOf(b, 8)
  {
    assert BytesBits([b]) == BitsOf(b, 8) + BytesBits([b][1..]);
  }

  lemma {:induction false} AndBit(v: nat, count: nat, i: nat)
    requires i < count && v < Pow2(count)
    ensures And(v, Pow2(i)) == if BitsOf(v, count)[i] then Pow2(i) else 0
  {
    if i == 0 {
      AndZero(v / 2);
      assert And(v, 1) == Bit(v % 2 == 1) + 2 * And(v / 2, 0);
    } else {
      AndBit(v / 2, count - 1, i - 1);
      assert Pow2(i) / 2 == Pow2(i - 1) && Pow2(i) % 2 == 0;
    }
  }

  lemma ByteBit(b: Byte, i: nat)
    requires i < 8
    ensures BitsOf(b, 8)[i] <==> And(b, Pow2(i)) != 0
  {
    Pow2Of8();
    AndBit(b, 8, i);
  }

  // ----- Counting -----

  function CountSet(bits: seq<bool>): (r: nat)
    ensures r <= |bits|
  {
    if bits == [] then 0 else Bit(bits[0]) + CountSet(bits[1..])
  }

  lemma NothingSet()
    ensures CountSet([]) == 0
  {
  }

  lemma {:induction false} CountSetConcat(a: seq<bool>, b: seq<bool>)
    ensures CountSet(a + b) == CountSet(a) + CountSet(b)
  {
    if a == [] {
      assert a + b == b;
    } else {
      CountSetConcat(a[1..], b);
      assert (a + b)[1..] == a[1..] + b;
    }
  }

  lemma {:induction false} CountInverted(bits: seq<bool>)
    ensures CountSet(Inverted(bits)) == |bits| - CountSet(bits)
  {
    if bits != [] {
      CountInverted(bits[1..]);
      assert Inverted(bits)[1..] == Inverted(bits[1..]);
    }
  }

  function Popcount(v: nat): nat {
    if v == 0 then 0 else v % 2 + Popcount(v / 2)
  }

  lemma {:induction false} PopcountIsCount(bits: seq<bool>)
    ensures Popcount(Value(bits)) == CountSet(bits)
  {
    if bits != [] {
      PopcountIsCount(bits[1..]);
      var v := Value(bits[1..]);
      assert Value(bits) == Bit(bits[0]) + 2 * v && Value(bits) / 2 == v && Value(bits) % 2 == Bit(bits[0]);
    }
  }

  lemma {:induction false} CountZeros(n: nat)
    ensures CountSet(Zeros(n)) == 0
  {
    if n > 0 {
      CountZeros(n - 1);
      assert Zeros(n)[1..] == Zeros(n - 1);
    }
  }

  /** bitmask_first_byte: all but the low `k` bits */
  function FirstByteMask(k: nat): nat
    requires k < 8
  {
    [0xFF, 0xFE, 0xFC, 0xF8, 0xF0, 0xE0, 0xC0, 0x80][k]
  }

  /** bitmask_last_byte: the low `k` bits */
  function LastByteMask(k: nat): nat
    requires k < 8
  {
    [0x00, 0x1, 0x3, 0x7, 0xF, 0x1F, 0x3F, 0x7F][k]
  }

  lemma MasksArePowers(k: nat)
    requires k < 8
    ensures FirstByteMask(k) == Pow2(8) - Pow2(k) && LastByteMask(k) == Pow2(k) - 1
  {
    Pow2Of8();
    assert Pow2(4) == 16;
    assert k >= 4 ==> Pow2(k) == 16 * Pow2(k - 4) by {
      if k >= 4 {
        Pow2Add(4, k - 4);
      }
    }
  }

  /** And with a mask of the high bits clears the low ones. */
  lemma {:induction false} AndHigh(bits: seq<bool>, k: nat)
    requires k <= |bits|
    ensures Pow2(|bits|) >= Pow2(k) && And(Value(bits), Pow2(|bits|) - Pow2(k)) == Value(Zeros(k) + bits[k..])
  {
    Pow2Monotone(k, |bits|);
    if k == 0 {
      assert Zeros(0) + bits[0..] == bits;
      AndMask(Value(bits), |bits|);
      ValueBound(bits);
      Below(Value(bits), |bits|, |bits|);
    } else {
      AndHigh(bits[1..], k - 1);
      var v, m := Value(bits[1..]), Pow2(|bits| - 1) - Pow2(k - 1);
      var cleared := Zeros(k) + bits[k..];
      assert cleared[1..] == Zeros(k - 1) + bits[1..][k - 1..];
      assert Value(bits) == Bit(bits[0]) + 2 * v && Value(bits) / 2 == v && Pow2(|bits|) - Pow2(k) == 2 * m &&
             (2 * m) / 2 == m;
      if Value(bits) == 0 && 2 * m == 0 {
        AndZero(0);
      }
    }
  }

  lemma FirstMask(b: Byte, k: nat)
    requires k < 8
    ensures Popcount(And(b, FirstByteMask(k))) == CountSet(BitsOf(b, 8)[k..8])
  {
    hide And, Popcount, CountSet, FirstByteMask, LastByteMask, Value, BitsOf;
    MasksArePowers(k);
    Pow2Of8();
    var bits := BitsOf(b, 8);
    ValueOfBits(b, 8);
    AndHigh(bits, k);
    PopcountIsCount(Zeros(k) + bits[k..]);
    CountSetConcat(Zeros(k), bits[k..]);
    CountZeros(k);
    assert bits[k..] == bits[k..8];
  }

  lemma LastMask(b: Byte, k: nat)
    requires k < 8
    ensures Popcount(And(b, LastByteMask(k))) == CountSet(BitsOf(b, 8)[0..k])
  {
    hide And, Popcount, CountSet, FirstByteMask, LastByteMask, Value, BitsOf;
    MasksArePowers(k);
    Pow2Of8();
    var bits := BitsOf(b, 8);
    ValueOfBits(b, 8);
    AndMask(b, k);
    ValueSplit(bits, k);
    PopcountIsCount(bits[..k]);
    assert bits[..k] == bits[0..k];
  }

  lemma BothMasks(b: Byte, i: nat, j: nat)
    requires i <= j < 8
    ensures Popcount(And(And(b, FirstByteMask(i)), LastByteMask(j))) == CountSet(BitsOf(b, 8)[i..j])
  {
    hide And, Popcount, CountSet, FirstByteMask, LastByteMask, Value, BitsOf;
    MasksArePowers(i);
    MasksArePowers(j);
    Pow2Of8();
    var bits := BitsOf(b, 8);
    ValueOfBits(b, 8);
    AndHigh(bits, i);
    var high := Zeros(i) + bits[i..];
    AndMask(Value(high), j);
    ValueSplit(high, j);
    PopcountIsCount(high[..j]);
    assert high[..j] == Zeros(i) + bits[i..j];
    CountSetConcat(Zeros(i), bits[i..j]);
    CountZeros(i);
  }

  lemma WholeByteCount(b: Byte)
    ensures Popcount(b) == CountSet(BitsOf(b, 8)[0..8])
  {
    Pow2Of8();
    ValueOfBits(b, 8);
    PopcountIsCount(BitsOf(b, 8));
    assert BitsOf(b, 8)[0..8] == BitsOf(b, 8);
  }

  function AlignUp(address: nat): (r: nat)
    ensures r % 8 == 0 && address <= r < address + 8
  {
    (address + 7) / 8 * 8
  }

  function AlignDown(address: nat): (r: nat)
    ensures r % 8 == 0 && r <= address < r + 8
  {
    address / 8 * 8
  }
}
