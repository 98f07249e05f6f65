# Verification of AK

A Dafny model of the hard parts of AK, the base library of SerenityOS, with proofs that the fast or
stateful code means what a simple definition says. Each module takes the form of the code it models:
classes with fields and arrays that change in place where the code does that, functions where it
computes.

- **Multi-word integers** (`Arithmetic`, `Words`, `Storage`, `Shifts`, `Multiply`, `Division`): signed
  addition, subtraction, negation, comparison and column-wise multiplication, shifts, and Knuth's
  Algorithm D on little-endian word arrays. The word size stays open: 32 or 64 bits.
- **Decimal scaling and digits** (`MinimalBigInt`, `EightDigits`): multiplication by powers of ten in a
  fixed word array, and reading eight decimal digits at a time.
- **The ordered Robin Hood hash table** (`RobinHood`, `BucketList`, `HashTable`): stealing insertion,
  backward-shift deletion, saturating probe lengths, rehashing, and the list threaded through buckets
  that move. List links are bucket indices; the bucket an insertion has in hand is one more node.
- **The ring buffer with seekback** (`CircularBuffer`) and the buffered streams on it
  (`BufferedStream`). Copies within the buffer are modelled with aliasing, as simultaneous assignment.
- **Bit streams and bitmaps** (`Bits`, `LittleEndianBitStream`, `BigEndianBitStream`, `BitmapView`).
- **Protocols** (`BumpAllocator`, `AllocationProgress`, `DeallocationProgress`, `AsyncStream`): bump allocators
  sharing an atomic chunk cache, as a state machine over atomic steps, and asynchronous streams with
  slices.
- **Smaller algorithms** (`InternetChecksum`, `LEB128`, `LexicalPath`, `BinaryHeap`).

`Common` and `Sequences` hold what several of these share.

What is outside the code becomes a parameter: whether memory is available and by how much the
allocator rounds a request up, what the system answers to a read or write, how a stream is chunked,
the address of data, what a shift by the full width of a value gives, and the hash, equality and
comparison functions. Little-endian hosts are assumed where words and bytes share memory.

Where the code does less than one might expect, it is stated as it is, with the exact condition and a
run that meets it:

- `CopyFromSeekback`: a copy longer than the empty space can double its distance past the seekback
  limit and fail a check (`Overruns`, `OverrunExample`).
- `BaselineMul`: two single words are widened without their signs (`SingleWordsExact`,
  `MinusOneTimesOne`).
- `MultiplyWithPowerOf5`: a table entry with a zero word on top can leave one in the product
  (`PowerLength`, `LeadingZeroExample`).
- Allocation by bumping: the check of the size does not count padding, so a block can pass it and fit no
  chunk (`FitsFresh`, `PassesCheckFitsNowhere`, `HopelessAllocation`).
- `WriteBits`, little-endian: bits of a value beyond the count can disturb the next write
  (`LeavesClean`, `DisturbedExample`).
- `ReadBits`, little-endian: a count that whole bytes cannot reach is asked for forever (`OutOfReach`,
  `OutOfReachExample`).
- `ReadBits` of 64 bits, little-endian: shifting the buffer by all its bits is undefined in C++ and need
  not clear it (`Clears`, `FullShiftExample`).
- `FindNextRangeOfUnsetBits`: a search from the middle of an empty word starts before it
  (`SearchStart`, `FindsEarlierExample`).
- `InputBufferedSeekable.Seek`: within the buffer, bytes are dropped before the stream is asked where
  it is; the condition is part of the contract (`SlipExample`).
- `ConsumeUntil`: if the caller peeked already and nothing more arrives, it fails even where the
  delimiter is buffered (`PeekedAlready`).
- `FromNodes`: nodes that are not moved are not told their positions (`Told`, `LoneNodeExample`).
- `Digest`: 32 bits can lose part of the sum of more than 131074 bytes (`Accurate`, `BoundIsExact`).

## Model

| member | source | states |
|---|---|---|
| Storage.AddWords | AK/BigIntBase.h:189-228 | One word of addition: output plus carry times the base equals the sum of the words and the carry in. |
| Storage.SubWords | AK/BigIntBase.h:231-270 | One word of subtraction: output minus borrow times the base equals the difference less the borrow in. |
| Storage.AddDigits | AK/BigIntBase.h:478-486 | The word loop, over operands cut or sign-extended to the size of the result, adds or subtracts their values up to one final carry; in place as well. |
| Storage.AddTotal | AK/BigIntBase.h:462-470 | How the words and the final carry give the signed sum: it is the value of the words plus a multiple of the base power, and which multiple. |
| Storage.Add | AK/BigIntBase.h:462-492 | For operands that fit the result, a ± b = c + r · 2^(word size · result size) for the returned r, for any mix of sizes and signs and in place; longer operands still give the result modulo that power. |
| Storage.Negate | AK/BigIntBase.h:515-526 | The result is the negated value modulo 2^(word size · size), also in place, and the returned flag says exactly whether the operand was nonzero. |
| Storage.CompareHigh | AK/BigIntBase.h:331-346 | If the longer operand has a high word other than the sign fill, it decides the comparison. |
| Storage.Compare | AK/BigIntBase.h:320-364 | The result is the sign of a - b for any mix of sizes and signs; with the inequality hint, zero exactly for equal values. |
| Shifts.LeftVal | AK/BigIntBase.h:424-441 | Moving words up and bits across word boundaries multiplies by the power of two and drops what exceeds the size. |
| Shifts.ShiftLeft | AK/BigIntBase.h:421-441 | The value times 2^shift modulo 2^(word size · size), for every shift up to that width; the result may be the operand itself. |
| Shifts.RightVal | AK/BigIntBase.h:443-460 | Moving words down and bits across word boundaries divides by the power of two, rounding down. |
| Shifts.ShiftRight | AK/BigIntBase.h:443-460 | The value divided by 2^shift, rounded down, for every shift below the width; the result may be the operand itself. |
| Multiply.RowsTotal | AK/BigIntBase.h:574-591 | Summing the partial products column by column is multiplying the two numbers. |
| Multiply.ColumnFits | AK/BigIntBase.h:61 | A column of at most as many products as the length limit allows, with the carry it receives, leaves a digit and a carry within the same bound, so the double-word carry never overflows. |
| Multiply.Accumulate | AK/BigIntBase.h:583-590 | Adding one double-word product to the digit and the carry is exact and does not overflow while the column is below its limit. |
| Multiply.MulColumn | AK/BigIntBase.h:576-591 | One column: the digit and the outgoing carry stand for the incoming carry plus all products of the column. |
| Multiply.ColumnsTotal | AK/BigIntBase.h:574-591 | The digits written so far are the product of the operands modulo the power of the base reached. |
| Multiply.LongProduct | AK/BigIntBase.h:558-572 | Where the result is no longer than either operand, multiplying the words without their signs gives the signed product modulo the power of the base. |
| Multiply.MagnitudeProduct | AK/BigIntBase.h:560-571 | The product of the magnitudes, negated where the signs differ, is the signed product modulo any number. |
| Multiply.SingleWords | AK/BigIntBase.h:535-550 | What multiplying two words without their signs and filling up with the sign of the product comes to, and exactly when that is the signed product. |
| Multiply.BaselineMul | AK/BigIntBase.h:528-594 | For operands of any sizes up to the length limit and any signs, the result is the signed product modulo 2^(word size · result size), swapped operands included; two single words give it if and only if none is negative, the result is one word, both are the least number, or the result is two words and the other operand is zero. |
| Multiply.MinusOneTimesOne | AK/BigIntBase.h:535-550 | Minus one times one, each in one word, gives something other than minus one in two words. |
| Division.DivModWords | AK/BigIntBase.h:284-293 | Quotient and remainder of a double word by a word, when the quotient fits. |
| Division.NotTooSmall | AK/BigIntBase.h:612-633 | The trial digit from the leading words is never below the true digit. |
| Division.CloseEnough | AK/BigIntBase.h:612-633 | After the test against the second divisor word, the trial digit is at most one too large. |
| Division.LargestDigit | AK/BigIntBase.h:616-617 | Where the leading words are equal, the largest digit is at most one too large although it is not refined. |
| Division.TrialDigit | AK/BigIntBase.h:612-633 | The trial digit, refined or taken as the largest word, is the true digit or one more. |
| Division.MultiplySubtract | AK/BigIntBase.h:635-644 | Subtracting the trial digit times the divisor from the window is exact up to the final borrow. |
| Division.DivideDigit | AK/BigIntBase.h:611-654 | One round on a normalized divisor: both checks of the code hold, adding back once suffices, the digit is the quotient of the window and the window becomes the remainder. |
| Division.DividedStep | AK/BigIntBase.h:611-654 | Putting one more quotient digit below the others keeps quotient · divisor + remainder equal to the dividend read so far. |
| Division.NormalizedDivisor | AK/BigIntBase.h:607-609 | Shifting by the leading zeroes loses no bit of the divisor and sets its top bit. |
| Division.DivModInternal | AK/BigIntBase.h:596-662 | Algorithm D: quotient = dividend / divisor and, where asked for, remainder = dividend mod divisor, for every divisor of at least two words with a nonzero top word. |
| DecimalScaling.MinimalBigInt.MultiplyWithSmall | AK/FloatingPointStringConversions.cpp:1708-1727 | Multiplying any value by any 64-bit number, zero included, on word sizes of 32 and 64 bits, is exact, and the number of words used afterwards is that of a closed form. |
| DecimalScaling.MinimalBigInt.MultiplyWithStorage | AK/FloatingPointStringConversions.cpp:1650-1653 | Multiplying any value by a longer constant through a copy and trimming once gives the product, with zeroes above the words used, whose number is exact. |
| DecimalScaling.MinimalBigInt.MultiplyWithPowerOf5 | AK/FloatingPointStringConversions.cpp:1642-1657 | Binary exponentiation over any table holding 5^(2^i) multiplies by 5^exponent; the top used word is nonzero where the value and the entries used have nonzero top words, and in general exactly if the product needs the number of words counted from the sizes of the entries. |
| DecimalScaling.MinimalBigInt.MultiplyWithPowerOf2 | AK/FloatingPointStringConversions.cpp:1659-1670 | Shifting in the grown storage and trimming once multiplies any value by 2^exponent, and keeps the top used word nonzero if it was. |
| DecimalScaling.MinimalBigInt.MultiplyWithPowerOf10 | AK/FloatingPointStringConversions.cpp:1524-1528 | Any value becomes exactly value · 10^exponent whenever the product fits the word array, on both word sizes; the top used word is nonzero where the value and the table entries used have nonzero top words, and in general exactly if the product needs the number of words counted. |
| DecimalScaling.ProductNeeds | AK/FloatingPointStringConversions.cpp:1642-1657 | A product of normalized numbers, grown and trimmed once, is normalized. |
| DecimalScaling.LeadingZeroExample | AK/FloatingPointStringConversions.cpp:1633-1637 | With a table entry that has a zero word on top, as most have on 32-bit hosts, one times five leaves a zero top word, which the check at line 1491 refuses. |
| DecimalScaling.MinimalBigInt.AddSmall | AK/FloatingPointStringConversions.cpp:1729-1740 | Adding a 64-bit number to any value that leaves room for it is exact, carry included, with the exact number of words used. |
| DecimalScaling.MinimalBigInt.AddDigits | AK/FloatingPointStringConversions.cpp:1742-1748 | Appending up to 19 digits gives value · 10^digits plus their number, from zero on. |
| EightDigits.HasDigitsIff | AK/FloatingPointStringConversions.cpp:188-203 | For any number of bytes, the carry test on the whole word succeeds exactly if every byte is a digit, whatever carries and borrows other bytes cause. |
| EightDigits.HasEightDigitsIff | AK/FloatingPointStringConversions.cpp:188-203 | The test on the 64-bit word succeeds exactly if all eight characters are decimal digits. |
| EightDigits.EightDigitsToValueIs | AK/FloatingPointStringConversions.cpp:205-243 | For eight digits, the three multiply, shift and mask steps give the number the digits stand for. |
| EightDigits.FastParseDecimal | AK/FloatingPointStringConversions.cpp:262-272 | Reading eight digits at a time and then single ones consumes exactly the leading digits and continues the 64-bit number as reading them one by one would. |
| RobinHood.NoGap | AK/HashTable.h:669-673 | In a table where no bucket is more than one step poorer than the one before, every bucket between the ideal place of a value and its actual one is at least as poor as the way already gone. |
| RobinHood.PlaceKeepsOrder | AK/HashTable.h:655-662 | Placing a value where it is poorer than the bucket and at most one step poorer than the bucket before keeps that order. |
| RobinHood.ShiftMovesHole | AK/HashTable.h:760-785 | Shifting the bucket after a hole back into it keeps the order around the hole, which has moved on. |
| BucketList.AppendList | AK/HashTable.h:607-617 | Linking a node at the tail appends it to the list in both directions. |
| BucketList.DetachList | AK/HashTable.h:726-737 | Unlinking a node removes it from the list in both directions and changes no link outside the list. |
| BucketList.AdoptList | AK/HashTable.h:744-755 | After a node was copied to another place, updating its neighbours puts the copy in its place in the list. |
| BucketList.SwapCopied | AK/HashTable.h:618-645 | After one of two nodes was copied to the other, the link update for swapped buckets is the same as adopting the copy. |
| BucketList.SwapExchanged | AK/HashTable.h:618-645 | After two nodes of the list were exchanged, neighbours or not, the link update for swapped buckets gives each the place of the other. |
| HashTables.HashTable.UsedBucketProbeLength | AK/HashTable.h:579-595 | The probe length is exact, also where the state byte is saturated and it is calculated from the hash. |
| HashTables.HashTable.Find | AK/HashTable.h:562-577 | The search ends, and finds a bucket exactly if the table holds an equal value. |
| HashTables.FreeBucketExists | AK/HashTable.h:509 | With fewer values than buckets, some bucket is free; with a value in hand, as many values as buckets still leave one free. |
| HashTables.AbsentBeyond | AK/HashTable.h:669-673 | Once a search meets a free or richer bucket without a match, no bucket holds an equal value. |
| HashTables.HashTable.UpdateCollectionForSwappedBuckets | AK/HashTable.h:618-645 | The link updates are those of the list model, and states and values stay. |
| HashTables.HashTable.InsertIntoFree | AK/HashTable.h:652-659 | A free bucket takes the new value; the contents in list order gain it at the end. |
| HashTables.HashTable.Steal | AK/HashTable.h:674-689 | The poorer new value takes a bucket, whose value goes in hand with its place in the list; the contents in list order gain the new value at the end. |
| HashTables.HashTable.Trade | AK/HashTable.h:706-712 | Exchanging the value in hand with a richer one keeps the contents in list order, the exact states and the order of probe lengths. |
| HashTables.HashTable.Drop | AK/HashTable.h:698-703 | The value in hand goes to a free bucket with its place in the list, and the table is complete again. |
| HashTables.HashTable.Resettle | AK/HashTable.h:691-713 | The displaced values all find buckets: the loop ends, and the contents in list order are unchanged. |
| HashTables.HashTable.WriteValue | AK/HashTable.h:604-718 | A new value is appended; an equal one is kept or replaced where it stands in insertion order, as asked; no value is ever stored twice. |
| HashTables.HashTable.ShiftBack | AK/HashTable.h:771-784 | Moving one bucket back keeps the contents in list order, the exact states and the order around the gap. |
| HashTables.HashTable.DeleteBucket | AK/HashTable.h:720-788 | The value of the bucket leaves the contents and all others keep their order; the shift ends; each used bucket holds what it did or what the next one did, and nothing moves to the bucket before. |
| HashTables.NoneMatchAfterDelete | AK/HashTable.h:466-477 | A deletion at the index of the scan moves no unexamined value to an examined bucket. |
| HashTables.HashTable.TryRehash | AK/HashTable.h:524-555 | All values are carried over in the same order into at least the requested number of buckets, or nothing changes when there is no memory. |
| HashTables.HashTable.TrySet | AK/HashTable.h:359-366 | Grows first where the load factor asks for it; then the contents are those of the specification, the result says what happened, and the load factor still leaves a bucket free. Without memory nothing changes, and that is reported exactly where growing was needed. |
| HashTables.HashTable.TryEnsureCapacity | AK/HashTable.h:234-244 | Contents stay, on success that many values fit below the load factor, it fails exactly if it has to grow and there is no memory, and the number of buckets is exact. |
| HashTables.HashTable.Contains | AK/HashTable.h:250-253 | True exactly if an equal value is stored. |
| HashTables.HashTable.Remove | AK/HashTable.h:432-440 | The equal value leaves the contents, the others keep their order, and the result says whether there was one; afterwards there is none. |
| HashTables.HashTable.RemoveAllMatching | AK/HashTable.h:462-479 | Exactly the values that do not match remain, in order, and the result says whether any was removed; the loop ends although buckets move under it. |
| HashTables.HashTable.TakeFirst | AK/HashTable.h:490-497 | Removes and returns the value inserted first. |
| HashTables.HashTable.TakeLast | AK/HashTable.h:481-488 | Removes and returns the value inserted last. |
| HashTables.HashTable.Values | AK/HashTable.h:499-506 | Following next from the head visits exactly the contents in insertion order, without duplicates. |
| HashTables.HashTable.ValuesInReverse | AK/HashTable.h:94-115 | Following previous from the tail visits the same values in the opposite order. |
| HashTables.Run | AK/HashTable.h:119-796 | In any run of sets, look-ups, removals, growth and takes, with memory or without, every response is the one a sequence without duplicates in insertion order gives, the final walk visits that sequence, and the reverse walk mirrors it. |
| CircularBuffers.HoldsMore | AK/CircularBuffer.cpp:143-164 | Writing data at the write position of the ring keeps the last bytes of everything written, as many as fit, at their places modulo the capacity. |
| CircularBuffers.SourceUntouched | AK/CircularBuffer.cpp:151-160 | When the ring copies from its own seekback area, writing one piece never touches source bytes of the next. |
| CircularBuffers.CircularBuffer.Write | AK/CircularBuffer.cpp:143-164 | As many bytes as there is space for are appended, in order, also when they are part of the buffer itself; the seekback limit grows up to the capacity. |
| CircularBuffers.CircularBuffer.Read | AK/CircularBuffer.cpp:166-187 | As many bytes as are there are delivered in the order they were written, and no other byte of the destination changes. |
| CircularBuffers.CircularBuffer.ReadWithSeekback | AK/CircularBuffer.cpp:189-208 | Delivers the bytes from the given distance before the end of everything written, read already or not, or reports a distance beyond the limit. |
| CircularBuffers.CircularBuffer.Discard | AK/CircularBuffer.cpp:210-218 | Skips exactly that many unread bytes, or changes nothing if there are fewer. |
| CircularBuffers.TiledIsRepeated | AK/CircularBuffer.cpp:253-277 | A continuation that repeats its last bytes with the period of the distance is the byte-by-byte copy. |
| CircularBuffers.NextChunk | AK/CircularBuffer.cpp:257-274 | Where each chunk of the copy starts, how long it is, and how much was written when the distance doubles, until it would pass the capacity. |
| CircularBuffers.FittingNeverOverruns | AK/CircularBuffer.cpp:115-129 | A copy no longer than the empty space never doubles its distance past the seekback limit. |
| CircularBuffers.OverrunExample | AK/CircularBuffer.cpp:253-277 | A longer copy can: a buffer of three slots, two bytes written and read, and a copy of five bytes from two back fail the check on the distance. |
| CircularBuffers.CircularBuffer.CopyFromSeekback | AK/CircularBuffer.cpp:253-277 | The bytes appended are those of the naive LZ77 copy, exactly as many as asked for or as fit; the check on the doubled distance fails if and only if a condition on distance, length, space and position holds, which no copy that fits meets. |
| CircularBuffers.CircularBuffer.FindCopyInSeekback | AK/CircularBuffer.cpp:470-518 | Among the given distances, the longest match with the next unread bytes, the first of these, and none exactly if no distance gives one long enough. |
| CircularBuffers.MatchReproduces | AK/CircularBuffer.cpp:470-518 | Copying a found match from what was already read gives back the bytes it was found for. |
| BufferedStreams.InputBufferedSeekable.FillFromStream | AK/CircularBuffer.cpp:220-234 | One read into the ring takes exactly what the first answer gives, up to the room in the ring and the end of the file, and keeps the buffered bytes equal to the file just before the position of the stream. |
| BufferedStreams.InputBufferedSeekable.PopulateReadBuffer | AK/BufferedStream.h:273-298 | Exactly the leading interruptions are tried again, and what the first other answer gives is buffered, no more and no less; it fails if and only if that answer is an error; the logical position stays. |
| BufferedStreams.InputBufferedSeekable.ReadSome | AK/BufferedStream.h:50-63 | As many bytes as are buffered, or as one refill of an empty buffer gives, up to the size of the destination: those of the file at the logical position, which moves by as many; nothing else of the destination changes, and the error cases are exact. |
| BufferedStreams.InputBufferedSeekable.Seek | AK/BufferedStream.h:325-341 | For every mode, the result and the new logical position are those of an unbuffered seek from the logical position if and only if the seek leaves the buffer, or the stream allows its own position and the target alike; else the bytes are dropped although the seek fails, or it succeeds without being allowed. |
| BufferedStreams.SlipExample | AK/BufferedStream.h:325-341 | On a stream that allows no seek, a seek over one buffered byte fails, as an unbuffered one does, and yet moves on by it. |
| BufferedStreams.Run | AK/BufferedStream.h:304-372 | In any run of reads and seeks on any stream, every response is the one an unbuffered reader gives for what the system answers, an error only if the first answer that is no interruption is one, nothing only if nothing is left or given; the only exceptions are seeks that may stay in the buffer on a stream that does not allow every place of the file, and those move first and ask afterwards. |
| BufferedStreams.SafeGivesAll | AK/BufferedStream.h:325-341 | A run without such seeks, or on a stream that allows every place of the file, is that of an unbuffered reader throughout. |
| BufferedStreams.OverwriteTwice | AK/CircularBuffer.cpp:236-251 | Writing two pieces one after the other is writing them at once. |
| BufferedStreams.OutputBufferedSeekable.FlushToStream | AK/CircularBuffer.cpp:236-251 | A partial write moves exactly the bytes the system takes from the buffer to the file and leaves the logical file and position alone; it fails exactly when the system does. |
| BufferedStreams.OutputBufferedSeekable.FlushBuffer | AK/BufferedStream.h:427-432 | On success the file is the logical file and nothing is buffered; on error the logical file is still what it was; it succeeds if and only if the answers of the system, taken span by span, take everything before one is an error. |
| BufferedStreams.OutputBufferedSeekable.WriteSome | AK/BufferedStream.h:400-411 | The logical file changes as an unbuffered write of the bytes taken would change it; an error is reported exactly if the buffer filled up and the flush failed, although the bytes were taken. |
| BufferedStreams.OutputBufferedSeekable.Seek | AK/BufferedStream.h:440-444 | The logical file stays, the result is that of an unbuffered seek from the logical position, and it fails to flush exactly where flushing the buffer does. |
| BufferedStreams.GrantedFlushSucceeds | AK/BufferedStream.h:427-432 | However little it takes at a time, a system that fails no request lets the flush succeed. |
| BufferedStreams.WriteRun | AK/BufferedStream.h:374-445 | After any run of writes and seeks and a successful flush, the file is as an unbuffered writer leaves it that wrote as many bytes of each write as reported; nothing fails unless the system does, and no write stalls unless the system takes nothing. |
| LittleEndianBitStreams.LittleEndianOutputBitStream.FlushBufferToStream | AK/BitStream.h:406-422 | Whole bytes move from the buffer to the stream; the bits written so far are the same, and so is what lies above them. |
| LittleEndianBitStreams.LittleEndianOutputBitStream.WriteBits | AK/BitStream.h:381-404 | For any value, the bits appended are its low bits, least significant first, each set as well where a bit of an earlier value lies above the buffered ones; nothing lies there as long as no value had other bits, and whether this one leaves any is decided exactly. |
| LittleEndianBitStreams.CleanAfterIff | AK/BitStream.h:381-404 | A write leaves bits above the buffered ones if and only if its value has bits beyond the count that stay within the 64 bits. |
| LittleEndianBitStreams.DisturbedExample | AK/BitStream.h:381-404 | Writing two bits of seven and then one bit of zero writes three set bits. |
| LittleEndianBitStreams.LittleEndianOutputBitStream.AlignToByteBoundary | AK/BitStream.h:443-449 | Appends as many zero bits as complete the last byte, set where a bit lies above the buffered ones. |
| LittleEndianBitStreams.LittleEndianInputBitStream.RefillBufferFromStream | AK/BitStream.h:250-274 | For every count up to 64: gathers the bits from any short reads, or reports the end, or fills up with zeros, as configured; it goes on asking for no bytes forever if and only if both the count and the rest of the stream exceed what whole bytes bring. |
| LittleEndianBitStreams.LittleEndianInputBitStream.PeekBits | AK/BitStream.h:216-223 | The next bits as a number, without consuming them, for every count up to 64, with the exact cases of an error and of no return. |
| LittleEndianBitStreams.LittleEndianInputBitStream.ReadBits | AK/BitStream.h:207-214 | For every count up to 64: returns and consumes the next bits; too few give an error and consume nothing, or count as zeros where configured so; it does not return if and only if the count is out of reach, and leaves the buffer in order if and only if it took fewer than 64 bits or the host clears a value shifted by all its bits. |
| LittleEndianBitStreams.LittleEndianInputBitStream.AlignToByteBoundary | AK/BitStream.h:236-248 | Drops the rest of the current byte and returns it. |
| LittleEndianBitStreams.OutOfReachExample | AK/BitStream.h:250-274 | After four bits of sixteen bytes, a read of 61 bits does not return. |
| LittleEndianBitStreams.FullShiftExample | AK/BitStream.h:225-234 | On a host that leaves a value shifted by all its bits alone, 64 bits read at once stay in the buffer. |
| LittleEndianBitStreams.AlwaysInReach | AK/BitStream.h:250-274 | No read of up to 57 bits is out of reach. |
| LittleEndianBitStreams.RoundTrip | AK/BitStream.h:150-274 | Any list of values and bit counts up to 64 written, aligned and flushed reads back identically, for every pattern of short reads, up to the first item that does not end within 64 bits of the start of its byte or follows 64 bits that the host did not clear; so all of it if no count exceeds 57. |
| BigEndianBitStreams.BigEndianOutputBitStream.WriteBits | AK/BitStream.h:299-320 | The low bits of the value are appended most significant first. |
| BigEndianBitStreams.BigEndianOutputBitStream.AlignToByteBoundary | AK/BitStream.h:341-349 | Appends exactly the zero bits that complete the last byte. |
| BigEndianBitStreams.AppendByte | AK/BitStream.h:67-72 | Taking a whole byte is taking its eight bits one after the other. |
| BigEndianBitStreams.BigEndianInputBitStream.ReadBits | AK/BitStream.h:55-102 | Returns and consumes the next bits, whether by whole bytes or bit by bit; too few give an error after consuming them all. |
| BigEndianBitStreams.RoundTrip | AK/BitStream.h:55-102 | Any list of values and bit counts written and aligned reads back as the low bits of the values, for all widths of the types used to write and to read. |
| Bitmaps.ScannedSet | AK/BitmapView.h:221-228 | A set bit after a run that is too short rules out every start up to it. |
| Bitmaps.TrailingOnes | AK/BitmapView.h:268-272 | Counting trailing zeroes of the complement counts the set bits at the low end, also where zeros were shifted in above. |
| Bitmaps.BitmapView.Get | AK/BitmapView.h:32-36 | The bit at the index in the order of the whole bitmap. |
| Bitmaps.BitmapView.ScanBucket | AK/BitmapView.h:242-275 | Goes through a mixed word run by run, and stops at a run that is long enough or at its end. |
| Bitmaps.BitmapView.FindNextRangeOfUnsetBits | AK/BitmapView.h:202-296 | There is a result exactly if enough unset bits follow one another from where the search starts, and it is the first such place. The length is as long as the unset bits go on within the whole words, up to the maximum, and just the minimum if that many do not end within them. The search starts at the position asked for, or at the start of its word if that is empty, or at the last partial word; so it finds an earlier place if and only if there is one in between. |
| Bitmaps.BitmapView.FindsEarlierExample | AK/BitmapView.h:229-240 | In an empty word, a search from its tenth bit finds a place before that. |
| Bitmaps.BitmapView.FindFirstFit | AK/BitmapView.h:324-332 | The first place with that many unset bits, which starts a maximal run, and none exactly if there is none, as a bit by bit scan would find. |
| Bitmaps.BothMasks | AK/BitmapView.h:17-18 | The mask tables select exactly the bits between two positions of a byte. |
| Bitmaps.BitmapView.CountInRange | AK/BitmapView.h:43-86 | The number of bits of the given value in the range, for every range and every alignment of the data in memory. |
| BumpAllocators.LocalStep | AK/BumpAllocator.h:33-139 | A step that passes chunks only between one allocator, the cache and the system keeps the invariant of all the others. |
| BumpAllocators.TakeKeeps | AK/BumpAllocator.h:99-104 | Taking the cached chunk by an atomic exchange keeps every chunk owned exactly once. |
| BumpAllocators.LinkKeeps | AK/BumpAllocator.h:117-138 | Writing the header of a new chunk and linking it behind the last one keeps chain, ownership and allocations. |
| BumpAllocators.BumpKeeps | AK/BumpAllocator.h:41-52 | Moving the offset past an aligned block keeps all blocks aligned, inside linked chunks, past the headers and disjoint. |
| BumpAllocators.VisitKeeps | AK/BumpAllocator.h:84-97 | Taking the next chunk off the chain while deallocating keeps the invariant. |
| BumpAllocators.ParkKeeps | AK/BumpAllocator.h:66-72 | Exchanging a chunk into the cache, whatever was put there in the meantime, keeps every chunk owned exactly once. |
| BumpAllocators.ReturnKeeps | AK/BumpAllocator.h:74-79 | Returning a chunk to the system takes away nothing anybody else owns. |
| BumpAllocators.StepKeepsInv | AK/BumpAllocator.h:33-139 | Every atomic step of any allocator keeps the invariant: each chunk has exactly one owner and all allocations are sound. |
| BumpAllocators.RunKeepsInv | AK/BumpAllocator.h:33-139 | The invariant holds in every state of every interleaving of any number of allocators. |
| BumpAllocators.AllocationsAreDisjoint | AK/BumpAllocator.h:33-53 | Any two live allocations of any allocators are aligned, past the header of a chunk their allocator owns, and disjoint. |
| BumpAllocators.BumpDelivers | AK/BumpAllocator.h:41-52 | The step hands out one more block, of the size and alignment asked for, at the first aligned address past the offset, moves the offset to its end and changes nothing else; or no aligned address leaves room for it in the chunk and another chunk is asked for. |
| BumpAllocators.FinishedOwnsNothing | AK/BumpAllocator.h:55-81 | After deallocate_all an allocator owns no chunk: each chunk left is in the cache or with another allocator. |
| DeallocationProgress.DeallocationEnds | AK/BumpAllocator.h:55-97 | In every interleaving, from deallocate_all on an allocator of n chunks only releases them, one after another, and is at most 2 n + 2 own steps from the end; each chunk handed over went where it should: the first into the cache if that was taken to be empty, all others to the system. |
| DeallocationProgress.DeallocationReleasesAll | AK/BumpAllocator.h:55-97 | After at most 2 n + 2 own steps deallocate_all has finished, and then every chunk the allocator had was released in one of its steps and it owns nothing. |
| BumpAllocators.ChecksHold | AK/BumpAllocator.h:88-91 | The checks of the code on magic numbers, chain ends and the current chunk never fail. |
| BumpAllocators.StepsAreEnabled | AK/BumpAllocator.h:33-139 | In the middle of an operation the next step of the allocator is always possible. |
| AllocationProgress.FreshChunkDecides | AK/BumpAllocator.h:41-52 | After a new chunk is linked, the block is handed out if and only if its place rounded up behind the header leaves room for it; else another chunk is asked for. |
| AllocationProgress.AllocateAsks | AK/BumpAllocator.h:33-40 | Asking for a block remembers that size and alignment and changes nothing else; the current chunk is tried if there is one, and only an allocator without chunks gets one first. |
| AllocationProgress.CachedChunkIsUsed | AK/BumpAllocator.h:99-116 | A chunk in the cache is taken out and used; the system is asked only if the cache was empty. |
| AllocationProgress.AllocationHandsOut | AK/BumpAllocator.h:33-53 | In every interleaving, an allocation ends with one block more, of exactly the size and alignment asked for, aligned and inside the current chunk, and all earlier ones kept; or with none, because the system refused a chunk. |
| AllocationProgress.RoomIsUsed | AK/BumpAllocator.h:41-52 | In every interleaving, a block that fits what is left of the current chunk takes one step and no new chunk. |
| AllocationProgress.OwnStepNearsEnd | AK/BumpAllocator.h:33-53 | Every step of an allocation whose next chunk fits brings it nearer to its end. |
| AllocationProgress.AllocationEnds | AK/BumpAllocator.h:33-53 | In every interleaving, an allocation whose chunks fit the block takes at most five steps of its own and one new chunk. |
| AllocationProgress.RoomyAllocationEnds | AK/BumpAllocator.h:33-53 | So does every allocation with size + align - 1 within a chunk without its header, whatever chunks it gets. |
| AllocationProgress.AlignedChunkFits | AK/BumpAllocator.h:43-46 | Of the chunks at multiples of the alignment, all fit the block or none, and which. |
| AllocationProgress.PassesCheckFitsNowhere | AK/BumpAllocator.h:35 | A block one byte smaller than a chunk without its header passes the check of the code, and with an alignment of 64 fits no chunk at a multiple of 64. |
| AllocationProgress.HopelessAllocation | AK/BumpAllocator.h:41-50 | In every interleaving, an allocation no chunk fits never hands out a block, and goes on until the system refuses a chunk. |
| AsyncStreams.EnqueueKeepsContract | AK/AsyncStream.h:152-158 | Enqueuing, on a stream or any nesting of slices, adds at least one byte and changes nothing else, or is at the end of all bytes, or fails where the slice cannot be completed. |
| AsyncStreams.DequeueKeepsContract | AK/AsyncStreamHelpers.h:93-97 | Dequeuing removes bytes from the front and keeps the end-of-file flag of a slice equal to whether the stream beneath has buffered all of it. |
| AsyncStreams.SliceAdvancesInner | AK/AsyncStreamHelpers.h:93-97 | What is taken from a slice is taken from the stream beneath, and nothing more. |
| AsyncStreams.AsyncInputStream.PeekOrEof | AK/AsyncStream.h:97-108 | The first peek shows what is buffered, without waiting; each further one shows at least one byte more or the end; the end is reported only if the data is complete and an error only if it is not; no byte is lost. |
| AsyncStreams.AsyncInputStream.Peek | AK/AsyncStream.h:110-118 | The end of the stream becomes an error and closes it. |
| AsyncStreams.AsyncInputStream.Read | AK/AsyncStream.h:120-138 | Exactly the next bytes, however they are chunked, or an error exactly if there are fewer; it waits only for bytes not yet buffered. |
| AsyncStreams.ReadSlice | AK/AsyncStreamHelpers.h:32-103 | Read in pieces of any sizes, for every chunking, a slice gives the bytes of the stream beneath, which goes on right after them; reading fails exactly if the slice or the stream has too few; after the last byte of the slice the end of file is reported, and an error where the stream beneath was shorter. |
| AsyncStreams.AwaitedMeans | AK/AsyncStreamHelpers.h:15-30 | The stream that has just enough buffered never comes if and only if a peek was pending at the very end, or there is no delimiter and no maximum, or fewer bytes than that, or none; where what is buffered is enough and not yet peeked at, it is the stream as it is. |
| AsyncStreams.AsyncInputStream.ConsumeUntil | AK/AsyncStreamHelpers.h:15-30 | Waits for exactly as many chunks as make enough, and returns the shortest prefix ending in the delimiter for every chunking, its last read without waiting; or, with the maximum size reached and no delimiter, all that is buffered. The stream left is the one that has just enough, without the bytes returned. Fails if and only if that never comes. |
| AsyncStreams.PeekedAlready | AK/AsyncStreamHelpers.h:15-30 | After a peek of two bytes that are all there is, it fails although the first is the delimiter. |
| LexicalPaths.SplitConcat | AK/LexicalPath.cpp:119 | Splitting two strings joined by a slash gives the parts of both. |
| LexicalPaths.FoldedIsCanonical | AK/LexicalPath.cpp:123-142 | The fold over the parts leaves no dot parts, no double dots in absolute paths, and double dots only in front of relative ones. |
| LexicalPaths.PlainIsCanonical | AK/LexicalPath.cpp:114-116 | The early exit agrees with the fold: a path without dots, empty parts and final slash is its own canonical form. |
| LexicalPaths.CanonicalIdempotent | AK/LexicalPath.cpp:108-152 | Canonicalizing twice is canonicalizing once, and keeps the parts and whether the path is absolute. |
| LexicalPaths.CanonicalLeadsToSamePlace | AK/LexicalPath.cpp:108-152 | Followed from any directory, the canonical path leads where the path leads, in a tree without links. |
| LexicalPaths.CanonicalShape | AK/LexicalPath.cpp:108-152 | The canonical path is never empty, has no empty part, and no slash at the end but for the root. |
| LexicalPaths.CanonicalizedPath | AK/LexicalPath.cpp:108-152 | The loop with its early exits computes the canonical form. |
| LexicalPaths.AbsoluteParts | AK/LexicalPath.cpp:154-160 | A relative target continues from the canonical parts of an absolute directory. |
| LexicalPaths.ComputeAbsolutePath | AK/LexicalPath.cpp:154-160 | The steps of the code, canonicalizing twice, give the canonical target if that is absolute, and otherwise the canonical form of directory and target joined. |
| LexicalPaths.AbsolutePathLeads | AK/LexicalPath.cpp:154-160 | For every directory and target: the result is canonical, absolute exactly if one of the two is or the directory is empty, and leads where the target leads from where the directory leads. |
| LexicalPaths.RelativeToChild | AK/LexicalPath.cpp:183-186 | Where the prefix is the path up to a slash, the rest of the string is the way down by parts. |
| LexicalPaths.ComputeRelativePath | AK/LexicalPath.cpp:162-207 | All shortcuts agree with going up from the prefix to the common part and down to the path; the result is empty exactly if one of the two is not absolute. |
| LexicalPaths.RelativeRoundTrip | AK/LexicalPath.cpp:154-207 | For every absolute path and prefix, the absolute path of the relative path from the prefix is the canonical path. |
| LexicalPaths.RelativeIsShortest | AK/LexicalPath.cpp:162-207 | The relative path is relative, and nothing that leads from the prefix to the path has fewer parts. |
| LexicalPaths.RelativeShape | AK/LexicalPath.cpp:162-207 | It has no empty part, and ends in a slash exactly if it only goes up. |
| InternetChecksums.SumConcat | AK/InternetChecksum.cpp:17-27 | Updates of even length add up to one update with everything. |
| InternetChecksums.OnesSumIsTimes256 | AK/InternetChecksum.cpp:17-27 | The little-endian sum times 256 is congruent to the one's complement sum in network order of section 1 of RFC 1071, and zero together with it. |
| InternetChecksums.FoldedIsOnesSum | AK/InternetChecksum.cpp:31-35 | The folded state with its bytes swapped is that sum if and only if the 32-bit state has lost nothing. |
| InternetChecksums.InternetChecksum.Update | AK/InternetChecksum.cpp:17-27 | The state is the sum of all words so far modulo 2^32, whatever the split into updates. |
| InternetChecksums.InternetChecksum.Digest | AK/InternetChecksum.cpp:29-39 | The folding ends; the bytes are those of the checksum of RFC 1071 if and only if the part of the sum above 32 bits is a multiple of 65535 and the part below is not zero unless all is; so for every payload of up to 131074 bytes. |
| InternetChecksums.BoundIsExact | AK/InternetChecksum.cpp:17-27 | 131074 is the greatest length for which every payload is summed up right. |
| LEB128s.ReadUnsigned | AK/LEB128.h:27-50 | Accepts exactly the encodings of at most width/7 bytes, rounded up, whose value fits the width, and returns that value, for widths 8, 16, 32 and 64; section 7.6 of DWARF 5. |
| LEB128s.LastByteDecides | AK/LEB128.h:67-75 | On the last possible byte, the check on sign and unused bits passes exactly if the signed value fits, and the pattern then is that value. |
| LEB128s.SignExtended | AK/LEB128.h:80-84 | A shorter encoding always fits, and extending the sign gives its value. |
| LEB128s.ReadSigned | AK/LEB128.h:52-85 | Accepts exactly the encodings of at most width/7 bytes, rounded up, whose two's complement value fits the width, and returns that value. |
| BinaryHeaps.IntrusiveBinaryHeap.SwapIndices | AK/BinaryHeap.h:79-84 | Exchanges two nodes and tells both where they are. |
| BinaryHeaps.IntrusiveBinaryHeap.HeapifyUp | AK/BinaryHeap.h:91-100 | A value too small for its place rises until heap order holds; no value is lost. |
| BinaryHeaps.IntrusiveBinaryHeap.HeapifyDown | AK/BinaryHeap.h:102-113 | A value too great for its place sinks until heap order holds below; no value is lost. |
| BinaryHeaps.IntrusiveBinaryHeap.Insert | AK/BinaryHeap.h:32-44 | Keeps heap order, adds the value, and keeps stored indices equal to positions. |
| BinaryHeaps.LiftedOut | AK/BinaryHeap.h:46-56 | Once lifted to the root and replaced by the last value, only the root is out of order. |
| BinaryHeaps.IntrusiveBinaryHeap.Pop | AK/BinaryHeap.h:46-56 | Removes the node at any position: heap order, the other values, and indices equal to positions are kept. |
| BinaryHeaps.IntrusiveBinaryHeap.PopMin | AK/BinaryHeap.h:58-61 | The value removed is least. |
| BinaryHeaps.IntrusiveBinaryHeap.FromNodes | AK/BinaryHeap.h:22-27 | Sinking every parent from the last one up makes a heap of the nodes given; every node that moved knows its position, so all do if and only if those that did not move had it right, and in any case if all had. |
| BinaryHeaps.LoneNodeExample | AK/BinaryHeap.h:22-27 | A single node with a wrong index keeps it. |
| BinaryHeaps.PopAll | AK/BinaryHeap.h:22-61 | Making a heap at once and taking the least value until it is empty gives a sorted permutation. |

## Left out

- DecimalScaling.MinimalBigInt.MultiplyWithPowerOf10: requires that the product fits the array, which the code does not check.
- DecimalScaling.MinimalBigInt.MultiplyWithPowerOf5: takes the table of powers as a parameter that holds 5^(2^i) in words of either size; the 82 words of the table are not transcribed.
- DecimalScaling.MinimalBigInt.MultiplyWithPowerOf2: requires for the value zero a shift no longer than the array, because the code would write past its end.
- Multiply.BaselineMul: the product of two single words as signed double words is taken to wrap around, which is undefined in C++ beyond their range.
- LittleEndianBitStreams.LittleEndianInputBitStream.RefillBufferFromStream: an endless loop is modelled by the outcome Spinning in the round from which on no byte is asked for.
- LittleEndianBitStreams.LittleEndianOutputBitStream.WriteBits: errors of the stream beneath are not modelled.
- Bitmaps.BitmapView.FindNextRangeOfUnsetBits: words have 64 bits.
- BufferedStreams.InputBufferedSeekable.Seek: offsets are unbounded integers, so the wrap-around of a 64-bit offset near its limits is not modelled.
- BumpAllocators.AllocationsAreDisjoint: alignments are any positive number and rounding up is by division; the code rounds by a mask, which is the same for powers of two.
- CircularBuffers.CircularBuffer.FindCopyInSeekback: the overload with given distances only; the search by hash chains and memory search is not modelled.
- HashTables.HashTable.TryRehash: moves values by assignment; destructors, move construction and releasing memory are not modelled.
- The unordered hash table, iteration by bucket, copying and swapping tables.
- Increment, bitwise operations and fixed-size wrappers of multi-word integers.
- Reading a MinimalBigInt from text, its constructor from a 64-bit number, the power-of-five tables for doubles, rounding and the rest of floating-point parsing.
- create_initialized of the ring buffer, which starts full with an empty seekback area; offset_of; read_until and its relatives.
- find_best_fit, find_longest_range_of_unset_bits, find_one_anywhere and find_first of bitmaps.
- UniformBumpAllocator::destroy_all, and calls after deallocate_all.
- Cancelling an asynchronous operation by reset from elsewhere, closing streams, output streams and stream pairs.
- Basename, extension, parent and child tests of paths.
