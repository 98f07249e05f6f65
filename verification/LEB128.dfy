/** Reading LEB128 numbers, as section 7.6 of DWARF 5 defines them. */
module LEB128s {
  import opened Arithmetic
  import opened Bits
  import opened Common

  type Width = n: int | n == 8 || n == 16 || n == 32 || n == 64 witness 8

  // ----- The definition -----

  /** The bytes up to and including the first without the continuation bit, if there is one. */
  function Encoding(bytes: seq<Byte>): Option<seq<Byte>> {
    if bytes == [] then None
    else if bytes[0] < 128 then Some([bytes[0]])
    else match Encoding(bytes[1..])
      case None => None
      case Some(rest) => Some([bytes[0]] + rest)
  }

  /** The low seven bits of each byte, least significant first. */
  function Unsigned(code: seq<Byte>): nat {
    if code == [] then 0 else code[0] % 128 + 128 * Unsigned(code[1..])
  }

  /** The same as a two's complement number. */
  function Signed(code: seq<Byte>): int
    requires code != []
  {
    Unsigned(code) - if code[|code| - 1] % 128 >= 64 then Pow2(7 * |code|) else 0
  }

  /** The greatest number of bytes for a width: the width divided by seven, rounded up. */
  function MaxBytes(width: Width): nat {
    (width + 6) / 7
  }

  /** What reading an unsigned number should give. */
  ghost function UnsignedSpec(width: Width, bytes: seq<Byte>): Option<nat> {
    match Encoding(bytes)
    case None => None
    case Some(code) => if |code| <= MaxBytes(width) && Unsigned(code) < Pow2(width) then Some(Unsigned(code)) else None
  }

  ghost function SignedSpec(width: Width, bytes: seq<Byte>): Option<int> {
    match Encoding(bytes)
    case None => None
    case Some(code) =>
      CodeNotEmpty(bytes);
      if |code| <= MaxBytes(width) &&
        -(Pow2(width - 1) as int) <= Signed(code) < Pow2(width - 1) then Some(Signed(code)) else None
  }

  lemma CodeNotEmpty(bytes: seq<Byte>)
    ensures Encoding(bytes).Some? ==> Encoding(bytes).value != []
  {
  }

  // ----- Codes as far as they were read -----

  /** All bytes of `code` have the continuation bit. */
  predicate Continues(code: seq<Byte>) {
    forall i :: 0 <= i < |code| ==> code[i] >= 128
  }

  lemma {:induction false} EncodingAfter(code: seq<Byte>, rest: seq<Byte>)
    requires Continues(code)
    ensures Encoding(code + rest) == match Encoding(rest) case None => None case Some(tail) => Some(code + tail)
  {
    if code == [] {
      assert code + rest == rest;
      assert Encoding(rest).Some? ==> [] + Encoding(rest).value == Encoding(rest).value;
    } else {
      EncodingAfter(code[1..], rest);
      assert (code + rest)[1..] == code[1..] + rest;
      match Encoding(rest)
      case None =>
      case Some(tail) => assert [code[0]] + (code[1..] + tail) == code + tail;
    }
  }

  lemma {:induction false} UnsignedConcat(a: seq<Byte>, b: seq<Byte>)
    ensures Unsigned(a + b) == Unsigned(a) + Pow2(7 * |a|) * Unsigned(b)
  {
    if a == [] {
      assert a + b == b;
    } else {
      UnsignedConcat(a[1..], b);
      assert (a + b)[1..] == a[1..] + b;
      Pow2Of7();
      Pow2Add(7, 7 * (|a| - 1));
      MulAssoc(128, Pow2(7 * (|a| - 1)), Unsigned(b));
    }
  }

  lemma Pow2Of7()
    ensures Pow2(7) == 128
  {
    assert Pow2(3) == 8 && Pow2(4) == 16;
    Pow2Add(3, 4);
  }

  lemma {:induction false} UnsignedBound(code: seq<Byte>)
    ensures Unsigned(code) < Pow2(7 * |code|)
  {
    if code != [] {
      UnsignedBound(code[1..]);
      Pow2Of7();
      Pow2Add(7, 7 * (|code| - 1));
    }
  }

  lemma UnsignedOne(code: seq<Byte>, byte: Byte)
    ensures Unsigned(code + [byte]) == Unsigned(code) + (byte % 128) * Pow2(7 * |code|)
    ensures Unsigned(code) < Pow2(7 * |code|)
  {
    hide Unsigned, Pow2;
    UnsignedConcat(code, [byte]);
    UnsignedBound(code);
    UnsignedSingle(byte);
  }

  lemma UnsignedSingle(byte: Byte)
    ensures Unsigned([byte]) == byte % 128
  {
    assert [byte][1..] == [];
  }

  lemma EncodingEnds(code: seq<Byte>, byte: Byte, rest: seq<Byte>)
    requires Continues(code) && byte < 128
    ensures Encoding(code + ([byte] + rest)) == Some(code + [byte])
  {
    EncodingAfter(code, [byte] + rest);
  }

  /** If the next byte has the continuation bit, the code is at least two bytes longer. */
  lemma EncodingGoesOn(code: seq<Byte>, byte: Byte, rest: seq<Byte>)
    requires Continues(code) && byte >= 128
    ensures Encoding(code + ([byte] + rest)).Some? ==> |Encoding(code + ([byte] + rest)).value| >= |code| + 2
  {
    EncodingAfter(code, [byte] + rest);
    CodeNotEmpty(rest);
    assert ([byte] + rest)[1..] == rest;
  }

  lemma EncodingMissing(code: seq<Byte>)
    requires Continues(code)
    ensures Encoding(code).None?
  {
    EncodingAfter(code, []);
    assert code + [] == code;
  }

  // ----- Unsigned numbers -----

  /** The result with the bits of one more byte, in a type of `width` bits. */
  function WithBits(width: Width, result: nat, byte: Byte, shift: nat): nat {
    MulNonneg(byte % 128, Pow2(shift));
    Or(result, ((byte % 128) * Pow2(shift)) % Pow2(width))
  }

  lemma WithBitsFit(width: Width, code: seq<Byte>, byte: Byte)
    requires 7 * |code| < width && (byte % 128 < Pow2(width - 7 * |code|) || 7 * |code| + 7 <= width)
    ensures WithBits(width, Unsigned(code), byte, 7 * |code|) == Unsigned(code + [byte]) < Pow2(width)
  {
    hide Pow2, Or, Unsigned;
    var shift, m := 7 * |code|, byte % 128;
    UnsignedOne(code, byte);
    if shift + 7 <= width {
      Pow2Of7();
      Pow2Monotone(7, width - shift);
    }
    BelowShifted(Unsigned(code), m, shift, width - shift);
    Pow2Add(shift, width - shift);
    MulNonneg(m, Pow2(shift));
    Below(m * Pow2(shift), width, width);
    OrAbove(Unsigned(code), m, shift);
  }

  lemma BelowShifted(u: nat, m: nat, shift: nat, n: nat)
    requires u < Pow2(shift) && m < Pow2(n)
    ensures u + m * Pow2(shift) < Pow2(n) * Pow2(shift) == Pow2(shift + n)
  {
    MulLe(m + 1, Pow2(n), Pow2(shift));
    MulDist(m, 1, Pow2(shift));
    Pow2Add(n, shift);
  }

  /** A byte with bits above the width makes the number too large or the code too long. */
  lemma TooLarge(width: Width, code: seq<Byte>, byte: Byte, rest: seq<Byte>)
    requires Continues(code) && width - 7 <= 7 * |code| < width && byte / Pow2(width - 7 * |code|) != 0
    ensures UnsignedSpec(width, code + ([byte] + rest)).None?
  {
    hide Pow2, Unsigned, Encoding;
    var n := width - 7 * |code|;
    if byte >= 128 {
      EncodingGoesOn(code, byte, rest);
    } else {
      EncodingEnds(code, byte, rest);
      UnsignedOne(code, byte);
      QuotientMeans(byte, Pow2(n));
      MulLe(Pow2(n), byte, Pow2(7 * |code|));
      Pow2Add(n, 7 * |code|);
    }
  }

  lemma QuotientMeans(x: nat, p: nat)
    requires p > 0 && x / p != 0
    ensures x >= p
  {
    if x < p {
      DivModUnique(x, 0, x, p);
    }
  }

  /** read_from_stream for unsigned types: exactly the codes of the definition, and their values. */
  method ReadUnsigned(width: Width, bytes: seq<Byte>) returns (result: Option<nat>, consumed: nat)
    ensures result == UnsignedSpec(width, bytes)
    ensures result.Some? ==> consumed == |Encoding(bytes).value|
  {
    hide Pow2, Unsigned, WithBits, Encoding, UnsignedSpec;
    FirstByte(width, bytes);
    if bytes == [] {
      return None, 0;
    }
    var byte := bytes[0];
    if byte < 128 {
      return Some(byte), 1;
    }
    var value, numBytes: nat := byte % 128, 1;
    assert bytes[..1] == [byte];
    while true
      invariant 1 <= numBytes <= |bytes| && 7 * numBytes < width && Continues(bytes[..numBytes]) &&
                value == Unsigned(bytes[..numBytes])
      decreases |bytes| - numBytes
    {
      if numBytes == |bytes| {
        assert bytes[..numBytes] == bytes;
        NothingEncoded(width, bytes);
        return None, numBytes;
      }
      UnsignedStep(width, bytes, numBytes);
      byte := bytes[numBytes];
      value := WithBits(width, value, byte, 7 * numBytes);
      if 7 * numBytes >= width - 7 && byte / Pow2(width - 7 * numBytes) != 0 {
        return None, numBytes + 1;
      }
      numBytes := numBytes + 1;
      if byte < 128 {
        return Some(value), numBytes;
      }
    }
  }

  lemma NothingEncoded(width: Width, bytes: seq<Byte>)
    requires Continues(bytes)
    ensures UnsignedSpec(width, bytes).None?
  {
    EncodingMissing(bytes);
  }

  lemma FirstByte(width: Width, bytes: seq<Byte>)
    ensures bytes == [] ==> UnsignedSpec(width, bytes).None?
    ensures bytes != [] && bytes[0] < 128 ==>
              UnsignedSpec(width, bytes) == Some(bytes[0] as nat) && |Encoding(bytes).value| == 1
    ensures bytes != [] ==> Unsigned([bytes[0]]) == bytes[0] % 128
  {
    hide Pow2, Unsigned;
    if bytes != [] {
      OneByteFits(width, bytes[0]);
      assert bytes == [] + ([bytes[0]] + bytes[1..]) && [] + [bytes[0]] == [bytes[0]];
      if bytes[0] < 128 {
        EncodingEnds([], bytes[0], bytes[1..]);
      }
    }
  }

  lemma UnsignedStep(width: Width, bytes: seq<Byte>, numBytes: nat)
    requires numBytes < |bytes| && 7 * numBytes < width && Continues(bytes[..numBytes])
    ensures var byte, code := bytes[numBytes], bytes[..numBytes];
            if 7 * numBytes >= width - 7 && byte / Pow2(width - 7 * numBytes) != 0 then UnsignedSpec(width, bytes).None?
            else
              && WithBits(width, Unsigned(code), byte, 7 * numBytes) == Unsigned(bytes[..numBytes + 1])
              && (byte < 128 ==>
                    && UnsignedSpec(width, bytes) == Some(Unsigned(bytes[..numBytes + 1]))
                    && |Encoding(bytes).value| == numBytes + 1)
              && (byte >= 128 ==> 7 * (numBytes + 1) < width && Continues(bytes[..numBytes + 1]))
  {
    hide Pow2, Unsigned, WithBits, Encoding;
    var byte, code, rest := bytes[numBytes], bytes[..numBytes], bytes[numBytes + 1..];
    assert bytes == code + ([byte] + rest) && bytes[..numBytes + 1] == code + [byte];
    if 7 * numBytes >= width - 7 && byte / Pow2(width - 7 * numBytes) != 0 {
      TooLarge(width, code, byte, rest);
    } else {
      CheckedFits(width, numBytes, byte);
      WithBitsFit(width, code, byte);
      if byte < 128 {
        EncodingEnds(code, byte, rest);
      }
    }
  }

  lemma OneByteFits(width: Width, byte: Byte)
    ensures Unsigned([byte]) == byte % 128 < Pow2(width)
  {
    hide Pow2;
    UnsignedSingle(byte);
    Pow2Of7();
    Pow2Monotone(7, width);
  }

  /** A byte that passes the check fits, and if more follow there is room for them. */
  lemma CheckedFits(width: Width, numBytes: nat, byte: Byte)
    requires 7 * numBytes < width && (7 * numBytes < width - 7 || byte / Pow2(width - 7 * numBytes) == 0)
    ensures byte % 128 < Pow2(width - 7 * numBytes) || 7 * numBytes + 7 <= width
    ensures byte >= 128 ==> 7 * numBytes < width - 7
  {
    var n := width - 7 * numBytes;
    if 7 * numBytes >= width - 7 {
      DivMod(byte, Pow2(n));
      Pow2Of7();
      Pow2Monotone(n, 7);
    }
  }

  // ----- Signed numbers -----

  /** A pattern of `width` bits as a two's complement number. */
  function AsSigned(width: Width, pattern: nat): int {
    if pattern >= Pow2(width - 1) then pattern - Pow2(width) else pattern
  }

  /** The low seven bits as a two's complement number. */
  function Signed7(byte: Byte): int {
    if byte % 128 >= 64 then byte % 128 - 128 else byte % 128
  }

  /** (i8)(byte << 1) >> n, an arithmetic shift */
  function SignAndUnused(byte: Byte, n: nat): int {
    var doubled := (2 * byte as int) % 256;
    (if doubled >= 128 then doubled - 256 else doubled) / Pow2(n)
  }

  lemma SignedOne(code: seq<Byte>, byte: Byte)
    ensures Signed(code + [byte]) == Unsigned(code) + Signed7(byte) * Pow2(7 * |code|)
  {
    hide Pow2, Unsigned;
    UnsignedOne(code, byte);
    var p := Pow2(7 * |code|);
    Pow2Of7();
    Pow2Add(7, 7 * |code|);
    MulDist(byte % 128, 128, p);
  }

  /** The check on the last byte: what it leaves unused is all sign. */
  lemma SignAndUnusedMeans(byte: Byte, n: nat)
    requires 1 <= n <= 7
    ensures SignAndUnused(byte, n) == 0 || SignAndUnused(byte, n) == -1 <==>
              -(Pow2(n - 1) as int) <= Signed7(byte) < Pow2(n - 1)
  {
    var doubled := (2 * byte as int) % 256;
    var s := if doubled >= 128 then doubled - 256 else doubled;
    assert s == 2 * Signed7(byte);
    var p := Pow2(n - 1);
    assert Pow2(n) == 2 * p;
    FloorIs(s, 2 * p);
  }

  lemma FloorIs(s: int, p: nat)
    requires p > 0
    ensures s / p == 0 <==> 0 <= s < p
    ensures s / p == -1 <==> -(p as int) <= s < 0
  {
    DivMod(s, p);
    var q := s / p;
    if 0 <= s < p {
      DivModUnique(s, 0, s, p);
    }
    if -(p as int) <= s < 0 {
      DivModUnique(s, -1, s + p, p);
    }
  }

  /** The value of a last byte fits if and only if the whole number does. */
  lemma LastByteFits(width: Width, u: nat, s: int, shift: nat)
    requires shift < width && u < Pow2(shift)
    ensures -(Pow2(width - 1) as int) <= u + s * Pow2(shift) < Pow2(width - 1) <==>
              -(Pow2(width - shift - 1) as int) <= s < Pow2(width - shift - 1)
  {
    hide Pow2;
    var m, p := Pow2(width - shift - 1), Pow2(shift);
    Pow2Add(width - shift - 1, shift);
    BelowMultiple(u, s, p, m);
    BelowMultiple(u, s, p, -(m as int));
    MulDist(m, -(m as int), p);
  }

  lemma BelowMultiple(u: nat, s: int, p: nat, m: int)
    requires u < p
    ensures u + s * p < m * p <==> s < m
  {
    MulDist(m, s, p);
    if s < m {
      MulLe(1, m - s, p);
    } else {
      MulLe(m - s, 0, p);
    }
  }

  /** The last byte fills the pattern up to the width; bits beyond that are dropped. */
  lemma LastBits(width: Width, code: seq<Byte>, byte: Byte)
    requires 7 * |code| < width <= 7 * |code| + 7
    requires -(Pow2(width - 7 * |code| - 1) as int) <= Signed7(byte) < Pow2(width - 7 * |code| - 1)
    ensures AsSigned(width, WithBits(width, Unsigned(code), byte, 7 * |code|)) == Signed(code + [byte])
  {
    hide Or, Unsigned, Pow2, Signed, AsSigned;
    var shift, s, payload := 7 * |code|, Signed7(byte), byte % 128;
    var n := width - shift;
    UnsignedOne(code, byte);
    SignedOne(code, byte);
    PayloadMod(byte, n);
    var m := payload % Pow2(n);
    DivMod(payload, Pow2(n));
    ShiftedMod(payload, n, shift);
    OrAbove(Unsigned(code), m, shift);
    TwosComplement(width, Unsigned(code), s, m, shift);
  }

  lemma TwosComplement(width: Width, u: nat, s: int, m: nat, shift: nat)
    requires shift < width && u < Pow2(shift) && -(Pow2(width - shift - 1) as int) <= s < Pow2(width - shift - 1)
    requires m == if s < 0 then s + Pow2(width - shift) else s
    ensures u + m * Pow2(shift) >= 0 && AsSigned(width, u + m * Pow2(shift)) == u + s * Pow2(shift)
  {
    hide Pow2;
    var n := width - shift;
    LastByteFits(width, u, s, shift);
    Pow2Add(n, shift);
    MulDist(s, Pow2(n), Pow2(shift));
    MulNonneg(m, Pow2(shift));
    Pow2Half(width);
    MulSign(s, Pow2(shift));
  }

  lemma MulSign(s: int, p: nat)
    requires p > 0
    ensures s >= 0 ==> s * p >= 0
    ensures s < 0 ==> s * p <= -(p as int)
  {
    if s < 0 {
      MulLe(s, -1, p);
    }
  }

  lemma Pow2Half(width: Width)
    ensures Pow2(width) == 2 * Pow2(width - 1)
  {
  }

  lemma PayloadMod(byte: Byte, n: nat)
    requires 1 <= n <= 7 && -(Pow2(n - 1) as int) <= Signed7(byte) < Pow2(n - 1)
    ensures (byte % 128) % Pow2(n) == if Signed7(byte) < 0 then Signed7(byte) + Pow2(n) else Signed7(byte)
  {
    var payload, s := byte % 128, Signed7(byte);
    assert Pow2(n) == 2 * Pow2(n - 1);
    if s >= 0 {
      Below(payload, n, n);
    } else {
      Pow2Of7();
      Pow2Add(n, 7 - n);
      var q := Pow2(7 - n) - 1;
      MulDist(Pow2(7 - n), 1, Pow2(n));
      DivModUnique(payload, q, s + Pow2(n), Pow2(n));
    }
  }

  lemma ShiftedMod(x: nat, n: nat, shift: nat)
    ensures (x * Pow2(shift)) % Pow2(n + shift) == (x % Pow2(n)) * Pow2(shift)
  {
    var p, q := Pow2(n), Pow2(shift);
    DivMod(x, p);
    Pow2Add(n, shift);
    MulDist((x / p) * p, x % p, q);
    MulAssoc(x / p, p, q);
    MulNonneg(x % p, q);
    MulLt(x % p, p, q);
    DivModUnique(x * q, x / p, (x % p) * q, p * q);
  }

  /** A byte before the last: the number is complete, and its sign is extended. */
  lemma SignExtended(width: Width, code: seq<Byte>, byte: Byte)
    requires 7 * |code| + 7 < width
    ensures WithBits(width, Unsigned(code), byte, 7 * |code|) == Unsigned(code + [byte]) < Pow2(7 * |code| + 7)
    ensures -(Pow2(width - 1) as int) <= Signed(code + [byte]) < Pow2(width - 1)
    ensures var result, shift := Unsigned(code + [byte]), 7 * |code| + 7;
            && Pow2(width) >= Pow2(shift)
            && AsSigned(width, if byte % 128 >= 64 then Or(result, Pow2(width) - Pow2(shift)) else result)
               == Signed(code + [byte])
  {
    hide Pow2, Or, Unsigned;
    var result, shift := Unsigned(code + [byte]), 7 * |code| + 7;
    WithBitsFit(width, code, byte);
    UnsignedBound(code + [byte]);
    Pow2Monotone(shift, width - 1);
    Pow2Half(width);
    var n := width - shift;
    Pow2Add(n, shift);
    MulDist(Pow2(n), 1, Pow2(shift));
    Pow2Positive(n);
    OrAbove(result, Pow2(n) - 1, shift);
    assert 7 * |code + [byte]| == shift;
  }

  lemma Pow2Positive(n: nat)
    ensures Pow2(n) >= 1
  {
  }

  /** read_from_stream for signed types: exactly the codes of the definition, and their values. */
  method ReadSigned(width: Width, bytes: seq<Byte>) returns (value: Option<int>, consumed: nat)
    ensures value == SignedSpec(width, bytes)
    ensures value.Some? ==> consumed == |Encoding(bytes).value|
  {
    hide Pow2, Unsigned, WithBits, Encoding, Signed, AsSigned, SignAndUnused, Or, SignedSpec;
    var result, numBytes: nat := 0, 0;
    UnsignedNothing();
    while true
      invariant numBytes <= |bytes| && 7 * numBytes < width && Continues(bytes[..numBytes]) &&
                result == Unsigned(bytes[..numBytes])
      decreases |bytes| - numBytes
    {
      var shift := 7 * numBytes;
      SignedStep(width, bytes, numBytes);
      if numBytes == |bytes| {
        return None, numBytes;
      }
      var byte := bytes[numBytes];
      result := WithBits(width, result, byte, shift);
      numBytes := numBytes + 1;
      if shift >= width - 7 {
        var signAndUnused := SignAndUnused(byte, width - shift);
        if byte >= 128 {
          return None, numBytes;
        }
        if signAndUnused != 0 && signAndUnused != -1 {
          return None, numBytes;
        }
        return Some(AsSigned(width, result)), numBytes;
      }
      shift := shift + 7;
      if byte < 128 {
        if byte % 128 >= 64 {
          result := Or(result, Pow2(width) - Pow2(shift));
        }
        return Some(AsSigned(width, result)), numBytes;
      }
    }
  }

  lemma SignedStep(width: Width, bytes: seq<Byte>, numBytes: nat)
    requires numBytes <= |bytes| && 7 * numBytes < width && Continues(bytes[..numBytes])
    ensures numBytes == |bytes| ==> SignedSpec(width, bytes).None?
    ensures numBytes < |bytes| ==>
              var byte, shift := bytes[numBytes], 7 * numBytes;
              var result := WithBits(width, Unsigned(bytes[..numBytes]), byte, shift);
              if shift >= width - 7 then
                var signAndUnused := SignAndUnused(byte, width - shift);
                if byte >= 128 || (signAndUnused != 0 && signAndUnused != -1) then SignedSpec(width, bytes).None?
                else
                  && SignedSpec(width, bytes) == Some(AsSigned(width, result))
                  && Encoding(bytes).Some? && |Encoding(bytes).value| == numBytes + 1
              else
                && result == Unsigned(bytes[..numBytes + 1]) && Pow2(width) >= Pow2(shift + 7)
                && (byte >= 128 ==> Continues(bytes[..numBytes + 1]))
                && (byte < 128 ==>
                      && Encoding(bytes).Some? && |Encoding(bytes).value| == numBytes + 1
                      && SignedSpec(width, bytes) ==
                         Some(AsSigned(width, if byte % 128 >= 64 then Or(result, Pow2(width) - Pow2(shift + 7))
                                       else result)))
  {
    hide Pow2, Unsigned, WithBits, Encoding, Signed, AsSigned, SignAndUnused, Or, SignedSpec, Continues;
    var code := bytes[..numBytes];
    if numBytes == |bytes| {
      assert code == bytes;
      EncodingMissing(bytes);
      NoCodeNoNumber(width, bytes);
    } else {
      var byte, rest := bytes[numBytes], bytes[numBytes + 1..];
      assert bytes == code + ([byte] + rest) && bytes[..numBytes + 1] == code + [byte];
      if 7 * numBytes >= width - 7 {
        LastByteDecides(width, code, byte, rest);
      } else {
        SignExtended(width, code, byte);
        EarlyByte(width, code, byte, rest);
      }
    }
  }

  lemma NoCodeNoNumber(width: Width, bytes: seq<Byte>)
    ensures Encoding(bytes).None? ==> SignedSpec(width, bytes).None?
  {
  }

  /** A byte before the last that fits ends the code or continues it. */
  lemma EarlyByte(width: Width, code: seq<Byte>, byte: Byte, rest: seq<Byte>)
    requires Continues(code) && 7 * |code| + 7 < width
    requires -(Pow2(width - 1) as int) <= Signed(code + [byte]) < Pow2(width - 1)
    ensures byte >= 128 ==> Continues(code + [byte])
    ensures var all := code + ([byte] + rest);
            byte < 128 ==> Encoding(all) == Some(code + [byte]) && SignedSpec(width, all) == Some(Signed(code + [byte]))
  {
    hide Pow2, Encoding, Signed;
    if byte < 128 {
      EncodingEnds(code, byte, rest);
    }
  }

  lemma UnsignedNothing()
    ensures Unsigned([]) == 0
  {
  }

  lemma LastByteDecides(width: Width, code: seq<Byte>, byte: Byte, rest: seq<Byte>)
    requires Continues(code) && width - 7 <= 7 * |code| < width
    ensures var signAndUnused, all := SignAndUnused(byte, width - 7 * |code|), code + ([byte] + rest);
            && (byte >= 128 ==> SignedSpec(width, all).None?)
            && (byte < 128 ==> Encoding(all) == Some(code + [byte]))
            && (byte < 128 && signAndUnused != 0 && signAndUnused != -1 ==> SignedSpec(width, all).None?)
            && (byte < 128 && (signAndUnused == 0 || signAndUnused == -1) ==>
                  SignedSpec(width, all) == Some(AsSigned(width, WithBits(width, Unsigned(code), byte, 7 * |code|))))
  {
    hide Pow2, Unsigned, WithBits, Signed, AsSigned, SignAndUnused, Signed7, Encoding;
    var n := width - 7 * |code|;
    if byte >= 128 {
      EncodingGoesOn(code, byte, rest);
    } else {
      EncodingEnds(code, byte, rest);
      SignAndUnusedMeans(byte, n);
      UnsignedOne(code, byte);
      SignedOne(code, byte);
      LastByteFits(width, Unsigned(code), Signed7(byte), 7 * |code|);
      if -(Pow2(n - 1) as int) <= Signed7(byte) < Pow2(n - 1) {
        LastBits(width, code, byte);
      }
    }
  }
}
