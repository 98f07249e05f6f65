/** Recognizing and converting eight decimal digits at once, in one 64-bit word on a little-endian host. */
module EightDigits {
  import opened Arithmetic
  import opened Bits
  import opened Common

  const U64: nat := 0x1_0000_0000_0000_0000

  // ----- Digit by digit -----

  predicate IsDigit(c: Byte) {
    0x30 <= c <= 0x39
  }

  predicate AllDigits(chars: seq<Byte>) {
    forall i :: 0 <= i < |chars| ==> IsDigit(chars[i])
  }

  function Digit(c: Byte): int {
    (c as int) - 0x30
  }

  /** The number that digits stand for. */
  function Decimal(chars: seq<Byte>): int {
    if chars == [] then 0 else 10 * Decimal(chars[..|chars| - 1]) + Digit(chars[|chars| - 1])
  }

  // ----- All at once -----

  /** has_eight_digits */
  predicate HasEightDigits(value: nat)
    requires value < U64
  {
    And(Or((value + 0x4646464646464646) % U64, (value + U64 - 0x3030303030303030) % U64), 0x8080808080808080) == 0
  }

  /** eight_digits_to_value */
  function EightDigitsToValue(value: nat): int
    requires 0x3030303030303030 <= value < U64
  {
    var digits := value - 0x3030303030303030;
    var pairs := And(((digits * (256 * 10 + 1)) % U64) / 256, 0x00FF00FF00FF00FF);
    var quads := And(((pairs * (65536 * 100 + 1)) % U64) / 65536, 0x0000FFFF0000FFFF);
    ((quads * (4294967296 * 10000 + 1)) % U64) / 4294967296
  }

  // ----- Lanes -----

  /** Bitwise operators work on low and high parts separately. */
  lemma {:induction false} OrParts(a: nat, b: nat, c: nat, d: nat, k: nat)
    requires a < Pow2(k) && c < Pow2(k)
    ensures Or(a + b * Pow2(k), c + d * Pow2(k)) == Or(a, c) + Or(b, d) * Pow2(k)
  {
    if k == 0 {
      OrZero(0);
    } else {
      OrParts(a / 2, b, c / 2, d, k - 1);
      var p := Pow2(k - 1);
      PartsHalve(a, b, p);
      PartsHalve(c, d, p);
      OrHalves(a + b * Pow2(k), c + d * Pow2(k));
      OrHalves(a, c);
      MulTwice(Or(b, d), p);
    }
  }

  lemma {:induction false} AndParts(a: nat, b: nat, c: nat, d: nat, k: nat)
    requires a < Pow2(k) && c < Pow2(k)
    ensures And(a + b * Pow2(k), c + d * Pow2(k)) == And(a, c) + And(b, d) * Pow2(k)
  {
    if k == 0 {
      AndZero(0);
    } else {
      AndParts(a / 2, b, c / 2, d, k - 1);
      var p := Pow2(k - 1);
      PartsHalve(a, b, p);
      PartsHalve(c, d, p);
      AndHalves(a + b * Pow2(k), c + d * Pow2(k));
      AndHalves(a, c);
      MulTwice(And(b, d), p);
    }
  }

  lemma PartsHalve(a: nat, b: nat, p: nat)
    ensures a + b * (2 * p) >= 0 && (a + b * (2 * p)) / 2 == a / 2 + b * p && (a + b * (2 * p)) % 2 == a % 2
  {
    MulTwice(b, p);
    MulNonneg(b, p);
  }

  lemma OrHalves(a: nat, b: nat)
    ensures Or(a, b) == Bit(a % 2 == 1 || b % 2 == 1) + 2 * Or(a / 2, b / 2)
  {
    OrZero(0);
  }

  lemma AndHalves(a: nat, b: nat)
    ensures And(a, b) == Bit(a % 2 == 1 && b % 2 == 1) + 2 * And(a / 2, b / 2)
  {
    AndZero(0);
  }

  lemma {:induction false} OrBound(a: nat, b: nat, k: nat)
    requires a < Pow2(k) && b < Pow2(k)
    ensures Or(a, b) < Pow2(k)
  {
    if k == 0 {
      OrZero(0);
    } else {
      OrBound(a / 2, b / 2, k - 1);
      OrHalves(a, b);
    }
  }

  /** The top bits of the bytes of two words are all zero: one byte of each, and the others. */
  lemma TopBits(a: nat, b: nat, c: nat, d: nat, m: nat)
    requires a < 256 && c < 256
    ensures And(Or(a + 256 * b, c + 256 * d), 0x80 + 256 * m) == 0 <==> a < 128 && c < 128 && And(Or(b, d), m) == 0
  {
    hide And, Or, Pow2;
    Pow2Of8();
    OrParts(a, b, c, d, 8);
    OrBound(a, c, 8);
    AndParts(Or(a, c), Or(b, d), 0x80, m, 8);
    TopBit(a, c);
  }

  lemma TopBit(a: nat, c: nat)
    requires a < 256 && c < 256
    ensures And(Or(a, c), 0x80) == 0 <==> a < 128 && c < 128
  {
    hide And, Or, Pow2;
    Pow2Of7();
    OrParts(a % 128, a / 128, c % 128, c / 128, 7);
    OrBound(a % 128, c % 128, 7);
    AndParts(Or(a % 128, c % 128), Or(a / 128, c / 128), 0, 1, 7);
    AndZero(Or(a % 128, c % 128));
    OneBit(a / 128, c / 128);
  }

  lemma Pow2Of7()
    ensures Pow2(7) == 128
  {
    assert Pow2(3) == 8 && Pow2(4) == 16;
    Pow2Add(3, 4);
  }

  lemma OneBit(a: nat, b: nat)
    requires a < 2 && b < 2
    ensures And(Or(a, b), 1) == if a == 0 && b == 0 then 0 else 1
  {
    OrZero(0);
    OrHalves(a, b);
    AndZero(0);
    AndHalves(Or(a, b), 1);
  }

  // ----- Recognizing -----

  /** A word of `n` equal bytes. */
  function Filled(b: nat, n: nat): nat {
    if n == 0 then 0 else b + 256 * Filled(b, n - 1)
  }

  /** has_eight_digits for any number of bytes */
  predicate HasDigits(value: nat, n: nat) {
    And(Or((value + Filled(0x46, n)) % Pow2(8 * n), (value - Filled(0x30, n)) % Pow2(8 * n)), Filled(0x80, n)) == 0
  }

  lemma ModParts(low: int, high: int, w: nat)
    requires 0 <= low < 256 && w > 0
    ensures (low + 256 * high) % (256 * w) == low + 256 * (high % w)
  {
    DivMod(high, w);
    var q, r := high / w, high % w;
    MulAssoc(256, q, w);
    assert q * (256 * w) == 256 * (q * w);
    DivModUnique(low + 256 * high, q, low + 256 * r, 256 * w);
  }

  /** A byte that is no digit shows, whatever it carries into the next ones; one that is carries nothing. */
  lemma {:induction false} HasDigitsIff(chars: seq<Byte>)
    ensures HasDigits(FromBytes(chars), |chars|) <==> AllDigits(chars)
  {
    hide HasDigits, FromBytes, AllDigits;
    if chars == [] {
      NoDigits();
    } else {
      HasDigitsIff(chars[1..]);
      FirstAndRest(chars);
      HasDigitsStep(chars[0], FromBytes(chars[1..]), |chars| - 1);
    }
  }

  lemma NoDigits()
    ensures HasDigits(FromBytes([]), 0) && AllDigits([])
  {
    OrZero(0);
    AndZero(0);
  }

  lemma FirstAndRest(chars: seq<Byte>)
    requires chars != []
    ensures FromBytes(chars) == chars[0] + 256 * FromBytes(chars[1..])
    ensures AllDigits(chars) <==> IsDigit(chars[0]) && AllDigits(chars[1..])
  {
    assert forall i :: 1 <= i < |chars| ==> chars[i] == chars[1..][i - 1];
  }

  lemma HasDigitsStep(c: Byte, rest: nat, n: nat)
    ensures HasDigits(c + 256 * rest, n + 1) <==> IsDigit(c) && HasDigits(rest, n)
  {
    hide And, Or, Pow2, Filled;
    var w := Pow2(8 * n);
    Pow2Of8();
    Pow2Add(8, 8 * n);
    FilledMore(0x46, n);
    FilledMore(0x30, n);
    FilledMore(0x80, n);
    var k: int := c;
    var up, down := if k + 0x46 < 256 then 0 else 1, if k >= 0x30 then 0 else 1;
    var x, y := rest + Filled(0x46, n) + up, rest - Filled(0x30, n) - down;
    ModParts(k + 0x46 - 256 * up, x, w);
    ModParts(k - 0x30 + 256 * down, y, w);
    DivMod(x, w);
    DivMod(y, w);
    TopBits(k + 0x46 - 256 * up, x % w, k - 0x30 + 256 * down, y % w, Filled(0x80, n));
  }

  lemma FilledMore(b: nat, n: nat)
    ensures Filled(b, n + 1) == b + 256 * Filled(b, n)
  {
  }

  lemma FilledWords()
    ensures Filled(0x46, 8) == 0x4646464646464646 && Filled(0x30, 8) == 0x3030303030303030 &&
            Filled(0x80, 8) == 0x8080808080808080
  {
    FilledIs(0x46);
    FilledIs(0x30);
    FilledIs(0x80);
  }

  lemma FilledIs(b: nat)
    ensures Filled(b, 8) == b * 0x0101010101010101
  {
    assert Filled(b, 1) == b;
    assert Filled(b, 2) == b + 256 * Filled(b, 1);
    assert Filled(b, 3) == b + 256 * Filled(b, 2);
    assert Filled(b, 4) == b + 256 * Filled(b, 3);
    assert Filled(b, 5) == b + 256 * Filled(b, 4);
    assert Filled(b, 6) == b + 256 * Filled(b, 5);
    assert Filled(b, 7) == b + 256 * Filled(b, 6);
    assert Filled(b, 8) == b + 256 * Filled(b, 7);
  }

  lemma Pow2Of64()
    ensures Pow2(64) == U64
  {
    hide Pow2;
    Pow2Of8();
    Pow2Add(8, 8);
    Pow2Add(16, 16);
    Pow2Add(32, 32);
  }

  /** The test on the whole word is the test on every character. */
  lemma HasEightDigitsIff(chars: seq<Byte>)
    requires |chars| == 8
    ensures FromBytes(chars) < U64 && (HasEightDigits(FromBytes(chars)) <==> AllDigits(chars))
  {
    hide And, Or, Pow2, FromBytes, Filled, AllDigits, Value, BytesBits;
    var value: int := FromBytes(chars);
    FromBytesBits(chars);
    ValueBound(BytesBits(chars));
    Pow2Of64();
    FilledWords();
    HasDigitsIff(chars);
    WrapsAround(value - 0x3030303030303030);
  }

  lemma WrapsAround(x: int)
    ensures (x + U64) % U64 == x % U64
  {
  }

  // ----- Converting -----

  /** Every other byte is kept. */
  lemma KeepBytes(p: nat, q: nat, h: nat, k: nat)
    requires p < 256 && q < 256
    ensures And(p + 256 * q + 65536 * h, 0xFF + 65536 * k) == p + 65536 * And(h, k)
  {
    hide And, Pow2;
    Pow2Of8();
    AndParts(p, q + 256 * h, 0xFF, 256 * k, 8);
    AndParts(q, h, 0, k, 8);
    AndMask(p, 8);
    AndZero(q);
  }

  /** Every other pair of bytes is kept. */
  lemma KeepPairs(p: nat, q: nat, h: nat, k: nat)
    requires p < 65536 && q < 65536
    ensures And(p + 65536 * q + 4294967296 * h, 0xFFFF + 4294967296 * k) == p + 4294967296 * And(h, k)
  {
    hide And, Pow2;
    Pow2Of8();
    Pow2Add(8, 8);
    AndParts(p, q + 65536 * h, 0xFFFF, 65536 * k, 16);
    AndParts(q, h, 0, k, 16);
    AndMask(p, 16);
    AndZero(q);
  }

  /** Eight bytes as one number. */
  function Word(a: int, b: int, c: int, d: int, e: int, f: int, g: int, h: int): int {
    a + 256 * (b + 256 * (c + 256 * (d + 256 * (e + 256 * (f + 256 * (g + 256 * h))))))
  }

  /** Multiplying by 2561 and dropping a byte gives ten times each digit plus the next; every other one is kept. */
  lemma ToPairs(a: nat, b: nat, c: nat, d: nat, e: nat, f: nat, g: nat, h: nat)
    requires a < 10 && b < 10 && c < 10 && d < 10 && e < 10 && f < 10 && g < 10 && h < 10
    ensures And(((Word(a, b, c, d, e, f, g, h) * (256 * 10 + 1)) % U64) / 256, 0x00FF00FF00FF00FF)
            == Word(10 * a + b, 0, 10 * c + d, 0, 10 * e + f, 0, 10 * g + h, 0)
  {
    hide And;
    var x := Word(10 * a + b, 10 * b + c, 10 * c + d, 10 * d + e, 10 * e + f, 10 * f + g, 10 * g + h, 0);
    var product := Word(a, b, c, d, e, f, g, h) * (256 * 10 + 1);
    assert product == (10 * h) * U64 + (a + 256 * x);
    DivModUnique(product, 10 * h, a + 256 * x, U64);
    assert (a + 256 * x) / 256 == x;
    EveryOther(10 * a + b, 10 * b + c, 10 * c + d, 10 * d + e, 10 * e + f, 10 * f + g, 10 * g + h);
  }

  lemma EveryOther(p: nat, q: nat, r: nat, s: nat, t: nat, u: nat, v: nat)
    requires p < 256 && q < 256 && r < 256 && s < 256 && t < 256 && u < 256 && v < 256
    ensures And(Word(p, q, r, s, t, u, v, 0), 0x00FF00FF00FF00FF) == Word(p, 0, r, 0, t, 0, v, 0)
  {
    hide And;
    AndZero(0);
    KeepBytes(v, 0, 0, 0);
    KeepBytes(t, u, v, 0xFF);
    KeepBytes(r, s, t + 256 * u + 65536 * v, 0x00FF00FF);
    KeepBytes(p, q, r + 256 * s + 65536 * (t + 256 * u + 65536 * v), 0x00FF00FF00FF);
  }

  lemma ToQuads(p: nat, q: nat, r: nat, s: nat)
    requires p < 100 && q < 100 && r < 100 && s < 100
    ensures And(((Word(p, 0, q, 0, r, 0, s, 0) * (65536 * 100 + 1)) % U64) / 65536, 0x0000FFFF0000FFFF)
            == (100 * p + q) + 4294967296 * (100 * r + s)
  {
    hide And;
    var x := (100 * p + q) + 65536 * (100 * q + r) + 4294967296 * (100 * r + s);
    var product := Word(p, 0, q, 0, r, 0, s, 0) * (65536 * 100 + 1);
    assert product == (100 * s) * U64 + (p + 65536 * x);
    DivModUnique(product, 100 * s, p + 65536 * x, U64);
    AndZero(0);
    KeepPairs(100 * r + s, 0, 0, 0);
    KeepPairs(100 * p + q, 100 * q + r, 100 * r + s, 0xFFFF);
  }

  lemma ToNumber(p: nat, q: nat)
    requires p < 10000 && q < 10000
    ensures (((p + 4294967296 * q) * (4294967296 * 10000 + 1)) % U64) / 4294967296 == 10000 * p + q
  {
    var product := (p + 4294967296 * q) * (4294967296 * 10000 + 1);
    assert product == (10000 * q) * U64 + (p + 4294967296 * (10000 * p + q));
    DivModUnique(product, 10000 * q, p + 4294967296 * (10000 * p + q), U64);
  }

  lemma EightBytes(chars: seq<Byte>)
    requires |chars| == 8
    ensures FromBytes(chars) == Word(chars[0], chars[1], chars[2], chars[3], chars[4], chars[5], chars[6], chars[7])
  {
    hide FromBytes;
    TwoBytes(chars, 0);
    TwoBytes(chars, 2);
    TwoBytes(chars, 4);
    TwoBytes(chars, 6);
    assert chars[0..] == chars && chars[8..] == [];
    NoBytes();
  }

  lemma NoBytes()
    ensures FromBytes([]) == 0
  {
  }

  lemma TwoBytes(chars: seq<Byte>, i: nat)
    requires i + 2 <= |chars|
    ensures FromBytes(chars[i..]) == (chars[i] as int) + 256 * ((chars[i + 1] as int) + 256 * FromBytes(chars[i + 2..]))
  {
    assert chars[i..][1..] == chars[i + 1..] && chars[i + 1..][1..] == chars[i + 2..];
  }

  lemma TwoDigits(chars: seq<Byte>, i: nat)
    requires i + 2 <= |chars|
    ensures Decimal(chars[..i + 2]) == 100 * Decimal(chars[..i]) + 10 * Digit(chars[i]) + Digit(chars[i + 1])
  {
    assert chars[..i + 2][..i + 1] == chars[..i + 1] && chars[..i + 1][..i] == chars[..i];
  }

  lemma DecimalOfEight(chars: seq<Byte>, a: int, b: int, c: int, d: int, e: int, f: int, g: int, h: int)
    requires |chars| == 8
    requires a == Digit(chars[0]) && b == Digit(chars[1]) && c == Digit(chars[2]) && d == Digit(chars[3])
    requires e == Digit(chars[4]) && f == Digit(chars[5]) && g == Digit(chars[6]) && h == Digit(chars[7])
    ensures Decimal(chars) == 10000 * (100 * (10 * a + b) + (10 * c + d)) + 100 * (10 * e + f) + (10 * g + h)
  {
    hide Decimal;
    TwoDigits(chars, 0);
    TwoDigits(chars, 2);
    TwoDigits(chars, 4);
    TwoDigits(chars, 6);
    assert chars[..0] == [] && chars[..8] == chars;
    NothingDecimal();
  }

  lemma NothingDecimal()
    ensures Decimal([]) == 0
  {
  }

  lemma ConvertWord(a: nat, b: nat, c: nat, d: nat, e: nat, f: nat, g: nat, h: nat)
    requires a < 10 && b < 10 && c < 10 && d < 10 && e < 10 && f < 10 && g < 10 && h < 10
    ensures var value := Word(a, b, c, d, e, f, g, h) + 0x3030303030303030;
            && 0x3030303030303030 <= value < U64
            && EightDigitsToValue(value)
               == 10000 * (100 * (10 * a + b) + (10 * c + d)) + (100 * (10 * e + f) + (10 * g + h))
  {
    WordBound(a, b, c, d, e, f, g, h);
    hide And, Word;
    ToPairs(a, b, c, d, e, f, g, h);
    ToQuads(10 * a + b, 10 * c + d, 10 * e + f, 10 * g + h);
    ToNumber(100 * (10 * a + b) + (10 * c + d), 100 * (10 * e + f) + (10 * g + h));
  }

  lemma WordBound(a: nat, b: nat, c: nat, d: nat, e: nat, f: nat, g: nat, h: nat)
    requires a < 10 && b < 10 && c < 10 && d < 10 && e < 10 && f < 10 && g < 10 && h < 10
    ensures 0 <= Word(a, b, c, d, e, f, g, h) < U64 - 0x3030303030303030
  {
  }

  lemma WordOfDigits(a: int, b: int, c: int, d: int, e: int, f: int, g: int, h: int)
    ensures Word(a, b, c, d, e, f, g, h)
            == Word(a - 0x30, b - 0x30, c - 0x30, d - 0x30, e - 0x30, f - 0x30, g - 0x30, h - 0x30) + 0x3030303030303030
  {
  }

  /** The conversion of the whole word gives the number the digits stand for. */
  lemma EightDigitsToValueIs(chars: seq<Byte>)
    requires |chars| == 8 && AllDigits(chars)
    ensures 0x3030303030303030 <= FromBytes(chars) < U64 && EightDigitsToValue(FromBytes(chars)) == Decimal(chars)
  {
    hide FromBytes, Decimal, Word, EightDigitsToValue;
    EightBytes(chars);
    WordOfDigits(chars[0], chars[1], chars[2], chars[3], chars[4], chars[5], chars[6], chars[7]);
    var a, b, c, d := Digit(chars[0]), Digit(chars[1]), Digit(chars[2]), Digit(chars[3]);
    var e, f, g, h := Digit(chars[4]), Digit(chars[5]), Digit(chars[6]), Digit(chars[7]);
    ConvertWord(a, b, c, d, e, f, g, h);
    DecimalOfEight(chars, a, b, c, d, e, f, g, h);
  }

  // ----- Parsing -----

  /** `value` with more decimal digits appended. */
  function Appended(value: int, chars: seq<Byte>): int {
    if chars == [] then value else 10 * Appended(value, chars[..|chars| - 1]) + Digit(chars[|chars| - 1])
  }

  lemma AppendedOne(value: int, chars: seq<Byte>, i: nat)
    requires i < |chars|
    ensures Appended(value, chars[..i + 1]) == 10 * Appended(value, chars[..i]) + Digit(chars[i])
  {
    assert chars[..i + 1][..i] == chars[..i];
  }

  lemma AppendedTwo(value: int, chars: seq<Byte>, i: nat)
    requires i + 2 <= |chars|
    ensures Appended(value, chars[..i + 2])
            == 100 * Appended(value, chars[..i]) + 10 * Digit(chars[i]) + Digit(chars[i + 1])
  {
    AppendedOne(value, chars, i);
    AppendedOne(value, chars, i + 1);
  }

  /** Eight digits at once are eight digits one after the other. */
  lemma AppendedEight(value: int, chars: seq<Byte>, i: nat)
    requires i + 8 <= |chars|
    ensures Appended(value, chars[..i + 8]) == 100000000 * Appended(value, chars[..i]) + Decimal(chars[i..i + 8])
  {
    hide Appended, Decimal;
    AppendedTwo(value, chars, i);
    AppendedTwo(value, chars, i + 2);
    AppendedTwo(value, chars, i + 4);
    AppendedTwo(value, chars, i + 6);
    var eight := chars[i..i + 8];
    DecimalOfEight(eight, Digit(eight[0]), Digit(eight[1]), Digit(eight[2]), Digit(eight[3]),
                   Digit(eight[4]), Digit(eight[5]), Digit(eight[6]), Digit(eight[7]));
  }

  lemma ScaledModulo(value: int, scale: nat, more: int)
    ensures (scale * (value % U64) + more) % U64 == (scale * value + more) % U64
  {
    DivMod(value, U64);
    var q, r := value / U64, value % U64;
    MulDist(q * U64, r, scale);
    MulAssoc(scale, q, U64);
    DivMod(scale * r + more, U64);
    MulDist(scale * q, (scale * r + more) / U64, U64);
    DivModUnique(scale * value + more, scale * q + (scale * r + more) / U64, (scale * r + more) % U64, U64);
  }

  /** fast_parse_decimal: the digits at the front, continuing a 64-bit number; eight at a time while that goes. */
  method FastParseDecimal(chars: seq<Byte>, start: nat) returns (value: nat, read: nat)
    requires start < U64
    ensures read <= |chars| && AllDigits(chars[..read]) && (read < |chars| ==> !IsDigit(chars[read]))
    ensures value == Appended(start, chars[..read]) % U64
  {
    hide Appended, Decimal, FromBytes, HasEightDigits, EightDigitsToValue;
    value, read := start, 0;
    AppendedNone(start);
    while read + 8 <= |chars|
      invariant read <= |chars| && AllDigits(chars[..read]) && value == Appended(start, chars[..read]) % U64
    {
      ghost var eight := chars[read..read + 8];
      HasEightDigitsIff(eight);
      if !HasEightDigits(FromBytes(chars[read..read + 8])) {
        break;
      }
      EightDigitsToValueIs(eight);
      AppendedEight(start, chars, read);
      MoreDigits(chars, read, 8);
      ScaledModulo(Appended(start, chars[..read]), 100000000, Decimal(eight));
      value := (100000000 * value + EightDigitsToValue(FromBytes(chars[read..read + 8]))) % U64;
      read := read + 8;
    }
    while read < |chars| && IsDigit(chars[read])
      invariant read <= |chars| && AllDigits(chars[..read]) && value == Appended(start, chars[..read]) % U64
    {
      AppendedOne(start, chars, read);
      ScaledModulo(Appended(start, chars[..read]), 10, Digit(chars[read]));
      value := (10 * value + Digit(chars[read])) % U64;
      read := read + 1;
    }
  }

  lemma AppendedNone(value: nat)
    requires value < U64
    ensures Appended(value, []) % U64 == value
  {
  }

  lemma MoreDigits(chars: seq<Byte>, i: nat, n: nat)
    requires i + n <= |chars| && AllDigits(chars[..i]) && AllDigits(chars[i..i + n])
    ensures AllDigits(chars[..i + n])
  {
    var all, part := chars[..i + n], chars[i..i + n];
    forall j | 0 <= j < i + n
      ensures IsDigit(all[j])
    {
      if j < i {
        assert all[j] == chars[..i][j];
      } else {
        assert all[j] == part[j - i];
      }
    }
  }
}
