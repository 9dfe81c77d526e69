/** Database session ids: two 64-bit words as twenty base-36 characters and back. */
module SessionId {
  import opened Arithmetic
  import opened Options

  const U64: nat := 0x1_0000_0000_0000_0000
  const BYTE: nat := 0x100
  const TWO_62: nat := 0x4000_0000_0000_0000

  // ----- digits

  /** The digits '0' to '9', then the letters. */
  function DigitChar(d: nat, uppercase: bool): (c: char)
    requires d < 36
  {
    if d < 10 then '0' + d as char else (if uppercase then 'A' else 'a') + (d - 10) as char
  }

  datatype Digit = NoDigit | Digit(value: nat)

  datatype Parsed = Number(value: nat) | NotANumber | Overflows

  /** Where the letters of a base end, counted in bytes from the first one. */
  function Limit(first: char, base: nat): int {
    first as int + base % BYTE - 10
  }

  predicate IsDecimal(c: char, base: nat) {
    c >= '0' && ((base >= 10 && c <= '9') || (base < 10 && c < '0'))
  }

  /** What parse_base_chars makes of one character; its test for small bases never holds. */
  function DigitOf(c: char, base: nat): (d: Digit) {
    if IsDecimal(c, base) then Digit(c as int - '0' as int)
    else if base > 10 && c >= 'A' && (c as int) < Limit('A', base) then Digit(c as int - 'A' as int + 10)
    else if base > 10 && c >= 'a' && (c as int) < Limit('a', base) then Digit(c as int - 'a' as int + 10)
    else NoDigit
  }

  /** A limit that the character is compared with does not fit a byte. */
  predicate LimitOverflows(c: char, base: nat) {
    && !IsDecimal(c, base) && base > 10
    && (|| (c >= 'A' && 'A' as int + base % BYTE >= BYTE)
        || (c >= 'a' && (c as int) >= Limit('A', base) && 'a' as int + base % BYTE >= BYTE))
  }

  /** Digits stay below their base, and from base ten on every digit is read back in either case. */
  lemma DigitsReadBack(d: nat, base: nat, uppercase: bool)
    requires d < base <= 36
    ensures DigitOf(DigitChar(d, uppercase), base) == if base >= 10 then Digit(d) else NoDigit
    ensures forall c: char :: DigitOf(c, base).Digit? ==> DigitOf(c, base).value < base
  {
  }

  /** Below base ten nothing but the empty string is a number, because the test for a small base asks for a
      character that is both at least and below '0'. */
  lemma ParsesExactlyFromBaseTen(base: nat)
    ensures (exists s: string :: s != "" && AllDigits(s, base)) <==> base >= 10
  {
    if base >= 10 {
      var s: string := "0";
      assert s != "" && AllDigits(s, base);
    } else {
      forall s: string | s != ""
        ensures !AllDigits(s, base)
      {
        assert DigitOf(s[0], base).NoDigit?;
      }
    }
  }

  function Power(base: nat, n: nat): (p: nat)
    ensures base > 0 ==> p > 0
  {
    if n == 0 then 1 else Power(base, n - 1) * base
  }

  /** The `n` lowest base-36 digits of `v`, highest first. */
  function Digits(n: nat, v: nat, uppercase: bool): (s: string)
    ensures |s| == n
  {
    if n == 0 then "" else Digits(n - 1, v / 36, uppercase) + [DigitChar(v % 36, uppercase)]
  }

  predicate AllDigits(s: string, base: nat) {
    forall i :: 0 <= i < |s| ==> DigitOf(s[i], base).Digit?
  }

  /** The number that a string of digits stands for. */
  function Value(s: string, base: nat): nat
    requires AllDigits(s, base)
  {
    if s == "" then 0 else Value(s[..|s| - 1], base) * base + DigitOf(s[|s| - 1], base).value
  }

  lemma {:induction false} ValueIsBounded(s: string, base: nat)
    requires AllDigits(s, base)
    ensures Value(s, base) < Power(base, |s|)
  {
    if s != "" {
      ValueIsBounded(s[..|s| - 1], base);
      DigitsStayBelow(s[|s| - 1], base);
      RoomForDigit(Value(s[..|s| - 1], base), Power(base, |s| - 1), base, DigitOf(s[|s| - 1], base).value);
    }
  }

  lemma DigitsStayBelow(c: char, base: nat)
    requires DigitOf(c, base).Digit?
    ensures 10 <= base && DigitOf(c, base).value < base
  {
  }

  lemma RoomForDigit(v: nat, p: nat, base: nat, d: nat)
    requires v < p && d < base
    ensures v * base + d < p * base
  {
    Distribute(p, v, base);
    AtLeastOne(p - v, base);
  }

  lemma {:induction false} PowerGrows(base: nat, m: nat, n: nat)
    requires m <= n && base > 0
    ensures Power(base, m) <= Power(base, n)
    decreases n
  {
    if m < n {
      PowerGrows(base, m, n - 1);
      AtLeastOne(base, Power(base, n - 1));
    }
  }

  /** Twelve digits of any base up to 36 fit a word. */
  lemma TwelveDigitsFit(n: nat, base: nat)
    requires n <= 12 && 0 < base <= 36
    ensures Power(base, n) <= Power(36, 12) < U64
  {
    PowerGrows(base, n, 12);
    SmallerBase(base, 12);
    Powers();
  }

  lemma {:induction false} SmallerBase(base: nat, n: nat)
    requires base <= 36
    ensures Power(base, n) <= Power(36, n)
  {
    if n > 0 {
      SmallerBase(base, n - 1);
      FactorsGrow(Power(base, n - 1), Power(36, n - 1), base);
    }
  }

  lemma FactorsGrow(p: nat, q: nat, base: nat)
    requires p <= q && base <= 36
    ensures p * base <= q * 36
  {
    Distribute(q, p, base);
    Distribute(36, base, q);
    assert (q - p) * base >= 0 && (36 - base) * q >= 0;
  }

  lemma Powers()
    ensures Power(36, 8) == 2821109907456 && Power(36, 12) == 4738381338321616896
  {
    assert Power(36, 4) == 1679616;
    assert Power(36, 8) == Power(36, 4) * 36 * 36 * 36 * 36;
    assert Power(36, 12) == Power(36, 8) * 36 * 36 * 36 * 36;
  }

  // ----- reading back what was written

  lemma {:induction false} DigitsAreDigits(n: nat, v: nat, uppercase: bool)
    ensures AllDigits(Digits(n, v, uppercase), 36)
    decreases n
  {
    if n > 0 {
      DigitsAreDigits(n - 1, v / 36, uppercase);
      DigitsReadBack(v % 36, 36, uppercase);
    }
  }

  lemma LastDigit(v: nat, p: nat)
    requires p > 0
    ensures (v / 36 % p) * 36 + v % 36 == v % (p * 36)
  {
    var q := v / 36;
    var k, r := q / p, q % p;
    RoomForDigit(r, p, 36, v % 36);
    assert v == 36 * (k * p + r) + v % 36 == k * (p * 36) + (r * 36 + v % 36);
    DivisionIsUnique(v, p * 36, k, r * 36 + v % 36);
  }

  /** Writing `n` digits keeps the value modulo 36 to the `n`. */
  lemma {:induction false} ValueOfDigits(n: nat, v: nat, uppercase: bool)
    ensures AllDigits(Digits(n, v, uppercase), 36)
    ensures Value(Digits(n, v, uppercase), 36) == v % Power(36, n)
    decreases n
  {
    DigitsAreDigits(n, v, uppercase);
    if n > 0 {
      var s := Digits(n, v, uppercase);
      ValueOfDigits(n - 1, v / 36, uppercase);
      DigitsReadBack(v % 36, 36, uppercase);
      assert s[..n - 1] == Digits(n - 1, v / 36, uppercase);
      LastDigit(v, Power(36, n - 1));
    }
  }

  predicate Canonical(s: string) {
    forall i :: 0 <= i < |s| ==> '0' <= s[i] <= '9' || 'A' <= s[i] <= 'Z'
  }

  lemma {:induction false} CanonicalDigits(n: nat, v: nat)
    ensures Canonical(Digits(n, v, true))
    decreases n
  {
    if n > 0 {
      CanonicalDigits(n - 1, v / 36);
    }
  }

  /** Reading upper-case digits and writing them again changes nothing. */
  lemma {:induction false} DigitsOfValue(s: string)
    requires Canonical(s)
    ensures AllDigits(s, 36) && Digits(|s|, Value(s, 36), true) == s
  {
    if s != "" {
      var front, c := s[..|s| - 1], s[|s| - 1];
      DigitsOfValue(front);
      DigitsStayBelow(c, 36);
      DivisionIsUnique(Value(s, 36), 36, Value(front, 36), DigitOf(c, 36).value);
      assert DigitChar(DigitOf(c, 36).value, true) == c;
      assert s == front + [c];
    }
  }

  // ----- the loops

  /** put_base_chars */
  method PutBaseChars(s: string, n: nat, v: nat, uppercase: bool) returns (r: string)
    ensures r == s + Digits(n, v, uppercase)
  {
    var stack: string := [];
    var w := v;
    for i := 0 to n
      invariant |stack| == i
      invariant Digits(n, v, uppercase) == Digits(n - i, w, uppercase) + Backwards(stack)
    {
      stack := stack + [DigitChar(w % 36, uppercase)];
      w := w / 36;
      assert stack[..i] + [stack[i]] == stack;
    }
    assert Digits(0, w, uppercase) + Backwards(stack) == Backwards(stack);
    r := s;
    ghost var all := stack;
    while stack != []
      invariant r + Backwards(stack) == s + Backwards(all)
    {
      r := r + [stack[|stack| - 1]];
      stack := stack[..|stack| - 1];
    }
    assert r + "" == r;
  }

  function Backwards(s: string): string {
    if s == "" then "" else [s[|s| - 1]] + Backwards(s[..|s| - 1])
  }

  lemma StepFits(v: nat, i: nat, base: nat, d: nat)
    requires i < 12 && 0 < base <= 36 && v < Power(base, i) && d < base
    ensures v * base + d < U64
  {
    RoomForDigit(v, Power(base, i), base, d);
    TwelveDigitsFit(i + 1, base);
  }

  /** Adding a character to the number before it leaves a word, or its limit a byte. */
  predicate StepOverflows(s: string, base: nat, i: nat)
    requires i < |s| && AllDigits(s[..i], base)
  {
    var v := Value(s[..i], base) * base;
    v >= U64 || LimitOverflows(s[i], base) || (DigitOf(s[i], base).Digit? && v + DigitOf(s[i], base).value >= U64)
  }

  /** Twelve characters of a base up to 36 never do. */
  lemma ShortNumbersFit(s: string, base: nat, i: nat)
    requires i < |s| <= 12 && base <= 36 && AllDigits(s[..i], base)
    ensures !StepOverflows(s, base, i)
  {
    ValueIsBounded(s[..i], base);
    if base > 0 {
      StepFits(Value(s[..i], base), i, base, 0);
      if DigitOf(s[i], base).Digit? {
        DigitsStayBelow(s[i], base);
        StepFits(Value(s[..i], base), i, base, DigitOf(s[i], base).value);
      }
    }
  }

  /** parse_base_chars, from zero. A step that overflows panics. */
  method ParseBaseChars(s: string, base: nat) returns (r: Parsed)
    requires base < U64
    ensures r.Number? ==> AllDigits(s, base) && r.value == Value(s, base) < U64
    ensures r.NotANumber? ==> !AllDigits(s, base)
    ensures r.Overflows? <==> exists i :: 0 <= i < |s| && AllDigits(s[..i], base) && StepOverflows(s, base, i)
    ensures base <= 36 && |s| <= 12 ==> !r.Overflows?
  {
    var v := 0;
    for i := 0 to |s|
      invariant AllDigits(s[..i], base) && v == Value(s[..i], base) < U64
      invariant forall j :: 0 <= j < i ==> AllDigits(s[..j], base) && !StepOverflows(s, base, j)
    {
      assert s[..i + 1][..i] == s[..i];
      if base <= 36 && |s| <= 12 {
        ShortNumbersFit(s, base, i);
      }
      v := v * base;
      if v >= U64 || LimitOverflows(s[i], base) {
        return Overflows;
      }
      var d := DigitOf(s[i], base);
      if d.NoDigit? {
        assert forall j :: i < j <= |s| ==> s[..j][i] == s[i];
        return NotANumber;
      }
      v := v + d.value;
      if v >= U64 {
        return Overflows;
      }
    }
    assert s[..|s|] == s;
    return Number(v);
  }

  // ----- bytes

  /** How many bytes a character takes in UTF-8. */
  function Width(c: char): (w: nat)
    ensures 1 <= w <= 4
  {
    if c < '\U{80}' then 1 else if c < '\U{800}' then 2 else if c < '\U{10000}' then 3 else 4
  }

  function Bytes(s: string): (n: nat)
    ensures |s| <= n
  {
    if s == "" then 0 else Bytes(s[..|s| - 1]) + Width(s[|s| - 1])
  }

  /** The position of the character that starts `n` bytes before the end, if one does. */
  function Boundary(s: string, n: nat): (r: Option<nat>)
    requires n <= Bytes(s)
    ensures r.Some? ==> r.value <= |s| && |s| - r.value <= n && Bytes(s[..r.value]) == Bytes(s) - n
  {
    if n == 0 then
      assert s[..|s|] == s;
      Some(|s|)
    else if Width(s[|s| - 1]) > n then None
    else
      var r := Boundary(s[..|s| - 1], n - Width(s[|s| - 1]));
      assert r.Some? ==> s[..|s| - 1][..r.value] == s[..r.value];
      r
  }

  lemma {:induction false} BytesGrow(s: string, i: nat)
    requires i < |s|
    ensures Bytes(s[..i]) + Width(s[i]) <= Bytes(s)
    decreases |s|
  {
    if i < |s| - 1 {
      BytesGrow(s[..|s| - 1], i);
      assert s[..|s| - 1][..i] == s[..i];
    }
  }

  /** There is a boundary exactly where some characters take just the bytes before it. */
  lemma {:induction false} BoundaryExactly(s: string, n: nat)
    requires n <= Bytes(s)
    ensures Boundary(s, n).None? <==> forall i :: 0 <= i <= |s| ==> Bytes(s[..i]) != Bytes(s) - n
    decreases |s|
  {
    if Boundary(s, n).None? {
      forall i | 0 <= i <= |s|
        ensures Bytes(s[..i]) != Bytes(s) - n
      {
        if i == |s| {
          assert s[..i] == s;
        } else if Width(s[|s| - 1]) <= n {
          BoundaryExactly(s[..|s| - 1], n - Width(s[|s| - 1]));
          assert s[..|s| - 1][..i] == s[..i];
        } else if i < |s| - 1 {
          BytesGrow(s[..|s| - 1], i);
          assert s[..|s| - 1][..i] == s[..i];
        }
      }
    }
  }

  /** Digits take one byte each. */
  lemma {:induction false} DigitsAreBytes(s: string, n: nat)
    requires AllDigits(s, 36) && n <= |s|
    ensures Bytes(s) == |s| && Boundary(s, n) == Some(|s| - n)
  {
    if s != "" {
      DigitsAreBytes(s[..|s| - 1], if n == 0 then 0 else n - 1);
    }
  }

  // ----- session ids

  datatype Words = Words(upper: nat, lower: nat)

  datatype Error = Missing | TooShort | TooLong | BadDigit

  /** Slicing a string inside a character panics. */
  datatype Decoded = Decoded(words: Words) | NotSupported(error: Error) | Panics

  predicate IsWord(x: nat) {
    x < U64
  }

  /** The shifts of encode_session_id: the top two bits of `lower` move into the upper part, and whatever
      leaves the word is lost. */
  function UpperPart(w: Words): nat {
    w.upper * 4 % U64 + w.lower / TWO_62
  }

  function LowerPart(w: Words): nat {
    w.lower % TWO_62
  }

  function Encode(w: Words): (s: string)
    ensures |s| == 20
  {
    Digits(8, UpperPart(w), true) + Digits(12, LowerPart(w), true)
  }

  function Decode(s: string): Decoded {
    if Bytes(s) == 0 then NotSupported(Missing)
    else if Bytes(s) < 13 then NotSupported(TooShort)
    else if Bytes(s) > 24 then NotSupported(TooLong)
    else
      match Boundary(s, 12)
      case None => Panics
      case Some(i) =>
        if !AllDigits(s[..i], 36) || !AllDigits(s[i..], 36) then NotSupported(BadDigit)
        else Decoded(FromParts(Value(s[..i], 36), Value(s[i..], 36)))
  }

  /** The shifts of decode_session_id. */
  function FromParts(a: nat, b: nat): Words {
    Words(a / 4, b % TWO_62 + a * TWO_62 % U64)
  }

  method EncodeSessionId(w: Words) returns (s: string)
    requires IsWord(w.upper) && IsWord(w.lower)
    ensures s == Encode(w)
  {
    s := PutBaseChars("", 8, w.upper * 4 % U64 + w.lower / TWO_62, true);
    s := PutBaseChars(s, 12, w.lower % TWO_62, true);
  }

  /** Whatever the string, both parts that are parsed have at most twelve characters. */
  method DecodeSessionId(s: string) returns (r: Decoded)
    ensures r == Decode(s)
  {
    var len := Bytes(s);
    if len == 0 {
      return NotSupported(Missing);
    }
    if len < 13 {
      return NotSupported(TooShort);
    }
    if len > 24 {
      return NotSupported(TooLong);
    }
    var cut := Boundary(s, 12);
    if cut == None {
      return Panics;
    }
    var a := ParseBaseChars(s[..cut.value], 36);
    if a == NotANumber {
      return NotSupported(BadDigit);
    }
    var b := ParseBaseChars(s[cut.value..], 36);
    if b == NotANumber {
      return NotSupported(BadDigit);
    }
    return Decoded(Words(a.value / 4, b.value % TWO_62 + a.value * TWO_62 % U64));
  }

  /** An id is decoded exactly when it is 13 to 24 digits. */
  lemma DecodesExactly(s: string)
    ensures Decode(s).Decoded? <==> 13 <= |s| <= 24 && AllDigits(s, 36)
    ensures Decode(s).Decoded? ==>
      Decode(s) == Decoded(FromParts(Value(s[..|s| - 12], 36), Value(s[|s| - 12..], 36)))
  {
    if 13 <= |s| && AllDigits(s, 36) {
      DigitsAreBytes(s, 12);
    } else if 13 <= Bytes(s) && Boundary(s, 12).Some? {
      var i := Boundary(s, 12).value;
      assert s == s[..i] + s[i..];
      if AllDigits(s[..i], 36) && AllDigits(s[i..], 36) {
        DigitsAreBytes(s, 0);
      }
    }
  }

  /** The caller's thread panics exactly when no character starts twelve bytes before the end of an id of 13 to 24
      bytes. */
  lemma PanicsExactly(s: string)
    ensures Decode(s) == Panics <==>
      13 <= Bytes(s) <= 24 && forall i :: 0 <= i <= |s| ==> Bytes(s[..i]) != Bytes(s) - 12
  {
    if 13 <= Bytes(s) {
      BoundaryExactly(s, 12);
    }
  }

  /** An accented letter and eleven zeros are thirteen bytes, cut inside the letter. */
  const CUT_LETTER: string := "\U{E9}00000000000"

  lemma {:induction false} CutLetterBytes(k: nat)
    requires k < |CUT_LETTER|
    ensures Bytes(CUT_LETTER[..k + 1]) == k + 2
  {
    assert CUT_LETTER[..k + 1][..k] == CUT_LETTER[..k];
    if k > 0 {
      CutLetterBytes(k - 1);
    }
  }

  lemma CutLetterPanics()
    ensures Decode(CUT_LETTER) == Panics
  {
    forall i | 0 <= i <= |CUT_LETTER|
      ensures Bytes(CUT_LETTER[..i]) == if i == 0 then 0 else i + 1
    {
      if i > 0 {
        CutLetterBytes(i - 1);
      }
    }
    assert CUT_LETTER[..|CUT_LETTER|] == CUT_LETTER;
    PanicsExactly(CUT_LETTER);
  }

  /** What survives of the upper word. */
  function Reduced(upper: nat): nat {
    upper % TWO_62 % (Power(36, 8) / 4)
  }

  lemma PartsOfWords(w: Words)
    requires IsWord(w.upper) && IsWord(w.lower)
    ensures UpperPart(w) == w.upper % TWO_62 * 4 + w.lower / TWO_62 && w.lower / TWO_62 < 4
    ensures LowerPart(w) < Power(36, 12)
  {
    Powers();
  }

  lemma UpperComesBack(u: nat, two: nat, p: nat)
    requires two < 4 && p > 0
    ensures (u * 4 + two) % (p * 4) / 4 == u % p && (u * 4 + two) % (p * 4) % 4 == two
  {
    var k, r := u / p, u % p;
    RoomForDigit(r, p, 4, two);
    assert u * 4 + two == k * (p * 4) + (r * 4 + two);
    DivisionIsUnique(u * 4 + two, p * 4, k, r * 4 + two);
  }

  lemma TopBits(a: nat)
    ensures a * TWO_62 % U64 == a % 4 * TWO_62
  {
  }

  lemma PartsGoRound(a: nat, b: nat)
    requires a < TWO_62
    ensures UpperPart(FromParts(a, b)) == a && LowerPart(FromParts(a, b)) == b % TWO_62
  {
    TopBits(a);
  }

  lemma WordsGoRound(w: Words)
    requires IsWord(w.upper) && IsWord(w.lower)
    ensures FromParts(UpperPart(w) % Power(36, 8), LowerPart(w)) == Words(Reduced(w.upper), w.lower)
  {
    PartsOfWords(w);
    assert Power(36, 8) == Power(36, 8) / 4 * 4 by { Powers(); }
    UpperComesBack(w.upper % TWO_62, w.lower / TWO_62, Power(36, 8) / 4);
    TopBits(UpperPart(w) % Power(36, 8));
    LowerComesBack(w.lower);
  }

  lemma LowerComesBack(lower: nat)
    ensures lower % TWO_62 % TWO_62 + lower / TWO_62 * TWO_62 == lower
  {
  }

  lemma SmallEnough(x: nat, p: nat)
    requires x < p
    ensures x % p == x
  {
  }

  /** Decoding an encoded id succeeds, gives the lower word back exactly, and the upper word reduced. */
  lemma DecodeOfEncode(w: Words)
    requires IsWord(w.upper) && IsWord(w.lower)
    ensures Decode(Encode(w)) == Decoded(Words(Reduced(w.upper), w.lower))
  {
    var s := Encode(w);
    var a, b := UpperPart(w), LowerPart(w);
    ValueOfDigits(8, a, true);
    ValueOfDigits(12, b, true);
    assert s[..8] == Digits(8, a, true) && s[8..] == Digits(12, b, true) && AllDigits(s, 36);
    DecodesExactly(s);
    PartsOfWords(w);
    SmallEnough(b, Power(36, 12));
    WordsGoRound(w);
  }

  lemma CanonicalParts(s: string)
    requires |s| == 20 && Canonical(s)
    ensures AllDigits(s, 36) && AllDigits(s[..8], 36) && AllDigits(s[8..], 36)
    ensures s == Digits(8, Value(s[..8], 36), true) + Digits(12, Value(s[8..], 36), true)
    ensures Value(s[..8], 36) < TWO_62 && Value(s[8..], 36) < Power(36, 12)
  {
    DigitsOfValue(s[..8]);
    DigitsOfValue(s[8..]);
    assert s == s[..8] + s[8..];
    ValueIsBounded(s[..8], 36);
    ValueIsBounded(s[8..], 36);
    Powers();
  }

  lemma SameDigits(n: nat, x: nat, y: nat)
    requires x < Power(36, n) && y < Power(36, n)
    ensures Digits(n, x, true) == Digits(n, y, true) <==> x == y
  {
    ValueOfDigits(n, x, true);
    ValueOfDigits(n, y, true);
    SmallEnough(x, Power(36, n));
    SmallEnough(y, Power(36, n));
  }

  lemma {:induction false} ZeroDigits(n: nat)
    ensures Digits(n, 0, true) == seq(n, _ => '0')
  {
    if n > 0 {
      ZeroDigits(n - 1);
    }
  }

  lemma UpperExample()
    ensures Digits(8, 5, true) == "00000005"
  {
    ZeroDigits(7);
    assert Digits(8, 5, true) == Digits(7, 0, true) + ['5'];
  }

  lemma LowerExample()
    ensures Digits(12, 35, true) == "00000000000Z"
  {
    ZeroDigits(11);
    assert Digits(12, 35, true) == Digits(11, 0, true) + ['Z'];
  }

  /** The upper word 1 and the lower word 2 to the 62 plus 35: the two bits go to the front. */
  lemma EncodeExample()
    ensures Encode(Words(1, TWO_62 + 35)) == "0000000500000000000Z"
  {
    assert UpperPart(Words(1, TWO_62 + 35)) == 5;
    assert LowerPart(Words(1, TWO_62 + 35)) == 35;
    UpperExample();
    LowerExample();
  }

  /** Twenty upper-case characters come back from decoding and encoding exactly when their last twelve
      stand for a number of 62 bits; the few others are never produced. */
  lemma EncodeOfDecode(s: string)
    requires |s| == 20 && Canonical(s)
    ensures Decode(s).Decoded? && AllDigits(s[8..], 36)
    ensures Encode(Decode(s).words) == s <==> Value(s[8..], 36) < TWO_62
  {
    CanonicalParts(s);
    DecodesExactly(s);
    var a, b := Value(s[..8], 36), Value(s[8..], 36);
    PartsGoRound(a, b);
    Truncates(b, Power(36, 12));
    SameDigits(12, b, b % TWO_62);
    SameTails(Digits(8, a, true), Digits(12, b, true), Digits(12, b % TWO_62, true));
  }

  lemma Truncates(b: nat, p: nat)
    requires b < p
    ensures b % TWO_62 < p && (b % TWO_62 == b <==> b < TWO_62)
  {
  }

  lemma SameTails(x: string, y: string, z: string)
    ensures x + y == x + z <==> y == z
  {
    if x + y == x + z {
      assert y == (x + y)[|x|..] && z == (x + z)[|x|..];
    }
  }

  /** Encoding the words that were decoded gives the same id again. */
  lemma EncodedIdIsStable(w: Words)
    requires IsWord(w.upper) && IsWord(w.lower)
    ensures Encode(Words(Reduced(w.upper), w.lower)) == Encode(w)
  {
    var s := Encode(w);
    CanonicalDigits(8, UpperPart(w));
    CanonicalDigits(12, LowerPart(w));
    ValueOfDigits(12, LowerPart(w), true);
    PartsOfWords(w);
    SmallEnough(LowerPart(w), Power(36, 12));
    assert s[8..] == Digits(12, LowerPart(w), true);
    EncodeOfDecode(s);
    DecodeOfEncode(w);
  }
}
