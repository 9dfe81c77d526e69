/** The 128-bit to 128-bit hash that keys of HyperClockCache are stored under, and its inverse. Words are
    bit-vectors, so that sums, differences and products wrap around as in the source.

    Every operation is a named function, so that a proof can rewrite one application at a time. */
module BijectiveHash {

  datatype Words = Words(high: bv64, low: bv64)

  function Add(a: bv64, b: bv64): bv64 { a + b }

  function Sub(a: bv64, b: bv64): bv64 { a - b }

  function Xor(a: bv64, b: bv64): bv64 { a ^ b }

  /** A prime and its inverse modulo 2 to the 64. */
  function TimesA(x: bv64): bv64 { x * 0x9E3779B185EBCA87 }

  function UntimesA(x: bv64): bv64 { x * 0x887493432badb37 }

  function TimesC(x: bv64): bv64 { x * 0xC2B2AE3D27D4EB4F }

  function UntimesC(x: bv64): bv64 { x * 0xba79078168d4baf }

  function TimesM(x: bv64): bv64 { x * 0x165667919E3779F9 }

  function UntimesM(x: bv64): bv64 { x * 0x8da8ee41d6df849 }

  function WideA(x: bv64): bv128 { (x as bv128) * 0x9E3779B185EBCA87 }

  function WideC(x: bv64): bv128 { (x as bv128) * 0xC2B2AE3D27D4EB4F }

  function Lower64(x: bv128): bv64 { (x & 0xFFFF_FFFF_FFFF_FFFF) as bv64 }

  function Upper64(x: bv128): bv64 { (x >> 64) as bv64 }

  function LowHalf(x: bv64): bv64 { x & 0xFFFF_FFFF }

  function HighHalf(x: bv64): bv64 { x & 0xFFFF_FFFF_0000_0000 }

  function TimesK(x: bv64): bv64 { x * 0x85EBCA76 }

  /** The low 32 bits times the inverse of 0x85EBCA77 modulo 2 to the 32. */
  function Recover(x: bv64): bv64 { (((x & 0xFFFF_FFFF) as bv32) * 0xb6c92f47) as bv64 }

  function Fold37(h: bv64): bv64 { h ^ (h >> 37) }

  function Fold32(h: bv64): bv64 { h ^ (h >> 32) }

  function SwapBytes(x: bv64): bv64 {
    (x << 56) | ((x & 0xFF00) << 40) | ((x & 0xFF_0000) << 24) | ((x & 0xFF00_0000) << 8) |
    ((x >> 8) & 0xFF00_0000) | ((x >> 24) & 0xFF_0000) | ((x >> 40) & 0xFF00) | (x >> 56)
  }

  // ----- one operation undoes another

  lemma XorTwice(a: bv64, b: bv64)
    ensures Xor(Xor(a, b), b) == a
  {
    assert Xor(a ^ b, b) == a;
  }

  lemma SubAdd(a: bv64, b: bv64)
    ensures Sub(Add(a, b), b) == a
  {
    assert Sub(a + b, b) == a;
  }

  lemma AddSub(a: bv64, b: bv64)
    ensures Add(Sub(a, b), b) == a
  {
    assert Add(a - b, b) == a;
  }

  lemma AddCommutes(a: bv64, b: bv64)
    ensures Add(a, b) == Add(b, a)
  {
  }

  lemma PrimesInvert(x: bv64)
    ensures UntimesA(TimesA(x)) == x == TimesA(UntimesA(x))
    ensures UntimesC(TimesC(x)) == x == TimesC(UntimesC(x))
    ensures UntimesM(TimesM(x)) == x == TimesM(UntimesM(x))
  {
    assert UntimesA(x * 0x9E3779B185EBCA87) == x && TimesA(x * 0x887493432badb37) == x;
    assert UntimesC(x * 0xC2B2AE3D27D4EB4F) == x && TimesC(x * 0xba79078168d4baf) == x;
    assert UntimesM(x * 0x165667919E3779F9) == x && TimesM(x * 0x8da8ee41d6df849) == x;
  }

  /** The low word of the wide product is the wrapped product. */
  lemma LowerOfProduct(x: bv64)
    ensures Lower64(WideA(x)) == TimesA(x) && Lower64(WideC(x)) == TimesC(x)
  {
    assert Lower64((x as bv128) * 0x9E3779B185EBCA87) == x * 0x9E3779B185EBCA87;
    assert Lower64((x as bv128) * 0xC2B2AE3D27D4EB4F) == x * 0xC2B2AE3D27D4EB4F;
  }

  lemma FoldTwice(h: bv64)
    ensures Fold37(Fold37(h)) == h && Fold32(Fold32(h)) == h
  {
    assert Fold37(h ^ (h >> 37)) == h;
    assert Fold32(h ^ (h >> 32)) == h;
  }

  // ----- avalanche

  function Avalanche(h: bv64): bv64 {
    Fold32(TimesM(Fold37(h)))
  }

  function Unavalanche(h: bv64): bv64 {
    Fold37(UntimesM(Fold32(h)))
  }

  lemma AvalancheInverts(h: bv64)
    ensures Unavalanche(Avalanche(h)) == h && Avalanche(Unavalanche(h)) == h
  {
    FoldTwice(h);
    FoldTwice(TimesM(Fold37(h)));
    PrimesInvert(Fold37(h));
    FoldTwice(UntimesM(Fold32(h)));
    PrimesInvert(Fold32(h));
  }

  // ----- the step that adds a multiple of the low half

  function Spread(x: bv64): bv64 {
    Add(x, TimesK(LowHalf(x)))
  }

  /** Find the low half first, then take its multiple off the high half. */
  function Unspread(h: bv64): bv64 {
    var t := Recover(h);
    Add(Sub(HighHalf(Sub(h, t)), HighHalf(TimesK(t))), t)
  }

  lemma Halves(x: bv64)
    ensures Add(HighHalf(x), LowHalf(x)) == x
  {
    assert Add(x & 0xFFFF_FFFF_0000_0000, x & 0xFFFF_FFFF) == x;
  }

  lemma AddIs(a: bv64, b: bv64)
    ensures Add(a, b) == a + b
  {
  }

  lemma TimesKIs(l: bv64)
    ensures TimesK(l) == l * 0x85EBCA76
  {
  }

  lemma RecoverFromSum(x: bv64)
    ensures Recover(x + (x & 0xFFFF_FFFF) * 0x85EBCA76) == x & 0xFFFF_FFFF
  {
  }

  lemma SpreadIs(x: bv64)
    ensures Spread(x) == x + (x & 0xFFFF_FFFF) * 0x85EBCA76
  {
    TimesKIs(x & 0xFFFF_FFFF);
    AddIs(x, (x & 0xFFFF_FFFF) * 0x85EBCA76);
  }

  lemma RecoverLow(x: bv64)
    ensures Recover(Spread(x)) == LowHalf(x)
  {
    SpreadIs(x);
    RecoverFromSum(x);
  }

  lemma HighHalfOfSum(x: bv64, y: bv64)
    ensures HighHalf((x & 0xFFFF_FFFF_0000_0000) + y) == (x & 0xFFFF_FFFF_0000_0000) + (y & 0xFFFF_FFFF_0000_0000)
  {
  }

  /** Adding into the low half of a number whose low half is zero carries nothing upward. */
  lemma NoCarry(x: bv64, y: bv64)
    ensures HighHalf(Add(HighHalf(x), y)) == Add(HighHalf(x), HighHalf(y))
  {
    HighHalfOfSum(x, y);
    AddIs(x & 0xFFFF_FFFF_0000_0000, y);
    AddIs(x & 0xFFFF_FFFF_0000_0000, y & 0xFFFF_FFFF_0000_0000);
  }

  lemma TakeOff(u: bv64, l: bv64, y: bv64)
    ensures Sub(Add(Add(u, l), y), l) == Add(u, y)
  {
    assert Add(u + l, y) == u + l + y;
    assert Sub(u + l + y, l) == u + y;
  }

  lemma UnspreadUndoes(x: bv64)
    ensures Unspread(Spread(x)) == x
  {
    var u, l := HighHalf(x), LowHalf(x);
    var y := TimesK(l);
    RecoverLow(x);
    Halves(x);
    TakeOff(u, l, y);
    NoCarry(x, y);
    SubAdd(u, HighHalf(y));
  }

  /** The other way round: the low half that was found is the low half of the result. */
  lemma LowAfterHighs(a: bv64, b: bv64, t: bv32)
    ensures LowHalf((a & 0xFFFF_FFFF_0000_0000) - (b & 0xFFFF_FFFF_0000_0000) + (t as bv64)) == t as bv64
  {
  }

  lemma RecoverIs(z: bv64)
    ensures Recover(z) == (((z & 0xFFFF_FFFF) as bv32) * 0xb6c92f47) as bv64
  {
  }

  lemma SubIs(a: bv64, b: bv64)
    ensures Sub(a, b) == a - b
  {
  }

  lemma LowHalfOfUnspread(a: bv64, b: bv64, t: bv32)
    ensures LowHalf(Add(Sub(HighHalf(a), HighHalf(b)), t as bv64)) == t as bv64
  {
    var u, v := a & 0xFFFF_FFFF_0000_0000, b & 0xFFFF_FFFF_0000_0000;
    SubIs(u, v);
    AddIs(u - v, t as bv64);
    LowAfterHighs(a, b, t);
  }

  lemma LowsAgree(z: bv64)
    ensures var t := (((z & 0xFFFF_FFFF) as bv32) * 0xb6c92f47) as bv64;
      LowHalf(t * 0x85EBCA76) == LowHalf(z - t)
  {
  }

  lemma LowHalvesAgree(z: bv64)
    ensures LowHalf(TimesK(Recover(z))) == LowHalf(Sub(z, Recover(z)))
  {
    var t := (((z & 0xFFFF_FFFF) as bv32) * 0xb6c92f47) as bv64;
    RecoverIs(z);
    TimesKIs(t);
    SubIs(z, t);
    LowsAgree(z);
  }

  lemma PutTogether(h: bv64, y: bv64, l: bv64, t: bv64)
    ensures Add(Add(Sub(h, y), t), Add(y, l)) == Add(Add(h, l), t)
  {
    SubIs(h, y);
    AddIs(h - y, t);
    AddIs(y, l);
    AddIs(h - y + t, y + l);
    AddIs(h, l);
    AddIs(h + l, t);
  }

  lemma SpreadUndoes(z: bv64)
    ensures Spread(Unspread(z)) == z
  {
    var t := Recover(z);
    var d, y := Sub(z, t), TimesK(t);
    RecoverIs(z);
    LowHalfOfUnspread(d, y, ((z & 0xFFFF_FFFF) as bv32) * 0xb6c92f47);
    Halves(y);
    PutTogether(HighHalf(d), HighHalf(y), LowHalf(y), t);
    LowHalvesAgree(z);
    Halves(d);
    AddSub(z, t);
  }

  // ----- the whole hash

  function FlipLow(seed: bv64): bv64 { 0x59973f0033362349 - seed }

  function FlipHigh(seed: bv64): bv64 { 0xc202797692d63d58 + seed }

  /** bijective_hash2x64_with_seed */
  function Hash(w: Words, seed: bv64): Words {
    var wide := WideA(Xor(Xor(w.low, w.high), FlipLow(seed)));
    var high := Xor(w.high, FlipHigh(seed));
    var hi := Add(Add(Upper64(wide), high), TimesK(LowHalf(high)));
    var lo := Xor(Add(Lower64(wide), 0x3c0000000000000), SwapBytes(hi));
    Words(Avalanche(Add(Upper64(WideC(lo)), TimesC(hi))), Avalanche(Lower64(WideC(lo))))
  }

  /** bijective_unhash2x64_with_seed */
  function Unhash(w: Words, seed: bv64): Words {
    var lo := UntimesC(Unavalanche(w.low));
    var hi := UntimesC(Sub(Unavalanche(w.high), Upper64(WideC(lo))));
    var mixed := UntimesA(Sub(Xor(lo, SwapBytes(hi)), 0x3c0000000000000));
    var high := Xor(Unspread(Sub(hi, Upper64(WideA(mixed)))), FlipHigh(seed));
    Words(high, Xor(Xor(mixed, high), FlipLow(seed)))
  }

  /** One hash worked out: of 0x1234567890ABCDEF and 0xFEDCBA0987654321 with seed seven. */
  lemma HashExample()
    ensures Hash(Words(0x1234567890ABCDEF, 0xFEDCBA0987654321), 7) == Words(0x459FED47F65F580B, 0x64E43AB16BA1EA03)
  {
    assert Xor(Xor(0xFEDCBA0987654321, 0x1234567890ABCDEF), FlipLow(7)) == 0xB57FD37124F8AD8C;
    assert WideA(0xB57FD37124F8AD8C) == 0x702C393D8964AD053F5D1413C397FCD4;
    assert Xor(0x1234567890ABCDEF, FlipHigh(7)) == 0xD0362F0E027DF0B0;
    assert Upper64(0x702C393D8964AD053F5D1413C397FCD4) == 0x702C393D8964AD05;
    assert Lower64(0x702C393D8964AD053F5D1413C397FCD4) == 0x3F5D1413C397FCD4;
    assert Add(Add(0x702C393D8964AD05, 0xD0362F0E027DF0B0), TimesK(LowHalf(0xD0362F0E027DF0B0))) == 0x41B021EB736A6ED5;
    assert Xor(Add(0x3F5D1413C397FCD4, 0x3c0000000000000), SwapBytes(0x41B021EB736A6ED5)) == 0x96737E6028B64C95;
    assert WideC(0x96737E6028B64C95) == 0x726C88792E89A78F8593472F06F268FB;
    assert Upper64(0x726C88792E89A78F8593472F06F268FB) == 0x726C88792E89A78F;
    assert Lower64(0x726C88792E89A78F8593472F06F268FB) == 0x8593472F06F268FB;
    assert Add(0x726C88792E89A78F, TimesC(0x41B021EB736A6ED5)) == 0xAE461CDBBB83624A;
    assert Fold37(0xAE461CDBBB83624A) == 0xAE461CDBBEF152AC;
    assert TimesM(0xAE461CDBBEF152AC) == 0x459FED47B3C0B54C;
    assert Fold32(0x459FED47B3C0B54C) == 0x459FED47F65F580B;
    assert Fold37(0x8593472F06F268FB) == 0x8593472F02DEF2C2;
    assert TimesM(0x8593472F02DEF2C2) == 0x64E43AB10F45D0B2;
    assert Fold32(0x64E43AB10F45D0B2) == 0x64E43AB16BA1EA03;
  }

  lemma AddAssociates(a: bv64, b: bv64, c: bv64)
    ensures Add(Add(a, b), c) == Add(a, Add(b, c))
  {
    AddIs(a, b);
    AddIs(a + b, c);
    AddIs(b, c);
    AddIs(a, b + c);
  }

  /** The second half of the hash: what `Stir` makes of two words, `Unstir` takes back. */
  lemma StirInverts(hi: bv64, lo: bv64)
    ensures UntimesC(Lower64(WideC(lo))) == lo
    ensures UntimesC(Sub(Add(Upper64(WideC(lo)), TimesC(hi)), Upper64(WideC(lo)))) == hi
  {
    LowerOfProduct(lo);
    PrimesInvert(lo);
    PrimesInvert(hi);
    AddCommutes(Upper64(WideC(lo)), TimesC(hi));
    SubAdd(TimesC(hi), Upper64(WideC(lo)));
  }

  /** The first half: the mixed word and the flipped high word come back. */
  lemma MixInverts(mixed: bv64, high: bv64)
    ensures var wide := WideA(mixed);
      var hi := Add(Add(Upper64(wide), high), TimesK(LowHalf(high)));
      var lo := Xor(Add(Lower64(wide), 0x3c0000000000000), SwapBytes(hi));
      && UntimesA(Sub(Xor(lo, SwapBytes(hi)), 0x3c0000000000000)) == mixed
      && Unspread(Sub(hi, Upper64(wide))) == high
  {
    var wide := WideA(mixed);
    var hi := Add(Add(Upper64(wide), high), TimesK(LowHalf(high)));
    XorTwice(Add(Lower64(wide), 0x3c0000000000000), SwapBytes(hi));
    SubAdd(Lower64(wide), 0x3c0000000000000);
    LowerOfProduct(mixed);
    PrimesInvert(mixed);
    AddAssociates(Upper64(wide), high, TimesK(LowHalf(high)));
    AddCommutes(Upper64(wide), Spread(high));
    SubAdd(Spread(high), Upper64(wide));
    UnspreadUndoes(high);
  }

  /** Unhashing gives every input back, for every seed. */
  lemma UnhashUndoesHash(w: Words, seed: bv64)
    ensures Unhash(Hash(w, seed), seed) == w
  {
    var mixed := Xor(Xor(w.low, w.high), FlipLow(seed));
    var high := Xor(w.high, FlipHigh(seed));
    var hi := Add(Add(Upper64(WideA(mixed)), high), TimesK(LowHalf(high)));
    var lo := Xor(Add(Lower64(WideA(mixed)), 0x3c0000000000000), SwapBytes(hi));
    AvalancheInverts(Lower64(WideC(lo)));
    AvalancheInverts(Add(Upper64(WideC(lo)), TimesC(hi)));
    StirInverts(hi, lo);
    MixInverts(mixed, high);
    XorTwice(w.high, FlipHigh(seed));
    XorThrice(w.low, w.high, FlipLow(seed));
  }

  lemma XorThrice(a: bv64, b: bv64, c: bv64)
    ensures Xor(Xor(Xor(Xor(a, b), c), b), c) == a
  {
    XorSwaps(Xor(a, b), c, b);
    XorTwice(a, b);
    XorTwice(a, c);
  }

  lemma XorIs(a: bv64, b: bv64)
    ensures Xor(a, b) == a ^ b
  {
  }

  lemma XorSwaps(a: bv64, b: bv64, c: bv64)
    ensures Xor(Xor(a, b), c) == Xor(Xor(a, c), b)
  {
    XorIs(a, b);
    XorIs(a ^ b, c);
    XorIs(a, c);
    XorIs(a ^ c, b);
  }

  lemma MixUninverts(lo: bv64, hi: bv64)
    ensures var mixed := UntimesA(Sub(Xor(lo, SwapBytes(hi)), 0x3c0000000000000));
      var high := Unspread(Sub(hi, Upper64(WideA(mixed))));
      && Add(Add(Upper64(WideA(mixed)), high), TimesK(LowHalf(high))) == hi
      && Xor(Add(Lower64(WideA(mixed)), 0x3c0000000000000), SwapBytes(hi)) == lo
  {
    var sum := Xor(lo, SwapBytes(hi));
    var mixed := UntimesA(Sub(sum, 0x3c0000000000000));
    var rest := Sub(hi, Upper64(WideA(mixed)));
    LowerOfProduct(mixed);
    PrimesInvert(Sub(sum, 0x3c0000000000000));
    AddSub(sum, 0x3c0000000000000);
    XorTwice(lo, SwapBytes(hi));
    AddAssociates(Upper64(WideA(mixed)), Unspread(rest), TimesK(LowHalf(Unspread(rest))));
    SpreadUndoes(rest);
    AddCommutes(Upper64(WideA(mixed)), rest);
    AddSub(hi, Upper64(WideA(mixed)));
  }

  lemma StirUninverts(a: bv64, b: bv64)
    ensures var lo := UntimesC(b);
      var hi := UntimesC(Sub(a, Upper64(WideC(lo))));
      Lower64(WideC(lo)) == b && Add(Upper64(WideC(lo)), TimesC(hi)) == a
  {
    var lo := UntimesC(b);
    LowerOfProduct(lo);
    PrimesInvert(b);
    PrimesInvert(Sub(a, Upper64(WideC(lo))));
    AddCommutes(Upper64(WideC(lo)), Sub(a, Upper64(WideC(lo))));
    AddSub(a, Upper64(WideC(lo)));
  }

  /** Every pair of words is the hash of some input: the one that unhashing gives. */
  lemma HashUndoesUnhash(w: Words, seed: bv64)
    ensures Hash(Unhash(w, seed), seed) == w
  {
    var lo := UntimesC(Unavalanche(w.low));
    var hi := UntimesC(Sub(Unavalanche(w.high), Upper64(WideC(lo))));
    var mixed := UntimesA(Sub(Xor(lo, SwapBytes(hi)), 0x3c0000000000000));
    var high := Unspread(Sub(hi, Upper64(WideA(mixed))));
    StirUninverts(Unavalanche(w.high), Unavalanche(w.low));
    MixUninverts(lo, hi);
    AvalancheInverts(w.high);
    AvalancheInverts(w.low);
    XorTwice(high, FlipHigh(seed));
    XorThrice(mixed, Xor(high, FlipHigh(seed)), FlipLow(seed));
    XorSwaps(Xor(mixed, Xor(high, FlipHigh(seed))), FlipLow(seed), Xor(high, FlipHigh(seed)));
  }

  // ----- cache keys

  type Byte = bv8

  /** A little-endian word in memory. */
  function Load(b: seq<Byte>): bv64
    requires |b| == 8
  {
    Join(b[0], b[1], b[2], b[3], b[4], b[5], b[6], b[7])
  }

  function Join(b0: Byte, b1: Byte, b2: Byte, b3: Byte, b4: Byte, b5: Byte, b6: Byte, b7: Byte): bv64 {
    (b0 as bv64) | ((b1 as bv64) << 8) | ((b2 as bv64) << 16) | ((b3 as bv64) << 24) |
    ((b4 as bv64) << 32) | ((b5 as bv64) << 40) | ((b6 as bv64) << 48) | ((b7 as bv64) << 56)
  }

  function Store(x: bv64): (b: seq<Byte>)
    ensures |b| == 8
  {
    [(x & 0xFF) as Byte, ((x >> 8) & 0xFF) as Byte, ((x >> 16) & 0xFF) as Byte, ((x >> 24) & 0xFF) as Byte,
     ((x >> 32) & 0xFF) as Byte, ((x >> 40) & 0xFF) as Byte, ((x >> 48) & 0xFF) as Byte, ((x >> 56) & 0xFF) as Byte]
  }

  lemma StoreJoined(b0: Byte, b1: Byte, b2: Byte, b3: Byte, b4: Byte, b5: Byte, b6: Byte, b7: Byte)
    ensures Store(Join(b0, b1, b2, b3, b4, b5, b6, b7)) == [b0, b1, b2, b3, b4, b5, b6, b7]
  {
    var x :=
      (b0 as bv64) | ((b1 as bv64) << 8) | ((b2 as bv64) << 16) | ((b3 as bv64) << 24) |
      ((b4 as bv64) << 32) | ((b5 as bv64) << 40) | ((b6 as bv64) << 48) | ((b7 as bv64) << 56);
    assert Store(x) == [b0, b1, b2, b3, b4, b5, b6, b7];
  }

  lemma StoreLoaded(b: seq<Byte>)
    requires |b| == 8
    ensures Store(Load(b)) == b
  {
    StoreJoined(b[0], b[1], b[2], b[3], b[4], b[5], b[6], b[7]);
  }

  /** What a key hashes to: the words that the table stores, `data[1]` high and `data[0]` low. */
  function ComputeHash(key: seq<Byte>, seed: bv32): Words
    requires |key| == 16
  {
    Hash(Words(Load(key[8..]), Xor(Load(key[..8]), seed as bv64)), 0)
  }

  function ReverseHash(hashed: Words, seed: bv32): (key: seq<Byte>)
    ensures |key| == 16
  {
    var unhashed := Unhash(hashed, 0);
    Store(Xor(unhashed.low, seed as bv64)) + Store(unhashed.high)
  }

  /** An evicted entry's key is rebuilt from its hash. */
  lemma ReverseHashRecoversKey(key: seq<Byte>, seed: bv32)
    requires |key| == 16
    ensures ReverseHash(ComputeHash(key, seed), seed) == key
  {
    UnhashUndoesHash(Words(Load(key[8..]), Xor(Load(key[..8]), seed as bv64)), 0);
    XorTwice(Load(key[..8]), seed as bv64);
    StoreLoaded(key[..8]);
    StoreLoaded(key[8..]);
  }

  /** Keys need no comparison beyond their hashes. */
  lemma KeysNeverCollide(a: seq<Byte>, b: seq<Byte>, seed: bv32)
    requires |a| == |b| == 16
    ensures ComputeHash(a, seed) == ComputeHash(b, seed) <==> a == b
  {
    ReverseHashRecoversKey(a, seed);
    ReverseHashRecoversKey(b, seed);
  }
}
