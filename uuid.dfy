/**
 * Model of sfl_uuid.h: a splitmix64-driven generator of version-4 UUIDs
 * (RFC 4122, section 4.4) and the canonical 8-4-4-4-12 lowercase string
 * form of RFC 4122, section 3.
 *
 * A UUID is 16 bytes. The source overlays the bytes with two 64-bit words;
 * the model fixes the host byte order as little-endian, so word k is made of
 * bytes 8*k .. 8*k+7, least significant byte first.
 *
 * Bytes and 64-bit words are integers in range, and every uint64_t operation
 * is written out: addition and multiplication modulo 2^64, the right shift as
 * division by a power of two, and xor bit by bit. The uint32_t helpers of
 * the seeding code are written on bv32, whose operations wrap like uint32_t.
 */
module Uuid {

  const TwoTo64: int := 0x1_0000_0000_0000_0000

  type Byte = b: int | 0 <= b < 256
  type Word = w: int | 0 <= w < TwoTo64

  /** The splitmix64 increment (the "golden gamma"). */
  const GoldenGamma: Word := 0x9E3779B97F4A7C15

  /** Size of the string buffer: 36 characters and the terminating NUL. */
  const BufferSize: nat := 37

  /** The first value of the hash's static multiplier and its step factor. */
  const HashMultiplierSeed: bv32 := 0x43b0d7e5
  const HashMultiplierStep: bv32 := 0x931e8875

  /** The lowercase hexadecimal digit of nibble value `n`, as in the table "0123456789abcdef". */
  function HexDigit(n: int): (c: char)
    requires 0 <= n < 16
    ensures IsLowerHexDigit(c)
  {
    if n < 10 then ('0' as int + n) as char else ('a' as int + n - 10) as char
  }

  /** Number of hexadecimal characters in each group of the string form. */
  const Groups: seq<nat> := [8, 4, 4, 4, 12]

  /** Byte index at which group `i` of the string form starts: a group of
      `Groups[i]` characters holds half as many bytes. */
  const GroupStart: seq<nat> := [0, 4, 6, 8, 10, 16]

  // ---------------------------------------------------------------------------
  // uint64_t arithmetic
  // ---------------------------------------------------------------------------

  function Pow2(n: nat): (p: nat)
    ensures p >= 1
  {
    if n == 0 then 1 else 2 * Pow2(n - 1)
  }

  /** Bitwise xor of the low `bits` bits of `a` and `b`. */
  function Xor(a: nat, b: nat, bits: nat): (r: nat)
    ensures r < Pow2(bits)
  {
    if bits == 0 then 0
    else (if a % 2 == b % 2 then 0 else 1) + 2 * Xor(a / 2, b / 2, bits - 1)
  }

  lemma {:induction false} Pow2Add(m: nat, n: nat)
    ensures Pow2(m + n) == Pow2(m) * Pow2(n)
  {
    if m > 0 {
      Pow2Add(m - 1, n);
    }
  }

  lemma Pow2Is64()
    ensures Pow2(64) == TwoTo64
  {
    assert Pow2(8) == 0x100;
    Pow2Add(8, 8);
    Pow2Add(16, 16);
    Pow2Add(32, 32);
  }

  function Add64(a: Word, b: Word): Word { (a + b) % TwoTo64 }

  function Mul64(a: Word, b: Word): Word { (a * b) % TwoTo64 }

  function Xor64(a: Word, b: Word): Word
  {
    Pow2Is64();
    Xor(a, b, 64)
  }

  lemma {:induction false} MulAtLeast(p: nat, q: nat)
    requires p >= 1
    ensures p * q >= q
    decreases p
  {
    if p > 1 {
      MulAtLeast(p - 1, q);
      assert p * q == (p - 1) * q + q;
    }
  }

  lemma DivAtMost(a: nat, p: nat)
    requires p >= 1
    ensures 0 <= a / p <= a
  {
    var q := a / p;
    MulAtLeast(p, q);
  }

  /** x >> k on a 64-bit word. */
  function Shr64(a: Word, k: nat): Word
  {
    var p := Pow2(k);
    DivAtMost(a, p);
    a / p
  }

  /** The output function of splitmix64, applied to the advanced state. */
  function Mix64(z: Word): Word
  {
    var a := Mul64(Xor64(z, Shr64(z, 30)), 0xBF58476D1CE4E5B9);
    var b := Mul64(Xor64(a, Shr64(a, 27)), 0x94D049BB133111EB);
    Xor64(b, Shr64(b, 31))
  }

  // ---------------------------------------------------------------------------
  // The uint32_t helpers of the seeding code
  // ---------------------------------------------------------------------------

  /** t ^ (t >> 16): the last step of mix and hash. */
  function XorShift16(t: bv32): bv32
  {
    t ^ (t >> 16)
  }

  /** sfl_uuid__mix: a pure function of its two arguments. */
  function Mix(x: bv32, y: bv32): bv32
  {
    XorShift16(0xca01f9dd * x - 0x4973f715 * y)
  }

  /**
   * One call of sfl_uuid__hash made while the static multiplier holds `m`:
   * the value is xored with `m`, then multiplied by the multiplier AFTER it
   * has been stepped.
   */
  function HashWith(value: bv32, m: bv32): bv32
  {
    XorShift16((value ^ m) * (m * HashMultiplierStep))
  }

  /**
   * The function-local static multiplier of sfl_uuid__hash. It lives as long
   * as the process, so the hash of a value depends on how many calls came
   * before.
   */
  class HashState {
    var multiplier: bv32

    constructor ()
      ensures multiplier == HashMultiplierSeed
    {
      multiplier := HashMultiplierSeed;
    }

    /** sfl_uuid__hash. */
    method Hash(value: bv32) returns (r: bv32)
      modifies this
      ensures multiplier == old(multiplier) * HashMultiplierStep
      ensures r == HashWith(value, old(multiplier))
    {
      r := HashWith(value, multiplier);
      multiplier := multiplier * HashMultiplierStep;
    }
  }

  /** The same argument hashes differently on the first and the second call. */
  lemma HashDependsOnCallHistory()
    ensures HashWith(0, HashMultiplierSeed) != HashWith(0, HashMultiplierSeed * HashMultiplierStep)
  {
  }

  // ---------------------------------------------------------------------------
  // Byte order of the 64-bit words
  // ---------------------------------------------------------------------------

  /** The 8 bytes of a word, least significant first. */
  function LeBytes(q: Word): (r: seq<Byte>)
    ensures |r| == 8
  {
    var q1 := q / 0x100;
    var q2 := q1 / 0x100;
    var q3 := q2 / 0x100;
    var q4 := q3 / 0x100;
    var q5 := q4 / 0x100;
    var q6 := q5 / 0x100;
    var q7 := q6 / 0x100;
    [q % 0x100, q1 % 0x100, q2 % 0x100, q3 % 0x100, q4 % 0x100, q5 % 0x100, q6 % 0x100, q7 % 0x100]
  }

  /** The word whose little-endian bytes are `s`. */
  function LeValue(s: seq<Byte>): int
    requires |s| == 8
  {
    var b: seq<int> := s;
    b[0] + 0x100 * (b[1] + 0x100 * (b[2] + 0x100 * (b[3] + 0x100 * (b[4]
    + 0x100 * (b[5] + 0x100 * (b[6] + 0x100 * b[7]))))))
  }

  /** Reading a word back through the byte view gives the word written. */
  lemma LeRoundTrip(q: Word)
    ensures LeValue(LeBytes(q)) == q
  {
    var q7 := q / 0x100 / 0x100 / 0x100 / 0x100 / 0x100 / 0x100 / 0x100;
    assert q7 < 0x100;
  }

  /** Word `k` of the byte view. */
  function Qword(u: seq<Byte>, k: nat): int
    requires |u| == 16 && k < 2
  {
    LeValue(u[8 * k .. 8 * k + 8])
  }

  // ---------------------------------------------------------------------------
  // Generator state and version-4 patching
  // ---------------------------------------------------------------------------

  /** The 16 random bytes that sfl_uuid__randomize produces from `seed`. */
  function RandomBytes(seed: Word): (r: seq<Byte>)
    ensures |r| == 16
  {
    LeBytes(Mix64(Add64(seed, GoldenGamma))) + LeBytes(Mix64(Add64(Add64(seed, GoldenGamma), GoldenGamma)))
  }

  /** The two words of RandomBytes(seed) are consecutive splitmix64 outputs. */
  lemma RandomBytesWords(seed: Word)
    ensures Qword(RandomBytes(seed), 0) == Mix64(Add64(seed, GoldenGamma))
    ensures Qword(RandomBytes(seed), 1) == Mix64(Add64(Add64(seed, GoldenGamma), GoldenGamma))
  {
    var q0 := Mix64(Add64(seed, GoldenGamma));
    var q1 := Mix64(Add64(Add64(seed, GoldenGamma), GoldenGamma));
    assert RandomBytes(seed)[0..8] == LeBytes(q0);
    assert RandomBytes(seed)[8..16] == LeBytes(q1);
    LeRoundTrip(q0);
    LeRoundTrip(q1);
  }

  /** (b & 0xf) | 0x40: the high nibble becomes the version number 4 (RFC 4122, section 4.1.3). */
  function PatchVersion(b: Byte): (r: Byte)
    ensures r / 16 == 4
    ensures r % 16 == b % 16
  {
    b % 16 + 0x40
  }

  /** (b & 0x3f) | 0x80: the top two bits become the variant 10 (RFC 4122, section 4.1.1). */
  function PatchVariant(b: Byte): (r: Byte)
    ensures r / 64 == 2
    ensures r % 64 == b % 64
  {
    b % 64 + 0x80
  }

  /** A version-4 UUID of the RFC 4122 variant. */
  predicate IsV4(u: seq<Byte>)
  {
    |u| == 16 && u[6] / 16 == 4 && u[8] / 64 == 2
  }

  /** The patching done by sfl_uuid_gen_v4 on 16 random bytes. */
  function ApplyV4(r: seq<Byte>): (u: seq<Byte>)
    requires |r| == 16
    ensures IsV4(u)
    ensures u[6] % 16 == r[6] % 16 && u[8] % 64 == r[8] % 64
    ensures forall i :: 0 <= i < 16 && i != 6 && i != 8 ==> u[i] == r[i]
  {
    r[6 := PatchVersion(r[6])][8 := PatchVariant(r[8])]
  }

  /**
   * The patching keeps exactly the version-4 UUIDs fixed: every version-4
   * UUID is a possible output, and nothing else is one.
   */
  lemma ApplyV4FixesExactlyV4(u: seq<Byte>)
    requires |u| == 16
    ensures ApplyV4(u) == u <==> IsV4(u)
  {
    if IsV4(u) {
      assert PatchVersion(u[6]) == u[6];
      assert PatchVariant(u[8]) == u[8];
    }
  }

  lemma RandomBytesSplit(s0: Word, q0: Word, q1: Word)
    requires q0 == Mix64(Add64(s0, GoldenGamma))
    requires q1 == Mix64(Add64(Add64(s0, GoldenGamma), GoldenGamma))
    ensures RandomBytes(s0) == LeBytes(q0) + LeBytes(q1)
  {
  }

  lemma Halves(a: seq<Byte>, x: seq<Byte>, y: seq<Byte>)
    requires |a| == 16 && a[0..8] == x && a[8..16] == y
    ensures a == x + y
  {
    assert a == a[0..8] + a[8..16];
  }

  /** The generator context: the splitmix64 state. */
  class UuidContext {
    var seed: Word

    constructor (seed0: Word)
      ensures seed == seed0
    {
      seed := seed0;
    }

    /** sfl_uuid__splitmix64: advance the state by the golden gamma, return its mix. */
    method SplitMix64() returns (r: Word)
      modifies this
      ensures seed == Add64(old(seed), GoldenGamma)
      ensures r == Mix64(seed)
    {
      seed := Add64(seed, GoldenGamma);
      r := Mix64(seed);
    }

    /** A store to word `k` of the union writes its 8 bytes, least significant first. */
    static method StoreQword(out: array<Byte>, k: nat, q: Word)
      requires out.Length == 16 && k < 2
      modifies out
      ensures out[8 * k .. 8 * k + 8] == LeBytes(q)
      ensures forall i :: 0 <= i < 16 && !(8 * k <= i < 8 * k + 8) ==> out[i] == old(out[i])
    {
      var bs := LeBytes(q);
      forall i | 0 <= i < 8 {
        out[8 * k + i] := bs[i];
      }
    }

    /** sfl_uuid__randomize: two consecutive splitmix64 outputs fill the two words. */
    method Randomize(out: array<Byte>)
      requires out.Length == 16
      modifies this, out
      ensures seed == Add64(Add64(old(seed), GoldenGamma), GoldenGamma)
      ensures out[..] == RandomBytes(old(seed))
    {
      ghost var s0 := seed;
      var q0 := SplitMix64();
      StoreQword(out, 0, q0);
      ghost var b0 := out[0..8];
      var q1 := SplitMix64();
      StoreQword(out, 1, q1);
      assert out[0..8] == b0;
      RandomBytesSplit(s0, q0, q1);
      Halves(out[..], LeBytes(q0), LeBytes(q1));
    }

    /** sfl_uuid_gen_v4: random bytes, then the version and variant patches. */
    method GenV4(out: array<Byte>)
      requires out.Length == 16
      modifies this, out
      ensures seed == Add64(Add64(old(seed), GoldenGamma), GoldenGamma)
      ensures out[..] == ApplyV4(RandomBytes(old(seed)))
    {
      Randomize(out);
      out[6] := PatchVersion(out[6]);
      out[8] := PatchVariant(out[8]);
    }
  }

  // ---------------------------------------------------------------------------
  // String form
  // ---------------------------------------------------------------------------

  /** hex[b >> 4] then hex[b & 0xf]. */
  function HexByte(b: Byte): string
  {
    [HexDigit(b / 16), HexDigit(b % 16)]
  }

  /** The hexadecimal characters of a byte string, in index order. */
  function HexOf(bs: seq<Byte>): (s: string)
    ensures |s| == 2 * |bs|
  {
    if bs == [] then [] else HexByte(bs[0]) + HexOf(bs[1..])
  }

  /** RFC 4122, section 3: 8-4-4-4-12 lowercase hexadecimal digits. */
  function Canonical(u: seq<Byte>): (s: string)
    requires |u| == 16
    ensures |s| == 36
  {
    HexOf(u[0..4]) + "-" + HexOf(u[4..6]) + "-" + HexOf(u[6..8]) + "-"
    + HexOf(u[8..10]) + "-" + HexOf(u[10..16])
  }

  predicate IsLowerHexDigit(c: char)
  {
    '0' <= c <= '9' || 'a' <= c <= 'f'
  }

  /** What the output holds after the first `i` groups, each followed by a hyphen. */
  function Rendered(u: seq<Byte>, i: nat): (s: string)
    requires |u| == 16 && i <= 5
    ensures |s| == 2 * GroupStart[i] + i
  {
    if i == 0 then [] else Rendered(u, i - 1) + HexOf(u[GroupStart[i - 1]..GroupStart[i]]) + "-"
  }

  lemma RenderedIsCanonical(u: seq<Byte>)
    requires |u| == 16
    ensures Rendered(u, 5) == Canonical(u) + "-"
  {
    var h0, h1, h2, h3, h4 := HexOf(u[0..4]), HexOf(u[4..6]), HexOf(u[6..8]), HexOf(u[8..10]), HexOf(u[10..16]);
    assert Rendered(u, 1) == h0 + "-";
    assert Rendered(u, 2) == h0 + "-" + h1 + "-";
    assert Rendered(u, 3) == h0 + "-" + h1 + "-" + h2 + "-";
    assert Rendered(u, 4) == h0 + "-" + h1 + "-" + h2 + "-" + h3 + "-";
  }

  lemma {:induction false} HexOfAppend(a: seq<Byte>, b: seq<Byte>)
    ensures HexOf(a + b) == HexOf(a) + HexOf(b)
  {
    if a != [] {
      assert (a + b)[0] == a[0];
      assert (a + b)[1..] == a[1..] + b;
      HexOfAppend(a[1..], b);
      assert HexOf(a + b) == HexByte(a[0]) + HexOf(a[1..] + b);
    } else {
      assert a + b == b;
    }
  }

  lemma {:induction false} HexOfAt(bs: seq<Byte>, k: nat)
    requires k < |bs|
    ensures HexOf(bs)[2 * k] == HexDigit(bs[k] / 16)
    ensures HexOf(bs)[2 * k + 1] == HexDigit(bs[k] % 16)
  {
    if k > 0 {
      HexOfAt(bs[1..], k - 1);
    }
  }

  lemma {:induction false} HexOfDigits(bs: seq<Byte>)
    ensures forall k :: 0 <= k < |HexOf(bs)| ==> IsLowerHexDigit(HexOf(bs)[k])
  {
    if bs != [] {
      HexOfDigits(bs[1..]);
      var h := HexByte(bs[0]);
      assert IsLowerHexDigit(h[0]) && IsLowerHexDigit(h[1]);
    }
  }

  /** Hyphens stand exactly at positions 8, 13, 18 and 23; all else is a lowercase hex digit. */
  lemma CanonicalLayout(u: seq<Byte>)
    requires |u| == 16
    ensures forall k :: 0 <= k < 36 ==> (Canonical(u)[k] == '-' <==> k in {8, 13, 18, 23})
    ensures forall k :: 0 <= k < 36 && k !in {8, 13, 18, 23} ==> IsLowerHexDigit(Canonical(u)[k])
  {
    HexOfDigits(u[0..4]);
    HexOfDigits(u[4..6]);
    HexOfDigits(u[6..8]);
    HexOfDigits(u[8..10]);
    HexOfDigits(u[10..16]);
  }

  /** Position in the string form of the first character of byte `i`. */
  function CharPos(i: nat): nat
  {
    2 * i + (if i >= 4 then 1 else 0) + (if i >= 6 then 1 else 0)
    + (if i >= 8 then 1 else 0) + (if i >= 10 then 1 else 0)
  }

  /** Where the characters of each group stand in the hyphenated string. */
  lemma GroupChars(h0: string, h1: string, h2: string, h3: string, h4: string, k: nat)
    requires |h0| == 8 && |h1| == 4 && |h2| == 4 && |h3| == 4 && |h4| == 12
    ensures var s := h0 + "-" + h1 + "-" + h2 + "-" + h3 + "-" + h4;
            && (k < 8 ==> s[k] == h0[k])
            && (k < 4 ==> s[9 + k] == h1[k] && s[14 + k] == h2[k] && s[19 + k] == h3[k])
            && (k < 12 ==> s[24 + k] == h4[k])
  {
  }

  /** Byte `i`, in index order, is rendered as its high nibble digit, then its low nibble digit. */
  lemma CanonicalByteAt(u: seq<Byte>, i: nat)
    requires |u| == 16 && i < 16
    ensures CharPos(i) + 1 < 36
    ensures Canonical(u)[CharPos(i)] == HexDigit(u[i] / 16)
    ensures Canonical(u)[CharPos(i) + 1] == HexDigit(u[i] % 16)
  {
    var h0, h1, h2, h3, h4 := HexOf(u[0..4]), HexOf(u[4..6]), HexOf(u[6..8]), HexOf(u[8..10]), HexOf(u[10..16]);
    var start := if i < 4 then 0 else if i < 6 then 4 else if i < 8 then 6 else if i < 10 then 8 else 10;
    var k := 2 * (i - start);
    GroupChars(h0, h1, h2, h3, h4, k);
    GroupChars(h0, h1, h2, h3, h4, k + 1);
    if i < 4 {
      HexOfAt(u[0..4], i);
    } else if i < 6 {
      HexOfAt(u[4..6], i - 4);
    } else if i < 8 {
      HexOfAt(u[6..8], i - 6);
    } else if i < 10 {
      HexOfAt(u[8..10], i - 8);
    } else {
      HexOfAt(u[10..16], i - 10);
    }
  }

  // ---------------------------------------------------------------------------
  // Parsing the string form back
  // ---------------------------------------------------------------------------

  datatype Option<T> = None | Some(value: T)

  /** The value of a lowercase hexadecimal digit, or -1. */
  function HexValue(c: char): (v: int)
    ensures -1 <= v < 16
    ensures v >= 0 <==> IsLowerHexDigit(c)
  {
    if '0' <= c <= '9' then c as int - '0' as int
    else if 'a' <= c <= 'f' then c as int - 'a' as int + 10
    else -1
  }

  /** Pairs of hexadecimal digits, high nibble first, back into bytes. */
  function ParseHex(s: string): (r: Option<seq<Byte>>)
    ensures r.Some? ==> 2 * |r.value| == |s|
    decreases |s|
  {
    if s == [] then Some([])
    else if |s| == 1 then None
    else
      var hi, lo := HexValue(s[0]), HexValue(s[1]);
      if hi < 0 || lo < 0 then None
      else match ParseHex(s[2..])
        case Some(rest) => Some([16 * hi + lo] + rest)
        case None => None
  }

  /** The 32 digits of a 36-character string form, hyphen positions dropped. */
  function Digits(s: string): (d: string)
    requires |s| == 36
    ensures |d| == 32
  {
    s[0..8] + s[9..13] + s[14..18] + s[19..23] + s[24..36]
  }

  /** Parse a 36-character string form; None unless the hyphens are in place. */
  function ParseCanonical(s: string): (r: Option<seq<Byte>>)
    ensures r.Some? ==> |r.value| == 16
  {
    if |s| != 36 || s[8] != '-' || s[13] != '-' || s[18] != '-' || s[23] != '-' then None
    else ParseHex(Digits(s))
  }

  lemma DigitParses(n: int)
    requires 0 <= n < 16
    ensures HexValue(HexDigit(n)) == n
  {
  }

  lemma {:induction false} ParseHexOf(bs: seq<Byte>)
    ensures ParseHex(HexOf(bs)) == Some(bs)
  {
    if bs != [] {
      var s := HexOf(bs);
      DigitParses(bs[0] / 16);
      DigitParses(bs[0] % 16);
      assert s[2..] == HexOf(bs[1..]);
      ParseHexOf(bs[1..]);
      assert [bs[0]] + bs[1..] == bs;
    }
  }

  lemma DigitsOfGroups(a: string, b: string, c: string, d: string, e: string)
    requires |a| == 8 && |b| == 4 && |c| == 4 && |d| == 4 && |e| == 12
    ensures Digits(a + "-" + b + "-" + c + "-" + d + "-" + e) == a + b + c + d + e
  {
    var s := a + "-" + b + "-" + c + "-" + d + "-" + e;
    assert s[0..8] == a;
    assert s[9..13] == b;
    assert s[14..18] == c;
    assert s[19..23] == d;
    assert s[24..36] == e;
  }

  lemma HexOfConcat(a: seq<Byte>, b: seq<Byte>, c: seq<Byte>, d: seq<Byte>, e: seq<Byte>)
    ensures HexOf(a + b + c + d + e) == HexOf(a) + HexOf(b) + HexOf(c) + HexOf(d) + HexOf(e)
  {
    HexOfAppend(a, b);
    HexOfAppend(a + b, c);
    HexOfAppend(a + b + c, d);
    HexOfAppend(a + b + c + d, e);
  }

  lemma HexOfGroups(u: seq<Byte>)
    requires |u| == 16
    ensures HexOf(u) == HexOf(u[0..4]) + HexOf(u[4..6]) + HexOf(u[6..8]) + HexOf(u[8..10]) + HexOf(u[10..16])
  {
    assert u == u[0..4] + u[4..6] + u[6..8] + u[8..10] + u[10..16];
    HexOfConcat(u[0..4], u[4..6], u[6..8], u[8..10], u[10..16]);
  }

  lemma CanonicalDigits(u: seq<Byte>)
    requires |u| == 16
    ensures Digits(Canonical(u)) == HexOf(u)
  {
    DigitsOfGroups(HexOf(u[0..4]), HexOf(u[4..6]), HexOf(u[6..8]), HexOf(u[8..10]), HexOf(u[10..16]));
    HexOfGroups(u);
  }

  /** A hex parser recovers the UUID from its string form. */
  lemma ParseCanonicalRoundTrip(u: seq<Byte>)
    requires |u| == 16
    ensures ParseCanonical(Canonical(u)) == Some(u)
  {
    CanonicalLayout(u);
    CanonicalDigits(u);
    ParseHexOf(u);
  }

  /** Distinct UUIDs have distinct string forms. */
  lemma CanonicalInjective(u: seq<Byte>, v: seq<Byte>)
    requires |u| == 16 && |v| == 16 && Canonical(u) == Canonical(v)
    ensures u == v
  {
    ParseCanonicalRoundTrip(u);
    ParseCanonicalRoundTrip(v);
  }

  /** A string holding, pair by pair, the two digits of each byte is the digits of those bytes. */
  lemma HexOfPairs(s: string, bs: seq<Byte>)
    requires |s| == 2 * |bs|
    requires forall k :: 0 <= k < |bs| ==> s[2 * k] == HexDigit(bs[k] / 16) && s[2 * k + 1] == HexDigit(bs[k] % 16)
    ensures s == HexOf(bs)
  {
    forall i | 0 <= i < |s|
      ensures s[i] == HexOf(bs)[i]
    {
      var k := i / 2;
      HexOfAt(bs, k);
      assert i == 2 * k || i == 2 * k + 1;
    }
  }

  /** The inner loop of sfl_uuid_to_string: the digits of `n` bytes from `b`, written from `o`. */
  method WriteHex(uuid: array<Byte>, b: nat, n: nat, out: array<char>, o: nat)
    requires b + n <= uuid.Length && o + 2 * n <= out.Length
    modifies out
    ensures out[o..o + 2 * n] == HexOf(uuid[b..b + n])
    ensures forall k :: 0 <= k < out.Length && !(o <= k < o + 2 * n) ==> out[k] == old(out[k])
  {
    var j := 0;
    while j < n
      invariant 0 <= j <= n
      invariant forall k :: 0 <= k < j ==>
                  out[o + 2 * k] == HexDigit(uuid[b + k] / 16) && out[o + 2 * k + 1] == HexDigit(uuid[b + k] % 16)
      invariant forall k :: 0 <= k < out.Length && !(o <= k < o + 2 * j) ==> out[k] == old(out[k])
    {
      var byte := uuid[b + j];
      out[o + 2 * j] := HexDigit(byte / 16);
      out[o + 2 * j + 1] := HexDigit(byte % 16);
      j := j + 1;
    }
    HexOfPairs(out[o..o + 2 * n], uuid[b..b + n]);
  }

  lemma GroupStep(i: nat)
    requires i < 5
    ensures GroupStart[i + 1] == GroupStart[i] + Groups[i] / 2
  {
  }

  /** Writing group `i` and its hyphen after the first `i` groups renders `i + 1` groups. */
  lemma RenderStep(s: seq<char>, u: seq<Byte>, i: nat, o: nat, n: nat)
    requires |u| == 16 && i < 5 && n == Groups[i] / 2 && o == 2 * GroupStart[i] + i
    requires GroupStart[i + 1] == GroupStart[i] + n && o + 2 * n + 1 <= |s|
    requires s[..o] == Rendered(u, i)
    requires s[o..o + 2 * n] == HexOf(u[GroupStart[i]..GroupStart[i] + n])
    requires s[o + 2 * n] == '-'
    ensures s[..o + 2 * n + 1] == Rendered(u, i + 1)
  {
    assert s[..o + 2 * n + 1] == s[..o] + s[o..o + 2 * n] + "-";
  }

  /**
   * sfl_uuid_to_string: writes exactly BufferSize characters, the string form
   * followed by NUL, and nothing beyond them.
   */
  method ToString(uuid: array<Byte>, out: array<char>)
    requires uuid.Length == 16 && out.Length >= BufferSize
    modifies out
    ensures out[..BufferSize] == Canonical(uuid[..]) + ['\0']
    ensures forall k :: BufferSize <= k < out.Length ==> out[k] == old(out[k])
  {
    ghost var u := uuid[..];
    var b := 0;
    var o := 0;
    var i := 0;
    while i < 5
      invariant 0 <= i <= 5
      invariant b == GroupStart[i] && o == 2 * b + i
      invariant out[..o] == Rendered(u, i)
      invariant forall k :: o <= k < out.Length ==> out[k] == old(out[k])
    {
      var n := Groups[i] / 2;
      GroupStep(i);
      ghost var prefix := out[..o];
      WriteHex(uuid, b, n, out, o);
      out[o + 2 * n] := '-';
      assert out[..o] == prefix;
      RenderStep(out[..], u, i, o, n);
      b := b + n;
      o := o + 2 * n + 1;
      i := i + 1;
    }
    RenderedIsCanonical(u);
    o := o - 1;
    out[o] := '\0';
    assert out[..BufferSize] == out[..36] + ['\0'];
  }
}
