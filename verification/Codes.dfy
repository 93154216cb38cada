/** The texts of generated codes: recovery codes in base32 (section 6 of RFC 4648), six-digit codes. */
module Codes {
  import opened Numerals
  import opened Wrappers

  const RECOVERY_CODE_LEN: nat := 16

  // Numbers as digits, most significant first

  datatype Radix = Binary | Base32 | Base256

  function Size(r: Radix): nat {
    match r
    case Binary => 2
    case Base32 => 32
    case Base256 => 256
  }

  function Times(r: Radix, n: int): int {
    match r
    case Binary => 2 * n
    case Base32 => 32 * n
    case Base256 => 256 * n
  }

  function Quotient(n: nat, r: Radix): (q: nat)
    ensures Times(r, q) <= n < Times(r, q + 1)
  {
    match r
    case Binary => n / 2
    case Base32 => n / 32
    case Base256 => n / 256
  }

  predicate InBase(ds: seq<int>, r: Radix) {
    forall d <- ds :: 0 <= d < Size(r)
  }

  function Value(ds: seq<int>, r: Radix): int {
    if ds == [] then 0 else Times(r, Value(ds[..|ds| - 1], r)) + ds[|ds| - 1]
  }

  function Digits(n: nat, r: Radix, count: nat): (ds: seq<int>)
    ensures |ds| == count && InBase(ds, r)
  {
    if count == 0 then []
    else
      var q := Quotient(n, r);
      Digits(q, r, count - 1) + [n - Times(r, q)]
  }

  function Power(r: Radix, count: nat): nat {
    if count == 0 then 1 else Times(r, Power(r, count - 1))
  }

  lemma {:induction false} ValueOfDigits(n: nat, r: Radix, count: nat)
    requires n < Power(r, count)
    ensures Value(Digits(n, r, count), r) == n
  {
    if count > 0 {
      var q := Quotient(n, r);
      ValueOfDigits(q, r, count - 1);
      assert Digits(n, r, count)[..count - 1] == Digits(q, r, count - 1);
    }
  }

  lemma QuotientUnique(n: nat, r: Radix, q: nat)
    requires Times(r, q) <= n < Times(r, q + 1)
    ensures Quotient(n, r) == q
  {
  }

  lemma InitInBase(ds: seq<int>, r: Radix)
    requires InBase(ds, r) && ds != []
    ensures InBase(ds[..|ds| - 1], r) && 0 <= ds[|ds| - 1] < Size(r)
  {
    assert ds[|ds| - 1] in ds;
    var high := ds[..|ds| - 1];
    forall d | d in high
      ensures 0 <= d < Size(r)
    {
      assert d in ds;
    }
  }

  lemma {:induction false} ValueBounds(ds: seq<int>, r: Radix)
    requires InBase(ds, r)
    ensures 0 <= Value(ds, r) < Power(r, |ds|)
  {
    if ds != [] {
      InitInBase(ds, r);
      ValueBounds(ds[..|ds| - 1], r);
    }
  }

  lemma DigitsStep(n: nat, high: nat, low: int, r: Radix, count: nat)
    requires n == Times(r, high) + low && 0 <= low < Size(r)
    ensures Digits(n, r, count + 1) == Digits(high, r, count) + [low]
  {
    QuotientUnique(n, r, high);
  }

  lemma {:induction false} DigitsOfValue(ds: seq<int>, r: Radix)
    requires InBase(ds, r)
    ensures 0 <= Value(ds, r) < Power(r, |ds|)
    ensures Digits(Value(ds, r), r, |ds|) == ds
  {
    ValueBounds(ds, r);
    if ds != [] {
      var last := |ds| - 1;
      InitInBase(ds, r);
      DigitsOfValue(ds[..last], r);
      DigitsStep(Value(ds, r), Value(ds[..last], r), ds[last], r, last);
      assert ds == ds[..last] + [ds[last]];
    }
  }

  // Base32

  function CharOf(v: int): char
    requires 0 <= v < 32
  {
    if v < 26 then 'A' + v as char else '2' + (v - 26) as char
  }

  function ValueOf(c: char): int {
    if 'A' <= c <= 'Z' then c as int - 'A' as int
    else if '2' <= c <= '7' then c as int - '2' as int + 26
    else 0
  }

  function Chars(vs: seq<int>): string
    requires InBase(vs, Base32)
  {
    seq(|vs|, i requires 0 <= i < |vs| => assert vs[i] in vs; CharOf(vs[i]))
  }

  function Values(cs: string): (vs: seq<int>)
    ensures |vs| == |cs| && InBase(vs, Base32)
  {
    seq(|cs|, i requires 0 <= i < |cs| => ValueOf(cs[i]))
  }

  lemma ValuesOfChars(vs: seq<int>)
    requires InBase(vs, Base32)
    ensures Values(Chars(vs)) == vs
  {
    forall i | 0 <= i < |vs|
      ensures ValueOf(Chars(vs)[i]) == vs[i]
    {
      assert vs[i] in vs;
    }
  }

  function Bytes(bs: seq<Byte>): (ds: seq<int>)
    ensures |ds| == |bs| && InBase(ds, Base256)
    ensures forall i :: 0 <= i < |bs| ==> ds[i] == bs[i]
  {
    seq(|bs|, i requires 0 <= i < |bs| => bs[i])
  }

  /** Five bytes are one 40-bit number, written as eight characters. */
  function EncodeGroup(bs: seq<Byte>): (cs: string)
    requires |bs| == 5
    ensures |cs| == 8
  {
    DigitsOfValue(Bytes(bs), Base256);
    Chars(Digits(Value(Bytes(bs), Base256), Base32, 8))
  }

  /** Followed by zero bits. */
  function Shifted(n: nat, zeros: nat): nat {
    if zeros == 0 then n else 2 * Shifted(n, zeros - 1)
  }

  /** Fewer than five bytes are filled up with zero bits to whole characters. */
  function EncodeTail(bs: seq<Byte>): string
    requires |bs| < 5
  {
    var count := (8 * |bs| + 4) / 5;
    DigitsOfValue(Bytes(bs), Base256);
    Chars(Digits(Shifted(Value(Bytes(bs), Base256), 5 * count - 8 * |bs|), Base32, count))
  }

  lemma {:induction false} ShiftedBelow(n: nat, m: nat, zeros: nat)
    requires n < m
    ensures Shifted(n, zeros) < Shifted(m, zeros)
  {
    if zeros > 0 {
      ShiftedBelow(n, m, zeros - 1);
    }
  }

  lemma TailFits(bytes: nat)
    requires bytes < 5
    ensures
      var count := (8 * bytes + 4) / 5;
      Shifted(Power(Base256, bytes), 5 * count - 8 * bytes) == Power(Base32, count)
  {
    assert Power(Base256, 2) == 65_536 && Power(Base32, 2) == 1024;
    assert Power(Base256, 4) == 4_294_967_296;
    assert Power(Base32, 4) == 1_048_576 && Power(Base32, 7) == 34_359_738_368;
    assert Shifted(Power(Base256, 1), 2) == 1024;
    assert Shifted(Power(Base256, 2), 4) == 1_048_576;
    assert Shifted(Power(Base256, 3), 1) == 33_554_432 == Power(Base32, 5);
    assert Shifted(Power(Base256, 4), 3) == 34_359_738_368;
  }

  lemma TextValue(n: nat, m: nat, zeros: nat, count: nat)
    requires n < m && Shifted(m, zeros) == Power(Base32, count)
    ensures Value(Values(Chars(Digits(Shifted(n, zeros), Base32, count))), Base32) == Shifted(n, zeros)
  {
    ShiftedBelow(n, m, zeros);
    ValuesOfChars(Digits(Shifted(n, zeros), Base32, count));
    ValueOfDigits(Shifted(n, zeros), Base32, count);
  }

  /** The tail's characters spell the bits of its bytes followed by fewer than five zero bits. */
  lemma TailBits(bs: seq<Byte>)
    requires |bs| < 5
    ensures
      var text := EncodeTail(bs);
      var zeros := 5 * |text| - 8 * |bs|;
      && 0 <= Value(Bytes(bs), Base256) && 0 <= zeros < 5
      && Value(Values(text), Base32) == Shifted(Value(Bytes(bs), Base256), zeros)
  {
    var count := (8 * |bs| + 4) / 5;
    ValueBounds(Bytes(bs), Base256);
    TailFits(|bs|);
    TextValue(Value(Bytes(bs), Base256), Power(Base256, |bs|), 5 * count - 8 * |bs|, count);
  }

  /** Standard base32 without padding. */
  function Encode(bs: seq<Byte>): string {
    if |bs| < 5 then EncodeTail(bs) else EncodeGroup(bs[..5]) + Encode(bs[5..])
  }

  function DecodeGroup(cs: string): seq<int>
    requires |cs| == 8
  {
    DigitsOfValue(Values(cs), Base32);
    Digits(Value(Values(cs), Base32), Base256, 5)
  }

  /** Decodes the first groups of a text. */
  function Decode(cs: string, groups: nat): seq<int>
    requires 8 * groups <= |cs|
    decreases groups
  {
    if groups == 0 then [] else DecodeGroup(cs[..8]) + Decode(cs[8..], groups - 1)
  }

  lemma SameRange()
    ensures Power(Base32, 8) == 1_099_511_627_776 == Power(Base256, 5)
  {
    assert Power(Base32, 4) == 1_048_576;
    assert Power(Base32, 8) == Power(Base32, 4) * 32 * 32 * 32 * 32;
    assert Power(Base256, 3) == 16_777_216;
  }

  lemma GroupRoundTrip(bs: seq<Byte>)
    requires |bs| == 5
    ensures DecodeGroup(EncodeGroup(bs)) == Bytes(bs)
  {
    var n := Value(Bytes(bs), Base256);
    SameRange();
    DigitsOfValue(Bytes(bs), Base256);
    ValuesOfChars(Digits(n, Base32, 8));
    ValueOfDigits(n, Base32, 8);
  }

  lemma EncodeSplit(bs: seq<Byte>)
    requires |bs| >= 5
    ensures |Encode(bs)| == 8 + |Encode(bs[5..])|
    ensures Encode(bs)[..8] == EncodeGroup(bs[..5]) && Encode(bs)[8..] == Encode(bs[5..])
  {
  }

  lemma BytesSplit(bs: seq<Byte>, groups: nat)
    requires groups > 0 && 5 * groups <= |bs|
    ensures Bytes(bs[..5 * groups]) == Bytes(bs[..5]) + Bytes(bs[5..][..5 * (groups - 1)])
  {
  }

  /** The first eight characters per group decode to the first five bytes per group. */
  lemma {:induction false} PrefixDecodes(bs: seq<Byte>, groups: nat)
    requires 5 * groups <= |bs|
    ensures 8 * groups <= |Encode(bs)|
    ensures Decode(Encode(bs), groups) == Bytes(bs[..5 * groups])
    decreases groups
  {
    if groups > 0 {
      PrefixDecodes(bs[5..], groups - 1);
      GroupRoundTrip(bs[..5]);
      EncodeSplit(bs);
      BytesSplit(bs, groups);
    }
  }

  /** Only those characters are read. */
  lemma {:induction false} DecodeIgnoresRest(cs: string, n: nat, groups: nat)
    requires 8 * groups <= n <= |cs|
    ensures Decode(cs[..n], groups) == Decode(cs, groups)
    decreases groups
  {
    if groups > 0 {
      assert cs[..n][..8] == cs[..8] && cs[..n][8..] == cs[8..][..n - 8];
      DecodeIgnoresRest(cs[8..], n - 8, groups - 1);
    }
  }

  lemma SameParts(s: string, t: string, m: nat, n: nat)
    requires m <= n <= |s| && n <= |t|
    requires s[..m] == t[..m] && s[m..][..n - m] == t[m..][..n - m]
    ensures s[..n] == t[..n]
  {
    assert s[..n] == s[..m] + s[m..][..n - m];
    assert t[..n] == t[..m] + t[m..][..n - m];
  }

  lemma SameBytes(a: seq<Byte>, b: seq<Byte>, n: nat)
    requires 5 <= n <= |a| && n <= |b| && a[..n] == b[..n]
    ensures a[..5] == b[..5] && a[5..][..n - 5] == b[5..][..n - 5]
  {
    assert a[..5] == a[..n][..5] && b[..5] == b[..n][..5];
    assert a[5..][..n - 5] == a[..n][5..] && b[5..][..n - 5] == b[..n][5..];
  }

  /** And are fixed by them: the rest of the bytes never shows. */
  lemma {:induction false} PrefixDetermined(a: seq<Byte>, b: seq<Byte>, groups: nat)
    requires 5 * groups <= |a| && 5 * groups <= |b|
    requires a[..5 * groups] == b[..5 * groups]
    ensures |Encode(a)| >= 8 * groups && |Encode(b)| >= 8 * groups
    ensures Encode(a)[..8 * groups] == Encode(b)[..8 * groups]
    decreases groups
  {
    if groups > 0 {
      SameBytes(a, b, 5 * groups);
      PrefixDetermined(a[5..], b[5..], groups - 1);
      EncodeSplit(a);
      EncodeSplit(b);
      SameParts(Encode(a), Encode(b), 8, 8 * groups);
    }
  }

  const ALPHABET: string := "ABCDEFGHIJKLMNOPQRSTUVWXYZ234567"

  lemma AlphabetExact(v: nat)
    requires v < 32
    ensures CharOf(v) == ALPHABET[v]
  {
  }

  lemma ValueLast(ds: seq<int>, d: int, r: Radix)
    ensures Value(ds + [d], r) == Times(r, Value(ds, r)) + d
  {
    assert (ds + [d])[..|ds|] == ds;
  }

  lemma FoobaValue()
    ensures Value([102, 111, 111, 98, 97], Base256) == 439_956_234_849
  {
    ValueLast([], 102, Base256);
    ValueLast([102], 111, Base256);
    ValueLast([102, 111], 111, Base256);
    ValueLast([102, 111, 111], 98, Base256);
    ValueLast([102, 111, 111, 98], 97, Base256);
    assert [] + [102] == [102] && [102] + [111] == [102, 111] && [102, 111] + [111] == [102, 111, 111];
    assert [102, 111, 111] + [98] == [102, 111, 111, 98];
    assert [102, 111, 111, 98] + [97] == [102, 111, 111, 98, 97];
  }

  lemma FoobaDigits()
    ensures Digits(439_956_234_849, Base32, 8) == [12, 25, 23, 22, 30, 24, 19, 1]
  {
    assert Digits(12, Base32, 1) == [12];
    DigitsStep(409, 12, 25, Base32, 1);
    DigitsStep(13_111, 409, 23, Base32, 2);
    DigitsStep(419_574, 13_111, 22, Base32, 3);
    DigitsStep(13_426_398, 419_574, 30, Base32, 4);
    DigitsStep(429_644_760, 13_426_398, 24, Base32, 5);
    DigitsStep(13_748_632_339, 429_644_760, 19, Base32, 6);
    DigitsStep(439_956_234_849, 13_748_632_339, 1, Base32, 7);
  }

  lemma TailOfFoobar()
    ensures EncodeTail([114]) == "OI"
  {
    var tail: seq<Byte> := [114];
    assert Bytes(tail) == [] + [114];
    ValueLast([], 114, Base256);
    assert Shifted(114, 1) == 228 && Shifted(114, 2) == 456;
    assert Digits(14, Base32, 1) == [14];
    DigitsStep(456, 14, 8, Base32, 1);
    assert EncodeTail(tail) == Chars([14, 8]);
  }

  /** A test vector of section 10 of RFC 4648: the bytes of "foobar". */
  lemma Foobar()
    ensures Encode([102, 111, 111, 98, 97, 114]) == "MZXW6YTBOI"
  {
    var all: seq<Byte> := [102, 111, 111, 98, 97, 114];
    FoobaValue();
    FoobaDigits();
    TailOfFoobar();
    assert Bytes(all[..5]) == [102, 111, 111, 98, 97];
    assert EncodeGroup(all[..5]) == Chars([12, 25, 23, 22, 30, 24, 19, 1]);
    assert Chars([12, 25, 23, 22, 30, 24, 19, 1]) == "MZXW6YTB";
    var tail: seq<Byte> := [114];
    assert all[5..] == tail;
    assert Encode(tail) == EncodeTail(tail);
  }

  lemma EncodedLength(buf: seq<Byte>)
    requires |buf| == RECOVERY_CODE_LEN
    ensures |Encode(buf)| == 26
  {
    assert |Encode(buf[5..][5..][5..])| == 2;
    assert |Encode(buf[5..][5..])| == 10;
    assert |Encode(buf[5..])| == 18;
  }

  /** A recovery code: sixteen random bytes as text, cut to sixteen characters. */
  function RecoveryText(buf: seq<Byte>): (code: string)
    requires |buf| == RECOVERY_CODE_LEN
    ensures |code| == RECOVERY_CODE_LEN
  {
    EncodedLength(buf);
    Encode(buf)[..RECOVERY_CODE_LEN]
  }

  /** The code holds exactly the first ten bytes: equal codes are equal bytes, and the last six are lost. */
  lemma RecoveryTextExact(a: seq<Byte>, b: seq<Byte>)
    requires |a| == RECOVERY_CODE_LEN == |b|
    ensures Decode(RecoveryText(a), 2) == Bytes(a[..10])
    ensures RecoveryText(a) == RecoveryText(b) <==> a[..10] == b[..10]
  {
    PrefixDecodes(a, 2);
    PrefixDecodes(b, 2);
    DecodeIgnoresRest(Encode(a), RECOVERY_CODE_LEN, 2);
    DecodeIgnoresRest(Encode(b), RECOVERY_CODE_LEN, 2);
    if a[..10] == b[..10] {
      PrefixDetermined(a, b, 2);
    }
    if RecoveryText(a) == RecoveryText(b) {
      assert Bytes(a[..10]) == Bytes(b[..10]);
      forall i | 0 <= i < 10
        ensures a[i] == b[i]
      {
        assert Bytes(a[..10])[i] == a[i] && Bytes(b[..10])[i] == b[i];
      }
    }
  }

  /** A number below a million, written with zeros in front up to six digits. */
  function NumericOtp(n: nat): string {
    ZeroFilled(Decimal(n), 6)
  }

  /**
    Codes and numbers below a million correspond: a six-digit text is the code of the number it reads
    as, and of no other.
   */
  lemma NumericOtpExact(n: nat, text: string)
    requires n < 1_000_000
    ensures NumericOtp(n) == text <==> |text| == 6 && ParseDigits(text) == Some(n)
    ensures |text| == 6 && (forall c <- text :: Digit(c)) ==>
      ParseDigits(text).Some? && ParseDigits(text).value < 1_000_000
  {
    assert PowerOfTen(3) == 1000;
    assert PowerOfTen(6) == PowerOfTen(3) * 10 * 10 * 10;
    ParseDecimal(n);
    DecimalLength(n, 6);
    ParseZeroFilled(Decimal(n), 6);
    if |text| == 6 && ParseDigits(text) == Some(n) {
      ParseInjective(NumericOtp(n), text);
    }
    if |text| == 6 && forall c <- text :: Digit(c) {
      ParseRange(text);
    }
  }
}
