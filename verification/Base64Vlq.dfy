// The base64 VLQ codec of the source-map library bundled with the LESS compiler
// (extra/lesscss/less-rhino-1.7.0.js, modules 'source-map/base64' and 'source-map/base64-vlq').
// JavaScript numbers are integers here; its bitwise operators first reduce them to 32 bits.
module Base64Vlq {
  import opened Wrappers

  datatype DecodeError = ExpectedMoreDigits | NotABase64Digit(c: char)

  // ---------- 32-bit arithmetic ----------

  function ToUint32(x: int): int {
    x % 0x1_0000_0000
  }

  function ToInt32(x: int): int {
    var u := ToUint32(x);
    if u < 0x8000_0000 then u else u - 0x1_0000_0000
  }

  function Pow2(n: nat): nat {
    if n == 0 then 1 else 2 * Pow2(n - 1)
  }

  // x << n: the shift count is taken modulo 32, and every doubling keeps 32 bits
  function ShiftLeft(x: int, n: nat): int {
    Doubled(ToInt32(x), n % 32)
  }

  function Doubled(x: int, n: nat): int {
    if n == 0 then x else ToInt32(2 * Doubled(x, n - 1))
  }

  // x >> 1, the arithmetic shift: Dafny's division by a positive number rounds down as it does
  function ShiftRight1(x: int): int {
    ToInt32(x) / 2
  }

  // ---------- base 64 digits: A-Z, a-z, 0-9, + and / in this order ----------

  function EncodeDigit(d: int): char
    requires 0 <= d < 64
  {
    if d < 26 then 'A' + d as char
    else if d < 52 then 'a' + (d - 26) as char
    else if d < 62 then '0' + (d - 52) as char
    else if d == 62 then '+'
    else '/'
  }

  function DecodeDigit(c: char): Option<int> {
    if 'A' <= c <= 'Z' then Some(c as int - 'A' as int)
    else if 'a' <= c <= 'z' then Some(c as int - 'a' as int + 26)
    else if '0' <= c <= '9' then Some(c as int - '0' as int + 52)
    else if c == '+' then Some(62)
    else if c == '/' then Some(63)
    else None
  }

  lemma DigitRoundTrip(d: int)
    requires 0 <= d < 64
    ensures DecodeDigit(EncodeDigit(d)) == Some(d)
    ensures EncodeDigit(d) != ',' && EncodeDigit(d) != ';'
  {
  }

  // ---------- signed values ----------

  function ToVlqSigned(v: int): int {
    if v < 0 then ShiftLeft(-v, 1) + 1 else ShiftLeft(v, 1)
  }

  function FromVlqSigned(w: int): int {
    var shifted := ShiftRight1(w);
    if w % 2 == 1 then -shifted else shifted
  }

  // ---------- unsigned values ----------

  // The text of an unsigned value: five bits a digit, the lowest first, bit 32 says that more follow.
  function EncodeUnsigned(u: nat): string {
    if u < 32 then [EncodeDigit(u)] else [EncodeDigit(u % 32 + 32)] + EncodeUnsigned(u / 32)
  }

  // What the decoder does from its current state: digits still to read, shift and result so far.
  function DecodeFrom(s: string, shift: nat, result: int): (r: Result<(int, string), DecodeError>)
    ensures r.Success? ==> |r.value.1| < |s|
  {
    if s == [] then Failure(ExpectedMoreDigits)
    else match DecodeDigit(s[0])
      case None => Failure(NotABase64Digit(s[0]))
      case Some(d) =>
        var result' := result + ShiftLeft(d % 32, shift);
        if d >= 32 then DecodeFrom(s[1..], shift + 5, result')
        else Success((FromVlqSigned(result'), s[1..]))
  }

  function Encode(v: int): string {
    EncodeUnsigned(ToUint32(ToVlqSigned(v)))
  }

  function Decode(s: string): (r: Result<(int, string), DecodeError>)
    ensures r.Success? ==> |r.value.1| < |s|
  {
    DecodeFrom(s, 0, 0)
  }

  // ---------- the loops ----------

  method EncodeLoop(v: int) returns (encoded: string)
    ensures encoded == Encode(v)
  {
    encoded := "";
    var vlq := ToVlqSigned(v);
    ghost var todo: nat := ToUint32(vlq);
    while true
      invariant todo == ToUint32(vlq)
      invariant Encode(v) == encoded + EncodeUnsigned(todo)
      decreases todo
    {
      LowDigit(vlq);
      var digit := vlq % 32;  // vlq & VLQ_BASE_MASK
      vlq := ToUint32(vlq) / 32;  // vlq >>>= VLQ_BASE_SHIFT
      if vlq > 0 {
        digit := digit + 32;  // digit |= VLQ_CONTINUATION_BIT
      }
      encoded := encoded + [EncodeDigit(digit)];
      if vlq == 0 {
        break;
      }
      todo := vlq;
    }
  }

  method DecodeLoop(s: string) returns (r: Result<(int, string), DecodeError>)
    ensures r == Decode(s)
  {
    var i, result, shift := 0, 0, 0;
    while true
      invariant 0 <= i <= |s| && 0 <= shift
      invariant Decode(s) == DecodeFrom(s[i..], shift, result)
      decreases |s| - i
    {
      if i >= |s| {
        return Failure(ExpectedMoreDigits);
      }
      var c := s[i];
      i := i + 1;
      var d := DecodeDigit(c);
      if d == None {
        return Failure(NotABase64Digit(c));
      }
      var continuation := d.value >= 32;
      result := result + ShiftLeft(d.value % 32, shift);
      shift := shift + 5;
      if !continuation {
        return Success((FromVlqSigned(result), s[i..]));
      }
    }
  }

  // ---------- the round trip ----------

  // The low bits of a number are those of its 32-bit form.
  lemma LowDigit(x: int)
    ensures ToUint32(x) % 32 == x % 32
    ensures 0 <= ToUint32(x) / 32 && ToUint32(ToUint32(x) / 32) == ToUint32(x) / 32
  {
    var q := x / 0x1_0000_0000;
    assert x == 32 * (q * 0x800_0000) + ToUint32(x);
  }

  lemma PowersOf32()
    ensures Pow2(0) == 1 && Pow2(5) == 32 && Pow2(10) == 1024 && Pow2(15) == 32768
    ensures Pow2(20) == 0x10_0000 && Pow2(25) == 0x200_0000 && Pow2(30) == 0x4000_0000
  {
    assert Pow2(5) == 32;
    assert Pow2(10) == 1024;
    assert Pow2(15) == 32768;
    assert Pow2(20) == 0x10_0000;
    assert Pow2(25) == 0x200_0000;
  }

  // The signed reading of 32 bits.
  function Signed(u: int): int {
    if u < 0x8000_0000 then u else u - 0x1_0000_0000
  }

  lemma SignedIsToInt32(u: nat)
    requires u < 0x1_0000_0000
    ensures ToInt32(u) == Signed(u)
  {
  }

  lemma ShiftDigit(d: nat, k: nat)
    requires d < 32 && k <= 6 && d * Pow2(5 * k) < 0x1_0000_0000
    ensures ShiftLeft(d, 5 * k) == Signed(d * Pow2(5 * k))
  {
    hide ToInt32, Signed, Pow2, Doubled;
    SignedIsToInt32(d);
    DoubledIsSigned(d, 5 * k);
  }

  lemma {:induction false} DoubledIsSigned(d: nat, n: nat)
    requires d * Pow2(n) < 0x1_0000_0000
    ensures Doubled(Signed(d), n) == Signed(d * Pow2(n))
  {
    hide ToInt32, Signed, Pow2;
    PowStep(d, n);
    if n > 0 {
      DoubledIsSigned(d, n - 1);
      DoubledOnce(d * Pow2(n - 1));
    }
  }

  lemma PowStep(d: nat, n: nat)
    ensures if n == 0 then d * Pow2(n) == d else d * Pow2(n) == 2 * (d * Pow2(n - 1))
  {
  }

  lemma DoubledOnce(x: nat)
    requires 2 * x < 0x1_0000_0000
    ensures ToInt32(2 * Signed(x)) == Signed(2 * x)
  {
    SignedIsToInt32(2 * x);
    if x >= 0x8000_0000 {
      ToInt32Unique(2 * Signed(x), 2 * x, 2);
    }
  }

  // The low five bits of u and the rest of it are shifted without touching each other: a low part
  // below m does not move a multiple of m across 2^31, which m divides.
  lemma Wraps(q: nat, low: nat, m: nat, n: nat)
    requires n * m == 0x8000_0000 && low < m <= 0x4000_0000 && q * m + low < 0x1_0000_0000
    ensures Signed(low) + Signed(q * m) == Signed(q * m + low)
  {
    if q < n {
      assert (q + 1) * m <= n * m;
    } else {
      assert q * m >= n * m;
    }
  }

  lemma Splits(q: nat, d: nat, p: nat, n: nat)
    requires d < 32 && n * (32 * p) == 0x8000_0000 && 0 < p <= 0x200_0000 && (32 * q + d) * p < 0x1_0000_0000
    ensures d * p < 0x1_0000_0000 && q * (32 * p) < 0x1_0000_0000
    ensures Signed(d * p) + Signed(q * (32 * p)) == Signed((32 * q + d) * p)
  {
    var low, m := d * p, 32 * p;
    assert (32 * q + d) * p == q * m + low;
    assert low < m by {
      assert (32 - d) * p > 0;
    }
    Wraps(q, low, m, n);
  }

  lemma ShiftSplits(q: nat, d: nat, k: nat, p: nat)
    requires d < 32 && 1 <= q && k <= 6 && p == Pow2(5 * k) && (32 * q + d) * p < 0x1_0000_0000
    ensures k < 6 && Pow2(5 * (k + 1)) == 32 * p
    ensures d * p < 0x1_0000_0000 && q * (32 * p) < 0x1_0000_0000
    ensures Signed(d * p) + Signed(q * (32 * p)) == Signed((32 * q + d) * p)
  {
    hide Pow2, Signed;
    PowersOf32();
    assert (32 * q + d) * p >= 32 * p;
    Splits(q, d, p, [0x400_0000, 0x20_0000, 0x1_0000, 2048, 64, 2][k]);
  }

  lemma DecodeLastDigit(d: nat, rest: string, shift: nat, result: int)
    requires d < 32
    ensures DecodeFrom([EncodeDigit(d)] + rest, shift, result)
         == Success((FromVlqSigned(result + ShiftLeft(d, shift)), rest))
  {
    DigitRoundTrip(d);
    var s := [EncodeDigit(d)] + rest;
    assert s[1..] == rest;
  }

  lemma DecodeMoreDigits(d: nat, rest: string, shift: nat, result: int)
    requires d < 32
    ensures DecodeFrom([EncodeDigit(d + 32)] + rest, shift, result)
         == DecodeFrom(rest, shift + 5, result + ShiftLeft(d, shift))
  {
    DigitRoundTrip(d + 32);
    var s := [EncodeDigit(d + 32)] + rest;
    assert s[1..] == rest;
  }

  // Decoding the text of u at shift 5 * k adds the signed reading of u * 2^(5k) to the result.
  lemma {:induction false} DecodeUnsigned(u: nat, k: nat, p: nat, result: int, rest: string)
    requires k <= 6 && p == Pow2(5 * k) && u * p < 0x1_0000_0000
    ensures DecodeFrom(EncodeUnsigned(u) + rest, 5 * k, result)
         == Success((FromVlqSigned(result + Signed(u * p)), rest))
    decreases 6 - k
  {
    hide Pow2, Signed, DecodeFrom, EncodeDigit, FromVlqSigned, ShiftLeft;
    if u < 32 {
      ShiftDigit(u, k);
      DecodeLastDigit(u, rest, 5 * k, result);
    } else {
      DecodeOneDigit(u / 32, u % 32, k, p, result, EncodeUnsigned(u / 32) + rest);
      DecodeUnsigned(u / 32, k + 1, 32 * p, result + Signed(u % 32 * p), rest);
      assert EncodeUnsigned(u) + rest == [EncodeDigit(u % 32 + 32)] + (EncodeUnsigned(u / 32) + rest);
    }
  }

  lemma DecodeOneDigit(q: nat, d: nat, k: nat, p: nat, result: int, rest: string)
    requires d < 32 && 1 <= q && k <= 6 && p == Pow2(5 * k) && (32 * q + d) * p < 0x1_0000_0000
    ensures k < 6 && Pow2(5 * (k + 1)) == 32 * p && q * (32 * p) < 0x1_0000_0000
    ensures DecodeFrom([EncodeDigit(d + 32)] + rest, 5 * k, result)
            == DecodeFrom(rest, 5 * (k + 1), result + Signed(d * p))
    ensures Signed(d * p) + Signed(q * (32 * p)) == Signed((32 * q + d) * p)
  {
    ShiftSplits(q, d, k, p);
    ShiftDigit(d, k);
    DecodeMoreDigits(d, rest, 5 * k, result);
  }

  // Reducing to 32 bits takes away a multiple of 2^32, so parity survives.
  lemma ToInt32Congruent(x: int) returns (q: int)
    ensures ToInt32(x) == x - q * 0x1_0000_0000
    ensures -0x8000_0000 <= ToInt32(x) < 0x8000_0000
  {
    q := x / 0x1_0000_0000;
    if ToUint32(x) >= 0x8000_0000 {
      q := q + 1;
    }
  }

  lemma ToInt32Unique(x: int, y: int, k: int)
    requires y == x + k * 0x1_0000_0000
    ensures ToInt32(x) == ToInt32(y)
  {
  }

  // One shift to the left doubles, and keeps 32 bits.
  lemma ShiftOnce(a: int)
    ensures ShiftLeft(a, 1) == ToInt32(2 * a)
  {
    hide ToInt32;
    var q := ToInt32Congruent(a);
    ToInt32Unique(ToInt32(a) * 2, 2 * a, 2 * q);
    assert Doubled(ToInt32(a), 1) == ToInt32(2 * Doubled(ToInt32(a), 0));
  }

  lemma EvenIn32Bits(a: int)
    ensures ToInt32(2 * a) % 2 == 0 && -0x8000_0000 <= ToInt32(2 * a) < 0x7fff_ffff
  {
    hide ToInt32;
    var q := ToInt32Congruent(2 * a);
    assert ToInt32(2 * a) == 2 * (a - q * 0x8000_0000);
  }

  lemma SignedIs32Bit(v: int)
    ensures v < 0 ==> ToVlqSigned(v) == ToInt32(-2 * v) + 1
    ensures v >= 0 ==> ToVlqSigned(v) == ToInt32(2 * v)
    ensures -0x8000_0000 <= ToVlqSigned(v) < 0x8000_0000
    ensures (ToVlqSigned(v) % 2 == 1) == (v < 0)
  {
    hide ToInt32, ShiftLeft;
    var a := if v < 0 then -v else v;
    ShiftOnce(a);
    EvenIn32Bits(a);
    assert v < 0 ==> 2 * a == -2 * v;
  }

  lemma Int32OfUint32(w: int)
    requires -0x8000_0000 <= w < 0x8000_0000
    ensures ToInt32(ToUint32(w)) == w == ToInt32(w)
  {
  }

  // Whatever the value, decoding its text and a suffix gives what 32 bits kept of it, and the suffix.
  lemma DecodeEncode(v: int, rest: string)
    ensures Decode(Encode(v) + rest) == Success((FromVlqSigned(ToVlqSigned(v)), rest))
  {
    var w := ToVlqSigned(v);
    SignedIs32Bit(v);
    Int32OfUint32(w);
    assert Pow2(5 * 0) == 1;
    DecodeUnsigned(ToUint32(w), 0, 1, 0, rest);
  }

  predicate Fits(v: int) {
    -0x4000_0000 < v < 0x4000_0000
  }

  // The round trip holds for every suffix on exactly the values of magnitude below 2^30.
  lemma RoundTripExactlyBelow2To30(v: int, rest: string) returns (w: int)
    ensures Decode(Encode(v) + rest) == Success((w, rest))
    ensures w == v <==> Fits(v)
  {
    DecodeEncode(v, rest);
    w := FromVlqSigned(ToVlqSigned(v));
    SignedIs32Bit(v);
    Int32OfUint32(ToVlqSigned(v));
    var a := if v < 0 then -v else v;
    var q := ToInt32Congruent(2 * a);
    if a < 0x4000_0000 {
      SignedIsToInt32(2 * a);
    }
  }

  // The text of a value begins with a digit, never with a separator of the mappings string.
  lemma EncodedStartsWithDigit(v: int)
    ensures |Encode(v)| > 0 && Encode(v)[0] != ',' && Encode(v)[0] != ';'
  {
    var u := ToUint32(ToVlqSigned(v));
    DigitRoundTrip(if u < 32 then u else u % 32 + 32);
  }
}
