/**
 * Hexadecimal text and bytes, as the Gecko generator uses them:
 * Go's `hex.EncodeToString` / `hex.DecodeString`, the `%0<w>X` verb of `fmt`,
 * `strconv.ParseUint(s, 16, 32)` and the ASCII part of `strings.ToUpper`.
 * A `string` here is a sequence of characters, one per byte of Go's string.
 */
module Hex {
  import opened Results

  type Byte = x: int | 0 <= x < 256

  predicate IsHexDigit(c: char) {
    ('0' <= c <= '9') || ('a' <= c <= 'f') || ('A' <= c <= 'F')
  }

  predicate IsUpperHexDigit(c: char) {
    ('0' <= c <= '9') || ('A' <= c <= 'F')
  }

  predicate AllHex(s: string) {
    forall i :: 0 <= i < |s| ==> IsHexDigit(s[i])
  }

  /** The value of one hex digit, either case (Go's `fromHexChar`). */
  function DigitValue(c: char): (d: nat)
    requires IsHexDigit(c)
    ensures d < 16
  {
    if '0' <= c <= '9' then c as int - '0' as int
    else if 'a' <= c <= 'f' then c as int - 'a' as int + 10
    else c as int - 'A' as int + 10
  }

  /** The digit `hex.EncodeToString` writes for `d`. */
  function LowerDigit(d: nat): (c: char)
    requires d < 16
    ensures IsHexDigit(c) && DigitValue(c) == d
    ensures !IsUpperHexDigit(c) <==> d >= 10
  {
    if d < 10 then ('0' as int + d) as char else ('a' as int + d - 10) as char
  }

  /** The digit `%X` writes for `d`. */
  function UpperDigit(d: nat): (c: char)
    requires d < 16
    ensures IsUpperHexDigit(c) && IsHexDigit(c)
  {
    if d < 10 then ('0' as int + d) as char else ('A' as int + d - 10) as char
  }

  function UpperChar(c: char): char {
    if 'a' <= c <= 'z' then (c as int - 32) as char else c
  }

  /** `strings.ToUpper`, restricted to ASCII letters. */
  function ToUpper(s: string): string {
    seq(|s|, i requires 0 <= i < |s| => UpperChar(s[i]))
  }

  /** `hex.EncodeToString`: two lower-case digits per byte, high nibble first. */
  function EncodeToString(b: seq<Byte>): (s: string)
    ensures |s| == 2 * |b|
    ensures AllHex(s)
  {
    if |b| == 0 then ""
    else [LowerDigit(b[0] / 16), LowerDigit(b[0] % 16)] + EncodeToString(b[1..])
  }

  function DecodePairs(s: string): (r: Option<seq<Byte>>)
    requires |s| % 2 == 0
    ensures r.Some? <==> AllHex(s)
    ensures r.Some? ==> 2 * |r.value| == |s|
    decreases |s|
  {
    if |s| == 0 then Some([])
    else if IsHexDigit(s[0]) && IsHexDigit(s[1]) then
      match DecodePairs(s[2..])
      case None =>
        assert !AllHex(s) by {
          var i :| 0 <= i < |s[2..]| && !IsHexDigit(s[2..][i]);
          assert !IsHexDigit(s[i + 2]);
        }
        None
      case Some(t) => Some([16 * DigitValue(s[0]) + DigitValue(s[1])] + t)
    else None
  }

  /** `hex.DecodeString`: fails on an odd length or on any character that is not a hex digit. */
  function DecodeString(s: string): (r: Option<seq<Byte>>)
    ensures r.Some? <==> |s| % 2 == 0 && AllHex(s)
    ensures r.Some? ==> 2 * |r.value| == |s|
  {
    if |s| % 2 == 1 then None else DecodePairs(s)
  }

  /** The number a string of hex digits denotes, most significant digit first. */
  function HexValue(s: string): nat
    requires AllHex(s)
  {
    if |s| == 0 then 0 else HexValue(s[..|s| - 1]) * 16 + DigitValue(s[|s| - 1])
  }

  function Pow16(k: nat): (p: nat)
    ensures p >= 1
  {
    if k == 0 then 1 else 16 * Pow16(k - 1)
  }

  /** The successful outcome of `strconv.ParseUint(s, 16, 32)`: at least one digit, only hex digits, below 2^32. */
  function ParseUint32(s: string): (r: Option<nat>)
    ensures r.Some? ==> r.value < 0x1_0000_0000
  {
    if |s| > 0 && AllHex(s) && HexValue(s) < 0x1_0000_0000 then Some(HexValue(s)) else None
  }

  /** `fmt.Sprintf("%0<w>X", x)`: upper-case digits of `x`, zero-padded on the left to at least `w` characters. */
  function FormatHex(x: nat, w: nat): (r: string)
    ensures |r| >= 1 && |r| >= w
    decreases x + w
  {
    if x < 16 && w <= 1 then [UpperDigit(x)]
    else FormatHex(x / 16, if w == 0 then 0 else w - 1) + [UpperDigit(x % 16)]
  }

  /** The `k` bytes of `x mod 256^k`, most significant first. */
  function BigEndian(x: nat, k: nat): (r: seq<Byte>)
    ensures |r| == k
  {
    if k == 0 then [] else BigEndian(x / 256, k - 1) + [x % 256]
  }

  // ---------------------------------------------------------------------------
  // Case folding

  lemma UpperCharDigit(c: char)
    ensures IsHexDigit(UpperChar(c)) <==> IsHexDigit(c)
    ensures IsHexDigit(c) ==> IsUpperHexDigit(UpperChar(c)) && DigitValue(UpperChar(c)) == DigitValue(c)
    ensures IsUpperHexDigit(c) ==> UpperChar(c) == c
  {
  }

  lemma ToUpperOfUpper(s: string)
    requires forall i :: 0 <= i < |s| ==> IsUpperHexDigit(s[i])
    ensures ToUpper(s) == s
  {
  }

  // ---------------------------------------------------------------------------
  // Decoding

  /** Decoding does not depend on the case of the digits. */
  lemma {:induction false} DecodePairsUpper(s: string)
    requires |s| % 2 == 0
    ensures DecodePairs(ToUpper(s)) == DecodePairs(s)
    decreases |s|
  {
    if |s| > 0 {
      UpperCharDigit(s[0]);
      UpperCharDigit(s[1]);
      assert ToUpper(s)[2..] == ToUpper(s[2..]);
      DecodePairsUpper(s[2..]);
    }
  }

  lemma DecodeUpper(s: string)
    ensures DecodeString(ToUpper(s)) == DecodeString(s)
  {
    if |s| % 2 == 0 {
      DecodePairsUpper(s);
    }
  }

  /** The first pair of a decodable string gives its first byte. */
  lemma DecodePairsCons(s: string)
    requires |s| >= 2 && |s| % 2 == 0 && IsHexDigit(s[0]) && IsHexDigit(s[1])
    requires DecodePairs(s[2..]).Some?
    ensures DecodePairs(s) == Some([16 * DigitValue(s[0]) + DigitValue(s[1])] + DecodePairs(s[2..]).value)
  {
  }

  lemma ConcatFront(a: string, b: string)
    requires |a| >= 2
    ensures (a + b)[0] == a[0] && (a + b)[1] == a[1] && (a + b)[2..] == a[2..] + b
  {
  }

  lemma BytesAssoc(x: seq<Byte>, y: seq<Byte>, z: seq<Byte>)
    ensures x + (y + z) == (x + y) + z
  {
  }

  lemma {:induction false} DecodePairsConcat(a: string, b: string)
    requires |a| % 2 == 0 && |b| % 2 == 0
    requires DecodePairs(a).Some? && DecodePairs(b).Some?
    ensures DecodePairs(a + b) == Some(DecodePairs(a).value + DecodePairs(b).value)
    decreases |a|
  {
    if |a| == 0 {
      assert a + b == b;
      assert DecodePairs(a).value == [];
      assert [] + DecodePairs(b).value == DecodePairs(b).value;
    } else {
      assert IsHexDigit(a[0]) && IsHexDigit(a[1]);
      ConcatFront(a, b);
      DecodePairsCons(a);
      DecodePairsConcat(a[2..], b);
      DecodePairsCons(a + b);
      var v: Byte := 16 * DigitValue(a[0]) + DigitValue(a[1]);
      BytesAssoc([v], DecodePairs(a[2..]).value, DecodePairs(b).value);
    }
  }

  /** Decoding two even-length hex strings one after the other decodes each. */
  lemma DecodeConcat(a: string, b: string)
    requires DecodeString(a).Some? && DecodeString(b).Some?
    ensures DecodeString(a + b) == Some(DecodeString(a).value + DecodeString(b).value)
  {
    DecodePairsConcat(a, b);
  }

  /** Round trip: `hex.DecodeString(hex.EncodeToString(b))` gives `b` back. */
  lemma {:induction false} DecodeEncode(b: seq<Byte>)
    ensures DecodeString(EncodeToString(b)) == Some(b)
  {
    if |b| > 0 {
      var s := EncodeToString(b);
      var hi, lo := LowerDigit(b[0] / 16), LowerDigit(b[0] % 16);
      var rest := EncodeToString(b[1..]);
      assert s == [hi, lo] + rest;
      assert s[0] == hi && s[1] == lo && s[2..] == rest;
      DecodeEncode(b[1..]);
      assert DecodePairs(rest) == Some(b[1..]);
      assert 16 * DigitValue(hi) + DigitValue(lo) == b[0];
      assert DecodePairs(s) == Some([b[0]] + b[1..]);
      assert [b[0]] + b[1..] == b;
    }
  }

  /** The same round trip through the upper-cased text the generator writes. */
  lemma DecodeUpperEncode(b: seq<Byte>)
    ensures DecodeString(ToUpper(EncodeToString(b))) == Some(b)
  {
    DecodeUpper(EncodeToString(b));
    DecodeEncode(b);
  }

  /** Dropping the first two digits of a decodable string drops its first byte. */
  lemma DecodeDropByte(s: string)
    requires |s| >= 2 && DecodeString(s).Some?
    ensures DecodeString(s[2..]) == Some(DecodeString(s).value[1..])
  {
  }

  /** Two hex digits decode to the one byte they spell. */
  lemma DecodeByte(hi: char, lo: char)
    requires IsHexDigit(hi) && IsHexDigit(lo)
    ensures DecodeString([hi, lo]) == Some([16 * DigitValue(hi) + DigitValue(lo)])
  {
    var s := [hi, lo];
    var v: Byte := 16 * DigitValue(hi) + DigitValue(lo);
    assert s[0] == hi && s[1] == lo && s[2..] == [];
    assert DecodePairs(s[2..]) == Some([]);
    assert DecodePairs(s) == Some([v] + []);
    assert [v] + [] == [v];
  }

  // ---------------------------------------------------------------------------
  // Arithmetic helpers

  lemma {:induction false} MulAtLeast(k: int, d: int)
    requires k >= 1 && d > 0
    ensures k * d >= d
    decreases k
  {
    if k > 1 {
      MulAtLeast(k - 1, d);
      assert k * d == (k - 1) * d + d;
    }
  }

  lemma DivModUnique(x: int, d: int, a: int, b: int)
    requires d > 0 && 0 <= b < d && x == a * d + b
    ensures x / d == a && x % d == b
  {
    var q, r := x / d, x % d;
    assert x == q * d + r;
    assert a * d - q * d == r - b;
    assert (a - q) * d == a * d - q * d;
    if a > q {
      MulAtLeast(a - q, d);
    } else if a < q {
      assert (q - a) * d == q * d - a * d;
      MulAtLeast(q - a, d);
    }
  }

  lemma ModDiv16(x: nat, m: nat)
    requires m > 0
    ensures (x % (16 * m)) / 16 == (x / 16) % m
    ensures (x % (16 * m)) % 16 == x % 16
  {
    var q, r := x / (16 * m), x % (16 * m);
    assert x == q * (16 * m) + r;
    assert r / 16 < m;
    DivModUnique(x, 16, m * q + r / 16, r % 16);
    DivModUnique(x / 16, m, q, r / 16);
  }

  // ---------------------------------------------------------------------------
  // Formatting

  /** `k` hex digits denote a value below 16^k. */
  lemma {:induction false} HexValueBound(s: string)
    requires AllHex(s)
    ensures HexValue(s) < Pow16(|s|)
    decreases |s|
  {
    if |s| > 0 {
      HexValueBound(s[..|s| - 1]);
    }
  }

  /** A value below 16^w is written in exactly `w` digits. */
  lemma {:induction false} FormatHexLength(x: nat, w: nat)
    requires w >= 1 && x < Pow16(w)
    ensures |FormatHex(x, w)| == w
    decreases w
  {
    if !(x < 16 && w <= 1) {
      FormatHexLength(x / 16, w - 1);
    }
  }

  /** `%X` writes upper-case digits only. */
  lemma {:induction false} FormatHexUpper(x: nat, w: nat)
    ensures forall i :: 0 <= i < |FormatHex(x, w)| ==> IsUpperHexDigit(FormatHex(x, w)[i])
    decreases x + w
  {
    if !(x < 16 && w <= 1) {
      var w' := if w == 0 then 0 else w - 1;
      FormatHexUpper(x / 16, w');
      var front := FormatHex(x / 16, w');
      assert FormatHex(x, w) == front + [UpperDigit(x % 16)];
    }
  }

  /** Zero and one in six digits. */
  lemma SixDigitsZeroOne()
    ensures FormatHex(0, 6) == "000000" && FormatHex(1, 6) == "000001"
  {
    assert UpperDigit(0) == '0' && UpperDigit(1) == '1';
    assert 0 / 16 == 0 && 0 % 16 == 0 && 1 / 16 == 0 && 1 % 16 == 1;
    var z1 := FormatHex(0, 1);
    assert z1 == "0";
    var z2 := FormatHex(0, 2);
    assert z2 == z1 + "0";
    var z3 := FormatHex(0, 3);
    assert z3 == z2 + "0";
    var z4 := FormatHex(0, 4);
    assert z4 == z3 + "0";
    var z5 := FormatHex(0, 5);
    assert z5 == z4 + "0";
    assert FormatHex(0, 6) == z5 + "0";
    assert FormatHex(1, 6) == z5 + "1";
  }

  /** The digits read back as the number formatted. */
  lemma {:induction false} FormatHexValue(x: nat, w: nat)
    ensures AllHex(FormatHex(x, w)) && HexValue(FormatHex(x, w)) == x
    decreases x + w
  {
    var r := FormatHex(x, w);
    if x < 16 && w <= 1 {
      assert r[..0] == "";
    } else {
      var w' := if w == 0 then 0 else w - 1;
      FormatHexValue(x / 16, w');
      assert r[..|r| - 1] == FormatHex(x / 16, w');
    }
  }

  /** The last digit of `%0<w>X` is the digit of `x mod 16`. */
  lemma FormatHexLast(x: nat, w: nat)
    requires w >= 1
    ensures FormatHex(x, w)[|FormatHex(x, w)| - 1..] == FormatHex(x % Pow16(1), 1)
  {
    var r := FormatHex(x, w);
    var d := UpperDigit(x % 16);
    assert r[|r| - 1..] == [d] by {
      if x < 16 && w <= 1 {
        DivModUnique(x, 16, 0, x);
      } else {
        assert r == FormatHex(x / 16, w - 1) + [d];
      }
    }
    assert FormatHex(x % Pow16(1), 1) == [d] by {
      assert Pow16(1) == 16;
    }
  }

  /** The last `k` digits of `%0<w>X` are `x mod 16^k` in `k` digits. */
  lemma {:induction false} FormatHexSuffix(x: nat, w: nat, k: nat)
    requires 1 <= k <= w
    ensures FormatHex(x, w)[|FormatHex(x, w)| - k..] == FormatHex(x % Pow16(k), k)
    decreases w
  {
    if k == 1 {
      FormatHexLast(x, w);
    } else {
      var front := FormatHex(x / 16, w - 1);
      var c := UpperDigit(x % 16);
      FormatHexStep(x, w);
      FormatHexSuffix(x / 16, w - 1, k - 1);
      SuffixOfSnoc(front, c, k);
      SuffixStep(x, k);
    }
  }

  lemma SuffixStep(x: nat, k: nat)
    requires k >= 2
    ensures FormatHex(x % Pow16(k), k) == FormatHex((x / 16) % Pow16(k - 1), k - 1) + [UpperDigit(x % 16)]
  {
    var m := Pow16(k - 1);
    ModDiv16(x, m);
    var y := x % (16 * m);
    assert Pow16(k) == 16 * m;
    assert FormatHex(y, k) == FormatHex(y / 16, k - 1) + [UpperDigit(y % 16)];
  }

  lemma SuffixOfSnoc(front: string, c: char, k: nat)
    requires 1 <= k <= |front| + 1
    ensures (front + [c])[|front| + 1 - k..] == front[|front| - (k - 1)..] + [c]
  {
  }

  /** Two hex digits make a byte: dividing by 16 twice is dividing by 256. */
  lemma Div16Twice(x: nat)
    ensures x / 16 / 16 == x / 256
    ensures 16 * ((x / 16) % 16) + x % 16 == x % 256
  {
    var q1, r1 := x / 16, x % 16;
    var q2, r2 := q1 / 16, q1 % 16;
    assert x == 16 * q1 + r1;
    assert q1 == 16 * q2 + r2;
    assert x == q2 * 256 + (16 * r2 + r1);
    DivModUnique(x, 256, q2, 16 * r2 + r1);
  }

  /** The two digits of the low byte of `x` decode to that byte. */
  lemma DecodeLowByte(x: nat)
    ensures DecodeString([UpperDigit((x / 16) % 16), UpperDigit(x % 16)]) == Some([x % 256])
  {
    var hi, lo := UpperDigit((x / 16) % 16), UpperDigit(x % 16);
    Div16Twice(x);
    DecodeByte(hi, lo);
  }

  /** One step of `FormatHex` for a width of at least two: the digits of `x / 16`, then the last digit. */
  lemma FormatHexStep(x: nat, w: nat)
    requires w >= 2
    ensures FormatHex(x, w) == FormatHex(x / 16, w - 1) + [UpperDigit(x % 16)]
  {
  }

  /** `w` digits of `x` are the `w - 2` digits of `x / 256` followed by the two digits of its low byte. */
  lemma FormatHexLowByte(x: nat, w: nat)
    requires w >= 3
    ensures FormatHex(x, w) == FormatHex(x / 256, w - 2) + [UpperDigit((x / 16) % 16), UpperDigit(x % 16)]
  {
    var y := x / 16;
    Div16Twice(x);
    FormatHexStep(x, w);
    FormatHexStep(y, w - 1);
    var front := FormatHex(y / 16, w - 2);
    assert front + [UpperDigit(y % 16)] + [UpperDigit(x % 16)] == front + [UpperDigit(y % 16), UpperDigit(x % 16)];
  }

  /** Decoding `2k` formatted digits of a value below 16^(2k) gives its `k` big-endian bytes. */
  lemma {:induction false} DecodeFormatHex(x: nat, k: nat)
    requires k >= 1 && x < Pow16(2 * k)
    ensures DecodeString(FormatHex(x, 2 * k)) == Some(BigEndian(x, k))
    decreases k
  {
    var hi, lo := UpperDigit((x / 16) % 16), UpperDigit(x % 16);
    DecodeLowByte(x);
    var low: seq<Byte> := [x % 256];
    if k == 1 {
      assert Pow16(2) == 256;
      assert x / 16 < 16 && (x / 16) % 16 == x / 16;
      assert FormatHex(x / 16, 1) == [hi];
      assert FormatHex(x, 2) == [hi, lo];
      var none: seq<Byte> := [];
      assert BigEndian(x, 1) == none + low;
      assert none + low == low;
      assert DecodeString(FormatHex(x, 2)) == Some(low);
    } else {
      assert Pow16(2 * k) == 256 * Pow16(2 * (k - 1));
      FormatHexLowByte(x, 2 * k);
      assert 2 * k - 2 == 2 * (k - 1);
      DecodeFormatHex(x / 256, k - 1);
      DecodeConcat(FormatHex(x / 256, 2 * (k - 1)), [hi, lo]);
      assert BigEndian(x, k) == BigEndian(x / 256, k - 1) + low;
    }
  }
}
