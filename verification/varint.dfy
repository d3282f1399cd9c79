/** VByte integer codec over 32-bit values.

    Each value is cut into little-endian groups of 7 bits, one group per byte.
    Unlike LEB128, the high bit marks the LAST byte of a value: every byte of a
    value's encoding except the last is below 128, and the last one is at least 128.
 */
module Varint {

  type byte = x: int | 0 <= x < 256
  type u32 = x: int | 0 <= x < 0x1_0000_0000

  const U32_MODULUS: nat := 0x1_0000_0000

  /** 128^i, the weight of the i-th 7-bit group. */
  function Pow128(i: nat): (r: nat)
    ensures r >= 1
  {
    if i == 0 then 1 else 128 * Pow128(i - 1)
  }

  /** 2^k, the multiplier of a left shift by k. */
  function Pow2(k: nat): (r: nat)
    ensures r >= 1
  {
    if k == 0 then 1 else 2 * Pow2(k - 1)
  }

  lemma {:induction false} Pow2SevenTimes(i: nat)
    ensures Pow2(7 * i) == Pow128(i)
  {
    if i > 0 {
      Pow2SevenTimes(i - 1);
      assert Pow2(7 * i) == 128 * Pow2(7 * (i - 1)) by {
        assert Pow2(7 * i) == 2 * Pow2(7 * i - 1);
        assert Pow2(7 * i - 1) == 2 * Pow2(7 * i - 2);
        assert Pow2(7 * i - 2) == 2 * Pow2(7 * i - 3);
        assert Pow2(7 * i - 3) == 2 * Pow2(7 * i - 4);
        assert Pow2(7 * i - 4) == 2 * Pow2(7 * i - 5);
        assert Pow2(7 * i - 5) == 2 * Pow2(7 * i - 6);
        assert Pow2(7 * i - 6) == 2 * Pow2(7 * (i - 1));
      }
    }
  }

  /** `v >> 7i`, taken one 7-bit group at a time. */
  function Shift(v: nat, i: nat): nat
  {
    if i == 0 then v else Shift(v / 128, i - 1)
  }

  /** Shifting right by `7i` bits divides by the weight of group `i`. */
  lemma {:induction false} ShiftIsDivision(v: nat, i: nat)
    ensures Shift(v, i) == v / Pow128(i)
    decreases i
  {
    if i > 0 {
      ShiftIsDivision(v / 128, i - 1);
      DivDiv(v, 128, Pow128(i - 1));
    }
  }

  lemma DivDiv(v: nat, a: nat, b: nat)
    requires a > 0 && b > 0
    ensures v / a / b == v / (a * b)
  {
    var q, r := v / a, v % a;
    var q2, r2 := q / b, q % b;
    assert v == a * q + r;
    assert q == b * q2 + r2;
    var ab := a * b;
    assert a * q == ab * q2 + a * r2 by { MulSplit(a, b, q2, r2); }
    assert a * r2 + r < ab by { MulLe(a, r2, b - 1); MulPred(a, b); }
    DivUnique(v, ab, q2, a * r2 + r);
  }

  lemma MulSplit(a: nat, b: nat, q2: nat, r2: nat)
    ensures a * (b * q2 + r2) == (a * b) * q2 + a * r2
  {
  }

  lemma MulPred(a: nat, b: nat)
    requires b > 0
    ensures a * (b - 1) == a * b - a
  {
  }

  lemma DivUnique(v: nat, d: nat, q: nat, r: nat)
    requires d > 0 && v == d * q + r && r < d
    ensures v / d == q
  {
    var q0, r0 := v / d, v % d;
    assert v == d * q0 + r0;
    MulLe(d, q0 + 1, q);
    MulLe(d, q + 1, q0);
  }

  lemma ModMod(q: nat)
    ensures q % 256 % 128 == q % 128
  {
    var h, l := q / 256, q % 256;
    assert q == 256 * h + l;
    assert q == 128 * (2 * h) + l;
    if l >= 128 {
      assert q == 128 * (2 * h + 1) + (l - 128);
      DivUnique(q, 128, 2 * h + 1, l - 128);
    } else {
      DivUnique(q, 128, 2 * h, l);
    }
  }

  lemma MulLe(d: nat, x: nat, y: nat)
    ensures x <= y ==> d * x <= d * y
  {
  }

  /** `extract7bits<i>`: bits 7i .. 7i+6 of `val`. */
  function Extract7Bits(val: u32, i: nat): (r: byte)
    ensures r < 128
  {
    Shift(val, i) % 128
  }

  /** `extract7bitsmaskless<i>`: `val >> 7i` narrowed to a byte by the `uint8_t` cast. */
  function Extract7BitsMaskless(val: u32, i: nat): (r: byte)
    ensures Shift(val, i) < 128 ==> r == Shift(val, i)
  {
    Shift(val, i) % 256
  }

  /** The two extractors read base-128 digits: `extract7bits<i>` is digit `i` of
      `val`, and the unmasked variant keeps one more bit of `val / 128^i`, so it
      equals the whole quotient once that fits in seven bits. */
  lemma ExtractIsDigit(val: u32, i: nat)
    ensures Extract7Bits(val, i) == (val / Pow128(i)) % 128
    ensures Extract7BitsMaskless(val, i) == (val / Pow128(i)) % 256
    ensures Extract7BitsMaskless(val, i) % 128 == Extract7Bits(val, i)
    ensures val < 128 * Pow128(i) ==> Extract7BitsMaskless(val, i) == val / Pow128(i)
  {
    ShiftIsDivision(val, i);
    ModMod(Shift(val, i));
    QuotientBelow(val, Pow128(i), 128);
  }

  lemma QuotientBelow(v: nat, w: nat, c: nat)
    requires w > 0
    ensures v < c * w ==> v / w < c
  {
    var q := v / w;
    assert v == w * q + v % w;
    MulLe(w, c, q);
  }

  /** Bitwise `b | 0x80` on a byte. */
  function SetHighBit(b: byte): (r: byte)
    ensures r >= 128
    ensures r % 128 == b % 128
  {
    if b < 128 then b + 128 else b
  }

  /** Reference encoding of one value: the low 7 bits first, the last group marked
      with bit 7. */
  function Groups(v: nat): (r: seq<byte>)
    decreases v
  {
    if v < 128 then [v + 128] else [v % 128] + Groups(v / 128)
  }

  lemma {:induction false} GroupsShape(v: nat, i: nat)
    requires i < |Groups(v)|
    ensures Groups(v)[i] % 128 == Shift(v, i) % 128
    ensures i < |Groups(v)| - 1 <==> Groups(v)[i] < 128
    ensures Groups(v)[i] < 256
    decreases v
  {
    if v >= 128 && i > 0 {
      GroupsShape(v / 128, i - 1);
    }
  }

  lemma {:induction false} GroupsLength(v: nat)
    ensures |Groups(v)| >= 1
    ensures v < Pow128(|Groups(v)|)
    ensures |Groups(v)| == 1 || Pow128(|Groups(v)| - 1) <= v
    decreases v
  {
    if v >= 128 {
      GroupsLength(v / 128);
    }
  }

  /** The bytes `encode` writes for one value, branch for branch. */
  function EncodeValue(val: u32): (r: seq<byte>)
    ensures 1 <= |r| <= 5
    ensures forall i :: 0 <= i < |r| - 1 ==> r[i] < 128
    ensures r[|r| - 1] >= 128
  {
    if val < 0x80 then
      [SetHighBit(val)]
    else if val < 0x4000 then
      [Extract7Bits(val, 0), SetHighBit(Extract7BitsMaskless(val, 1))]
    else if val < 0x20_0000 then
      [Extract7Bits(val, 0), Extract7Bits(val, 1), SetHighBit(Extract7BitsMaskless(val, 2))]
    else if val < 0x1000_0000 then
      [Extract7Bits(val, 0), Extract7Bits(val, 1), Extract7Bits(val, 2),
       SetHighBit(Extract7BitsMaskless(val, 3))]
    else
      [Extract7Bits(val, 0), Extract7Bits(val, 1), Extract7Bits(val, 2), Extract7Bits(val, 3),
       SetHighBit(Extract7BitsMaskless(val, 4))]
  }

  /** The unrolled branches of `encode` agree with the reference encoding. */
  lemma {:induction false} EncodeValueIsGroups(val: u32)
    ensures EncodeValue(val) == Groups(val)
  {
    var v1 := val / 128;
    var v2 := v1 / 128;
    var v3 := v2 / 128;
    var v4 := v3 / 128;
    assert Shift(v4, 0) == v4;
    assert Shift(v3, 1) == v4;
    assert Shift(v2, 2) == v4 && Shift(v2, 1) == v3;
    assert Shift(v1, 3) == v4 && Shift(v1, 2) == v3 && Shift(v1, 1) == v2;
    assert Shift(val, 1) == v1;
    assert Shift(val, 2) == Shift(v1, 1) == v2;
    assert Shift(val, 3) == Shift(v1, 2) == v3;
    assert Shift(val, 4) == Shift(v1, 3) == v4;
    if val < 0x80 {
    } else if val < 0x4000 {
      UnrollGroups(val, 2);
    } else if val < 0x20_0000 {
      UnrollGroups(val, 3);
    } else if val < 0x1000_0000 {
      UnrollGroups(val, 4);
    } else {
      UnrollGroups(val, 5);
    }
  }

  /** With `n` groups, the reference encoding is `n - 1` plain groups and a marked one. */
  lemma {:induction false} UnrollGroups(v: nat, n: nat)
    requires 1 <= n && Shift(v, n - 1) < 128 && (n == 1 || Shift(v, n - 1) > 0)
    ensures |Groups(v)| == n
    ensures forall i :: 0 <= i < n - 1 ==> Groups(v)[i] == Shift(v, i) % 128
    ensures Groups(v)[n - 1] == Shift(v, n - 1) + 128
    decreases n
  {
    if n > 1 {
      assert Shift(v, n - 1) == Shift(v / 128, n - 2);
      UnrollGroups(v / 128, n - 1);
      assert v >= 128 by {
        if v < 128 {
          ShiftOfSmall(v, n - 1);
        }
      }
      assert Groups(v) == [v % 128] + Groups(v / 128);
      forall i | 0 < i < n - 1
        ensures Groups(v)[i] == Shift(v, i) % 128
      {
        assert Groups(v)[i] == Groups(v / 128)[i - 1];
      }
    }
  }

  lemma {:induction false} ShiftOfSmall(v: nat, i: nat)
    requires v < 128 && i > 0
    ensures Shift(v, i) == 0
    decreases i
  {
    if i > 1 {
      ShiftOfSmall(v / 128, i - 1);
    }
  }

  /** Length and byte layout of one value's encoding. */
  lemma EncodeValueLayout(val: u32)
    ensures var r := EncodeValue(val);
      && 1 <= |r| <= 5
      // the length is the least number of 7-bit groups that hold `val`
      && val < Pow128(|r|) && (|r| == 1 || Pow128(|r| - 1) <= val)
      // byte i carries bits 7i .. 7i+6; only the last byte has bit 7 set
      && (forall i :: 0 <= i < |r| ==> r[i] % 128 == Extract7Bits(val, i))
      && (forall i :: 0 <= i < |r| - 1 ==> r[i] < 128)
      && r[|r| - 1] >= 128
  {
    var r := EncodeValue(val);
    EncodeValueIsGroups(val);
    GroupsLength(val);
    forall i | 0 <= i < |r|
      ensures r[i] % 128 == Extract7Bits(val, i)
      ensures i < |r| - 1 ==> r[i] < 128
    {
      GroupsShape(val, i);
    }
    GroupsShape(val, |r| - 1);
  }

  /** A value below 128 takes one byte, `val | 0x80`. */
  lemma SmallValue(val: u32)
    requires val < 128
    ensures EncodeValue(val) == [val + 128]
  {
  }

  /** Reference encoding of a sequence: the encodings of its values, one after another. */
  function EncodeAll(xs: seq<u32>): seq<byte>
  {
    if xs == [] then [] else Groups(xs[0]) + EncodeAll(xs[1..])
  }

  /** Sum of the per-value encoded lengths. */
  function TotalLength(xs: seq<u32>): nat
  {
    if xs == [] then 0 else |Groups(xs[0])| + TotalLength(xs[1..])
  }

  lemma {:induction false} EncodeAllAppend(a: seq<u32>, b: seq<u32>)
    ensures EncodeAll(a + b) == EncodeAll(a) + EncodeAll(b)
  {
    if a == [] {
      assert a + b == b;
    } else {
      assert (a + b)[0] == a[0];
      assert (a + b)[1..] == a[1..] + b;
      EncodeAllAppend(a[1..], b);
    }
  }

  lemma {:induction false} EncodeAllLength(xs: seq<u32>)
    ensures |EncodeAll(xs)| == TotalLength(xs)
    ensures |xs| <= |EncodeAll(xs)| <= 5 * |xs|
  {
    if xs != [] {
      EncodeValueLayout(xs[0]);
      EncodeValueIsGroups(xs[0]);
      EncodeAllLength(xs[1..]);
    }
  }

  /** `Varint::encode`: writes the encodings of `input` in order and reports the byte count. */
  method Encode(input: seq<u32>) returns (out: seq<byte>, nvalue: nat)
    ensures out == EncodeAll(input)
    ensures nvalue == |out| == TotalLength(input)
    ensures |input| <= nvalue <= 5 * |input|
  {
    out := [];
    var k := 0;
    while k < |input|
      invariant 0 <= k <= |input|
      invariant out == EncodeAll(input[..k])
    {
      EncodeAllAppend(input[..k], [input[k]]);
      assert input[..k + 1] == input[..k] + [input[k]];
      EncodeValueIsGroups(input[k]);
      assert EncodeAll([input[k]]) == Groups(input[k]) + [];
      out := out + EncodeValue(input[k]);
      k := k + 1;
    }
    assert input[..k] == input;
    EncodeAllLength(input);
    nvalue := |out|;
  }

  /** `Varint::encode_single`: appends the encoding of one value to `out`. */
  method EncodeSingle(val: u32, out: seq<byte>) returns (out': seq<byte>)
    ensures |out| + 1 <= |out'| <= |out| + 5
    ensures out'[..|out|] == out
    ensures out'[|out|..] == EncodeValue(val)
    ensures DecodeAll(out'[|out|..]) == [val]
    ensures Terminated(out) ==> DecodeAll(out') == DecodeAll(out) + [val]
  {
    var buf, nvalue := Encode([val]);
    EncodeValueIsGroups(val);
    assert EncodeAll([val]) == Groups(val) + [];
    out' := out + buf[..nvalue];
    assert out'[|out|..] == Groups(val);
    DecodeValue(val, []);
    assert Groups(val) + [] == Groups(val);
    if Terminated(out) {
      DecodeAllAppend(out, Groups(val));
    }
  }

  // ---------------------------------------------------------------------------
  // Decoding

  /** The decoder as a byte-at-a-time machine. `acc` is the value accumulated so far
      for the current group (unbounded) and `scale` the weight of the next 7-bit group,
      `1 << shift`. A byte with bit 7 set closes the group and emits `acc` truncated to
      32 bits. Bytes after the last terminator emit nothing. */
  function DecodeFrom(bs: seq<byte>, acc: nat, scale: nat): (r: seq<u32>)
    ensures |r| == Terminators(bs)
    decreases |bs|
  {
    if bs == [] then []
    else
      var acc' := acc + (bs[0] % 128) * scale;
      if bs[0] >= 128 then [acc' % U32_MODULUS] + DecodeFrom(bs[1..], 0, 1)
      else DecodeFrom(bs[1..], acc', 128 * scale)
  }

  /** Reference decoding: one 32-bit value per group. */
  function DecodeAll(bs: seq<byte>): seq<u32>
  {
    DecodeFrom(bs, 0, 1)
  }

  /** The input ends with a terminator byte (or is empty). */
  predicate Terminated(bs: seq<byte>)
  {
    |bs| == 0 || bs[|bs| - 1] >= 128
  }

  /** Reading from group position `i`, every group closes before its sixth byte, a
      fifth byte carries at most the four bits left of a 32-bit value, and the input
      ends on a group boundary: `decode` neither reads past the end, nor shifts by 32
      or more, nor shifts a set bit past bit 31 in the signed `(c & 127) << 28`
      (undefined before C++20). */
  predicate WellFormedFrom(bs: seq<byte>, i: nat)
    decreases |bs|
  {
    if bs == [] then i == 0
    else
      && i < 5
      && (i == 4 ==> bs[0] % 128 < 16)
      && WellFormedFrom(bs[1..], if bs[0] >= 128 then 0 else i + 1)
  }

  predicate WellFormed(bs: seq<byte>)
  {
    WellFormedFrom(bs, 0)
  }

  /** A well-formed buffer is empty or ends on a terminator, so the inner loop of
      `decode`, which never compares against `len`, stops inside the buffer. */
  lemma {:induction false} WellFormedIsTerminated(bs: seq<byte>, i: nat)
    requires WellFormedFrom(bs, i)
    ensures i == 0 ==> Terminated(bs)
    ensures bs != [] ==> bs[|bs| - 1] >= 128
    decreases |bs|
  {
    if bs != [] {
      WellFormedIsTerminated(bs[1..], if bs[0] >= 128 then 0 else i + 1);
      if |bs| > 1 {
        assert bs[|bs| - 1] == bs[1..][|bs| - 2];
      }
    }
  }

  /** Number of bytes with bit 7 set. */
  function Terminators(bs: seq<byte>): nat
  {
    if bs == [] then 0 else (if bs[0] >= 128 then 1 else 0) + Terminators(bs[1..])
  }

  /** Decoding distributes over a prefix that ends on a terminator. */
  lemma {:induction false} DecodeFromAppend(a: seq<byte>, b: seq<byte>, acc: nat, scale: nat)
    requires a != [] && a[|a| - 1] >= 128
    ensures DecodeFrom(a + b, acc, scale) == DecodeFrom(a, acc, scale) + DecodeAll(b)
    decreases |a|
  {
    var acc' := acc + (a[0] % 128) * scale;
    assert (a + b)[0] == a[0];
    assert (a + b)[1..] == a[1..] + b;
    if |a| == 1 {
      assert a[1..] + b == b;
    } else {
      assert a[1..][|a| - 2] == a[|a| - 1];
      if a[0] >= 128 {
        DecodeFromAppend(a[1..], b, 0, 1);
      } else {
        DecodeFromAppend(a[1..], b, acc', 128 * scale);
      }
    }
  }

  lemma DecodeAllAppend(a: seq<byte>, b: seq<byte>)
    requires Terminated(a)
    ensures DecodeAll(a + b) == DecodeAll(a) + DecodeAll(b)
  {
    if a == [] {
      assert a + b == b;
    } else {
      DecodeFromAppend(a, b, 0, 1);
    }
  }

  /** Reading the reference encoding of `v` on top of a partial value `acc` whose next
      group has weight `scale` closes that group with value `acc + v * scale`. */
  lemma {:induction false} DecodeGroups(v: nat, rest: seq<byte>, acc: nat, scale: nat)
    ensures DecodeFrom(Groups(v) + rest, acc, scale)
         == [(acc + v * scale) % U32_MODULUS] + DecodeAll(rest)
    decreases v
  {
    var g := Groups(v);
    var bs := g + rest;
    assert bs[0] == g[0];
    if v < 128 {
      assert bs[1..] == rest;
    } else {
      assert g == [v % 128] + Groups(v / 128);
      assert bs[1..] == Groups(v / 128) + rest;
      DecodeGroups(v / 128, rest, acc + (v % 128) * scale, 128 * scale);
      SplitLowGroup(v, scale);
    }
  }

  lemma SplitLowGroup(v: nat, scale: nat)
    ensures (v % 128) * scale + (v / 128) * (128 * scale) == v * scale
  {
    var q, r := v / 128, v % 128;
    assert v == 128 * q + r;
    calc {
      v * scale;
      (128 * q + r) * scale;
      { MulDistributes(128 * q, r, scale); }
      (128 * q) * scale + r * scale;
      { MulAssociates(q, scale); }
      q * (128 * scale) + r * scale;
    }
  }

  lemma MulDistributes(a: nat, b: nat, c: nat)
    ensures (a + b) * c == a * c + b * c
  {
  }

  lemma MulAssociates(q: nat, c: nat)
    ensures (128 * q) * c == q * (128 * c)
  {
  }

  /** Decoding the encoding of `val` in front of any tail gives `val` first. */
  lemma {:induction false} DecodeValue(val: u32, rest: seq<byte>)
    ensures DecodeAll(Groups(val) + rest) == [val] + DecodeAll(rest)
  {
    var bs := Groups(val) + rest;
    assert DecodeAll(bs) == DecodeFrom(bs, 0, 1);
    DecodeGroups(val, rest, 0, 1);
    assert 0 + val * 1 == val;
  }

  /** Reference encodings are well formed from any group position whose remaining room
      fits the value. */
  lemma {:induction false} GroupsWellFormed(v: nat, rest: seq<byte>, i: nat)
    requires i + |Groups(v)| <= 5
    requires i + |Groups(v)| == 5 ==> Shift(v, 4 - i) < 16
    requires WellFormed(rest)
    ensures WellFormedFrom(Groups(v) + rest, i)
    decreases v
  {
    var g := Groups(v);
    var bs := g + rest;
    assert bs[0] == g[0];
    if v < 128 {
      assert bs[1..] == rest;
    } else {
      assert g == [v % 128] + Groups(v / 128);
      assert bs[1..] == Groups(v / 128) + rest;
      assert Shift(v, 4 - i) == Shift(v / 128, 4 - (i + 1));
      GroupsWellFormed(v / 128, rest, i + 1);
    }
  }

  /** Every group of an encoding ends in a terminator within five bytes. */
  lemma {:induction false} EncodeAllWellFormed(xs: seq<u32>)
    ensures WellFormed(EncodeAll(xs))
  {
    if xs != [] {
      EncodeAllWellFormed(xs[1..]);
      EncodeValueLayout(xs[0]);
      EncodeValueIsGroups(xs[0]);
      ShiftIsDivision(xs[0], 4);
      QuotientBelow(xs[0], Pow128(4), 16);
      GroupsWellFormed(xs[0], EncodeAll(xs[1..]), 0);
    }
  }

  /** Round trip: decoding an encoding returns the values, one per terminator. */
  lemma {:induction false} RoundTrip(xs: seq<u32>)
    ensures WellFormed(EncodeAll(xs))
    ensures DecodeAll(EncodeAll(xs)) == xs
    ensures Terminators(EncodeAll(xs)) == |xs|
  {
    EncodeAllWellFormed(xs);
    if xs != [] {
      RoundTrip(xs[1..]);
      DecodeValue(xs[0], EncodeAll(xs[1..]));
    }
  }

  /** Encoding a buffer and decoding the bytes written gives the buffer back, and
      `decode` reports one value per input value. */
  method EncodeThenDecode(xs: seq<u32>) returns (ys: seq<u32>, n: nat)
    ensures ys == xs && n == |xs|
  {
    var bytes, nvalue := Encode(xs);
    RoundTrip(xs);
    assert bytes[..nvalue] == bytes;
    ys, n := Decode(bytes[..nvalue]);
  }

  /** `Varint::decode`: reads groups until the input is exhausted; returns the values
      and their count. */
  method Decode(input: seq<byte>) returns (out: seq<u32>, n: nat)
    requires WellFormed(input)
    ensures out == DecodeAll(input)
    ensures n == |out| == Terminators(input)
  {
    out := [];
    n := 0;
    var rest := input;
    while rest != []
      invariant WellFormed(rest)
      invariant out + DecodeAll(rest) == DecodeAll(input)
      invariant n == |out|
      decreases |rest|
    {
      var v, len := DecodeGroup(rest);
      out := out + [v];
      n := n + 1;
      rest := rest[len..];
    }
  }

  /** The inner loop of `decode`: accumulates `(c & 127) << shift` into a `uint32_t`
      until a byte with bit 7 set; returns the value and the number of bytes read. */
  method DecodeGroup(input: seq<byte>) returns (v: u32, len: nat)
    requires input != [] && WellFormed(input)
    ensures 1 <= len <= |input| && len <= 5
    ensures input[len - 1] >= 128 && forall j :: 0 <= j < len - 1 ==> input[j] < 128
    ensures WellFormed(input[len..])
    ensures DecodeAll(input) == [v] + DecodeAll(input[len..])
  {
    var pos := 0;
    var shift := 0;
    ghost var acc: nat := 0;
    v := 0;
    while true
      invariant pos < |input| && WellFormedFrom(input[pos..], pos)
      invariant forall j :: 0 <= j < pos ==> input[j] < 128
      invariant shift == 7 * pos
      invariant v == acc % U32_MODULUS
      invariant DecodeAll(input) == DecodeFrom(input[pos..], acc, Pow128(pos))
      decreases |input| - pos
    {
      var c := input[pos];
      assert input[pos..][0] == c && input[pos..][1..] == input[pos + 1..];
      Pow2SevenTimes(pos);
      AccumulateStep(acc, v, c % 128, Pow128(pos));
      v := (v + (c % 128) * Pow2(shift)) % U32_MODULUS;
      acc := acc + (c % 128) * Pow128(pos);
      pos := pos + 1;
      if c >= 128 {
        len := pos;
        return;
      }
      shift := shift + 7;
    }
  }

  /** One step of the accumulation, taken modulo 2^32 as the `uint32_t` accumulator does. */
  lemma AccumulateStep(acc: nat, v: nat, d: nat, w: nat)
    requires v == acc % U32_MODULUS
    ensures (v + d * w) % U32_MODULUS == (acc + d * w) % U32_MODULUS
  {
    var q := acc / U32_MODULUS;
    assert acc == q * U32_MODULUS + v;
    assert acc + d * w == q * U32_MODULUS + (v + d * w);
  }
}
