/** Bytes, fixed-width unsigned integers and their little-endian serialisation.

    The library writes every multi-byte quantity little-endian: immediates
    through its templated `Emit<byteCount>` helper (one byte per step,
    `(imm >> (i * 8)) & 0xFF`), and header fields by copying packed structs
    on a little-endian host. Both are `LittleEndian` below: storing a value
    into an N-byte unsigned field keeps its low N bytes, so the truncating
    cast is part of the serialisation. */
module Bytes {

  type byte = bv8

  const U16_LIMIT: nat := 0x1_0000
  const U32_LIMIT: nat := 0x1_0000_0000
  const U64_LIMIT: nat := 0x1_0000_0000_0000_0000

  type u8 = x: nat | x < 256
  type u16 = x: nat | x < U16_LIMIT
  type u32 = x: nat | x < U32_LIMIT
  type u64 = x: nat | x < U64_LIMIT

  /** 256 to the power n, the weight of byte n in a little-endian number. */
  function Pow256(n: nat): (r: nat)
    ensures r > 0
  {
    if n == 0 then 1 else 256 * Pow256(n - 1)
  }

  /** The C conversion of an unsigned value to `uint8_t`: its low byte. */
  function Low8(v: nat): byte {
    (v % 256) as byte
  }

  /* The next three lemmas lead the solver from the bit-vector conversion to
     its integer value in steps it takes cheaply. */
  lemma {:induction false} SmallMod(r: nat)
    requires r < 256
    ensures r % 256 == r
  {
  }

  lemma {:induction false} ByteConversion(r: nat)
    requires r < 256
    ensures (r as byte) as nat == r % 256
  {
  }

  lemma {:induction false} ByteRoundTrip(r: nat)
    requires r < 256
    ensures (r as byte) as nat == r
  {
    ByteConversion(r);
    SmallMod(r);
  }

  lemma {:induction false} Low8Value(v: nat)
    ensures Low8(v) as nat == v % 256
  {
    ByteRoundTrip(v % 256);
  }

  /** The low n bytes of v, least significant first. */
  function LittleEndian(v: nat, n: nat): (r: seq<byte>)
    ensures |r| == n
  {
    if n == 0 then [] else [Low8(v)] + LittleEndian(v / 256, n - 1)
  }

  /** Reads a byte string as an unsigned little-endian number. */
  function LeValue(bs: seq<byte>): nat {
    if |bs| == 0 then 0 else bs[0] as nat + 256 * LeValue(bs[1..])
  }

  /** The unsigned field of `width` bytes that starts at `offset`. */
  function FieldAt(bs: seq<byte>, offset: nat, width: nat): nat
    requires offset + width <= |bs|
  {
    LeValue(bs[offset..offset + width])
  }

  /** A little-endian number of n bytes is below 256^n. */
  lemma {:induction false} LeValueBound(bs: seq<byte>)
    ensures LeValue(bs) < Pow256(|bs|)
  {
    if |bs| > 0 {
      LeValueBound(bs[1..]);
      Low8Value(bs[0] as nat);
      assert LeValue(bs) <= 255 + 256 * (Pow256(|bs| - 1) - 1);
    }
  }

  /** Byte i of the serialisation is `(v >> (8 * i)) & 0xFF`, written with
      division: the per-byte formula of the library's `Emit<byteCount>`. */
  lemma {:induction false} LittleEndianByte(v: nat, n: nat, i: nat)
    requires i < n
    ensures LittleEndian(v, n)[i] as nat == (v / Pow256(i)) % 256
  {
    Low8Value(v);
    if i > 0 {
      LittleEndianByte(v / 256, n - 1, i - 1);
      DivDiv(v, 256, Pow256(i - 1));
    }
  }

  /** Decoding the serialisation gives back v reduced to n bytes. */
  lemma {:induction false} LittleEndianRoundTrip(v: nat, n: nat)
    ensures LeValue(LittleEndian(v, n)) == v % Pow256(n)
  {
    if n > 0 {
      LittleEndianRoundTrip(v / 256, n - 1);
      Low8Value(v);
      assert LittleEndian(v, n)[1..] == LittleEndian(v / 256, n - 1);
      ModSplit(v, Pow256(n - 1));
    }
  }

  /** A value that fits in n bytes survives the round trip unchanged. */
  lemma {:induction false} LittleEndianRoundTripFits(v: nat, n: nat)
    requires v < Pow256(n)
    ensures LeValue(LittleEndian(v, n)) == v
  {
    LittleEndianRoundTrip(v, n);
    ModUnique(v, Pow256(n), 0, v);
  }

  /** The other direction: serialising a decoded byte string rebuilds it. */
  lemma {:induction false} LeValueRoundTrip(bs: seq<byte>)
    ensures LittleEndian(LeValue(bs), |bs|) == bs
  {
    if |bs| > 0 {
      LeValueRoundTrip(bs[1..]);
      var v := LeValue(bs);
      var rest := LeValue(bs[1..]);
      Low8Value(bs[0] as nat);
      ModUnique(v, 256, rest, bs[0] as nat);
      DivUnique(v, 256, rest, bs[0] as nat);
      assert Low8(v) == bs[0];
    }
  }

  lemma {:induction false} U16Pow()
    ensures Pow256(2) == U16_LIMIT
  {
  }

  lemma {:induction false} U32Pow()
    ensures Pow256(4) == U32_LIMIT
  {
  }

  lemma {:induction false} U64Pow()
    ensures Pow256(8) == U64_LIMIT
  {
  }

  /** Concatenation of a sequence of byte strings, in order. */
  function Flatten(chunks: seq<seq<byte>>): (r: seq<byte>)
  {
    if |chunks| == 0 then [] else chunks[0] + Flatten(chunks[1..])
  }

  lemma {:induction false} FlattenSnoc(chunks: seq<seq<byte>>, last: seq<byte>)
    ensures Flatten(chunks + [last]) == Flatten(chunks) + last
  {
    if |chunks| > 0 {
      assert (chunks + [last])[1..] == chunks[1..] + [last];
      FlattenSnoc(chunks[1..], last);
    }
  }

  lemma {:induction false} FlattenAppend(xs: seq<seq<byte>>, ys: seq<seq<byte>>)
    ensures Flatten(xs + ys) == Flatten(xs) + Flatten(ys)
  {
    if |xs| == 0 {
      assert xs + ys == ys;
    } else {
      assert (xs + ys)[0] == xs[0];
      assert (xs + ys)[1..] == xs[1..] + ys;
      FlattenAppend(xs[1..], ys);
    }
  }

  /** One field of a packed little-endian struct: its value and width in bytes. */
  datatype Field = Field(value: nat, width: nat)

  /** The total width of a list of fields. */
  function Width(fields: seq<Field>): nat {
    if |fields| == 0 then 0 else Width(fields[..|fields| - 1]) + fields[|fields| - 1].width
  }

  /** Every prefix of a field list is one field wider than the one before. */
  lemma {:induction false} WidthPrefixes(fields: seq<Field>)
    ensures Width(fields[..0]) == 0
    ensures forall k | 0 <= k < |fields| :: Width(fields[..k + 1]) == Width(fields[..k]) + fields[k].width
  {
    forall k | 0 <= k < |fields|
      ensures Width(fields[..k + 1]) == Width(fields[..k]) + fields[k].width
    {
      assert fields[..k + 1][..k] == fields[..k];
    }
  }

  /** A `#pragma pack(1)` struct copied from a little-endian host: every
      field's low `width` bytes, fields in declaration order, no padding. */
  function Pack(fields: seq<Field>): (r: seq<byte>)
    ensures |r| == Width(fields)
  {
    if |fields| == 0 then []
    else
      var last := fields[|fields| - 1];
      Pack(fields[..|fields| - 1]) + LittleEndian(last.value, last.width)
  }

  /** Field k of a packed struct starts after the fields declared before it
      and holds exactly that field's serialisation. */
  lemma {:induction false} PackField(fields: seq<Field>, k: nat)
    requires k < |fields|
    ensures Width(fields[..k]) + fields[k].width <= Width(fields)
    ensures Pack(fields)[Width(fields[..k])..Width(fields[..k]) + fields[k].width]
            == LittleEndian(fields[k].value, fields[k].width)
  {
    var init := fields[..|fields| - 1];
    if k == |fields| - 1 {
      assert fields[..k] == init;
    } else {
      PackField(init, k);
      assert init[..k] == fields[..k];
      assert init[k] == fields[k];
      var off := Width(fields[..k]);
      assert Pack(fields)[off..off + fields[k].width] == Pack(init)[off..off + fields[k].width];
    }
  }

  /** Reading field k back from a packed struct gives its value reduced to the field's width. */
  lemma {:induction false} PackFieldValue(fields: seq<Field>, k: nat)
    requires k < |fields|
    ensures Width(fields[..k]) + fields[k].width <= Width(fields)
    ensures FieldAt(Pack(fields), Width(fields[..k]), fields[k].width) == fields[k].value % Pow256(fields[k].width)
  {
    PackField(fields, k);
    var off, f := Width(fields[..k]), fields[k];
    assert Pack(fields)[off..off + f.width] == LittleEndian(f.value, f.width);
    LittleEndianRoundTrip(f.value, f.width);
  }

  /** A field read from inside a slice is the same field of the whole. */
  lemma {:induction false} FieldAtSlice(bs: seq<byte>, lo: nat, hi: nat, offset: nat, width: nat)
    requires lo <= offset && offset + width <= hi <= |bs|
    ensures FieldAt(bs, offset, width) == FieldAt(bs[lo..hi], offset - lo, width)
  {
    var a := bs[lo..hi][offset - lo..offset - lo + width];
    assert |a| == width;
    forall i | 0 <= i < width
      ensures a[i] == bs[offset..offset + width][i]
    {
      assert a[i] == bs[lo..hi][offset - lo + i] == bs[offset + i];
    }
    assert a == bs[offset..offset + width];
  }

  /** Field k of a packed struct that follows a prefix of other bytes. */
  lemma {:induction false} PackFieldAfter(prefix: seq<byte>, fields: seq<Field>, k: nat)
    requires k < |fields|
    ensures |prefix| + Width(fields[..k]) + fields[k].width <= |prefix + Pack(fields)|
    ensures FieldAt(prefix + Pack(fields), |prefix| + Width(fields[..k]), fields[k].width)
            == fields[k].value % Pow256(fields[k].width)
  {
    PackFieldValue(fields, k);
    FieldAtBack(prefix, Pack(fields), Width(fields[..k]), fields[k].width);
  }

  /** The same, for a field value that fits its width, with the byte
      string, offset and width named by the caller. */
  lemma {:induction false} PackedField(bs: seq<byte>, prefix: seq<byte>, fields: seq<Field>, k: nat,
                                       offset: nat, width: nat, value: nat)
    requires k < |fields| && bs == prefix + Pack(fields)
    requires offset == |prefix| + Width(fields[..k])
    requires width == fields[k].width && value == fields[k].value && value < Pow256(width)
    ensures offset + width <= |bs| && FieldAt(bs, offset, width) == value
  {
    PackFieldAfter(prefix, fields, k);
    ModBelow(value, Pow256(width));
  }

  /** A field of a part that lies at `lo` inside a larger byte string. */
  lemma {:induction false} FieldInPart(bs: seq<byte>, lo: nat, part: seq<byte>, offset: nat, width: nat)
    requires lo + |part| <= |bs| && bs[lo..lo + |part|] == part
    requires offset + width <= |part|
    ensures FieldAt(bs, lo + offset, width) == FieldAt(part, offset, width)
  {
    FieldAtSlice(bs, lo, lo + |part|, lo + offset, width);
  }

  // The parts of a byte string `x == a + b + c + d + e + f` (grouped to
  // the left), one part per lemma, the bounds given in any spelling.

  lemma {:induction false} SixFirst(x: seq<byte>, a: seq<byte>, b: seq<byte>, c: seq<byte>, d: seq<byte>, e: seq<byte>, f: seq<byte>, hi: nat)
    requires x == a + b + c + d + e + f && hi == |a|
    ensures hi <= |x| && x[..hi] == a
  {
    assert x == a + (b + c + d + e + f);
  }

  lemma {:induction false} SixSecond(x: seq<byte>, a: seq<byte>, b: seq<byte>, c: seq<byte>, d: seq<byte>, e: seq<byte>, f: seq<byte>, lo: nat, hi: nat)
    requires x == a + b + c + d + e + f && lo == |a| && hi == lo + |b|
    ensures hi <= |x| && x[lo..hi] == b
  {
    assert x == (a + b) + (c + d + e + f);
    assert (a + b)[lo..hi] == b;
  }

  lemma {:induction false} SixThird(x: seq<byte>, a: seq<byte>, b: seq<byte>, c: seq<byte>, d: seq<byte>, e: seq<byte>, f: seq<byte>, lo: nat, hi: nat)
    requires x == a + b + c + d + e + f && lo == |a| + |b| && hi == lo + |c|
    ensures hi <= |x| && x[lo..hi] == c
  {
    assert x == (a + b + c) + (d + e + f);
    assert (a + b + c)[lo..hi] == c;
  }

  lemma {:induction false} SixFourth(x: seq<byte>, a: seq<byte>, b: seq<byte>, c: seq<byte>, d: seq<byte>, e: seq<byte>, f: seq<byte>, lo: nat, hi: nat)
    requires x == a + b + c + d + e + f && lo == |a| + |b| + |c| && hi == lo + |d|
    ensures hi <= |x| && x[lo..hi] == d
  {
    assert x == (a + b + c + d) + (e + f);
    assert (a + b + c + d)[lo..hi] == d;
  }

  lemma {:induction false} SixTail(x: seq<byte>, a: seq<byte>, b: seq<byte>, c: seq<byte>, d: seq<byte>, e: seq<byte>, f: seq<byte>, lo: nat)
    requires x == a + b + c + d + e + f && lo == |a| + |b| + |c| + |d|
    ensures lo <= |x| && x[lo..] == e + f
  {
    assert x == (a + b + c + d) + (e + f);
  }

  /** A slice of a slice is a slice of the whole. */
  lemma {:induction false} SubSlice(x: seq<byte>, lo: nat, hi: nat, whole: seq<byte>, offset: nat, width: nat, at: nat, part: seq<byte>)
    requires lo <= hi <= |x| && x[lo..hi] == whole
    requires offset + width <= |whole| && whole[offset..offset + width] == part
    requires at == lo + offset
    ensures at + width <= |x| && x[at..at + width] == part
  {
    forall i | 0 <= i < width
      ensures x[at..at + width][i] == part[i]
    {
      assert x[at + i] == whole[offset + i];
    }
  }

  /** A slice of a tail is a slice of the whole. */
  lemma {:induction false} TailSubSlice(x: seq<byte>, lo: nat, tail: seq<byte>, offset: nat, width: nat, at: nat, part: seq<byte>)
    requires lo <= |x| && x[lo..] == tail
    requires offset + width <= |tail| && tail[offset..offset + width] == part
    requires at == lo + offset
    ensures at + width <= |x| && x[at..at + width] == part
  {
    forall i | 0 <= i < width
      ensures x[at..at + width][i] == part[i]
    {
      assert x[at + i] == tail[offset + i];
    }
  }

  /** The back part of a prefix of a byte string is a slice of the whole. */
  lemma {:induction false} PartOfPrefix(whole: seq<byte>, prefix: seq<byte>, front: seq<byte>, part: seq<byte>)
    requires |prefix| <= |whole| && prefix == whole[..|prefix|] && prefix == front + part
    ensures |front| + |part| <= |whole| && whole[|front|..|front| + |part|] == part
  {
    forall i | 0 <= i < |part|
      ensures whole[|front|..|front| + |part|][i] == part[i]
    {
      assert whole[|front| + i] == prefix[|front| + i];
    }
  }

  /** A slice of the back part of a concatenation, seen from its start. */
  lemma {:induction false} PartAfterHead(head: seq<byte>, rest: seq<byte>, lo: nat, part: seq<byte>)
    requires lo + |part| <= |rest| && rest[lo..lo + |part|] == part
    ensures (head + rest)[|head| + lo..|head| + lo + |part|] == part
  {
    forall i | 0 <= i < |part|
      ensures (head + rest)[|head| + lo..|head| + lo + |part|][i] == part[i]
    {
      assert (head + rest)[|head| + lo + i] == rest[lo + i];
    }
  }

  /** A field read from the front part of a concatenation. */
  lemma {:induction false} FieldAtFront(a: seq<byte>, b: seq<byte>, offset: nat, width: nat)
    requires offset + width <= |a|
    ensures FieldAt(a + b, offset, width) == FieldAt(a, offset, width)
  {
    assert (a + b)[offset..offset + width] == a[offset..offset + width];
  }

  /** A field read from the back part of a concatenation. */
  lemma {:induction false} FieldAtBack(a: seq<byte>, b: seq<byte>, offset: nat, width: nat)
    requires offset + width <= |b|
    ensures FieldAt(a + b, |a| + offset, width) == FieldAt(b, offset, width)
  {
    assert (a + b)[|a| + offset..|a| + offset + width] == b[offset..offset + width];
  }

  /** n zero bytes. */
  function Zeros(n: nat): (r: seq<byte>)
    ensures |r| == n && forall i | 0 <= i < n :: r[i] == 0
  {
    seq(n, _ => 0)
  }

  /** A `char[8]` field after `memset(…, 0, 8)` and a copy of `bs`:
      the first eight bytes of `bs` followed by zero padding. */
  function Pad8(bs: seq<byte>): (r: seq<byte>)
    ensures |r| == 8
    ensures |bs| <= 8 ==> r[..|bs|] == bs && r[|bs|..] == Zeros(8 - |bs|)
  {
    if |bs| >= 8 then bs[..8] else bs + Zeros(8 - |bs|)
  }

  /** The bytes of a `std::string`; each character is one byte. */
  function NameBytes(s: string): (r: seq<byte>)
    ensures |r| == |s|
  {
    seq(|s|, i requires 0 <= i < |s| => Low8(s[i] as nat))
  }

  /** The C string seen through `c_str()`: everything before the first NUL. */
  function TakeUntilNul(bs: seq<byte>): (r: seq<byte>)
    ensures |r| <= |bs| && r == bs[..|r|]
    ensures forall i | 0 <= i < |r| :: r[i] != 0
    ensures |r| < |bs| ==> bs[|r|] == 0
  {
    if |bs| == 0 || bs[0] == 0 then [] else [bs[0]] + TakeUntilNul(bs[1..])
  }

  /** A C string stored with at least one NUL after it reads back as
      itself. */
  lemma {:induction false} TakeUntilNulPadded(c: seq<byte>, k: nat)
    requires k > 0 && forall i | 0 <= i < |c| :: c[i] != 0
    ensures TakeUntilNul(c + Zeros(k)) == c
  {
    if |c| > 0 {
      assert (c + Zeros(k))[1..] == c[1..] + Zeros(k);
      TakeUntilNulPadded(c[1..], k);
    }
  }

  /** A `(uint32_t)` cast of a size: the value modulo 2^32, which leaves
      any size below 4 GiB as it is. */
  function Truncate32(x: nat): (r: u32)
    ensures r <= x
    ensures x < U32_LIMIT ==> r == x
  {
    ModBelow(x, U32_LIMIT);
    x % U32_LIMIT
  }

  // Arithmetic facts the proofs above rely on.

  lemma {:induction false} ModUnique(v: int, d: int, q: int, r: int)
    requires d > 0 && 0 <= r < d && v == d * q + r
    ensures v % d == r
  {
    DivUnique(v, d, q, r);
  }

  lemma {:induction false} DivUnique(v: int, d: int, q: int, r: int)
    requires d > 0 && 0 <= r < d && v == d * q + r
    ensures v / d == q
  {
    var q' := v / d;
    var r' := v % d;
    assert v == d * q' + r';
    assert d * (q - q') == r' - r;
    if q > q' {
      MulAtLeast(d, q - q');
    } else if q < q' {
      MulAtLeast(d, q' - q);
    }
  }

  /** Reducing a natural number never makes it larger, and leaves one below
      the modulus unchanged. */
  lemma {:induction false} ModBelow(x: nat, m: nat)
    requires m > 0
    ensures x % m <= x
    ensures x < m ==> x % m == x
  {
    var q := x / m;
    assert x == m * q + x % m;
    if q > 0 {
      MulAtLeast(m, q);
    }
    if x < m {
      ModUnique(x, m, 0, x);
    }
  }

  lemma {:induction false} MulAtLeast(d: int, k: int)
    requires d > 0 && k >= 1
    ensures d * k >= d
  {
  }

  lemma {:induction false} ModSplit(v: nat, p: nat)
    requires p > 0
    ensures v % 256 + 256 * ((v / 256) % p) == v % (256 * p)
  {
    var q := v / 256;
    var r := v % 256;
    var q2 := q / p;
    var r2 := q % p;
    assert q == p * q2 + r2;
    assert v == (256 * p) * q2 + (256 * r2 + r);
    ModUnique(v, 256 * p, q2, 256 * r2 + r);
  }

  lemma {:induction false} DivDiv(v: nat, a: nat, b: nat)
    requires a > 0 && b > 0
    ensures (v / a) / b == v / (a * b)
  {
    var q := v / a;
    var r := v % a;
    var q2 := q / b;
    var r2 := q % b;
    assert v == a * q + r;
    assert q == b * q2 + r2;
    assert a * q == (a * b) * q2 + a * r2 by {
      assert a * (b * q2 + r2) == a * (b * q2) + a * r2;
      assert a * (b * q2) == (a * b) * q2;
    }
    assert a * r2 + r < a * b by {
      MulMono(a, r2, b - 1);
      assert a * (b - 1) == a * b - a;
    }
    DivUnique(v, a * b, q2, a * r2 + r);
  }

  lemma {:induction false} MulMono(a: nat, x: nat, y: nat)
    requires x <= y
    ensures a * x <= a * y
  {
  }
}

