/** Elements of one, two or four bytes and their big-endian bytes. */
module ByteCodec {
  import opened Options
  import opened TwosComplement

  type Byte = b: int | 0 <= b < 256

  /**
   * An integral element type.  A native integer is neither `assignable` nor `checked`; the library's own
   * integer class is both, unless its range checks are compiled out.
   */
  datatype Format = Format(
    width: nat,
    signed: bool,
    assignable: bool, // std::is_assignable<element_t, long long int>: a temporary can be assigned to
    checked: bool)    // construction from a long long refuses what the type cannot represent
  {
    predicate Valid() {
      width == 1 || width == 2 || width == 4
    }

    predicate Represents(x: int) {
      if signed then 0 - Pow256(width) <= 2 * x < Pow256(width) else 0 <= x < Pow256(width)
    }

    /** Conversion to the element type, which keeps the low bytes. */
    function Convert(x: int): (r: int) {
      var low := x % Pow256(width);
      if signed && 2 * low >= Pow256(width) then low - Pow256(width) else low
    }

    /** Construction from a long long; `None` is the range error. */
    function Construct(x: int): Option<int> {
      if checked && !Represents(x) then None else Some(Convert(x))
    }

    /**
     * Whether the element whose bytes make up this number can be constructed.  For widths below that of an
     * int the number stays positive, which suits unsigned types only; at that width it comes out signed.
     */
    predicate Accepts(low: nat) {
      !checked || signed == (width == 4) || 2 * low < Pow256(width)
    }

    /** The same in terms of the element. */
    predicate Survives(x: int) {
      !checked || signed == (width == 4) || 0 <= 2 * x < Pow256(width)
    }
  }

  function Native(width: nat, signed: bool): Format {
    Format(width, signed, false, false)
  }

  function RangeChecked(width: nat, signed: bool): Format {
    Format(width, signed, true, true)
  }

  function BigEndian(bs: seq<Byte>): nat {
    if bs == [] then 0 else 256 * BigEndian(bs[..|bs| - 1]) + bs[|bs| - 1]
  }

  function Encode(x: int, width: nat): (bs: seq<Byte>)
    ensures |bs| == width
    decreases width
  {
    if width == 0 then [] else Encode(x / 256, width - 1) + [x % 256]
  }

  /** Reading goes through an int, in which four bytes with the top bit set are negative. */
  function Decode(bs: seq<Byte>, f: Format): Option<int> {
    f.Construct(WrapInt(BigEndian(bs)))
  }

  // ----- one element

  lemma {:induction false} BigEndianFits(bs: seq<Byte>)
    ensures BigEndian(bs) < Pow256(|bs|)
  {
    if bs != [] {
      BigEndianFits(bs[..|bs| - 1]);
    }
  }

  lemma {:induction false} BigEndianOfEncode(x: int, width: nat)
    ensures BigEndian(Encode(x, width)) == x % Pow256(width)
    decreases width
  {
    if width > 0 {
      BigEndianOfEncode(x / 256, width - 1);
      SplitMod(x / 256, x % 256, Pow256(width - 1));
    }
  }

  lemma SplitMod(y: int, b: Byte, p: nat)
    requires p >= 1
    ensures (256 * y + b) % (256 * p) == 256 * (y % p) + b
  {
    var q, r := y / p, y % p;
    assert y == q * p + r;
    assert q * (256 * p) == 256 * (q * p);
    ModIs(256 * y + b, 256 * p, q, 256 * r + b);
  }

  lemma ModIs(x: int, m: int, q: int, r: int)
    requires 0 <= r < m && x == q * m + r
    ensures x % m == r && x / m == q
  {
    var d := x / m - q;
    assert d * m == r - x % m;
    assert d >= 1 ==> d * m >= m;
    assert d <= -1 ==> d * m <= -1 * m;
  }

  lemma {:induction false} EncodeOfBigEndian(bs: seq<Byte>)
    ensures Encode(BigEndian(bs), |bs|) == bs
  {
    if bs != [] {
      EncodeOfBigEndian(bs[..|bs| - 1]);
      assert bs == bs[..|bs| - 1] + [bs[|bs| - 1]];
    }
  }

  /** Only the number's remainder shows in its low bytes. */
  lemma EncodeDependsOnRemainder(x: int, y: int, width: nat)
    requires x % Pow256(width) == y % Pow256(width)
    ensures Encode(x, width) == Encode(y, width)
  {
    BigEndianOfEncode(x, width);
    BigEndianOfEncode(y, width);
    EncodeOfBigEndian(Encode(x, width));
    EncodeOfBigEndian(Encode(y, width));
  }

  lemma ConvertKeepsRemainder(f: Format, x: int)
    ensures f.Represents(f.Convert(x)) && f.Convert(x) % Pow256(f.width) == x % Pow256(f.width)
    ensures f.Represents(x) ==> f.Convert(x) == x
  {
    var m := Pow256(f.width);
    var low := x % m;
    ModIs(low, m, 0, low);
    ModIs(low - m, m, -1, low);
    if f.Represents(x) {
      if x < 0 {
        ModIs(x, m, -1, x + m);
      } else {
        ModIs(x, m, 0, x);
      }
    }
  }

  /** The top bit of the number is that of the first byte. */
  lemma {:induction false} TopBit(bs: seq<Byte>)
    requires bs != []
    ensures 2 * BigEndian(bs) < Pow256(|bs|) <==> bs[0] < 128
  {
    var front := bs[..|bs| - 1];
    if front == [] {
      assert BigEndian(front) == 0;
    } else {
      TopBit(front);
      HalfStep(BigEndian(front), Pow256(|front| - 1), bs[|bs| - 1]);
    }
  }

  lemma HalfStep(e: nat, q: nat, b: Byte)
    ensures 2 * e < 256 * q <==> 2 * (256 * e + b) < 256 * (256 * q)
  {
  }

  /** The most significant byte comes first, so bytes of one length compare as their numbers do. */
  lemma {:induction false} BytesCompareAsNumbers(bs: seq<Byte>, cs: seq<Byte>, k: nat)
    requires |bs| == |cs| && k < |bs| && bs[..k] == cs[..k] && bs[k] < cs[k]
    ensures BigEndian(bs) < BigEndian(cs)
    decreases |bs|
  {
    var n := |bs| - 1;
    if k < n {
      assert bs[..n][..k] == bs[..k] && cs[..n][..k] == cs[..k];
      BytesCompareAsNumbers(bs[..n], cs[..n], k);
    } else {
      assert bs[..n] == cs[..n];
    }
  }

  /** When decoding succeeds, and with which element. */
  lemma DecodeIs(bs: seq<Byte>, f: Format)
    requires f.Valid() && |bs| == f.width
    ensures Decode(bs, f) == if f.Accepts(BigEndian(bs)) then Some(f.Convert(BigEndian(bs))) else None
  {
    SmallPowers();
    BigEndianFits(bs);
    var low: int, m := BigEndian(bs), Pow256(f.width);
    ModIs(low, m, 0, low);
    ModIs(low - m, m, -1, low);
    assert WrapInt(low) == if f.width == 4 && 2 * low >= m then low - m else low;
  }

  lemma SmallPowers()
    ensures Pow256(0) == 1 && Pow256(1) == 0x100 && Pow256(2) == 0x1_0000
    ensures Pow256(3) == 0x100_0000 && Pow256(4) == 0x1_0000_0000
  {
    assert Pow256(2) == 256 * Pow256(1) && Pow256(4) == 256 * Pow256(3);
  }

  /** Decoding what an element was encoded to returns it, unless the element's type refuses it. */
  lemma DecodeEncode(x: int, f: Format)
    requires f.Valid() && f.Represents(x)
    ensures Decode(Encode(x, f.width), f) == if f.Survives(x) then Some(x) else None
  {
    var m := Pow256(f.width);
    BigEndianOfEncode(x, f.width);
    DecodeIs(Encode(x, f.width), f);
    ModIs(x % m, m, 0, x % m);
    ConvertKeepsRemainder(f, x);
    ModIs(x, m, if x < 0 then -1 else 0, if x < 0 then x + m else x);
  }

  /** Whatever is decoded encodes to the same bytes, so bytes and elements correspond one to one. */
  lemma EncodeDecode(bs: seq<Byte>, f: Format)
    requires f.Valid() && |bs| == f.width
    ensures Decode(bs, f).Some? ==>
              f.Represents(Decode(bs, f).value) && Encode(Decode(bs, f).value, f.width) == bs
  {
    DecodeIs(bs, f);
    ConvertKeepsRemainder(f, BigEndian(bs));
    EncodeDependsOnRemainder(f.Convert(BigEndian(bs)), BigEndian(bs), f.width);
    EncodeOfBigEndian(bs);
  }

  // ----- sequences of elements

  /** Where the bytes of the k-th element begin. */
  function Offset(k: nat, width: nat): nat {
    if k == 0 then 0 else Offset(k - 1, width) + width
  }

  lemma {:induction false} OffsetIsProduct(k: nat, width: nat)
    ensures Offset(k, width) == k * width
  {
    if k > 0 {
      OffsetIsProduct(k - 1, width);
      assert k * width == (k - 1) * width + width;
    }
  }

  lemma {:induction false} OffsetMonotone(j: nat, k: nat, width: nat)
    requires j <= k
    ensures Offset(j, width) <= Offset(k, width)
  {
    if j < k {
      OffsetMonotone(j, k - 1, width);
    }
  }

  function EncodeAll(xs: seq<int>, width: nat): (bs: seq<Byte>)
    ensures |bs| == Offset(|xs|, width)
  {
    if xs == [] then [] else EncodeAll(xs[..|xs| - 1], width) + Encode(xs[|xs| - 1], width)
  }

  lemma {:induction false} EncodeAllAt(xs: seq<int>, width: nat, k: nat)
    requires k < |xs|
    ensures Offset(k, width) + width <= Offset(|xs|, width)
    ensures EncodeAll(xs, width)[Offset(k, width)..Offset(k, width) + width] == Encode(xs[k], width)
  {
    if k < |xs| - 1 {
      EncodeAllAt(xs[..|xs| - 1], width, k);
    }
  }

  function Group(bs: seq<Byte>, width: nat, k: nat): (g: seq<Byte>)
    requires Offset(k + 1, width) <= |bs|
    ensures |g| == width
  {
    bs[Offset(k, width)..Offset(k, width) + width]
  }

  /** What each of the first groups of bytes decodes to. */
  function DecodeGroups(bs: seq<Byte>, f: Format, n: nat): (gs: seq<Option<int>>)
    requires Offset(n, f.width) <= |bs|
    ensures |gs| == n
  {
    if n == 0 then []
    else DecodeGroups(bs, f, n - 1) + [Decode(Group(bs, f.width, n - 1), f)]
  }

  /** The elements before the first that is refused. */
  function Leading(gs: seq<Option<int>>): (xs: seq<int>)
    ensures |xs| <= |gs| && (forall i :: 0 <= i < |xs| ==> gs[i] == Some(xs[i]))
    ensures |xs| < |gs| ==> gs[|xs|] == None
  {
    if gs == [] || gs[0] == None then [] else [gs[0].value] + Leading(gs[1..])
  }

  lemma {:induction false} LeadingIs(gs: seq<Option<int>>, xs: seq<int>)
    requires |xs| <= |gs| && forall i :: 0 <= i < |xs| ==> gs[i] == Some(xs[i])
    requires |xs| < |gs| ==> gs[|xs|] == None
    ensures Leading(gs) == xs
  {
    if xs != [] {
      LeadingIs(gs[1..], xs[1..]);
    }
  }

  function DecodeAll(bs: seq<Byte>, f: Format, n: nat): (xs: seq<int>)
    requires Offset(n, f.width) <= |bs|
    ensures |xs| <= n
  {
    Leading(DecodeGroups(bs, f, n))
  }

  lemma {:induction false} DecodeGroupAt(bs: seq<Byte>, f: Format, n: nat, i: nat)
    requires i < n && Offset(n, f.width) <= |bs|
    ensures Offset(i + 1, f.width) <= |bs| && DecodeGroups(bs, f, n)[i] == Decode(Group(bs, f.width, i), f)
  {
    if i < n - 1 {
      DecodeGroupAt(bs, f, n - 1, i);
    }
  }

  lemma {:induction false} DecodeGroupsLocal(bs: seq<Byte>, cs: seq<Byte>, f: Format, n: nat)
    requires Offset(n, f.width) <= |bs|
    ensures DecodeGroups(bs + cs, f, n) == DecodeGroups(bs, f, n)
  {
    if n > 0 {
      DecodeGroupsLocal(bs, cs, f, n - 1);
      assert Group(bs + cs, f.width, n - 1) == Group(bs, f.width, n - 1);
    }
  }

  lemma {:induction false} DecodeGroupsPrefix(bs: seq<Byte>, f: Format, n: nat, k: nat)
    requires k <= n && Offset(n, f.width) <= |bs|
    ensures Offset(k, f.width) <= |bs| && DecodeGroups(bs, f, k) == DecodeGroups(bs, f, n)[..k]
  {
    if k < n {
      DecodeGroupsPrefix(bs, f, n - 1, k);
    }
  }

  lemma DecodeGroupsStep(bs: seq<Byte>, last: seq<Byte>, f: Format, n: nat)
    requires |bs| == Offset(n, f.width) && |last| == f.width
    ensures DecodeGroups(bs + last, f, n + 1) == DecodeGroups(bs, f, n) + [Decode(last, f)]
  {
    DecodeGroupsLocal(bs, last, f, n);
    assert Group(bs + last, f.width, n) == last;
  }

  lemma EncodeAllStep(xs: seq<int>, x: int, width: nat)
    ensures EncodeAll(xs + [x], width) == EncodeAll(xs, width) + Encode(x, width)
  {
    assert (xs + [x])[..|xs|] == xs;
  }

  /** How many elements come before the first that the type would refuse when it is read back. */
  function Surviving(xs: seq<int>, f: Format): (n: nat)
    ensures n <= |xs| && (forall i :: 0 <= i < n ==> f.Survives(xs[i]))
    ensures n < |xs| ==> !f.Survives(xs[n])
  {
    if xs == [] || !f.Survives(xs[0]) then 0 else 1 + Surviving(xs[1..], f)
  }

  lemma {:induction false} RoundTripGroups(xs: seq<int>, f: Format)
    requires f.Valid() && forall i :: 0 <= i < |xs| ==> f.Represents(xs[i])
    ensures forall i :: 0 <= i < |xs| ==>
              DecodeGroups(EncodeAll(xs, f.width), f, |xs|)[i] == if f.Survives(xs[i]) then Some(xs[i]) else None
  {
    if xs != [] {
      var front, x := xs[..|xs| - 1], xs[|xs| - 1];
      assert xs == front + [x];
      RoundTripGroups(front, f);
      EncodeAllStep(front, x, f.width);
      var bs, last := EncodeAll(front, f.width), Encode(x, f.width);
      var gs := DecodeGroups(bs, f, |front|);
      DecodeGroupsStep(bs, last, f, |front|);
      DecodeEncode(x, f);
      assert DecodeGroups(bs + last, f, |xs|) == gs + [if f.Survives(x) then Some(x) else None];
    }
  }

  /** What is written is what is read back, up to the first element that its type refuses. */
  lemma RoundTrip(xs: seq<int>, f: Format)
    requires f.Valid() && forall i :: 0 <= i < |xs| ==> f.Represents(xs[i])
    ensures DecodeAll(EncodeAll(xs, f.width), f, |xs|) == xs[..Surviving(xs, f)]
  {
    RoundTripGroups(xs, f);
    LeadingIs(DecodeGroups(EncodeAll(xs, f.width), f, |xs|), xs[..Surviving(xs, f)]);
  }
}
