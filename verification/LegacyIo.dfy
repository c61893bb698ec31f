/** Reading, writing and filling ranges of integral elements as if they were raw memory. */
module LegacyIo {
  import opened Options
  import opened Sequences
  import opened TwosComplement
  import opened ByteCodec

  // ----- the or-loops

  /** The top byte of four is shifted into the sign bit of an int; the error is a multiple of the whole width. */
  ghost function SignError(b: Byte, i: nat, width: nat): int {
    if i == 0 && width == 4 && b >= 128 then 256 else 0
  }

  lemma OrNextByte(f: Format, c: int, b: Byte, i: nat)
    requires f.Valid() && i < f.width && (i == 0 ==> c == 0)
    ensures Or(c * Pow256(f.width - i), WrapInt(b * Pow256(f.width - 1 - i)))
         == (256 * c + b - SignError(b, i, f.width)) * Pow256(f.width - 1 - i)
  {
    SmallPowers();
    var n := f.width - 1 - i;
    if i > 0 {
      OrLaterByte(c, b, n);
    } else {
      WrapFirstByte(b, n);
      assert c * Pow256(n + 1) == 0;
    }
  }

  lemma OrLaterByte(c: int, b: Byte, n: nat)
    requires n < 3
    ensures Or(c * Pow256(n + 1), WrapInt(b * Pow256(n))) == (256 * c + b) * Pow256(n)
  {
    var p := Pow256(n);
    ShiftedByte(b, n);
    OrDisjoint(c, b * p, n + 1);
    Distribute(c, b, p);
  }

  lemma ShiftedByte(b: Byte, n: nat)
    requires n < 3
    ensures 0 <= b * Pow256(n) < Pow256(n + 1) && WrapInt(b * Pow256(n)) == b * Pow256(n)
  {
    SmallPowers();
  }

  lemma Distribute(c: int, b: int, p: int)
    ensures c * (256 * p) + b * p == (256 * c + b) * p
  {
  }

  lemma WrapFirstByte(b: Byte, n: nat)
    requires n == 0 || n == 1 || n == 3
    ensures WrapInt(b * Pow256(n)) == (b - SignError(b, 0, n + 1)) * Pow256(n)
  {
    SmallPowers();
  }

  /** The element whose bytes stand in the buffer from the given index on. */
  method DecodeElement(f: Format, v: array<Byte>, at: nat) returns (r: Option<int>)
    requires f.Valid() && at + f.width <= v.Length
    ensures r == Decode(v[at..at + f.width], f)
  {
    var adjusted := 0;
    ghost var c := 0;
    for i := 0 to f.width
      invariant adjusted == c * Pow256(f.width - i)
      invariant c == BigEndian(v[at..at + i]) - (if i > 0 && f.width == 4 && v[at] >= 128 then Pow256(i) else 0)
    {
      var b := v[at + i];
      assert v[at..at + i + 1][..i] == v[at..at + i];
      OrNextByte(f, c, b, i);
      adjusted := Or(adjusted, WrapInt(b * Pow256(f.width - 1 - i)));
      c := 256 * c + b - SignError(b, i, f.width);
    }
    AdjustedIsWrapped(v[at..at + f.width], f, adjusted);
    r := f.Construct(adjusted);
  }

  lemma AdjustedIsWrapped(bs: seq<Byte>, f: Format, adjusted: int)
    requires f.Valid() && |bs| == f.width
    requires adjusted == BigEndian(bs) - (if f.width == 4 && bs[0] >= 128 then Pow256(4) else 0)
    ensures adjusted == WrapInt(BigEndian(bs))
  {
    SmallPowers();
    BigEndianFits(bs);
    TopBit(bs);
  }

  lemma ByteOfEncode(x: int, width: nat, i: nat)
    requires i < width
    ensures Encode(x, width)[i] == (x / Pow256(width - 1 - i)) % 256
    decreases width
  {
    if i < width - 1 {
      ByteOfEncode(x / 256, width - 1, i);
      DivDiv(x, Pow256(width - 2 - i));
    }
  }

  lemma DivDiv(x: int, p: nat)
    requires p >= 1
    ensures (x / 256) / p == x / (256 * p)
  {
    SplitMod(x / 256, x % 256, p);
    var q := (x / 256) / p;
    assert x == q * (256 * p) + x % (256 * p);
    ModIs(x, 256 * p, x / (256 * p), x % (256 * p));
    assert (q - x / (256 * p)) * (256 * p) == 0;
  }

  /** The bytes of one element, from its most to its least significant. */
  method EncodeElement(x: int, width: nat, v: array<Byte>, at: nat)
    requires at + width <= v.Length
    modifies v
    ensures forall j :: 0 <= j < v.Length ==>
              v[j] == if at <= j < at + width then Encode(x, width)[j - at] else old(v[j])
  {
    for i := 0 to width
      invariant forall j :: 0 <= j < v.Length ==>
                  v[j] == if at <= j < at + i then Encode(x, width)[j - at] else old(v[j])
    {
      ByteOfEncode(x, width, i);
      v[at + i] := (x / Pow256(width - 1 - i)) % 256;
    }
  }

  // ----- streams

  function ZeroBytes(n: nat): seq<Byte> {
    seq(n, i => 0)
  }

  function Min(a: nat, b: nat): nat {
    if a <= b then a else b
  }

  /** The C library's file: what has been written to it, and how far it has been read. */
  class File {
    var data: seq<Byte>
    var position: nat

    constructor (bs: seq<Byte>)
      ensures data == bs && position == 0
    {
      data, position := bs, 0;
    }

    ghost predicate Valid()
      reads this
    {
      position <= |data|
    }

    ghost function Unread(): seq<Byte>
      reads this
      requires Valid()
    {
      data[position..]
    }

    /** Fills the front of the buffer and counts the complete items read. */
    method Read(v: array<Byte>, size: nat, count: nat) returns (n: nat)
      requires Valid() && v.Length == size * count
      modifies this`position, v
      ensures Valid() && n == CompleteItems(|old(Unread())|, size, count)
      ensures var k := Min(v.Length, |old(Unread())|);
              v[..] == old(Unread())[..k] + old(v[k..]) && Unread() == old(Unread())[k..]
    {
      var left := |data| - position;
      n := CompleteItems(left, size, count);
      var from, k := position, Min(v.Length, left);
      position := position + k;
      forall i | 0 <= i < k {
        v[i] := data[from + i];
      }
    }

    /** Writes the whole buffer and counts the items written. */
    method Write(v: array<Byte>, size: nat, count: nat) returns (n: nat)
      requires Valid() && v.Length == size * count
      modifies this`data
      ensures Valid() && n == (if size == 0 then 0 else count)
      ensures Unread() == old(Unread()) + v[..]
    {
      data := data + v[..];
      n := if size == 0 then 0 else count;
    }
  }

  /** As many whole items as were asked for and are there, and no fewer. */
  function CompleteItems(left: nat, size: nat, count: nat): (n: nat)
    ensures n <= count && n * size <= left && n <= size * count && n <= left
    ensures size == 0 ==> n == 0
    ensures size > 0 ==> n == count || left < (n + 1) * size
  {
    if size == 0 then 0 else
      CompleteItemsFit(left, size, count);
      Min(count, left / size)
  }

  lemma CompleteItemsFit(left: nat, size: nat, count: nat)
    requires size > 0
    ensures var n := Min(count, left / size); n * size <= left && n <= left && (n == count || left < (n + 1) * size)
    ensures count <= size * count
  {
    var q := left / size;
    var n := Min(count, q);
    assert left == q * size + left % size;
    Multiple(q - n, size);
    Multiple(n, size);
    Multiple(count, size);
    assert q * size == n * size + (q - n) * size;
    assert (q + 1) * size == q * size + size;
  }

  lemma Multiple(k: nat, size: nat)
    requires size > 0
    ensures k * size >= k
  {
    assert k * size == k * (size - 1) + k;
  }

  // ----- the operations

  /** The bytes handed to the stream when a range with these elements is written. */
  function Written(xs: seq<int>, width: nat, total: nat): (bs: seq<Byte>)
    requires (width == 1 || width == 2 || width == 4) && total / width <= |xs|
    ensures |bs| == total
  {
    WholeGroups(total, width);
    EncodeAll(xs[..total / width], width) + ZeroBytes(total - Offset(total / width, width))
  }

  /** Byte by byte: the elements' own bytes, and zeros behind them. */
  lemma WrittenBytes(xs: seq<int>, width: nat, total: nat, k: nat)
    requires (width == 1 || width == 2 || width == 4) && total / width <= |xs|
    ensures k < total / width ==>
              && Offset(k, width) + width <= total
              && Written(xs, width, total)[Offset(k, width)..Offset(k, width) + width] == Encode(xs[k], width)
    ensures total - total % width <= k < total ==> Written(xs, width, total)[k] == 0
  {
    var q := total / width;
    WholeGroups(total, width);
    WholeGroupsEnd(total, width);
    var bs, zeros := EncodeAll(xs[..q], width), ZeroBytes(total - Offset(q, width));
    assert Written(xs, width, total) == bs + zeros;
    if k < q {
      EncodeAllAt(xs[..q], width, k);
      SliceOfFront(bs, zeros, Offset(k, width), Offset(k, width) + width);
    }
  }

  lemma WholeGroupsEnd(n: nat, width: nat)
    requires width == 1 || width == 2 || width == 4
    ensures Offset(n / width, width) == n - n % width
  {
    OffsetIsProduct(n / width, width);
  }

  lemma SliceOfFront<T>(s: seq<T>, t: seq<T>, i: nat, j: nat)
    requires i <= j <= |s|
    ensures (s + t)[i..j] == s[i..j]
  {
  }

  /**
   * The items read are taken for bytes when the elements are counted.  If an element is refused, the range
   * error leaves those before it in place and no result.
   */
  method FRead(f: Format, ptr: array<int>, size: nat, count: nat, file: File) returns (r: Option<nat>)
    requires f.Valid() && file.Valid()
    requires CompleteItems(|file.Unread()|, size, count) / f.width <= ptr.Length
    modifies ptr, file`position
    ensures file.Valid() && file.Unread() == old(file.Unread())[Min(size * count, |old(file.Unread())|)..]
    ensures var n := CompleteItems(|old(file.Unread())|, size, count);
            && Offset(n / f.width, f.width) <= |old(file.Unread())|
            && var xs := DecodeAll(old(file.Unread()), f, n / f.width);
            && r == (if |xs| == n / f.width then Some(n) else None)
            && ptr[..] == xs + old(ptr[|xs|..])
  {
    ghost var unread := file.Unread();
    var v := new Byte[size * count](i => 0);
    var n := file.Read(v, size, count);
    WholeGroups(n, f.width);
    DecodeFront(unread, v[..], Min(v.Length, |unread|), f, n / f.width);
    var ok := DecodeItems(f, v, ptr, n / f.width);
    r := if ok then Some(n) else None;
  }

  /** The elements come from the bytes that were read, not from the rest of the buffer. */
  lemma DecodeFront(us: seq<Byte>, bs: seq<Byte>, k: nat, f: Format, items: nat)
    requires k <= |us| && k <= |bs| && us[..k] == bs[..k] && Offset(items, f.width) <= k
    ensures DecodeGroups(us, f, items) == DecodeGroups(bs, f, items)
  {
    DecodeOfFront(us, k, f, items);
    DecodeOfFront(bs, k, f, items);
  }

  lemma DecodeOfFront(bs: seq<Byte>, k: nat, f: Format, items: nat)
    requires k <= |bs| && Offset(items, f.width) <= k
    ensures DecodeGroups(bs, f, items) == DecodeGroups(bs[..k], f, items)
  {
    var front, rest := bs[..k], bs[k..];
    assert bs == front + rest;
    DecodeGroupsLocal(front, rest, f, items);
  }

  method DecodeItems(f: Format, v: array<Byte>, ptr: array<int>, items: nat) returns (ok: bool)
    requires f.Valid() && Offset(items, f.width) <= v.Length && items <= ptr.Length
    modifies ptr
    ensures var xs := DecodeAll(v[..], f, items);
            ok == (|xs| == items) && ptr[..] == xs + old(ptr[|xs|..])
  {
    ghost var gs, before := DecodeGroups(v[..], f, items), ptr[..];
    var ucIndex, elementIndex := 0, 0;
    while elementIndex < items
      invariant elementIndex <= items && ucIndex == Offset(elementIndex, f.width)
      invariant forall j :: 0 <= j < elementIndex ==> gs[j] == Some(ptr[j])
      invariant forall j :: elementIndex <= j < ptr.Length ==> ptr[j] == before[j]
    {
      var element := DecodeGroup(f, v, ucIndex, elementIndex, items);
      if element == None {
        LeadingIs(gs, ptr[..elementIndex]);
        assert ptr[..] == ptr[..elementIndex] + before[elementIndex..];
        return false;
      }
      ptr[elementIndex] := element.value;
      ucIndex := ucIndex + f.width;
      elementIndex := elementIndex + 1;
    }
    LeadingIs(gs, ptr[..items]);
    assert ptr[..] == ptr[..items] + before[items..];
    return true;
  }

  method DecodeGroup(f: Format, v: array<Byte>, at: nat, ghost k: nat, ghost items: nat) returns (r: Option<int>)
    requires f.Valid() && k < items && Offset(items, f.width) <= v.Length && at == Offset(k, f.width)
    ensures r == DecodeGroups(v[..], f, items)[k]
  {
    DecodeGroupAt(v[..], f, items, k);
    assert Group(v[..], f.width, k) == v[at..at + f.width];
    r := DecodeElement(f, v, at);
  }

  lemma WholeGroups(n: nat, width: nat)
    requires width == 1 || width == 2 || width == 4
    ensures Offset(n / width, width) <= n && n / width <= n
  {
    OffsetIsProduct(n / width, width);
  }

  lemma SetNext<T>(done: seq<T>, rest: seq<T>, x: T)
    requires rest != []
    ensures (done + rest)[|done| := x] == done + [x] + rest[1..]
  {
  }

  method FWrite(f: Format, ptr: array<int>, size: nat, count: nat, file: File) returns (n: nat)
    requires f.Valid() && file.Valid() && size * count / f.width <= ptr.Length
    modifies file`data
    ensures file.Valid() && n == (if size == 0 then 0 else count)
    ensures file.Unread() == old(file.Unread()) + Written(ptr[..], f.width, size * count)
  {
    var v := EncodeRange(f, ptr, size * count);
    n := file.Write(v, size, count);
  }

  method EncodeRange(f: Format, ptr: array<int>, total: nat) returns (v: array<Byte>)
    requires f.Valid() && total / f.width <= ptr.Length
    ensures fresh(v) && v.Length == total && v[..] == Written(ptr[..], f.width, total)
  {
    v := new Byte[total](i => 0);
    WholeGroups(total, f.width);
    EncodeItems(f, ptr, v, total / f.width);
  }

  method EncodeItems(f: Format, ptr: array<int>, v: array<Byte>, items: nat)
    requires items <= ptr.Length && Offset(items, f.width) <= v.Length && v[..] == ZeroBytes(v.Length)
    modifies v
    ensures v[..] == EncodeAll(ptr[..][..items], f.width) + ZeroBytes(v.Length - Offset(items, f.width))
  {
    ghost var bytes := EncodeAll(ptr[..][..items], f.width);
    var ucIndex, elementIndex := 0, 0;
    while elementIndex < items
      invariant elementIndex <= items && ucIndex == Offset(elementIndex, f.width)
      invariant ucIndex <= |bytes| && forall j :: 0 <= j < ucIndex ==> v[j] == bytes[j]
      invariant forall j :: ucIndex <= j < v.Length ==> v[j] == 0
    {
      EncodeGroup(f, ptr, elementIndex, v, ucIndex, items);
      ucIndex := ucIndex + f.width;
      elementIndex := elementIndex + 1;
    }
  }

  method EncodeGroup(f: Format, ptr: array<int>, k: nat, v: array<Byte>, at: nat, ghost items: nat)
    requires k < items <= ptr.Length && Offset(items, f.width) <= v.Length && at == Offset(k, f.width)
    modifies v
    ensures at + f.width <= Offset(items, f.width)
    ensures forall j :: 0 <= j < v.Length ==>
              v[j] == if at <= j < at + f.width then EncodeAll(ptr[..][..items], f.width)[j] else old(v[j])
  {
    ghost var xs := ptr[..][..items];
    OffsetMonotone(k + 1, items, f.width);
    EncodeElement(ptr[k], f.width, v, at);
    EncodeAllAt(xs, f.width, k);
    ghost var bytes := EncodeAll(xs, f.width)[at..at + f.width];
    forall j | at <= j < at + f.width ensures v[j] == EncodeAll(xs, f.width)[j] {
      assert bytes[j - at] == EncodeAll(xs, f.width)[j];
    }
  }

  // ----- reading back what was written

  /** The elements that a read stores when it finds the bytes of a write with the same arguments. */
  ghost function ReadBack(xs: seq<int>, f: Format, size: nat, count: nat): (ys: seq<int>)
    requires f.Valid() && size * count == Offset(|xs|, f.width)
  {
    OffsetIsProduct(|xs|, f.width);
    WholeGroups(CompleteItems(size * count, size, count), f.width);
    var bs := Written(xs, f.width, size * count);
    DecodeAll(bs, f, CompleteItems(|bs|, size, count) / f.width)
  }

  lemma DecodeWritten(xs: seq<int>, f: Format, total: nat, k: nat)
    requires f.Valid() && total == Offset(|xs|, f.width) && total / f.width == |xs| && k <= |xs|
    requires forall i :: 0 <= i < |xs| ==> f.Represents(xs[i])
    ensures Offset(k, f.width) <= total
    ensures DecodeAll(Written(xs, f.width, total), f, k) == xs[..Min(k, Surviving(xs, f))]
  {
    OffsetMonotone(k, |xs|, f.width);
    DecodeFew(xs, f, total, k);
    assert xs[..|xs|] == xs;
    assert Written(xs, f.width, total) == EncodeAll(xs, f.width)[..total];
  }

  /**
   * Reading finds a prefix of what was written; how long it is depends on the size of an item and on the
   * first element that the type refuses.
   */
  lemma ReadBackIsPrefix(xs: seq<int>, f: Format, size: nat, count: nat)
    requires f.Valid() && size * count == Offset(|xs|, f.width)
    requires forall i :: 0 <= i < |xs| ==> f.Represents(xs[i])
    ensures var k := CompleteItems(size * count, size, count) / f.width;
            k <= |xs| && ReadBack(xs, f, size, count) == xs[..Min(k, Surviving(xs, f))]
  {
    OffsetIsProduct(|xs|, f.width);
    DecodeWritten(xs, f, size * count, CompleteItems(size * count, size, count) / f.width);
  }

  /**
   * A file that ends early: of the bytes that are left of a write, the elements are stored that are complete
   * and come before the first that the type refuses.
   */
  lemma ShortReadIsPrefix(xs: seq<int>, f: Format, left: nat, size: nat, count: nat)
    requires f.Valid() && left <= Offset(|xs|, f.width)
    requires forall i :: 0 <= i < |xs| ==> f.Represents(xs[i])
    ensures var bs := EncodeAll(xs, f.width)[..left];
            var k := CompleteItems(left, size, count) / f.width;
            && k <= |xs| && Offset(k, f.width) <= left
            && DecodeAll(bs, f, k) == xs[..Min(k, Surviving(xs, f))]
  {
    var n := CompleteItems(left, size, count);
    GroupsFit(n, |xs|, f.width);
    DecodeFew(xs, f, left, n / f.width);
  }

  lemma GroupsFit(n: nat, items: nat, width: nat)
    requires (width == 1 || width == 2 || width == 4) && n <= Offset(items, width)
    ensures n / width <= items && Offset(n / width, width) <= n
  {
    WholeGroups(n, width);
    OffsetIsProduct(items, width);
    if width == 4 {
      assert n <= items * 4;
    } else if width == 2 {
      assert n <= items * 2;
    }
  }

  lemma DecodeFew(xs: seq<int>, f: Format, left: nat, k: nat)
    requires f.Valid() && k <= |xs| && Offset(k, f.width) <= left <= Offset(|xs|, f.width)
    requires forall i :: 0 <= i < |xs| ==> f.Represents(xs[i])
    ensures DecodeAll(EncodeAll(xs, f.width)[..left], f, k) == xs[..Min(k, Surviving(xs, f))]
  {
    var all := EncodeAll(xs, f.width);
    RoundTripGroups(xs, f);
    DecodeGroupsPrefix(all, f, |xs|, k);
    DecodeOfFront(all, left, f, k);
    LeadingIs(DecodeGroups(all, f, k), xs[..Min(k, Surviving(xs, f))]);
  }

  /**
   * Everything written is read back exactly if the items are single bytes, or there is nothing to write, and
   * the element type refuses none of the elements.
   */
  lemma ReadBackIsCompleteIff(xs: seq<int>, f: Format, size: nat, count: nat)
    requires f.Valid() && size * count == Offset(|xs|, f.width)
    requires forall i :: 0 <= i < |xs| ==> f.Represents(xs[i])
    ensures ReadBack(xs, f, size, count) == xs <==>
            (size == 1 || xs == []) && forall i :: 0 <= i < |xs| ==> f.Survives(xs[i])
  {
    ReadBackIsPrefix(xs, f, size, count);
    OffsetIsProduct(|xs|, f.width);
    CountsOfItems(|xs|, f.width, size, count);
    assert Surviving(xs, f) < |xs| ==> !f.Survives(xs[Surviving(xs, f)]);
  }

  lemma CountsOfItems(n: nat, width: nat, size: nat, count: nat)
    requires (width == 1 || width == 2 || width == 4) && size * count == n * width
    ensures CompleteItems(n * width, size, count) / width == n <==> size == 1 || n == 0
  {
    if size > 0 {
      ModIs(size * count, size, count, 0);
      AtLeastTwice(size, count);
      TwiceIsTooMuch(n, width, size, count);
    }
  }

  lemma AtLeastTwice(size: nat, count: nat)
    ensures size == 1 ==> size * count == count
    ensures size >= 2 ==> size * count >= 2 * count
  {
    assert size * count == (size - 2) * count + 2 * count;
  }

  lemma TwiceIsTooMuch(n: nat, width: nat, size: nat, count: nat)
    requires (width == 1 || width == 2 || width == 4) && size > 0
    requires if size == 1 then n * width == count else n * width >= 2 * count
    ensures count / width == n <==> size == 1 || n == 0
  {
  }

  /** Reading four four-byte integers by their size, as C programs usually do, decodes only the first. */
  lemma ReadByElementSizeExample()
    ensures ReadBack([1, 2, 3, 4], Native(4, true), 4, 4) == [1]
  {
    var f := Native(4, true);
    OffsetIsProduct(4, 4);
    SmallPowers();
    ReadBackIsPrefix([1, 2, 3, 4], f, 4, 4);
  }

  /** The library's own two-byte integers cannot be read back if they are negative. */
  lemma RefusedElementExample()
    ensures Decode(Encode(-1, 2), Native(2, true)) == Some(-1)
    ensures Decode(Encode(-1, 2), RangeChecked(2, true)) == None
  {
    SmallPowers();
    DecodeEncode(-1, Native(2, true));
    DecodeEncode(-1, RangeChecked(2, true));
  }

  // ----- filling

  function Fill(b: Byte, n: nat): seq<Byte> {
    Repeat(b, n)
  }

  /** The element that memset() assigns; only assignable types get the byte, the others their default. */
  ghost function FillValue(value: int, f: Format): Option<int> {
    if f.assignable then Decode(Fill(value % 256, f.width), f) else Some(0)
  }

  lemma {:induction false} BigEndianOfFill(b: Byte, n: nat)
    ensures BigEndian(Fill(b, n + 1)) == b * Pow256(n) + BigEndian(Fill(b, n))
  {
    assert Fill(b, n + 1)[..n] == Fill(b, n);
    if n > 0 {
      BigEndianOfFill(b, n - 1);
      assert Fill(b, n)[..n - 1] == Fill(b, n - 1);
      Distribute(0, 256 * b, Pow256(n - 1));
    }
  }

  lemma OrFillByte(b: Byte, i: nat)
    requires 1 <= i < 4
    ensures Or(BigEndian(Fill(b, i)), WrapInt(b * Pow256(i)))
         == BigEndian(Fill(b, i + 1)) - (if i == 3 && b >= 128 then Pow256(4) else 0)
  {
    var top := if i == 3 && b >= 128 then b - 256 else b;
    BigEndianFits(Fill(b, i));
    BigEndianOfFill(b, i);
    WrapFillByte(b, i);
    OrDisjoint(top, BigEndian(Fill(b, i)), i);
  }

  lemma WrapFillByte(b: Byte, i: nat)
    requires i < 4
    ensures var top := if i == 3 && b >= 128 then b - 256 else b;
            && WrapInt(b * Pow256(i)) == top * Pow256(i)
            && top * Pow256(i) == b * Pow256(i) - (if i == 3 && b >= 128 then Pow256(4) else 0)
  {
    SmallPowers();
  }

  /** The overload for types that accept a long long. */
  method AdjustedFill(f: Format, value: int) returns (r: Option<int>)
    requires f.Valid()
    ensures r == Decode(Fill(value % 256, f.width), f)
  {
    var adjusted := RepeatByte(f, value % 256);
    r := f.Construct(adjusted);
  }

  method RepeatByte(f: Format, low: Byte) returns (adjusted: int)
    requires f.Valid()
    ensures adjusted == WrapInt(BigEndian(Fill(low, f.width)))
  {
    adjusted := low;
    assert BigEndian(Fill(low, 1)) == low;
    for i := 1 to f.width
      invariant adjusted == BigEndian(Fill(low, i)) - (if i == 4 && low >= 128 then Pow256(4) else 0)
    {
      OrFillByte(low, i);
      adjusted := Or(adjusted, WrapInt(low * Pow256(i)));
    }
    FillIsWrapped(low, f, adjusted);
  }

  lemma FillIsWrapped(b: Byte, f: Format, adjusted: int)
    requires f.Valid()
    requires adjusted == BigEndian(Fill(b, f.width)) - (if f.width == 4 && b >= 128 then Pow256(4) else 0)
    ensures adjusted == WrapInt(BigEndian(Fill(b, f.width)))
  {
    assert Fill(b, f.width)[0] == b;
    AdjustedIsWrapped(Fill(b, f.width), f, adjusted);
  }

  /** The choice between the two overloads; the other one returns the default element. */
  method MemsetValue(f: Format, value: int) returns (r: Option<int>)
    requires f.Valid()
    ensures r == FillValue(value, f)
  {
    if f.assignable {
      r := AdjustedFill(f, value);
    } else {
      r := Some(0);
    }
  }

  /** The range after memset(); `None` is the range error, which comes before any element is touched. */
  ghost function AfterMemset(xs: seq<int>, f: Format, value: int, n: nat): (r: Option<seq<int>>)
    requires n <= |xs|
    ensures r.Some? ==> |r.value| == |xs|
  {
    match FillValue(value, f)
    case None => None
    case Some(x) => Some(Repeat(x, n) + xs[n..])
  }

  method Memset(f: Format, iter: array<int>, value: int, numBytes: nat) returns (ok: bool)
    requires f.Valid() && numBytes / f.width <= iter.Length
    modifies iter
    ensures var r := AfterMemset(old(iter[..]), f, value, numBytes / f.width);
            ok == r.Some? && iter[..] == if ok then r.value else old(iter[..])
    ensures ok == FillValue(value, f).Some?
    ensures forall j :: 0 <= j < iter.Length ==>
              iter[j] == if ok && j < numBytes / f.width then FillValue(value, f).value else old(iter[j])
  {
    var element := MemsetValue(f, value);
    if element == None {
      return false;
    }
    FillItems(iter, element.value, numBytes / f.width);
    return true;
  }

  method FillItems(iter: array<int>, element: int, numItems: nat)
    requires numItems <= iter.Length
    modifies iter
    ensures iter[..] == Repeat(element, numItems) + old(iter[..])[numItems..]
  {
    ghost var xs := iter[..];
    for i := 0 to numItems
      invariant iter[..] == Repeat(element, i) + xs[i..]
    {
      SetNext(Repeat(element, i), xs[i..], element);
      assert Repeat(element, i) + [element] == Repeat(element, i + 1);
      iter[i] := element;
    }
  }

  // ----- what a filled range puts out

  /**
   * When memset() does to a range of n elements what its name says: for types that take the byte, if
   * they accept the element it makes; for all others, native integers among them, if the byte is zero.
   */
  predicate FillsFaithfully(f: Format, value: int, n: nat) {
    if f.assignable then !f.checked || f.signed == (f.width == 4) || value % 256 < 128
    else n == 0 || value % 256 == 0
  }

  lemma FillValueIs(value: int, f: Format)
    requires f.Valid()
    ensures f.assignable ==> (FillValue(value, f).Some? <==> FillsFaithfully(f, value, 1))
    ensures FillValue(value, f).Some? ==>
              (Encode(FillValue(value, f).value, f.width) == Fill(value % 256, f.width)
               <==> FillsFaithfully(f, value, 1))
  {
    var bs := Fill(value % 256, f.width);
    if f.assignable {
      TopBit(bs);
      DecodeIs(bs, f);
      EncodeDecode(bs, f);
    } else {
      EncodeZero(f.width);
      assert Fill(0, f.width)[0] == 0 && bs[0] == value % 256;
    }
  }

  lemma {:induction false} EncodeZero(width: nat)
    ensures Encode(0, width) == Fill(0, width)
  {
    if width > 0 {
      EncodeZero(width - 1);
    }
  }

  lemma OffsetDivides(n: nat, width: nat)
    requires width > 0
    ensures Offset(n, width) / width == n
  {
    OffsetIsProduct(n, width);
    ModIs(Offset(n, width), width, n, 0);
  }

  lemma {:induction false} UniformIff(x: int, b: Byte, width: nat, n: nat)
    requires width > 0
    ensures EncodeAll(Repeat(x, n), width) == Fill(b, Offset(n, width)) <==>
            n == 0 || Encode(x, width) == Fill(b, width)
  {
    if n > 0 {
      UniformIff(x, b, width, n - 1);
      assert Repeat(x, n) == Repeat(x, n - 1) + [x];
      EncodeAllStep(Repeat(x, n - 1), x, width);
      FillSplits(EncodeAll(Repeat(x, n - 1), width), Encode(x, width), b);
    }
  }

  lemma FillSplits(bs: seq<Byte>, cs: seq<Byte>, b: Byte)
    ensures bs + cs == Fill(b, |bs| + |cs|) <==> bs == Fill(b, |bs|) && cs == Fill(b, |cs|)
  {
    var all := bs + cs;
    assert bs == all[..|bs|] && cs == all[|bs|..];
  }

  /**
   * Writing a filled range, whatever follows it, puts out the byte it was filled with and nothing else
   * exactly under that condition.
   */
  lemma FilledRangeIsOneByteIff(xs: seq<int>, f: Format, value: int, n: nat)
    requires f.Valid() && n <= |xs|
    ensures Offset(n, f.width) / f.width == n
    ensures var r := AfterMemset(xs, f, value, n);
            (r.Some? && Written(r.value, f.width, Offset(n, f.width)) == Fill(value % 256, Offset(n, f.width)))
            <==> FillsFaithfully(f, value, n)
  {
    OffsetDivides(n, f.width);
    FillValueIs(value, f);
    if FillValue(value, f).Some? {
      var x := FillValue(value, f).value;
      UniformIff(x, value % 256, f.width, n);
      assert (Repeat(x, n) + xs[n..])[..n] == Repeat(x, n);
      WrittenWhole(Repeat(x, n) + xs[n..], f.width, n);
    }
  }

  lemma WrittenWhole(xs: seq<int>, width: nat, n: nat)
    requires (width == 1 || width == 2 || width == 4) && n <= |xs| && Offset(n, width) / width == n
    ensures Written(xs, width, Offset(n, width)) == EncodeAll(xs[..n], width)
  {
  }

  /** Filling native ints with ones leaves zeros, and the library's two-byte integers refuse to be filled with 0xff. */
  lemma FillExamples()
    ensures AfterMemset([7], Native(4, true), 1, 1) == Some([0])
    ensures Written([0], 4, 4) == [0, 0, 0, 0]
    ensures AfterMemset([7], RangeChecked(2, true), 255, 1) == None
  {
    assert Repeat(0, 1) + [7][1..] == [0];
    EncodeZero(4);
    assert EncodeAll([0], 4) == Encode(0, 4);
    assert [0][..1] == [0];
    FillValueIs(255, RangeChecked(2, true));
  }
}
