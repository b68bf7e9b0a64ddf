/**
  The `#[bitfield]` attribute and its `B1` … `B64` width types: a struct's
  fields are packed one after another into a byte buffer, and each field
  gets a getter and a setter that move its bits one at a time.
 */
module Bitfield {
  import opened Wrappers
  import opened Decimal

  // ---------------------------------------------------------------------
  // Widths and primitives (`size_to_primitive`, `generate_btypes`)
  // ---------------------------------------------------------------------

  datatype Primitive = U8 | U16 | U32 | U64

  function Bits(p: Primitive): nat {
    match p
    case U8 => 8
    case U16 => 16
    case U32 => 32
    case U64 => 64
  }

  /** The compile error for a width no primitive holds; it reports the width divided by eight. */
  datatype SizeError = InvalidSize(numerator: nat)

  function SizeMessage(e: SizeError): string {
    "Invalid size of bits " + Dec(e.numerator)
  }

  /** `size_to_primitive`: the primitive that holds `size` bits, chosen on whole bytes and a remainder. */
  function SizeToPrimitive(size: nat): (r: Result<Primitive, SizeError>)
    ensures r.Ok? <==> 1 <= size <= 64
    ensures r.Ok? ==> size <= Bits(r.value)
    ensures r.Ok? ==> forall p :: size <= Bits(p) ==> Bits(r.value) <= Bits(p)
    ensures r.Err? ==> r.error == InvalidSize(size / 8)
  {
    var numerator := size / 8;
    var remainder := size % 8;
    if remainder == 0 then
      match numerator
      case 1 => Ok(U8)
      case 2 => Ok(U16)
      case 3 => Ok(U32)
      case 4 => Ok(U32)
      case 5 => Ok(U64)
      case 6 => Ok(U64)
      case 7 => Ok(U64)
      case 8 => Ok(U64)
      case _ => Err(InvalidSize(numerator))
    else
      match numerator
      case 0 => Ok(U8)
      case 1 => Ok(U16)
      case 2 => Ok(U32)
      case 3 => Ok(U32)
      case 4 => Ok(U64)
      case 5 => Ok(U64)
      case 6 => Ok(U64)
      case 7 => Ok(U64)
      case _ => Err(InvalidSize(numerator))
  }

  /** A width type `B<k>` with its `BITS` constant. */
  datatype BType = BType(name: string, bits: nat)

  function BTypeOf(k: nat): BType {
    BType("B" + Dec(k), k)
  }

  /** `generate_btypes`: the width types for 1 to 64 bits, in order. */
  method GenerateBTypes() returns (defs: seq<BType>)
    ensures |defs| == 64
    ensures forall k :: 0 <= k < 64 ==> defs[k] == BTypeOf(k + 1)
    ensures forall k :: 0 <= k < 64 ==> SizeToPrimitive(defs[k].bits).Ok?
  {
    defs := [];
    for idx := 1 to 65
      invariant |defs| == idx - 1
      invariant forall k :: 0 <= k < idx - 1 ==> defs[k] == BTypeOf(k + 1)
    {
      var _ := SizeToPrimitive(idx);
      defs := defs + [BTypeOf(idx)];
    }
  }

  // ---------------------------------------------------------------------
  // Field layout (`bitfield`)
  // ---------------------------------------------------------------------

  /** A named field and the `BITS` of its width type. */
  datatype Field = Field(name: string, width: nat)

  /** The struct under the attribute: named fields are laid out, any other shape gets no fields. */
  datatype StructFields = NamedFields(fields: seq<Field>) | OtherFields

  /** The accessor pair generated for one field, with the bit range both of them walk. */
  datatype Accessor = Accessor(getter: string, setter: string, start: nat, end: nat)

  datatype Layout = Layout(accessors: seq<Accessor>, bytes: nat)

  datatype LayoutError = NotByteAligned(excess: nat)

  /** The sum of the widths, the `0 + B?::BITS + …` expression the macro builds. */
  function SumWidths(fields: seq<Field>): nat {
    if fields == [] then 0 else SumWidths(fields[..|fields| - 1]) + fields[|fields| - 1].width
  }

  /** The buffer length as the macro writes it: the total bit count divided by eight, rounded down. */
  function DataLen(total: nat): (bytes: nat)
    ensures 8 * bytes <= total < 8 * bytes + 8
  {
    total / 8
  }

  /** The buffer length, refused when the bits do not fill whole bytes. */
  function CheckedDataLen(total: nat): (r: Result<nat, LayoutError>)
    ensures r.Ok? <==> total % 8 == 0
    ensures r.Ok? ==> 8 * r.value == total
    ensures r.Err? ==> 0 < r.error.excess < 8
  {
    if total % 8 == 0 then Ok(total / 8) else Err(NotByteAligned(total % 8))
  }

  /** The accessors of field `k`: named after it, walking its bit range. */
  function FieldAccessor(fields: seq<Field>, k: nat): (a: Accessor)
    requires k < |fields|
    ensures a.end - a.start == fields[k].width
  {
    assert fields[..k + 1][..k] == fields[..k];
    Accessor("get_" + fields[k].name, "set_" + fields[k].name, SumWidths(fields[..k]), SumWidths(fields[..k + 1]))
  }

  /**
    The loop of `bitfield` over the fields: each gets the range from the
    running start offset to the start plus its width. Returns the
    accessors and the total width.
   */
  method LayAccessors(fields: seq<Field>) returns (accessors: seq<Accessor>, total: nat)
    ensures total == SumWidths(fields)
    ensures |accessors| == |fields|
    ensures forall k :: 0 <= k < |fields| ==> accessors[k] == FieldAccessor(fields, k)
  {
    var start := 0;
    var size := 0;
    accessors := [];
    for k := 0 to |fields|
      invariant start == size == SumWidths(fields[..k])
      invariant |accessors| == k
      invariant forall i :: 0 <= i < k ==> accessors[i] == FieldAccessor(fields, i)
    {
      assert fields[..k + 1][..k] == fields[..k];
      size := size + fields[k].width;
      accessors := accessors + [Accessor("get_" + fields[k].name, "set_" + fields[k].name, start, size)];
      assert accessors[k] == FieldAccessor(fields, k);
      start := size;
    }
    assert fields[..|fields|] == fields;
    total := size;
  }

  /**
    `bitfield` as written: the accessors of every field, and a buffer of
    the total width divided by eight, rounded down.
   */
  method LayOut(s: StructFields) returns (l: Layout)
    ensures s.OtherFields? ==> l == Layout([], 0)
    ensures s.NamedFields? ==>
      && |l.accessors| == |s.fields|
      && (forall k :: 0 <= k < |s.fields| ==> l.accessors[k] == FieldAccessor(s.fields, k))
      && l.bytes == DataLen(SumWidths(s.fields))
  {
    if s.OtherFields? {
      return Layout([], 0);
    }
    var accessors, total := LayAccessors(s.fields);
    l := Layout(accessors, DataLen(total));
  }

  /**
    `bitfield` with the buffer length checked: the same accessors, but a
    total that does not fill whole bytes is refused.
   */
  method CheckedLayOut(s: StructFields) returns (r: Result<Layout, LayoutError>)
    ensures s.OtherFields? ==> r == Ok(Layout([], 0))
    ensures s.NamedFields? ==> (r.Ok? <==> SumWidths(s.fields) % 8 == 0)
    ensures s.NamedFields? && r.Ok? ==>
      && |r.value.accessors| == |s.fields|
      && 8 * r.value.bytes == SumWidths(s.fields)
      && forall k :: 0 <= k < |s.fields| ==> r.value.accessors[k] == FieldAccessor(s.fields, k)
    ensures s.NamedFields? && r.Err? ==> r.error == NotByteAligned(SumWidths(s.fields) % 8)
  {
    if s.OtherFields? {
      return Ok(Layout([], 0));
    }
    var accessors, total := LayAccessors(s.fields);
    var len := CheckedDataLen(total);
    if len.Err? {
      return Err(len.error);
    }
    return Ok(Layout(accessors, len.value));
  }

  // ---------------------------------------------------------------------
  // Bits of the buffer and of a value
  // ---------------------------------------------------------------------

  function Pow2(n: nat): (p: nat)
    ensures p >= 1
  {
    if n == 0 then 1 else 2 * Pow2(n - 1)
  }

  /** `(x >> pos) & 1 == 1` on a byte. */
  predicate ByteBit(x: bv8, pos: nat)
    requires pos < 8
  {
    (x >> pos) & 1 == 1
  }

  /** Buffer bit `b`: byte `b / 8`, counted from its most significant bit. */
  predicate Bit(s: seq<bv8>, b: nat)
    requires b < 8 * |s|
  {
    ByteBit(s[b / 8], 7 - b % 8)
  }

  /** `(v >> k) & 1 == 1`, the shift taken as `k` halvings. */
  predicate ValueBit(v: nat, k: nat) {
    if k == 0 then v % 2 == 1 else ValueBit(v / 2, k - 1)
  }

  /** The number whose bit `k` is buffer bit `start + k`, for `k < width`. */
  function FieldValue(s: seq<bv8>, start: nat, width: nat): nat
    requires start + width <= 8 * |s|
    decreases width
  {
    if width == 0 then 0
    else (if Bit(s, start) then 1 else 0) + 2 * FieldValue(s, start + 1, width - 1)
  }

  /** The byte the setter ORs in for one bit: the bit at its position, or nothing. */
  function Mask(on: bool, pos: nat): bv8
    requires pos < 8
  {
    if on then (1 as bv8) << pos else 0
  }

  /** The buffer after the setter's step for bit `b`. */
  function OrBit(s: seq<bv8>, b: nat, on: bool): seq<bv8>
    requires b < 8 * |s|
  {
    s[b / 8 := s[b / 8] | Mask(on, 7 - b % 8)]
  }

  /** The buffer after the setter's steps for the first `count` bits of the field at `start`. */
  function OrField(s: seq<bv8>, start: nat, count: nat, v: nat): (r: seq<bv8>)
    requires start + count <= 8 * |s|
    ensures |r| == |s|
    decreases count
  {
    if count == 0 then s
    else OrBit(OrField(s, start, count - 1, v), start + count - 1, ValueBit(v, count - 1))
  }

  const U64_LIMIT: nat := 0x1_0000_0000_0000_0000

  lemma {:induction false} FieldValueSnoc(s: seq<bv8>, start: nat, n: nat)
    requires start + n + 1 <= 8 * |s|
    ensures FieldValue(s, start, n + 1) == FieldValue(s, start, n) + (if Bit(s, start + n) then Pow2(n) else 0)
    decreases n
  {
    if n > 0 {
      FieldValueSnoc(s, start + 1, n - 1);
      assert FieldValue(s, start, n + 1) == (if Bit(s, start) then 1 else 0) + 2 * FieldValue(s, start + 1, n);
      assert FieldValue(s, start, n) == (if Bit(s, start) then 1 else 0) + 2 * FieldValue(s, start + 1, n - 1);
      assert Pow2(n) == 2 * Pow2(n - 1);
    }
  }

  lemma {:induction false} FieldValueBound(s: seq<bv8>, start: nat, width: nat)
    requires start + width <= 8 * |s|
    ensures FieldValue(s, start, width) < Pow2(width)
    decreases width
  {
    if width > 0 {
      FieldValueBound(s, start + 1, width - 1);
    }
  }

  // ---------------------------------------------------------------------
  // The generated struct
  // ---------------------------------------------------------------------

  /** An instance of the generated struct: its byte buffer. */
  class Storage {
    const data: array<bv8>

    /** `new()`: a zeroed buffer of the layout's length. */
    constructor (len: nat)
      ensures data.Length == len
      ensures forall i :: 0 <= i < len ==> data[i] == 0
      ensures fresh(data)
    {
      data := new bv8[len](_ => 0);
    }

    /** `get_<field>`: collect the field's bits, first bit lowest. */
    method Get(start: nat, end: nat) returns (value: nat)
      requires start <= end <= 8 * data.Length
      requires end - start <= 64
      ensures value == FieldValue(data[..], start, end - start)
      ensures value < Pow2(end - start)
    {
      value := 0;
      for b := start to end
        invariant value == FieldValue(data[..], start, b - start)
      {
        FieldValueSnoc(data[..], start, b - start);
        var bit := (data[b / 8] >> (7 - b % 8)) & 1;
        value := value + (if bit == 1 then Pow2(b - start) else 0);
      }
      FieldValueBound(data[..], start, end - start);
    }

    /** `set_<field>`: OR each bit of `value` into its place in the buffer. */
    method Set(start: nat, end: nat, value: nat)
      requires start <= end <= 8 * data.Length
      requires end - start <= 64
      requires value < U64_LIMIT
      modifies data
      ensures data[..] == OrField(old(data[..]), start, end - start, value)
    {
      ghost var initial := data[..];
      for b := start to end
        invariant data[..] == OrField(initial, start, b - start, value)
      {
        SetBit(initial, start, b - start, value);
      }
    }

    /** One turn of the setter's loop, for buffer bit `start + n`: `data[byte_idx] |= to_replace_mask`. */
    method SetBit(ghost initial: seq<bv8>, start: nat, n: nat, value: nat)
      requires |initial| == data.Length && start + n < 8 * data.Length
      requires data[..] == OrField(initial, start, n, value)
      modifies data
      ensures data[..] == OrField(initial, start, n + 1, value)
    {
      var b := start + n;
      var mask := Mask(ValueBit(value, n), 7 - b % 8);
      data[b / 8] := data[b / 8] | mask;
    }
  }
}

module BitfieldProperties {
  import opened Wrappers
  import opened Decimal
  import opened Bitfield

  // ---------------------------------------------------------------------
  // Width types
  // ---------------------------------------------------------------------

  /** No two width types share a name. */
  lemma BTypeNamesDistinct(j: nat, k: nat)
    requires j != k
    ensures BTypeOf(j).name != BTypeOf(k).name
  {
    if BTypeOf(j).name == BTypeOf(k).name {
      assert ("B" + Dec(j))[1..] == Dec(j);
      assert ("B" + Dec(k))[1..] == Dec(k);
      DecInjective(j, k);
    }
  }

  /** Width 64 is the widest accepted; its error reports the width divided by eight. */
  lemma WidthLimits()
    ensures SizeToPrimitive(64) == Ok(U64)
    ensures SizeToPrimitive(65) == Err(InvalidSize(8))
    ensures SizeToPrimitive(0) == Err(InvalidSize(0))
    ensures SizeToPrimitive(9) == Ok(U16)
  {
  }

  // ---------------------------------------------------------------------
  // Layout
  // ---------------------------------------------------------------------

  lemma {:induction false} SumWidthsMonotone(fields: seq<Field>, i: nat, j: nat)
    requires i <= j <= |fields|
    ensures SumWidths(fields[..i]) <= SumWidths(fields[..j])
    decreases j - i
  {
    if i < j {
      SumWidthsMonotone(fields, i, j - 1);
      assert fields[..j][..j - 1] == fields[..j - 1];
    }
  }

  /** Fields are packed in order: the first starts at bit 0, each starts where the previous ends, and the last ends at the total. */
  lemma FieldsContiguous(fields: seq<Field>)
    ensures |fields| > 0 ==> FieldAccessor(fields, 0).start == 0
    ensures forall k :: 0 <= k < |fields| - 1 ==> FieldAccessor(fields, k + 1).start == FieldAccessor(fields, k).end
    ensures |fields| > 0 ==> FieldAccessor(fields, |fields| - 1).end == SumWidths(fields)
  {
    assert fields[..|fields|] == fields;
  }

  /** Distinct fields own disjoint bit ranges, all below the total. */
  lemma FieldsDisjoint(fields: seq<Field>, k: nat, l: nat)
    requires k < l < |fields|
    ensures FieldAccessor(fields, k).end <= FieldAccessor(fields, l).start
    ensures FieldAccessor(fields, l).end <= SumWidths(fields)
  {
    assert FieldAccessor(fields, k).end == SumWidths(fields[..k + 1]);
    assert FieldAccessor(fields, l).start == SumWidths(fields[..l]);
    assert FieldAccessor(fields, l).end == SumWidths(fields[..l + 1]);
    SumWidthsMonotone(fields, k + 1, l);
    SumWidthsMonotone(fields, l + 1, |fields|);
    assert fields[..|fields|] == fields;
  }

  /** As written, a total that is not a whole number of bytes leaves the buffer short of the last bits. */
  lemma DataLenShort(total: nat)
    requires total % 8 != 0
    ensures 8 * DataLen(total) < total
  {
  }

  /** A 4-bit field followed by an 8-bit field: the buffer has one byte, but the second field's bits run to bit 11. */
  lemma DataLenTooShort()
    ensures var fields := [Field("a", 4), Field("b", 8)];
      && SumWidths(fields) == 12
      && DataLen(SumWidths(fields)) == 1
      && FieldAccessor(fields, 1).end > 8 * DataLen(SumWidths(fields))
      && (FieldAccessor(fields, 1).end - 1) / 8 >= DataLen(SumWidths(fields))
  {
    var fields := [Field("a", 4), Field("b", 8)];
    assert fields[..1] == [Field("a", 4)];
    assert fields[..2] == fields;
    assert fields[..1][..0] == [];
  }

  /** With the length checked, every field's bits lie inside the buffer. */
  lemma CheckedLayoutFits(fields: seq<Field>, k: nat)
    requires k < |fields|
    requires CheckedDataLen(SumWidths(fields)).Ok?
    ensures FieldAccessor(fields, k).end <= 8 * CheckedDataLen(SumWidths(fields)).value
  {
    SumWidthsMonotone(fields, k + 1, |fields|);
    assert fields[..|fields|] == fields;
  }

  // ---------------------------------------------------------------------
  // Getter
  // ---------------------------------------------------------------------

  /** Bit `k` of a field's value is buffer bit `start + k`. */
  lemma {:induction false} FieldValueBits(s: seq<bv8>, start: nat, width: nat, k: nat)
    requires start + width <= 8 * |s|
    requires k < width
    ensures ValueBit(FieldValue(s, start, width), k) == Bit(s, start + k)
    decreases k
  {
    var rest := FieldValue(s, start + 1, width - 1);
    var v := FieldValue(s, start, width);
    assert v / 2 == rest;
    if k > 0 {
      FieldValueBits(s, start + 1, width - 1, k - 1);
    }
  }

  /** A value below `2^k` has bit `k` clear. */
  lemma {:induction false} ValueBitAbove(v: nat, k: nat, n: nat)
    requires v < Pow2(n) && n <= k
    ensures !ValueBit(v, k)
    decreases k
  {
    if k > 0 {
      if n > 0 {
        ValueBitAbove(v / 2, k - 1, n - 1);
      } else {
        ValueBitAbove(v / 2, k - 1, 0);
      }
    }
  }

  /** The getter's result has no bits beyond the field's width. */
  lemma FieldValueHighBits(s: seq<bv8>, start: nat, width: nat, k: nat)
    requires start + width <= 8 * |s|
    requires width <= k
    ensures !ValueBit(FieldValue(s, start, width), k)
  {
    FieldValueBound(s, start, width);
    ValueBitAbove(FieldValue(s, start, width), k, width);
  }

  /** The getter reads only its own bits: buffers that agree on them give the same value. */
  lemma {:induction false} FieldValueLocal(s: seq<bv8>, t: seq<bv8>, start: nat, width: nat)
    requires start + width <= 8 * |s| && start + width <= 8 * |t|
    requires forall b :: start <= b < start + width ==> Bit(s, b) == Bit(t, b)
    ensures FieldValue(s, start, width) == FieldValue(t, start, width)
    decreases width
  {
    if width > 0 {
      FieldValueLocal(s, t, start + 1, width - 1);
    }
  }

  // ---------------------------------------------------------------------
  // Setter
  // ---------------------------------------------------------------------

  /** ORing one bit into a byte sets that bit and no other. */
  lemma ByteBitOr(x: bv8, on: bool, p: nat, q: nat)
    requires p < 8 && q < 8
    ensures ByteBit(x | Mask(on, p), q) == (ByteBit(x, q) || (on && p == q))
  {
  }

  lemma OrBitBits(s: seq<bv8>, b: nat, on: bool, c: nat)
    requires b < 8 * |s| && c < 8 * |s|
    ensures Bit(OrBit(s, b, on), c) == (Bit(s, c) || (on && c == b))
  {
    if c / 8 == b / 8 {
      ByteBitOr(s[b / 8], on, 7 - b % 8, 7 - c % 8);
    }
  }

  /**
    After the setter, buffer bit `c` is set exactly when it was set before
    or it lies in the field and the matching bit of the value is set: the
    setter only ORs, never clears, and leaves bits outside the field alone.
   */
  lemma {:induction false} OrFieldBits(s: seq<bv8>, start: nat, count: nat, v: nat, c: nat)
    requires start + count <= 8 * |s|
    requires c < 8 * |s|
    ensures Bit(OrField(s, start, count, v), c) == (Bit(s, c) || (start <= c < start + count && ValueBit(v, c - start)))
    decreases count
  {
    if count > 0 {
      var prev := OrField(s, start, count - 1, v);
      assert OrField(s, start, count, v) == OrBit(prev, start + count - 1, ValueBit(v, count - 1));
      OrFieldBits(s, start, count - 1, v, c);
      OrBitBits(prev, start + count - 1, ValueBit(v, count - 1), c);
    }
  }

  /** Bytes holding no bit of the field are not written. */
  lemma {:induction false} OrFieldBytesOutside(s: seq<bv8>, start: nat, count: nat, v: nat, i: nat)
    requires start + count <= 8 * |s|
    requires i < |s|
    requires 8 * i + 8 <= start || start + count <= 8 * i
    ensures OrField(s, start, count, v)[i] == s[i]
    decreases count
  {
    if count > 0 {
      OrFieldBytesOutside(s, start, count - 1, v, i);
    }
  }

  lemma ModSplit(v: nat, p: nat)
    requires p > 0
    ensures v % (2 * p) == v % 2 + 2 * ((v / 2) % p)
  {
    var q := v / 2;
    var a := q / p;
    var b := q % p;
    assert v == (2 * p) * a + (2 * b + v % 2);
    ModUnique(v, 2 * p, a, 2 * b + v % 2);
  }

  lemma ModUnique(v: nat, d: nat, q: nat, r: nat)
    requires d > 0 && r < d && v == d * q + r
    ensures v % d == r
  {
    var q' := v / d;
    var r' := v % d;
    if q < q' {
      MulStep(d, q, q' - q);
    } else if q' < q {
      MulStep(d, q', q - q');
    }
  }

  lemma MulStep(d: nat, q: nat, n: nat)
    requires n >= 1
    ensures d * (q + n) >= d * q + d
  {
    assert d * (q + n) == d * q + d * n;
    assert d * n >= d * 1;
  }

  /** A field whose bits are the low bits of `v` holds `v` truncated to the field's width. */
  lemma {:induction false} FieldValueOfBits(s: seq<bv8>, start: nat, width: nat, v: nat)
    requires start + width <= 8 * |s|
    requires forall k :: 0 <= k < width ==> Bit(s, start + k) == ValueBit(v, k)
    ensures FieldValue(s, start, width) == v % Pow2(width)
    decreases width
  {
    if width > 0 {
      forall k | 0 <= k < width - 1
        ensures Bit(s, start + 1 + k) == ValueBit(v / 2, k)
      {
        assert Bit(s, start + (k + 1)) == ValueBit(v, k + 1);
      }
      FieldValueOfBits(s, start + 1, width - 1, v / 2);
      assert Bit(s, start + 0) == ValueBit(v, 0);
      ModSplit(v, Pow2(width - 1));
    }
  }

  /** On a field whose bits are all clear, the getter after the setter returns the value truncated to the field's width. */
  lemma SetThenGet(s: seq<bv8>, start: nat, width: nat, v: nat)
    requires start + width <= 8 * |s|
    requires forall b :: start <= b < start + width ==> !Bit(s, b)
    ensures FieldValue(OrField(s, start, width, v), start, width) == v % Pow2(width)
  {
    var t := OrField(s, start, width, v);
    forall k | 0 <= k < width
      ensures Bit(t, start + k) == ValueBit(v, k)
    {
      OrFieldBits(s, start, width, v, start + k);
      assert !Bit(s, start + k);
    }
    FieldValueOfBits(t, start, width, v);
  }

  /** A fresh, zeroed buffer has every bit clear, so the round trip holds for every field of it. */
  lemma ZeroBufferClear(s: seq<bv8>, b: nat)
    requires forall i :: 0 <= i < |s| ==> s[i] == 0
    requires b < 8 * |s|
    ensures !Bit(s, b)
  {
  }

  /** Setting one field leaves the value of every field whose range it does not overlap unchanged. */
  lemma SetLeavesOthers(s: seq<bv8>, start: nat, width: nat, v: nat, start2: nat, width2: nat)
    requires start + width <= 8 * |s| && start2 + width2 <= 8 * |s|
    requires start + width <= start2 || start2 + width2 <= start
    ensures FieldValue(OrField(s, start, width, v), start2, width2) == FieldValue(s, start2, width2)
  {
    var t := OrField(s, start, width, v);
    forall b | start2 <= b < start2 + width2
      ensures Bit(t, b) == Bit(s, b)
    {
      OrFieldBits(s, start, width, v, b);
    }
    FieldValueLocal(t, s, start2, width2);
  }

  /** Setting a field twice keeps the bits of both values: the second set does not clear the first. */
  lemma SetTwiceAccumulates(s: seq<bv8>, start: nat, width: nat, v: nat, w: nat, k: nat)
    requires start + width <= 8 * |s|
    requires k < width
    ensures ValueBit(FieldValue(OrField(OrField(s, start, width, v), start, width, w), start, width), k)
      == (Bit(s, start + k) || ValueBit(v, k) || ValueBit(w, k))
  {
    var t := OrField(s, start, width, v);
    var u := OrField(t, start, width, w);
    FieldValueBits(u, start, width, k);
    OrFieldBits(t, start, width, w, start + k);
    OrFieldBits(s, start, width, v, start + k);
  }

  /** On a new struct, a field's getter returns what its setter was given, truncated to the field's width. */
  method RoundTripOnNew(len: nat, start: nat, end: nat, value: nat) returns (got: nat)
    requires start <= end <= 8 * len
    requires end - start <= 64
    requires value < U64_LIMIT
    ensures got == value % Pow2(end - start)
  {
    var st := new Storage(len);
    forall b | start <= b < end
      ensures !Bit(st.data[..], b)
    {
      ZeroBufferClear(st.data[..], b);
    }
    SetThenGet(st.data[..], start, end - start, value);
    st.Set(start, end, value);
    got := st.Get(start, end);
  }
}
