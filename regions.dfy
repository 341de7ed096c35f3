/** Dense regions: fixed blocks of 1024 slots of one scalar kind, each with a
    128-byte presence bitmap. */
module Regions {
  import opened FixedPoint
  import opened Bitmap

  /** Slots in one region. */
  const REGION_SIZE: nat := 1024

  /** The three scalar kinds a vector can be locked to. */
  datatype Kind = Integer | Decimal | Double

  /** A 64-bit float, kept as its IEEE-754 bit pattern; no float arithmetic
      is modelled.  The pattern 0 is +0.0. */
  datatype Float64 = Float64(bits: bv64)

  const ZERO_FLOAT: Float64 := Float64(0)

  /** The value handed to a write, in the three native forms the store
      derives from its `f64` conversion: `as i64` for an integer region, the
      value times 10^4 `as i64` for a decimal region, and the float itself
      for a double region. */
  datatype Number = Number(truncated: Int64, scaled: Int64, float: Float64)

  /** One region, tagged by its kind. */
  datatype Region =
    | IntegerRegion(bitmap: seq<bv8>, ints: seq<Int64>)
    | DecimalRegion(bitmap: seq<bv8>, decimals: seq<Encoding>)
    | DoubleRegion(bitmap: seq<bv8>, doubles: seq<Float64>)
  {
    /** The fixed sizes of the source's arrays. */
    predicate WellFormed() {
      |bitmap| == BITMAP_SIZE_BYTES &&
      match this
      case IntegerRegion(_, ints) => |ints| == REGION_SIZE
      case DecimalRegion(_, decimals) => |decimals| == REGION_SIZE
      case DoubleRegion(_, doubles) => |doubles| == REGION_SIZE
    }

    function KindOf(): Kind {
      match this
      case IntegerRegion(_, _) => Integer
      case DecimalRegion(_, _) => Decimal
      case DoubleRegion(_, _) => Double
    }
  }

  /** The content of one slot, whatever the region's kind. */
  datatype Scalar = IntScalar(i: Int64) | DecimalScalar(e: Encoding) | DoubleScalar(f: Float64)

  /** The default content of a slot of a fresh region: 0, nine zero bytes, +0.0. */
  function ZeroScalar(kind: Kind): Scalar {
    match kind
    case Integer => IntScalar(0)
    case Decimal => DecimalScalar(ZERO_ENCODING)
    case Double => DoubleScalar(ZERO_FLOAT)
  }

  /** What a write stores for `value` into a region of the given kind. */
  function NativeScalar(kind: Kind, value: Number): Scalar {
    match kind
    case Integer => IntScalar(value.truncated)
    case Decimal => DecimalScalar(EncodeFixedPoint(value.scaled))
    case Double => DoubleScalar(value.float)
  }

  predicate IsPresent(region: Region, offset: nat)
    requires region.WellFormed() && offset < REGION_SIZE
  {
    BitIsSet(region.bitmap, offset)
  }

  function SlotValue(region: Region, offset: nat): Scalar
    requires region.WellFormed() && offset < REGION_SIZE
  {
    match region
    case IntegerRegion(_, ints) => IntScalar(ints[offset])
    case DecimalRegion(_, decimals) => DecimalScalar(decimals[offset])
    case DoubleRegion(_, doubles) => DoubleScalar(doubles[offset])
  }

  /** A freshly allocated region: no slot present, every slot at its default. */
  function FreshRegion(kind: Kind): (r: Region)
    ensures r.WellFormed() && r.KindOf() == kind
    ensures forall o :: 0 <= o < REGION_SIZE ==> !IsPresent(r, o) && SlotValue(r, o) == ZeroScalar(kind)
  {
    var bitmap := seq(BITMAP_SIZE_BYTES, _ => 0);
    match kind
    case Integer => IntegerRegion(bitmap, seq(REGION_SIZE, _ => 0))
    case Decimal => DecimalRegion(bitmap, seq(REGION_SIZE, _ => ZERO_ENCODING))
    case Double => DoubleRegion(bitmap, seq(REGION_SIZE, _ => ZERO_FLOAT))
  }

  /** Writes `value` into slot `offset` and marks it present.  The slot then
      holds the value in the region's native form; every other slot keeps its
      content and its presence bit. */
  function Store(region: Region, offset: nat, value: Number): (r: Region)
    requires region.WellFormed() && offset < REGION_SIZE
    ensures r.WellFormed() && r.KindOf() == region.KindOf()
    ensures IsPresent(r, offset) && SlotValue(r, offset) == NativeScalar(region.KindOf(), value)
    ensures forall o :: 0 <= o < REGION_SIZE && o != offset ==>
      IsPresent(r, o) == IsPresent(region, o) && SlotValue(r, o) == SlotValue(region, o)
  {
    SetBitmapBitKeepsOtherBits(region.bitmap, offset, true);
    var bitmap := SetBitmapBit(region.bitmap, offset, true);
    match region
    case IntegerRegion(_, ints) => IntegerRegion(bitmap, ints[offset := value.truncated])
    case DecimalRegion(_, decimals) => DecimalRegion(bitmap, decimals[offset := EncodeFixedPoint(value.scaled)])
    case DoubleRegion(_, doubles) => DoubleRegion(bitmap, doubles[offset := value.float])
  }
}
