/** The sparse typed vector: a header with a type lock, bounds, a count and a
    region map, and a growable list of optional 1024-slot regions. */
module IrisVector {
  import opened FixedPoint
  import opened Bitmap
  import opened Regions

  // Type tags stored in the low byte of the header's type field.
  const VEC_TYPE_INT: bv8 := 0
  const VEC_TYPE_DECIMAL: bv8 := 1
  const VEC_TYPE_DOUBLE: bv8 := 2

  /** Marks the type field as holding a type. */
  const VECTOR_MAGIC: bv16 := 0x8B00

  /** Entries in the header's region map, hence the number of usable regions. */
  const VEC_NUM_REGIONS: nat := 64

  /** One past the largest index a write can reach without running off the
      region map; also the range of the 16-bit `first` and `last`. */
  const MAX_INDEX: nat := VEC_NUM_REGIONS * REGION_SIZE

  datatype Option<T> = None | Some(value: T)

  datatype Error =
    | InvalidType           // the type name is none of the three
    | TypeMismatch          // the vector is locked to another type
    | RegionNotInitialized  // no decimal region holds the index
    | NoValueAtIndex        // the slot's presence bit is clear

  datatype Result<T> = Ok(value: T) | Err(error: Error)

  function Min(a: int, b: int): int { if a <= b then a else b }
  function Max(a: int, b: int): int { if a >= b then a else b }

  // ---------------------------------------------------------------------
  // The type field
  // ---------------------------------------------------------------------

  /** The type tag: the low byte of the type field.  Put back under the
      field's high byte, it gives the whole field again. */
  function GetVectorType(typeField: bv16): (tag: bv8)
    ensures (typeField & 0xFF00) | tag as bv16 == typeField
  {
    (typeField & 0xFF) as bv8
  }

  /** Whether the field's tag is `tag`: the field is its own high byte with
      `tag` as the low byte. */
  function IsType(typeField: bv16, tag: bv8): (matches: bool)
    ensures matches <==> typeField == (typeField & 0xFF00) | tag as bv16
  {
    GetVectorType(typeField) == tag
  }

  /** Whether the type field carries the magic marker. */
  predicate HasType(typeField: bv16) {
    typeField & VECTOR_MAGIC == VECTOR_MAGIC
  }

  /** The type field that locks a vector to `tag`: afterwards the vector is
      typed and its tag reads back as `tag`. */
  function VectorTypeField(tag: bv8): (typeField: bv16)
    ensures HasType(typeField) && GetVectorType(typeField) == tag
    ensures typeField != 0
  {
    VECTOR_MAGIC | tag as bv16
  }

  /** The values a type field takes: untyped (0) or locked to one of the three tags. */
  predicate ValidTypeField(typeField: bv16) {
    typeField == 0 ||
    (GetVectorType(typeField) <= VEC_TYPE_DOUBLE && typeField == VectorTypeField(GetVectorType(typeField)))
  }

  function TagOf(kind: Kind): bv8 {
    match kind
    case Integer => VEC_TYPE_INT
    case Decimal => VEC_TYPE_DECIMAL
    case Double => VEC_TYPE_DOUBLE
  }

  function KindOfTag(tag: bv8): (kind: Kind)
    requires tag <= VEC_TYPE_DOUBLE
    ensures TagOf(kind) == tag
  {
    if tag == VEC_TYPE_INT then Integer
    else if tag == VEC_TYPE_DECIMAL then Decimal
    else Double
  }

  /** The kind of region a vector with this type field allocates. */
  function LockedKind(typeField: bv16): Kind
    requires ValidTypeField(typeField)
  {
    KindOfTag(GetVectorType(typeField))
  }

  // ---------------------------------------------------------------------
  // Type names
  // ---------------------------------------------------------------------

  /** Lower-casing of one character, for ASCII letters only.  Full Unicode
      lower-casing gives the same match against the three type names: apart
      from ASCII letters, only the Kelvin sign (to 'k') and dotted capital I
      (to 'i' plus a combining dot, which lengthens the string) lower-case to
      a string containing an ASCII letter, and neither can complete a match. */
  function LowerChar(c: char): char {
    if 'A' <= c <= 'Z' then (c as int + 32) as char else c
  }

  function ToLowercase(s: string): string {
    seq(|s|, i requires 0 <= i < |s| => LowerChar(s[i]))
  }

  /** `s` spells the lower-case `word` in any mix of cases. */
  predicate EqualsIgnoringCase(s: string, word: string) {
    |s| == |word| && forall i :: 0 <= i < |s| ==> LowerChar(s[i]) == word[i]
  }

  /** Parses a type name, case-insensitively. */
  function TypeFromStr(typeName: string): (tag: Option<bv8>)
    ensures tag == Some(VEC_TYPE_INT) <==> EqualsIgnoringCase(typeName, "integer")
    ensures tag == Some(VEC_TYPE_DECIMAL) <==> EqualsIgnoringCase(typeName, "decimal")
    ensures tag == Some(VEC_TYPE_DOUBLE) <==> EqualsIgnoringCase(typeName, "double")
    ensures tag.Some? ==> tag.value <= VEC_TYPE_DOUBLE
  {
    var lower := ToLowercase(typeName);
    assert EqualsIgnoringCase(typeName, "integer") <==> lower == "integer";
    assert EqualsIgnoringCase(typeName, "decimal") <==> lower == "decimal";
    assert EqualsIgnoringCase(typeName, "double") <==> lower == "double";
    if lower == "integer" then Some(VEC_TYPE_INT)
    else if lower == "decimal" then Some(VEC_TYPE_DECIMAL)
    else if lower == "double" then Some(VEC_TYPE_DOUBLE)
    else None
  }

  /** Whether a write with this type name gets past the type check. */
  predicate Accepts(typeField: bv16, typeName: string) {
    var tag := TypeFromStr(typeName);
    tag.Some? && (!HasType(typeField) || IsType(typeField, tag.value))
  }

  /** The type lock: an untyped vector accepts every known type name, and a
      vector locked to `tag` accepts exactly the names of that tag. */
  lemma TypeLock(tag: bv8, typeName: string)
    ensures Accepts(0, typeName) <==> TypeFromStr(typeName).Some?
    ensures Accepts(VectorTypeField(tag), typeName) <==> TypeFromStr(typeName) == Some(tag)
  {
  }

  // ---------------------------------------------------------------------
  // Indices and the region list
  // ---------------------------------------------------------------------

  /** Splits an index into the region that holds it and its slot there. */
  function GetRegionInfo(index: nat): (info: (nat, nat))
    ensures info.1 < REGION_SIZE
    ensures info.0 * REGION_SIZE + info.1 == index
    ensures index < MAX_INDEX ==> info.0 < VEC_NUM_REGIONS
  {
    (index / REGION_SIZE, index % REGION_SIZE)
  }

  /** Every allocated region has the fixed sizes and the given kind. */
  predicate RegionsOfKind(regions: seq<Option<Region>>, kind: Kind) {
    forall r :: 0 <= r < |regions| && regions[r].Some? ==>
      regions[r].value.WellFormed() && regions[r].value.KindOf() == kind
  }

  predicate RegionsWellFormed(regions: seq<Option<Region>>) {
    forall r :: 0 <= r < |regions| && regions[r].Some? ==> regions[r].value.WellFormed()
  }

  /** The region list once region `regionIndex` is guaranteed to exist: the
      list is padded with empty entries up to that index and never shrinks,
      no existing entry changes, and the entry is a fresh region if it was
      empty. */
  function EnsuredRegions(regions: seq<Option<Region>>, regionIndex: nat, kind: Kind): (ensured: seq<Option<Region>>)
    ensures |ensured| == Max(|regions|, regionIndex + 1)
    ensures forall r :: 0 <= r < |regions| && r != regionIndex ==> ensured[r] == regions[r]
    ensures forall r :: |regions| <= r < |ensured| && r != regionIndex ==> ensured[r] == None
    ensures ensured[regionIndex] ==
      if regionIndex < |regions| && regions[regionIndex].Some? then regions[regionIndex]
      else Some(FreshRegion(kind))
  {
    var padded := if regionIndex < |regions| then regions
                  else regions + seq(regionIndex + 1 - |regions|, _ => None);
    if padded[regionIndex].Some? then padded
    else padded[regionIndex := Some(FreshRegion(kind))]
  }

  /** The region list after a write of `value` at `index` into a vector of
      the given kind. */
  function StoredRegions(regions: seq<Option<Region>>, kind: Kind, index: nat, value: Number): (stored: seq<Option<Region>>)
    requires RegionsOfKind(regions, kind)
    ensures RegionsOfKind(stored, kind)
    ensures |stored| == Max(|regions|, index / REGION_SIZE + 1)
  {
    var (regionIndex, offset) := GetRegionInfo(index);
    var ensured := EnsuredRegions(regions, regionIndex, kind);
    ensured[regionIndex := Some(Store(ensured[regionIndex].value, offset, value))]
  }

  /** A slot as the vector exposes it: its presence bit and its content. */
  datatype Slot = Slot(present: bool, content: Scalar)

  /** The slot of `index`, if its region exists. */
  function SlotAt(regions: seq<Option<Region>>, index: nat): Option<Slot>
    requires RegionsWellFormed(regions)
  {
    var (regionIndex, offset) := GetRegionInfo(index);
    if regionIndex < |regions| && regions[regionIndex].Some? then
      var region := regions[regionIndex].value;
      Some(Slot(IsPresent(region, offset), SlotValue(region, offset)))
    else None
  }

  /** A write sets its own slot, present, to the value in native form.  Every
      other slot that existed keeps its presence bit and content; the other
      slots of a region the write allocated are absent and at their default. */
  lemma StoredSlots(regions: seq<Option<Region>>, kind: Kind, index: nat, value: Number)
    requires RegionsOfKind(regions, kind)
    ensures SlotAt(StoredRegions(regions, kind, index, value), index) == Some(Slot(true, NativeScalar(kind, value)))
    ensures forall j: nat :: j != index ==>
      SlotAt(StoredRegions(regions, kind, index, value), j) ==
        if SlotAt(regions, j).Some? then SlotAt(regions, j)
        else if j / REGION_SIZE == index / REGION_SIZE then Some(Slot(false, ZeroScalar(kind)))
        else None
  {
  }

  // ---------------------------------------------------------------------
  // The vector
  // ---------------------------------------------------------------------

  class Vector {
    // The header fields that the operations read or write.
    var typeField: bv16
    var first: nat   // u16
    var last: nat    // u16
    var count: nat   // u32
    const regmap: array<int>   // [u16; 64]: 1 once a region is allocated

    var regions: seq<Option<Region>>

    ghost predicate Valid()
      reads this, regmap
    {
      regmap.Length == VEC_NUM_REGIONS &&
      ValidTypeField(typeField) &&
      first == 0 && last < MAX_INDEX && count < 0x1_0000_0000 &&
      |regions| <= VEC_NUM_REGIONS &&
      (!HasType(typeField) ==> regions == []) &&
      RegionsOfKind(regions, LockedKind(typeField)) &&
      forall r :: 0 <= r < VEC_NUM_REGIONS ==>
        regmap[r] == if r < |regions| && regions[r].Some? then 1 else 0
    }

    /** A new vector: untyped, no regions, bounds and count zero. */
    constructor ()
      ensures Valid() && fresh(regmap)
      ensures typeField == 0 && !HasType(typeField)
      ensures first == 0 && last == 0 && count == 0
      ensures regions == []
    {
      typeField := 0;
      first, last, count := 0, 0, 0;
      regmap := new int[VEC_NUM_REGIONS](_ => 0);
      regions := [];
    }

    /** Writes `value` at `index` after parsing the type name and checking
        the type lock.  An unknown name or a name other than the locked type
        fails before anything changes; otherwise the first write locks the
        type and the value is stored. */
    method Set(index: nat, typeName: string, value: Number) returns (r: Result<()>)
      requires Valid()
      requires Accepts(typeField, typeName) ==> index < MAX_INDEX
      modifies this, regmap
      ensures Valid()
      ensures TypeFromStr(typeName).None? ==> r == Err(InvalidType)
      ensures TypeFromStr(typeName).Some? && !Accepts(old(typeField), typeName) ==> r == Err(TypeMismatch)
      ensures r.Ok? <==> Accepts(old(typeField), typeName)
      ensures r.Err? ==> unchanged(this) && unchanged(regmap)
      ensures r.Ok? ==>
        var tag := TypeFromStr(typeName).value;
        && typeField == VectorTypeField(tag)
        && (HasType(old(typeField)) ==> typeField == old(typeField))
        && regions == StoredRegions(old(regions), KindOfTag(tag), index, value)
        && count == (old(count) + 1) % 0x1_0000_0000
        && first == Min(old(first), index)
        && last == Max(old(last), index)
      ensures r.Ok? && TypeFromStr(typeName) == Some(VEC_TYPE_DECIMAL) ==>
        GetDecimal(index) == Ok(value.scaled)
    {
      var parsed := TypeFromStr(typeName);
      if parsed.None? {
        return Err(InvalidType);
      }
      var vectorType := parsed.value;
      if !HasType(typeField) {
        typeField := VectorTypeField(vectorType);
      } else if !IsType(typeField, vectorType) {
        return Err(TypeMismatch);
      }
      SetValue(index, value);
      r := Ok(());
      if vectorType == VEC_TYPE_DECIMAL {
        StoredSlots(old(regions), Decimal, index, value);
        RoundTrip(value.scaled);
      }
    }

    /** Stores `value` at `index` in the locked kind: allocates the region if
        needed, writes the slot, sets its presence bit, updates the header. */
    method SetValue(index: nat, value: Number)
      requires Valid() && HasType(typeField) && index < MAX_INDEX
      modifies this`regions, this`count, this`first, this`last, regmap
      ensures Valid()
      ensures regions == StoredRegions(old(regions), LockedKind(typeField), index, value)
      ensures count == (old(count) + 1) % 0x1_0000_0000
      ensures first == Min(old(first), index)
      ensures last == Max(old(last), index)
    {
      var (regionIndex, offset) := GetRegionInfo(index);
      EnsureRegion(regionIndex);
      var region := regions[regionIndex].value;
      var written: Region;
      match region {
        case IntegerRegion(bitmap, ints) =>
          written := IntegerRegion(SetBitmapBit(bitmap, offset, true), ints[offset := value.truncated]);
        case DecimalRegion(bitmap, decimals) =>
          var decimalBytes := ConvertToFixedPoint(value.scaled);
          written := DecimalRegion(SetBitmapBit(bitmap, offset, true), decimals[offset := decimalBytes]);
        case DoubleRegion(bitmap, doubles) =>
          written := DoubleRegion(SetBitmapBit(bitmap, offset, true), doubles[offset := value.float]);
      }
      assert written == Store(region, offset, value);
      regions := regions[regionIndex := Some(written)];
      UpdateHeaderForSet(index);
    }

    /** Makes sure region `regionIndex` exists: pads the list with empty
        entries, then allocates a fresh region of the locked kind if the entry
        is empty and records it in the region map. */
    method EnsureRegion(regionIndex: nat)
      requires Valid() && HasType(typeField) && regionIndex < VEC_NUM_REGIONS
      modifies this`regions, regmap
      ensures Valid()
      ensures regions == EnsuredRegions(old(regions), regionIndex, LockedKind(typeField))
      ensures regmap[regionIndex] == 1
      ensures forall r :: 0 <= r < VEC_NUM_REGIONS && r != regionIndex ==> regmap[r] == old(regmap[r])
    {
      while |regions| <= regionIndex
        invariant Valid()
        invariant |old(regions)| <= |regions| <= Max(|old(regions)|, regionIndex + 1)
        invariant regions == old(regions) + seq(|regions| - |old(regions)|, _ => None)
        invariant forall r :: 0 <= r < VEC_NUM_REGIONS ==> regmap[r] == old(regmap[r])
        decreases regionIndex + 1 - |regions|
      {
        regions := regions + [None];
      }
      if regions[regionIndex].None? {
        regions := regions[regionIndex := Some(FreshRegion(LockedKind(typeField)))];
        regmap[regionIndex] := 1;
      }
    }

    /** Counts the write and widens the bounds to cover `index` (cast to 16
        bits); the count wraps at 2^32. */
    method UpdateHeaderForSet(index: nat)
      requires Valid()
      modifies this`count, this`first, this`last
      ensures Valid()
      ensures count == (old(count) + 1) % 0x1_0000_0000
      ensures first == Min(old(first), index % 0x1_0000)
      ensures last == Max(old(last), index % 0x1_0000)
    {
      count := (count + 1) % 0x1_0000_0000;
      first := Min(first, index % 0x1_0000);
      last := Max(last, index % 0x1_0000);
    }

    /** Reads the scaled decimal at `index`.  It fails when the index lies in
        no decimal region, fails when its presence bit is clear, and otherwise
        returns the decoding of the slot. */
    function GetDecimal(index: nat): (r: Result<int>)
      reads this
      requires RegionsWellFormed(regions) && index / REGION_SIZE < |regions|
      ensures match SlotAt(regions, index)
        case Some(Slot(true, DecimalScalar(e))) => r == Ok(DecodeFixedPoint(e))
        case Some(Slot(false, DecimalScalar(_))) => r == Err(NoValueAtIndex)
        case _ => r == Err(RegionNotInitialized)
    {
      var (regionIndex, offset) := GetRegionInfo(index);
      match regions[regionIndex]
      case Some(DecimalRegion(bitmap, decimals)) =>
        var byteIndex, bitIndex := offset / 8, offset % 8;
        if bitmap[byteIndex] & Mask(bitIndex) != 0 then Ok(DecodeFixedPoint(decimals[offset]))
        else Err(NoValueAtIndex)
      case _ => Err(RegionNotInitialized)
    }
  }
}
