# IrisVector in Dafny

A verified model of the storage engine of `IrisVector.rs`: a sparse, typed
vector of integers, fixed-point decimals or doubles. The engine keeps a
header and a growable list of optional regions. Each region holds 1024 slots
of one scalar kind and a 128-byte presence bitmap.

The model has four modules:

- `FixedPoint` (`fixed_point.dfy`): the 9-byte sign-and-magnitude codec of
  decimal slots, at the integer layer. `EncodeFixedPoint` and
  `DecodeFixedPoint` specify the codec. `ConvertToFixedPoint` is the
  encoder's loop, proved equal to `EncodeFixedPoint`. `ConvertFromFixedPoint`
  is the decoder's loop with an unsigned accumulator, proved equal to
  `DecodeFixedPoint`. The source's signed accumulator is modelled separately
  by `DecodeFixedPointAsWritten` (see "## Findings").
- `Bitmap` (`bitmap.dfy`): the presence bitmap and `SetBitmapBit`.
- `Regions` (`regions.dfy`): the three region kinds, fresh allocation, and
  the write of one slot.
- `IrisVector` (`iris_vector.dfy`): the constants, the type-field macros,
  type-name parsing and index splitting. It also holds the class `Vector`,
  whose header fields and region list are updated in place by `Set`,
  `SetValue`, `EnsureRegion` and `UpdateHeaderForSet`. `GetDecimal` reads
  them.

`Vector.Valid()` is the object invariant. It requires the following:

- The type field is 0, or `0x8B00 | tag` for one of the three tags.
- `first` is 0.
- `last` fits in 16 bits and `count` fits in 32 bits.
- There are at most 64 regions, and none while the vector is untyped.
- Every region has the source's fixed sizes and the locked kind.
- `regmap[r]` is 1 exactly when region `r` exists.

Every method preserves it.

The value passed to a write is a `Number`. It carries the three native forms
that `set_value` derives from its `f64`: `as i64` (integer regions), times
10^4 `as i64` (decimal regions), and the float as its IEEE-754 bit pattern
(double regions). No float arithmetic is modelled.

## Model

| member | source | states |
|---|---|---|
| `FixedPoint.EncodeFixedPoint` | IrisVector.rs:102-114 | byte 0 is 1 exactly when the scaled value is negative; bytes 1–8, read big-endian, give its absolute value |
| `FixedPoint.DecodeFixedPoint` | IrisVector.rs:117-127 | the result's absolute value is the big-endian value of bytes 1–8; it is non-negative when byte 0 is 0 and non-positive otherwise, which fixes it to plus or minus that magnitude |
| `FixedPoint.BigEndianOfDigits` | IrisVector.rs:109-111 | the bytes extracted by the shift loop read back big-endian to the value, for every value that fits |
| `FixedPoint.RoundTrip` | IrisVector.rs:102-127 | decoding the encoding of any scaled `i64` gives it back |
| `FixedPoint.ConvertToFixedPoint` | IrisVector.rs:102-114 | the sign-then-shift loop produces exactly the specified 9-byte encoding |
| `FixedPoint.ConvertFromFixedPoint` | IrisVector.rs:117-127 | the shift-in loop followed by the sign produces exactly the specified decoding |
| `FixedPoint.DecodeFixedPointAsWritten` | IrisVector.rs:117-127 | the source's decoder, with its `i64` accumulator, agrees with the unsigned one whenever the magnitude is below 2^63 |
| `FixedPoint.AsWrittenMinimumLosesSign` | IrisVector.rs:104-126 | the source's decoder turns the encoding of `i64::MIN` into +2^63; the corrected decoder returns `i64::MIN` |
| `FixedPoint.AsWrittenAgreesAboveMinimum` | IrisVector.rs:105-124 | for every other `i64`, the source's decoder inverts the encoder |
| `Bitmap.BitIsSet` | IrisVector.rs:271-274 | the mask test on byte offset/8 with `1 << offset%8` holds exactly when bit offset%8 of that byte is 1 |
| `Bitmap.SetBitmapBit` | IrisVector.rs:91-99 | the presence bit of the offset becomes the given value, and every other byte is unchanged |
| `Bitmap.SetBitmapBitKeepsOtherBits` | IrisVector.rs:91-99 | every presence bit other than the offset's is unchanged, including the other seven bits of its byte |
| `Bitmap.SetBitmapBitIdempotent` | IrisVector.rs:91-99 | setting the same bit to the same value twice equals setting it once |
| `Regions.FreshRegion` | IrisVector.rs:226-246 | a new region has the requested kind and the fixed sizes; no slot is present and every slot holds 0, nine zero bytes, or +0.0 |
| `Regions.Store` | IrisVector.rs:192-211 | the written slot becomes present and holds the value in the region's native form (the encoding, for decimals); every other slot keeps its bit and its content |
| `IrisVector.GetVectorType` | IrisVector.rs:27-31 | the tag is the low byte of the type field: placed under the field's high byte it rebuilds the whole field |
| `IrisVector.IsType` | IrisVector.rs:33-37 | the field has the tag exactly when the field equals its own high byte with that tag as low byte |
| `IrisVector.VectorTypeField` | IrisVector.rs:40-50 | after locking to a tag, `has_type` holds and `get_vector_type` returns that tag |
| `IrisVector.TypeFromStr` | IrisVector.rs:155-162 | the result is tag 0, 1 or 2 exactly when the name spells "integer", "decimal" or "double" in any case; otherwise it is `None` |
| `IrisVector.TypeLock` | IrisVector.rs:169-177 | an untyped vector accepts every known type name; a vector locked to a tag accepts exactly the names of that tag |
| `IrisVector.GetRegionInfo` | IrisVector.rs:255-257 | the offset is below 1024, region × 1024 + offset is the index, and indices below 65536 fall in one of the 64 regions |
| `IrisVector.EnsuredRegions` | IrisVector.rs:220-252 | the list grows to cover the region and never shrinks; existing entries are untouched; padding entries are empty; the entry is kept if present, otherwise it is a fresh region of the locked kind |
| `IrisVector.StoredRegions` | IrisVector.rs:187-211 | after a write, every region still has the locked kind, and the list covers the written region |
| `IrisVector.StoredSlots` | IrisVector.rs:187-211 | after a write, its slot is present with the native value; every other existing slot keeps its bit and content; the other slots of a newly allocated region are absent and at their default |
| `IrisVector.Vector.constructor` | IrisVector.rs:131-152 | a new vector is untyped, has no regions, an all-zero region map, and zero bounds and count |
| `IrisVector.Vector.Set` | IrisVector.rs:165-180 | an unknown name fails with `InvalidType`, and a name of another type than the locked one fails with `TypeMismatch`; both leave everything unchanged. Otherwise the first write locks the type, the regions become the stored list, `count` rises by one (mod 2^32), `first` becomes min(first, index) and `last` max(last, index). After a decimal write, `GetDecimal(index)` returns the written scaled value |
| `IrisVector.Vector.SetValue` | IrisVector.rs:183-217 | writes the value in the locked kind at region index/1024, slot index%1024, then updates the header; the invariant is kept |
| `IrisVector.Vector.EnsureRegion` | IrisVector.rs:220-252 | the region list becomes `EnsuredRegions` of the old list; `regmap` is 1 for the region, and every other entry is unchanged |
| `IrisVector.Vector.UpdateHeaderForSet` | IrisVector.rs:260-264 | `count` rises by one (mod 2^32); `first` and `last` take the min and max with the index cast to 16 bits; since `first` starts at 0, it stays 0 |
| `IrisVector.Vector.GetDecimal` | IrisVector.rs:267-282 | it fails with `RegionNotInitialized` unless the index lies in a decimal region, and with `NoValueAtIndex` when the slot's bit is clear; otherwise it returns the decoding of the slot |

## Left out

- `example` and `main` (IrisVector.rs:288-318) only print and call the API, so they are not modelled.
- Floating point is not modelled. This covers scaling by 10^4 and the saturating `as i64` casts (IrisVector.rs:104, 195), the division back to an `f64` (IrisVector.rs:126), and the `Into<f64>` conversion (IrisVector.rs:190). Writes take a `Number` in native form, and doubles are opaque bit patterns.
- `Vector.GetDecimal` returns the scaled integer, not the scaled integer divided by 10^4 as an `f64`.
- `Vector.GetDecimal` decodes with the unsigned accumulator of the corrected decoder, not the source's `i64` one. The two differ on magnitudes of 2^63 and above. Among encodings the encoder produces, that is only the encoding of `i64::MIN` (see "## Findings").
- `FixedPoint.ConvertFromFixedPoint` accumulates the magnitude in an unbounded `nat`, not in the source's wrapping `i64` (IrisVector.rs:120-123). It differs from the source on magnitudes of 2^63 and above. The source's accumulator is `DecodeFixedPointAsWritten`.
- `FixedPoint.ConvertToFixedPoint`: `scaled_value.abs()` (IrisVector.rs:108) panics on `i64::MIN` in a debug build. The model follows the release build, where it wraps and the bytes written are those of 2^63.
- The reserved header fields are not modelled: `format`, `version`, `dic_offset`, `dic_length`, `refs`, `uflags`, `vflags` and `stats` (IrisVector.rs:56-66). They are set once in `new` and never read.
- `Box` allocation and the `#[repr(C)]` layout are not modelled. Regions are values in the vector's `regions` sequence. The in-place writes to a region's bitmap and data become one replacement of that region, and `SetBitmapBit` is a function on the bitmap's bytes.
- Indices of 65536 or more are excluded by the `requires` of `Set`, `SetValue` and `EnsureRegion`. On such a write the source panics indexing the 64-entry `regmap` (IrisVector.rs:249). `GetDecimal` requires its region to be in the list, because the source panics there too (IrisVector.rs:270).
- The `_ => Err("Unsupported …")` arms (IrisVector.rs:212, 245) are not modelled. The invariant keeps the type tag in {0, 1, 2}, so the model matches exhaustively on the region kind.
- The `if let` variant checks in `set_value` (IrisVector.rs:194, 200, 207) always succeed under the invariant, so the model has no branch where nothing is written.
- `convert_to_fixed_point` returns a `Result` that is never an error, so `ConvertToFixedPoint` returns the encoding directly.
- `Vector.UpdateHeaderForSet`: `count += 1` wraps at 2^32, as in a release build. A debug build panics on that overflow instead.
- `IrisVector.TypeFromStr`: lower-casing changes only ASCII letters. Unicode `to_lowercase` also maps other characters. Only two of them yield an ASCII letter: the Kelvin sign gives 'k', which is in none of "integer", "decimal" or "double", and 'İ' (U+0130) gives 'i' followed by a combining dot, which lengthens the string so that it cannot match. The match result is therefore the same.
- Getters for integer and double regions are not modelled: they do not exist in the source.

## Findings

| source | as written | input that shows it | evidently intended | confidence | as-written member | corrected member |
|---|---|---|---|---|---|---|
| IrisVector.rs:104-126 | The decoder accumulates the 8-byte magnitude in an `i64`. A magnitude of 2^63 therefore reads as `i64::MIN`, and the negative sign byte flips it to +2^63. In a debug build, the encoder's `abs()` panics on the same input instead. | `set(i, "decimal", -1e15)`: the scaled value saturates to `i64::MIN` and is encoded as `[1, 0x80, 0, 0, 0, 0, 0, 0, 0]`; `get_decimal(i)` then returns +922337203685477.5808 | decoding inverts encoding for every `i64`, with the magnitude read as unsigned | not executed | `FixedPoint.AsWrittenMinimumLosesSign` | `FixedPoint.RoundTrip` |

The rest of the model, `Vector.GetDecimal` included, uses the corrected
decoder `DecodeFixedPoint`.
