/** The presence bitmap of a region: one bit per slot, bit `offset % 8` of
    byte `offset / 8`. */
module Bitmap {

  /** Bytes in the bitmap of one region (1024 slots, one bit each). */
  const BITMAP_SIZE_BYTES: nat := 128

  /** `1 << bit` as a `u8`. */
  function Mask(bit: nat): bv8
    requires bit < 8
  {
    (1 as bv8) << bit
  }

  /** Whether the presence bit of `offset` is set; the test that the decimal
      getter performs inline. */
  function BitIsSet(bitmap: seq<bv8>, offset: nat): (set?: bool)
    requires offset / 8 < |bitmap|
    ensures set? <==> (bitmap[offset / 8] >> (offset % 8)) & 1 == 1
  {
    bitmap[offset / 8] & Mask(offset % 8) != 0
  }

  /** Setting or clearing one bit of a byte leaves its other seven bits alone. */
  lemma ByteUpdate(b: bv8, bit: nat, value: bool)
    requires bit < 8
    ensures var u := if value then b | Mask(bit) else b & !Mask(bit);
      (u & Mask(bit) != 0) == value &&
      forall j :: 0 <= j < 8 && j != bit ==> (u & Mask(j) != 0) == (b & Mask(j) != 0)
  {
  }

  /** Sets (value true) or clears (value false) the presence bit of `offset`:
      that bit becomes `value`, every other bit and every other byte is kept. */
  function SetBitmapBit(bitmap: seq<bv8>, offset: nat, value: bool): (r: seq<bv8>)
    requires offset / 8 < |bitmap|
    ensures |r| == |bitmap|
    ensures BitIsSet(r, offset) == value
    ensures forall k :: 0 <= k < |bitmap| && k != offset / 8 ==> r[k] == bitmap[k]
  {
    var byteIndex, bitIndex := offset / 8, offset % 8;
    ByteUpdate(bitmap[byteIndex], bitIndex, value);
    var b := bitmap[byteIndex];
    bitmap[byteIndex := if value then b | Mask(bitIndex) else b & !Mask(bitIndex)]
  }

  /** Every presence bit other than that of `offset` is kept. */
  lemma SetBitmapBitKeepsOtherBits(bitmap: seq<bv8>, offset: nat, value: bool)
    requires offset / 8 < |bitmap|
    ensures forall o :: 0 <= o < 8 * |bitmap| && o != offset ==>
      BitIsSet(SetBitmapBit(bitmap, offset, value), o) == BitIsSet(bitmap, o)
  {
  }

  /** Setting the same bit to the same value twice is the same as once. */
  lemma SetBitmapBitIdempotent(bitmap: seq<bv8>, offset: nat, value: bool)
    requires offset / 8 < |bitmap|
    ensures SetBitmapBit(SetBitmapBit(bitmap, offset, value), offset, value)
         == SetBitmapBit(bitmap, offset, value)
  {
  }
}
