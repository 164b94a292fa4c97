/** The fixed binary headers of an ESP firmware image
    (espflash/src/chip/mod.rs:14-15, 71-82, 142-157).

    Each header is a `#[repr(C)]` struct deriving `Pod`, so its bytes are its
    fields back to back at their `repr(C)` offsets, multi-byte fields
    little-endian.  Each is modelled as a datatype with an encoder to exactly
    `size_of` bytes and a decoder from exactly that many bytes. */
module Headers {
  import opened Bytes
  import opened Layout

  /** First byte of every image: the common header's magic. */
  const ESP_MAGIC: u8 := 0xE9
  /** Write-protect pin value meaning "no write-protect pin". */
  const WP_PIN_DISABLED: u8 := 0xEE

  const U8: Field := Field(1, 1)
  const U16: Field := Field(2, 2)
  const U32: Field := Field(4, 4)
  const PADDING: Field := Field(8, 1)

  /** `[u8; 8]`. */
  type Padding = s: seq<u8> | |s| == 8 witness [0, 0, 0, 0, 0, 0, 0, 0]

  // ---------------------------------------------------------------- ExtendedHeader

  /** Field types of `ExtendedHeader`, in declaration order. */
  const EXTENDED_HEADER_FIELDS: seq<Field> := [U8, U8, U8, U8, U16, U8, PADDING, U8]

  datatype ExtendedHeader = ExtendedHeader(
    wpPin: u8,
    clkQDrv: u8,
    dCsDrv: u8,
    gdWpDrv: u8,
    chipId: u16,
    minRev: u8,
    padding: Padding,
    appendDigest: u8)

  /** The encodings of the fields, in declaration order. */
  function ExtendedParts(h: ExtendedHeader): seq<seq<u8>> {
    [[h.wpPin], [h.clkQDrv], [h.dCsDrv], [h.gdWpDrv], Le16(h.chipId), [h.minRev], h.padding, [h.appendDigest]]
  }

  /** `ExtendedHeader` is 16 bytes with no implicit padding: the fields sit
      at offsets 0, 1, 2, 3, 4 (`chip_id`, two bytes), 6, 7 (eight padding
      bytes) and 15. */
  lemma ExtendedHeaderLayout()
    ensures WellFormed(EXTENDED_HEADER_FIELDS)
    ensures NoImplicitPadding(EXTENDED_HEADER_FIELDS)
    ensures Offsets(EXTENDED_HEADER_FIELDS, 0) == [0, 1, 2, 3, 4, 6, 7, 15]
    ensures SizeOf(EXTENDED_HEADER_FIELDS) == 16
  {
    ExtendedHeaderPacked();
    ExtendedHeaderAligned();
    NoImplicitPaddingIff(EXTENDED_HEADER_FIELDS);
    OffsetsArePackedIff(EXTENDED_HEADER_FIELDS, 0);
  }

  // Evaluation of the layout above, one suffix of the field list at a time.
  lemma ExtendedHeaderSuffixes()
    ensures var fs := EXTENDED_HEADER_FIELDS;
      fs[1..] == [U8, U8, U8, U16, U8, PADDING, U8]      &&
      fs[2..] == [U8, U8, U16, U8, PADDING, U8]      &&
      fs[3..] == [U8, U16, U8, PADDING, U8]      &&
      fs[4..] == [U16, U8, PADDING, U8]      &&
      fs[5..] == [U8, PADDING, U8]      &&
      fs[6..] == [PADDING, U8]      &&
      fs[7..] == [U8]
  {
  }

  lemma ExtendedHeaderPacked()
    ensures PackedOffsets(EXTENDED_HEADER_FIELDS, 0) == [0, 1, 2, 3, 4, 6, 7, 15]
    ensures SumSizes(EXTENDED_HEADER_FIELDS) == 16
    ensures StructAlign(EXTENDED_HEADER_FIELDS) == 2
  {
    var fs := EXTENDED_HEADER_FIELDS;
    ExtendedHeaderSuffixes();
    assert PackedOffsets(fs[7..], 15) == [15];
    assert PackedOffsets(fs[6..], 7) == [7, 15];
    assert PackedOffsets(fs[5..], 6) == [6, 7, 15];
    assert PackedOffsets(fs[4..], 4) == [4, 6, 7, 15];
    assert PackedOffsets(fs[3..], 3) == [3, 4, 6, 7, 15];
    assert PackedOffsets(fs[2..], 2) == [2, 3, 4, 6, 7, 15];
    assert PackedOffsets(fs[1..], 1) == [1, 2, 3, 4, 6, 7, 15];
    assert PackedOffsets(fs, 0) == [0, 1, 2, 3, 4, 6, 7, 15];
    assert SumSizes(fs[7..]) == 1;
    assert SumSizes(fs[6..]) == 9;
    assert SumSizes(fs[5..]) == 10;
    assert SumSizes(fs[4..]) == 12;
    assert SumSizes(fs[3..]) == 13;
    assert SumSizes(fs[2..]) == 14;
    assert SumSizes(fs[1..]) == 15;
    assert SumSizes(fs) == 16;
    assert StructAlign(fs[7..]) == 1;
    assert StructAlign(fs[6..]) == 1;
    assert StructAlign(fs[5..]) == 1;
    assert StructAlign(fs[4..]) == 2;
    assert StructAlign(fs[3..]) == 2;
    assert StructAlign(fs[2..]) == 2;
    assert StructAlign(fs[1..]) == 2;
    assert StructAlign(fs) == 2;
  }

  lemma ExtendedHeaderAligned()
    ensures WellFormed(EXTENDED_HEADER_FIELDS)
    ensures PackedAligned(EXTENDED_HEADER_FIELDS, 0)
  {
    var fs := EXTENDED_HEADER_FIELDS;
    ExtendedHeaderSuffixes();
    assert PackedAligned(fs[7..], 15);
    assert PackedAligned(fs[6..], 7);
    assert PackedAligned(fs[5..], 6);
    assert PackedAligned(fs[4..], 4);
    assert PackedAligned(fs[3..], 3);
    assert PackedAligned(fs[2..], 2);
    assert PackedAligned(fs[1..], 1);
    assert PackedAligned(fs, 0);
  }

  /** The bytes `bytemuck::bytes_of` yields for an `ExtendedHeader`. */
  function EncodeExtended(h: ExtendedHeader): (bs: seq<u8>)
    ensures |bs| == SizeOf(EXTENDED_HEADER_FIELDS) == 16
    ensures forall i :: 0 <= i < |EXTENDED_HEADER_FIELDS| ==>
      var off := Offsets(EXTENDED_HEADER_FIELDS, 0)[i];
      off + EXTENDED_HEADER_FIELDS[i].size <= |bs| &&
      bs[off .. off + EXTENDED_HEADER_FIELDS[i].size] == ExtendedParts(h)[i]
  {
    ExtendedHeaderLayout();
    ConcatMatchesLayout(ExtendedParts(h), EXTENDED_HEADER_FIELDS);
    Concat(ExtendedParts(h))
  }

  /** Reads an `ExtendedHeader` from its 16 bytes. */
  function DecodeExtended(bs: seq<u8>): (h: ExtendedHeader)
    requires |bs| == 16
    ensures h.wpPin == bs[0] && h.clkQDrv == bs[1] && h.dCsDrv == bs[2] && h.gdWpDrv == bs[3]
    ensures Le16(h.chipId) == bs[4..6]
    ensures h.minRev == bs[6] && h.padding == bs[7..15] && h.appendDigest == bs[15]
  {
    ExtendedHeader(bs[0], bs[1], bs[2], bs[3], ReadLe16(bs[4..6]), bs[6], bs[7..15], bs[15])
  }

  /** Every field lands at its documented byte range. */
  lemma ExtendedHeaderFieldOffsets(h: ExtendedHeader)
    ensures var bs := EncodeExtended(h);
      && bs[0] == h.wpPin && bs[1] == h.clkQDrv && bs[2] == h.dCsDrv && bs[3] == h.gdWpDrv
      && bs[4..6] == Le16(h.chipId)
      && bs[6] == h.minRev
      && bs[7..15] == h.padding
      && bs[15] == h.appendDigest
  {
    var bs := EncodeExtended(h);
    ExtendedHeaderLayout();
    var offs := Offsets(EXTENDED_HEADER_FIELDS, 0);
    assert bs[offs[0] .. offs[0] + 1] == [h.wpPin];
    assert bs[offs[1] .. offs[1] + 1] == [h.clkQDrv];
    assert bs[offs[2] .. offs[2] + 1] == [h.dCsDrv];
    assert bs[offs[3] .. offs[3] + 1] == [h.gdWpDrv];
    assert bs[offs[4] .. offs[4] + 2] == Le16(h.chipId);
    assert bs[offs[5] .. offs[5] + 1] == [h.minRev];
    assert bs[offs[6] .. offs[6] + 8] == h.padding;
    assert bs[offs[7] .. offs[7] + 1] == [h.appendDigest];
    assert offs == [0, 1, 2, 3, 4, 6, 7, 15];
    assert bs[1] == bs[1 .. 2][0] && bs[2] == bs[2 .. 3][0] && bs[3] == bs[3 .. 4][0];
  }

  /** The first byte carries the "no write-protect pin" marker exactly when
      the header's `wp_pin` holds it: a corollary of the byte-0 clause of
      `ExtendedHeaderFieldOffsets`. */
  lemma ExtendedHeaderMarksDisabledWpPin(h: ExtendedHeader)
    ensures EncodeExtended(h)[0] == WP_PIN_DISABLED <==> h.wpPin == WP_PIN_DISABLED
  {
  }

  lemma ExtendedHeaderRoundTrip(h: ExtendedHeader)
    ensures DecodeExtended(EncodeExtended(h)) == h
  {
    ExtendedHeaderFieldOffsets(h);
    Le16RoundTrip(h.chipId);
  }

  lemma ExtendedHeaderBytesRoundTrip(bs: seq<u8>)
    requires |bs| == 16
    ensures EncodeExtended(DecodeExtended(bs)) == bs
  {
    var h := DecodeExtended(bs);
    ExtendedHeaderFieldOffsets(h);
    var e := EncodeExtended(h);
    assert e[4..6] == bs[4..6] && e[7..15] == bs[7..15];
    forall i | 0 <= i < 16 ensures e[i] == bs[i] {
      if 4 <= i < 6 {
        assert e[i] == e[4..6][i - 4];
        assert bs[i] == bs[4..6][i - 4];
      } else if 7 <= i < 15 {
        assert e[i] == e[7..15][i - 7];
        assert bs[i] == bs[7..15][i - 7];
      }
    }
  }

  // ---------------------------------------------------------------- EspCommonHeader

  /** Field types of `EspCommonHeader`, in declaration order. */
  const COMMON_HEADER_FIELDS: seq<Field> := [U8, U8, U8, U8, U32]

  datatype EspCommonHeader = EspCommonHeader(
    magic: u8,
    segmentCount: u8,
    flashMode: u8,
    flashConfig: u8,
    entry: u32)

  function CommonParts(h: EspCommonHeader): seq<seq<u8>> {
    [[h.magic], [h.segmentCount], [h.flashMode], [h.flashConfig], Le32(h.entry)]
  }

  /** `EspCommonHeader` is 8 bytes with no implicit padding: four single
      bytes at offsets 0-3 and the four-byte `entry` at offset 4. */
  lemma CommonHeaderLayout()
    ensures WellFormed(COMMON_HEADER_FIELDS)
    ensures NoImplicitPadding(COMMON_HEADER_FIELDS)
    ensures Offsets(COMMON_HEADER_FIELDS, 0) == [0, 1, 2, 3, 4]
    ensures SizeOf(COMMON_HEADER_FIELDS) == 8
  {
    CommonHeaderPacked();
    CommonHeaderAligned();
    NoImplicitPaddingIff(COMMON_HEADER_FIELDS);
    OffsetsArePackedIff(COMMON_HEADER_FIELDS, 0);
  }

  // Evaluation of the layout above, one suffix of the field list at a time.
  lemma CommonHeaderSuffixes()
    ensures var fs := COMMON_HEADER_FIELDS;
      fs[1..] == [U8, U8, U8, U32]      &&
      fs[2..] == [U8, U8, U32]      &&
      fs[3..] == [U8, U32]      &&
      fs[4..] == [U32]
  {
  }

  lemma CommonHeaderPacked()
    ensures PackedOffsets(COMMON_HEADER_FIELDS, 0) == [0, 1, 2, 3, 4]
    ensures SumSizes(COMMON_HEADER_FIELDS) == 8
    ensures StructAlign(COMMON_HEADER_FIELDS) == 4
  {
    var fs := COMMON_HEADER_FIELDS;
    CommonHeaderSuffixes();
    assert PackedOffsets(fs[4..], 4) == [4];
    assert PackedOffsets(fs[3..], 3) == [3, 4];
    assert PackedOffsets(fs[2..], 2) == [2, 3, 4];
    assert PackedOffsets(fs[1..], 1) == [1, 2, 3, 4];
    assert PackedOffsets(fs, 0) == [0, 1, 2, 3, 4];
    assert SumSizes(fs[4..]) == 4;
    assert SumSizes(fs[3..]) == 5;
    assert SumSizes(fs[2..]) == 6;
    assert SumSizes(fs[1..]) == 7;
    assert SumSizes(fs) == 8;
    assert StructAlign(fs[4..]) == 4;
    assert StructAlign(fs[3..]) == 4;
    assert StructAlign(fs[2..]) == 4;
    assert StructAlign(fs[1..]) == 4;
    assert StructAlign(fs) == 4;
  }

  lemma CommonHeaderAligned()
    ensures WellFormed(COMMON_HEADER_FIELDS)
    ensures PackedAligned(COMMON_HEADER_FIELDS, 0)
  {
    var fs := COMMON_HEADER_FIELDS;
    CommonHeaderSuffixes();
    assert PackedAligned(fs[4..], 4);
    assert PackedAligned(fs[3..], 3);
    assert PackedAligned(fs[2..], 2);
    assert PackedAligned(fs[1..], 1);
    assert PackedAligned(fs, 0);
  }

  /** The bytes `bytemuck::bytes_of` yields for an `EspCommonHeader`. */
  function EncodeCommon(h: EspCommonHeader): (bs: seq<u8>)
    ensures |bs| == SizeOf(COMMON_HEADER_FIELDS) == 8
    ensures forall i :: 0 <= i < |COMMON_HEADER_FIELDS| ==>
      var off := Offsets(COMMON_HEADER_FIELDS, 0)[i];
      off + COMMON_HEADER_FIELDS[i].size <= |bs| &&
      bs[off .. off + COMMON_HEADER_FIELDS[i].size] == CommonParts(h)[i]
  {
    CommonHeaderLayout();
    ConcatMatchesLayout(CommonParts(h), COMMON_HEADER_FIELDS);
    Concat(CommonParts(h))
  }

  /** Reads an `EspCommonHeader` from its 8 bytes. */
  function DecodeCommon(bs: seq<u8>): (h: EspCommonHeader)
    requires |bs| == 8
    ensures h.magic == bs[0] && h.segmentCount == bs[1]
    ensures h.flashMode == bs[2] && h.flashConfig == bs[3]
    ensures Le32(h.entry) == bs[4..8]
  {
    EspCommonHeader(bs[0], bs[1], bs[2], bs[3], ReadLe32(bs[4..8]))
  }

  /** Every field lands at its documented byte range. */
  lemma CommonHeaderFieldOffsets(h: EspCommonHeader)
    ensures var bs := EncodeCommon(h);
      && bs[0] == h.magic && bs[1] == h.segmentCount
      && bs[2] == h.flashMode && bs[3] == h.flashConfig
      && bs[4..8] == Le32(h.entry)
  {
    var bs := EncodeCommon(h);
    CommonHeaderLayout();
    var offs := Offsets(COMMON_HEADER_FIELDS, 0);
    assert bs[offs[0] .. offs[0] + 1] == [h.magic];
    assert bs[offs[1] .. offs[1] + 1] == [h.segmentCount];
    assert bs[offs[2] .. offs[2] + 1] == [h.flashMode];
    assert bs[offs[3] .. offs[3] + 1] == [h.flashConfig];
    assert bs[offs[4] .. offs[4] + 4] == Le32(h.entry);
    assert offs == [0, 1, 2, 3, 4];
    assert bs[1] == bs[1 .. 2][0] && bs[2] == bs[2 .. 3][0] && bs[3] == bs[3 .. 4][0];
  }

  /** An encoded image starts with the ESP magic byte exactly when the
      header's `magic` field holds it: a corollary of the byte-0 clause of
      `CommonHeaderFieldOffsets`. */
  lemma CommonHeaderStartsWithMagic(h: EspCommonHeader)
    ensures EncodeCommon(h)[0] == ESP_MAGIC <==> h.magic == ESP_MAGIC
  {
  }

  lemma CommonHeaderRoundTrip(h: EspCommonHeader)
    ensures DecodeCommon(EncodeCommon(h)) == h
  {
    CommonHeaderFieldOffsets(h);
    Le32RoundTrip(h.entry);
  }

  lemma CommonHeaderBytesRoundTrip(bs: seq<u8>)
    requires |bs| == 8
    ensures EncodeCommon(DecodeCommon(bs)) == bs
  {
    var h := DecodeCommon(bs);
    CommonHeaderFieldOffsets(h);
    var e := EncodeCommon(h);
    forall i | 0 <= i < 8 ensures e[i] == bs[i] {
      if 4 <= i {
        assert e[i] == e[4..8][i - 4];
        assert bs[i] == bs[4..8][i - 4];
      }
    }
  }

  // ---------------------------------------------------------------- SegmentHeader

  /** Field types of `SegmentHeader`, in declaration order. */
  const SEGMENT_HEADER_FIELDS: seq<Field> := [U32, U32]

  datatype SegmentHeader = SegmentHeader(addr: u32, length: u32)

  function SegmentParts(h: SegmentHeader): seq<seq<u8>> {
    [Le32(h.addr), Le32(h.length)]
  }

  /** `SegmentHeader` is 8 bytes with no implicit padding: `addr` at offset
      0 and `length` at offset 4. */
  lemma SegmentHeaderLayout()
    ensures WellFormed(SEGMENT_HEADER_FIELDS)
    ensures NoImplicitPadding(SEGMENT_HEADER_FIELDS)
    ensures Offsets(SEGMENT_HEADER_FIELDS, 0) == [0, 4]
    ensures SizeOf(SEGMENT_HEADER_FIELDS) == 8
  {
    SegmentHeaderPacked();
    SegmentHeaderAligned();
    NoImplicitPaddingIff(SEGMENT_HEADER_FIELDS);
    OffsetsArePackedIff(SEGMENT_HEADER_FIELDS, 0);
  }

  // Evaluation of the layout above, one suffix of the field list at a time.
  lemma SegmentHeaderSuffixes()
    ensures var fs := SEGMENT_HEADER_FIELDS;
      fs[1..] == [U32]
  {
  }

  lemma SegmentHeaderPacked()
    ensures PackedOffsets(SEGMENT_HEADER_FIELDS, 0) == [0, 4]
    ensures SumSizes(SEGMENT_HEADER_FIELDS) == 8
    ensures StructAlign(SEGMENT_HEADER_FIELDS) == 4
  {
    var fs := SEGMENT_HEADER_FIELDS;
    SegmentHeaderSuffixes();
    assert PackedOffsets(fs[1..], 4) == [4];
    assert PackedOffsets(fs, 0) == [0, 4];
    assert SumSizes(fs[1..]) == 4;
    assert SumSizes(fs) == 8;
    assert StructAlign(fs[1..]) == 4;
    assert StructAlign(fs) == 4;
  }

  lemma SegmentHeaderAligned()
    ensures WellFormed(SEGMENT_HEADER_FIELDS)
    ensures PackedAligned(SEGMENT_HEADER_FIELDS, 0)
  {
  }

  /** The bytes `bytemuck::bytes_of` yields for a `SegmentHeader`. */
  function EncodeSegment(h: SegmentHeader): (bs: seq<u8>)
    ensures |bs| == SizeOf(SEGMENT_HEADER_FIELDS) == 8
    ensures forall i :: 0 <= i < |SEGMENT_HEADER_FIELDS| ==>
      var off := Offsets(SEGMENT_HEADER_FIELDS, 0)[i];
      off + SEGMENT_HEADER_FIELDS[i].size <= |bs| &&
      bs[off .. off + SEGMENT_HEADER_FIELDS[i].size] == SegmentParts(h)[i]
  {
    SegmentHeaderLayout();
    ConcatMatchesLayout(SegmentParts(h), SEGMENT_HEADER_FIELDS);
    Concat(SegmentParts(h))
  }

  /** Reads a `SegmentHeader` from its 8 bytes. */
  function DecodeSegment(bs: seq<u8>): (h: SegmentHeader)
    requires |bs| == 8
    ensures Le32(h.addr) == bs[0..4] && Le32(h.length) == bs[4..8]
  {
    SegmentHeader(ReadLe32(bs[0..4]), ReadLe32(bs[4..8]))
  }

  /** Every field lands at its documented byte range. */
  lemma SegmentHeaderFieldOffsets(h: SegmentHeader)
    ensures var bs := EncodeSegment(h);
      bs[0..4] == Le32(h.addr) && bs[4..8] == Le32(h.length)
  {
    var bs := EncodeSegment(h);
    SegmentHeaderLayout();
    var offs := Offsets(SEGMENT_HEADER_FIELDS, 0);
    assert bs[offs[0] .. offs[0] + 4] == Le32(h.addr);
    assert bs[offs[1] .. offs[1] + 4] == Le32(h.length);
  }

  lemma SegmentHeaderRoundTrip(h: SegmentHeader)
    ensures DecodeSegment(EncodeSegment(h)) == h
  {
    SegmentHeaderFieldOffsets(h);
    Le32RoundTrip(h.addr);
    Le32RoundTrip(h.length);
  }

  lemma SegmentHeaderBytesRoundTrip(bs: seq<u8>)
    requires |bs| == 8
    ensures EncodeSegment(DecodeSegment(bs)) == bs
  {
    var h := DecodeSegment(bs);
    SegmentHeaderFieldOffsets(h);
    var e := EncodeSegment(h);
    assert e == e[0..4] + e[4..8];
    assert bs == bs[0..4] + bs[4..8];
  }
}
