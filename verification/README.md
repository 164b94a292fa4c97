# espflash chip layer, modelled in Dafny

This project models the chip-abstraction layer of `espflash`, the ESP8266/ESP32 flashing tool:
the `Chip` enum and how it is built from a probed magic value or from a name, the dispatch of
every chip capability to the family module behind it, the `SpiRegisters` address map, and the
byte layouts of the three `#[repr(C)]` image headers (`EspCommonHeader`, `ExtendedHeader`,
`SegmentHeader`) together with the `ESP_MAGIC` and `WP_PIN_DISABLED` sentinels.

Files:

- `wrappers.dfy` — `Option` and `Result`.
- `bytes.dfy` (`Bytes`) — `u8`/`u16`/`u32` as subset types of `int` and a little-endian codec over
  any number of bytes. Both round trips are proved by induction.
- `layout.dfy` (`Layout`) — the `repr(C)` placement rule: align each field, then round the size up
  to the largest alignment. It proves that the rule adds no padding exactly when two things
  hold: every back-to-back field offset is already aligned, and the sum of the field sizes is
  a multiple of the largest field alignment (no tail padding). When there is no padding,
  concatenating the field encodings gives the struct's `size_of` bytes with every field at its
  `repr(C)` offset. No padding is the condition under which `bytemuck`'s `Pod` derive accepts a
  struct.
- `headers.dfy` (`Headers`) — the three headers: datatype, `repr(C)` layout, encoder, decoder,
  field-offset lemma and both round trips.
- `spi_registers.dfy` (`Spi`) — `SpiRegisters`, its offset table and its getters.
- `chip.dfy` (`Chips`) — `Chip`, `from_magic`, `from_str` and the three dispatching operations.

Modelling assumptions:

- The family modules `esp8266`, `esp32` and `esp32s2` are not part of this model. What each
  supplies through the `ChipType` trait is a `Family` record. A record holds the primary and
  secondary magic, the SPI register table, the `addr_is_flash` predicate and the
  `get_flash_segments` function. Every chip operation takes the three records (`Families`) as a
  parameter. The firmware image type and the segment iterator's item type are type parameters.
  The iterator is modelled as a finite sequence of items.
- Multi-byte header fields are encoded little-endian. `bytemuck` reinterprets memory in host
  byte order, and nothing in `espflash/src/chip/mod.rs` restricts the host. Assuming a
  little-endian host is a modelling assumption.
- `u32` addition in the register getters panics on overflow in a debug build. Each getter
  therefore requires `base + offset < 2^32`.
- The properties about `from_magic` that need the primary magic values to be pairwise distinct
  (`DistinctMagics`) state that as a precondition. The concrete values are not shown.
- `from_magic` (`espflash/src/chip/mod.rs:93-97`) reads only `CHIP_DETECT_MAGIC_VALUE`.
  `CHIP_DETECT_MAGIC_VALUE2` (`espflash/src/chip/mod.rs:19`) is never read in this file.
  `FromMagic` does the same, and `SecondaryMagicUnrecognised` and `FromMagicReadsOnlyPrimary`
  state it.

## Model

| member | source | states |
|---|---|---|
| Bytes.Le16 | espflash/src/chip/mod.rs:78 | a `u16` field is two bytes, low byte first |
| Bytes.Le32 | espflash/src/chip/mod.rs:149 | a `u32` field is four bytes, least significant first, byte k being `(x / 256^k) % 256` |
| Bytes.ReadLe16 | espflash/src/chip/mod.rs:78 | reading two bytes gives the `u16` whose encoding they are |
| Bytes.ReadLe32 | espflash/src/chip/mod.rs:155-156 | reading four bytes gives the `u32` whose encoding they are |
| Bytes.LeDecodeEncode | espflash/src/chip/mod.rs:149 | decoding an n-byte little-endian encoding gives back the integer |
| Bytes.LeEncodeDecode | espflash/src/chip/mod.rs:155-156 | re-encoding a decoded byte string gives back the bytes |
| Bytes.LeEncodeInjective | espflash/src/chip/mod.rs:155-156 | different integers have different encodings |
| Bytes.Le16RoundTrip | espflash/src/chip/mod.rs:78 | `u16` decode after encode is the identity |
| Bytes.Le32RoundTrip | espflash/src/chip/mod.rs:149 | `u32` decode after encode is the identity |
| Layout.AlignUp | espflash/src/chip/mod.rs:72 | the aligned offset is a multiple of the alignment, at most alignment-1 past the input, and equal to the input exactly when the input is already aligned |
| Layout.OffsetsArePackedIff | espflash/src/chip/mod.rs:71-72 | the `repr(C)` offsets are the back-to-back offsets if and only if every back-to-back offset is aligned; then the fields end at the sum of their sizes |
| Layout.NoImplicitPaddingIff | espflash/src/chip/mod.rs:71-72 | a `repr(C)` struct has no implicit padding (the `Pod` requirement) if and only if its packed offsets are aligned and its packed size is a multiple of its alignment |
| Layout.ConcatPlacesPart | espflash/src/chip/mod.rs:142-150 | concatenated field encodings put field i at its packed offset |
| Layout.ConcatMatchesLayout | espflash/src/chip/mod.rs:71-82 | for a struct without padding, the concatenated fields are `size_of` bytes with each field at its `repr(C)` offset |
| Headers.ExtendedHeaderLayout | espflash/src/chip/mod.rs:71-82 | `ExtendedHeader` has no implicit padding, fields at offsets 0,1,2,3,4,6,7,15, size 16 |
| Headers.EncodeExtended | espflash/src/chip/mod.rs:71-82 | the encoding is 16 bytes with every field's bytes at its `repr(C)` offset |
| Headers.DecodeExtended | espflash/src/chip/mod.rs:73-82 | each decoded field is read from its byte range of the 16-byte buffer |
| Headers.ExtendedHeaderFieldOffsets | espflash/src/chip/mod.rs:73-82 | `wp_pin`, `clk_q_drv`, `d_cs_drv`, `gd_wp_drv` at bytes 0-3, `chip_id` little-endian at 4-5, `min_rev` at 6, padding at 7-14, `append_digest` at 15 |
| Headers.ExtendedHeaderMarksDisabledWpPin | espflash/src/chip/mod.rs:15 | the first byte is `WP_PIN_DISABLED` (0xEE) exactly when `wp_pin` is |
| Headers.ExtendedHeaderRoundTrip | espflash/src/chip/mod.rs:71-82 | decode after encode gives back every field, padding included |
| Headers.ExtendedHeaderBytesRoundTrip | espflash/src/chip/mod.rs:71-82 | encode after decode gives back any 16 bytes |
| Headers.CommonHeaderLayout | espflash/src/chip/mod.rs:142-150 | `EspCommonHeader` has no implicit padding, fields at offsets 0,1,2,3,4, size 8 |
| Headers.EncodeCommon | espflash/src/chip/mod.rs:142-150 | the encoding is 8 bytes with every field's bytes at its `repr(C)` offset |
| Headers.DecodeCommon | espflash/src/chip/mod.rs:144-150 | each decoded field is read from its byte range of the 8-byte buffer |
| Headers.CommonHeaderFieldOffsets | espflash/src/chip/mod.rs:144-150 | `magic`, `segment_count`, `flash_mode`, `flash_config` at bytes 0-3, `entry` little-endian at 4-7 |
| Headers.CommonHeaderStartsWithMagic | espflash/src/chip/mod.rs:14 | an encoded image starts with `ESP_MAGIC` (0xE9) exactly when the header's `magic` is it |
| Headers.CommonHeaderRoundTrip | espflash/src/chip/mod.rs:142-150 | decode after encode is the identity |
| Headers.CommonHeaderBytesRoundTrip | espflash/src/chip/mod.rs:142-150 | encode after decode gives back any 8 bytes |
| Headers.SegmentHeaderLayout | espflash/src/chip/mod.rs:152-157 | `SegmentHeader` has no implicit padding, `addr` at 0, `length` at 4, size 8 |
| Headers.EncodeSegment | espflash/src/chip/mod.rs:152-157 | the encoding is 8 bytes with both fields at their `repr(C)` offsets |
| Headers.DecodeSegment | espflash/src/chip/mod.rs:154-157 | `addr` is read from bytes 0-3 and `length` from bytes 4-7 |
| Headers.SegmentHeaderFieldOffsets | espflash/src/chip/mod.rs:154-157 | `addr` little-endian at bytes 0-3, `length` at 4-7 |
| Headers.SegmentHeaderRoundTrip | espflash/src/chip/mod.rs:152-157 | decode after encode is the identity |
| Headers.SegmentHeaderBytesRoundTrip | espflash/src/chip/mod.rs:152-157 | encode after decode gives back any 8 bytes |
| Spi.SpiRegisters.CmdAddr | espflash/src/chip/mod.rs:42-44 | `cmd` is the base itself, the register at offset 0 |
| Spi.SpiRegisters.UsrAddr | espflash/src/chip/mod.rs:46-48 | `usr` lies at or above the base, exactly `usr_offset` above it, with no overflow |
| Spi.SpiRegisters.Usr1Addr | espflash/src/chip/mod.rs:50-52 | `usr1` lies exactly `usr1_offset` above the base |
| Spi.SpiRegisters.Usr2Addr | espflash/src/chip/mod.rs:54-56 | `usr2` lies exactly `usr2_offset` above the base |
| Spi.SpiRegisters.W0Addr | espflash/src/chip/mod.rs:58-60 | `w0` lies exactly `w0_offset` above the base |
| Spi.SpiRegisters.MosiLengthAddr | espflash/src/chip/mod.rs:62-64 | `None` if and only if there is no MOSI length offset; otherwise exactly that offset above the base |
| Spi.SpiRegisters.MisoLengthAddr | espflash/src/chip/mod.rs:66-68 | `None` if and only if there is no MISO length offset; otherwise exactly that offset above the base |
| Spi.GettersMatchOffsetTable | espflash/src/chip/mod.rs:31-68 | for every register, the getter is present exactly when the table has an offset, and is then `base + offset` |
| Spi.CmdIsLowest | espflash/src/chip/mod.rs:42-68 | no register lies below `cmd` |
| Spi.AddressesDistinctIffOffsets | espflash/src/chip/mod.rs:41-68 | two present registers share an address if and only if they share an offset |
| Chips.FromMagic | espflash/src/chip/mod.rs:92-98 | a result `Some(c)` means `c`'s primary magic is the input and no earlier arm's magic is; `None` if and only if no family's primary magic is the input |
| Chips.FromMagicIff | espflash/src/chip/mod.rs:92-98 | with distinct magics, `from_magic(m) == Some(c)` if and only if `m` is `c`'s magic |
| Chips.FromMagicOfMagic | espflash/src/chip/mod.rs:92-98 | with distinct magics, each family's magic identifies that family |
| Chips.FromMagicReadsOnlyPrimary | espflash/src/chip/mod.rs:18-19 | two family tables with the same primary magics give the same `from_magic`, whatever their secondary magics |
| Chips.SecondaryMagicUnrecognised | espflash/src/chip/mod.rs:19 | a value that is only a secondary magic is not recognised |
| Chips.SharedMagicShadowsLaterArm | espflash/src/chip/mod.rs:94-95 | if `esp8266` and `esp32` shared a magic, `from_magic` would never return `Esp32` |
| Chips.FromStr | espflash/src/chip/mod.rs:132-139 | `Ok(c)` if and only if the string is `c`'s name; otherwise `Err(UnrecognizedChip)` |
| Chips.FromStrName | espflash/src/chip/mod.rs:133-136 | every chip is reached by its name |
| Chips.FromStrInjective | espflash/src/chip/mod.rs:133-136 | two accepted strings that give the same chip are the same string |
| Chips.FromStrRejectsVariants | espflash/src/chip/mod.rs:137 | upper-case, padded, unknown and empty names are rejected |
| Chips.FromStrAgreesWithFromMagic | espflash/src/chip/mod.rs:129-140 | with distinct magics, the chip named by a string is the chip its magic identifies |
| Chips.AddrIsFlash | espflash/src/chip/mod.rs:112-118 | for each of the three chips, the result is that family's `addr_is_flash` |
| Chips.SpiRegistersOf | espflash/src/chip/mod.rs:120-126 | for each of the three chips, the result is that family's `SPI_REGISTERS` |
| Chips.GetFlashSegments | espflash/src/chip/mod.rs:101-110 | for each of the three chips, the result is that family's segment sequence for the image |
| Chips.DispatchIsCoherent | espflash/src/chip/mod.rs:101-126 | all capabilities of a chip come from the one family that owns the chip's magic |
| Chips.DetectedChipUsesProbedFamily | espflash/src/chip/mod.rs:92-126 | a chip detected from a magic is served by the family whose primary magic that is |

## Left out

- The per-family constants and bodies are not part of this model. These are the magic values,
  the `SPI_REGISTERS` tables, `addr_is_flash` and `get_flash_segments` in the `esp8266`,
  `esp32` and `esp32s2` modules. They are the fields of the `Family` parameter.
- `FirmwareImage` and `RomSegment` come from the ELF module, which is not part of this model.
  They are type parameters.
- Laziness of the boxed segment iterator is not modelled: `GetFlashSegments` yields the whole
  sequence of items at once.
- The `bytemuck` casts themselves are not modelled, only the byte layout they produce. The
  decoders take exactly `size_of` bytes. A truncated-buffer error path does not appear in this
  code.
- The error type has only `UnrecognizedChip`. The crate's other error variants are not used by
  this code.
- The SPI getters model only debug builds, where an overflowing `u32` addition panics. They
  require the sum to fit. The wrap-around of a release build is not modelled.
- Headers.EncodeCommon: assumes a little-endian host. On a big-endian host `bytemuck` would emit
  `entry` most significant byte first; that case is not modelled.
- Headers.EncodeExtended: assumes a little-endian host. On a big-endian host `chip_id` would be
  emitted most significant byte first; that case is not modelled.
- Headers.EncodeSegment: assumes a little-endian host. On a big-endian host `addr` and `length`
  would be emitted most significant byte first; that case is not modelled.
