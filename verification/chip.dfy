/** Chip identity and capability dispatch (espflash/src/chip/mod.rs:17-29, 84-140).

    The three family modules (`esp8266`, `esp32`, `esp32s2`) are not part of
    this model: what each supplies through the `ChipType` trait — its magic
    values, its SPI register table, its flash-window predicate and its
    segmentation algorithm — is a `Family` record, and the three records
    together are a `Families` parameter of every operation.  The image type
    and the item type of the segment iterator are type parameters and stay
    opaque. */
module Chips {
  import opened Bytes
  import opened Wrappers
  import opened Spi

  /** The supported chip families, in declaration (and match-arm) order. */
  datatype Chip = Esp8266 | Esp32 | Esp32s2

  /** The one error kind this layer raises. */
  datatype Error = UnrecognizedChip

  /** What a family module supplies through the `ChipType` trait. */
  datatype Family<!Image, Item> = Family(
    magic: u32,
    magic2: u32,
    spiRegisters: SpiRegisters,
    addrIsFlash: u32 -> bool,
    flashSegments: Image -> seq<Item>)

  /** The three family modules. */
  datatype Families<!Image, Item> = Families(
    esp8266: Family<Image, Item>,
    esp32: Family<Image, Item>,
    esp32s2: Family<Image, Item>)

  /** The family implementation behind a chip. */
  function FamilyOf<Image, Item>(fams: Families<Image, Item>, c: Chip): Family<Image, Item> {
    match c
    case Esp8266 => fams.esp8266
    case Esp32 => fams.esp32
    case Esp32s2 => fams.esp32s2
  }

  /** A chip's primary magic value. */
  function Magic<Image, Item>(fams: Families<Image, Item>, c: Chip): u32 {
    FamilyOf(fams, c).magic
  }

  /** The position of the chip's arm in the `from_magic` match. */
  function ArmIndex(c: Chip): nat {
    match c
    case Esp8266 => 0
    case Esp32 => 1
    case Esp32s2 => 2
  }

  /** No two families share a primary magic value. */
  predicate DistinctMagics<Image, Item>(fams: Families<Image, Item>) {
    forall c1: Chip, c2: Chip :: Magic(fams, c1) == Magic(fams, c2) ==> c1 == c2
  }

  // ---------------------------------------------------------------- from_magic

  /** `Chip::from_magic`: the first family, in match-arm order, whose primary
      magic equals `magic`.  Secondary magics are not consulted. */
  function FromMagic<Image, Item>(fams: Families<Image, Item>, magic: u32): (r: Option<Chip>)
    ensures r.Some? ==> Magic(fams, r.value) == magic
    ensures r.Some? ==> forall c :: ArmIndex(c) < ArmIndex(r.value) ==> Magic(fams, c) != magic
    ensures r.None? <==> forall c :: Magic(fams, c) != magic
  {
    if magic == fams.esp8266.magic then Some(Esp8266)
    else if magic == fams.esp32.magic then Some(Esp32)
    else if magic == fams.esp32s2.magic then Some(Esp32s2)
    else None
  }

  /** With distinct magics, `from_magic` recognises exactly each family's
      own primary magic. */
  lemma FromMagicIff<Image, Item>(fams: Families<Image, Item>, magic: u32, c: Chip)
    requires DistinctMagics(fams)
    ensures FromMagic(fams, magic) == Some(c) <==> magic == Magic(fams, c)
  {
  }

  /** Reading a family's magic back identifies that family. */
  lemma FromMagicOfMagic<Image, Item>(fams: Families<Image, Item>, c: Chip)
    requires DistinctMagics(fams)
    ensures FromMagic(fams, Magic(fams, c)) == Some(c)
  {
  }

  /** Only the primary magics decide the result: two family tables that
      agree on them agree on `from_magic`, whatever their secondary magics. */
  lemma FromMagicReadsOnlyPrimary<Image, Item>(fams: Families<Image, Item>, other: Families<Image, Item>, magic: u32)
    requires forall c :: Magic(fams, c) == Magic(other, c)
    ensures FromMagic(fams, magic) == FromMagic(other, magic)
  {
  }

  /** A value that is only some family's secondary magic is not recognised. */
  lemma SecondaryMagicUnrecognised<Image, Item>(fams: Families<Image, Item>, c: Chip)
    requires forall d :: Magic(fams, d) != FamilyOf(fams, c).magic2
    ensures FromMagic(fams, FamilyOf(fams, c).magic2) == None
  {
  }

  /** Why the magics must be distinct: if `esp8266` and `esp32` shared one,
      the `Esp32` arm could never be taken. */
  lemma SharedMagicShadowsLaterArm<Image, Item>(fams: Families<Image, Item>, magic: u32)
    requires Magic(fams, Esp8266) == Magic(fams, Esp32)
    ensures FromMagic(fams, magic) != Some(Esp32)
  {
  }

  // ---------------------------------------------------------------- from_str

  /** The name `from_str` accepts for each chip. */
  function Name(c: Chip): string {
    match c
    case Esp8266 => "esp8266"
    case Esp32 => "esp32"
    case Esp32s2 => "esp32s2"
  }

  /** `<Chip as FromStr>::from_str`: exact, case-sensitive name match. */
  function FromStr(s: string): (r: Result<Chip, Error>)
    ensures forall c :: r == Ok(c) <==> s == Name(c)
    ensures r.Err? <==> forall c :: s != Name(c)
    ensures r.Err? ==> r.error == UnrecognizedChip
  {
    if s == "esp32" then Ok(Esp32)
    else if s == "esp32s2" then Ok(Esp32s2)
    else if s == "esp8266" then Ok(Esp8266)
    else Err(UnrecognizedChip)
  }

  /** Every chip is reached by its own name. */
  lemma FromStrName(c: Chip)
    ensures FromStr(Name(c)) == Ok(c)
  {
  }

  /** Each chip has exactly one accepted name. */
  lemma FromStrInjective(s1: string, s2: string)
    requires FromStr(s1).Ok? && FromStr(s1) == FromStr(s2)
    ensures s1 == s2
  {
  }

  /** Matching is case-sensitive and exact. */
  lemma FromStrRejectsVariants()
    ensures FromStr("ESP32") == Err(UnrecognizedChip)
    ensures FromStr("Esp8266") == Err(UnrecognizedChip)
    ensures FromStr("esp32 ") == Err(UnrecognizedChip)
    ensures FromStr("esp99") == Err(UnrecognizedChip)
    ensures FromStr("") == Err(UnrecognizedChip)
  {
  }

  /** Naming a chip and probing its magic give the same chip. */
  lemma FromStrAgreesWithFromMagic<Image, Item>(fams: Families<Image, Item>, s: string)
    requires DistinctMagics(fams)
    requires FromStr(s).Ok?
    ensures FromMagic(fams, Magic(fams, FromStr(s).value)) == FromStr(s).ToOption()
  {
  }

  // ---------------------------------------------------------------- dispatch

  /** `Chip::addr_is_flash`: the chip's own family decides. */
  function AddrIsFlash<Image, Item>(fams: Families<Image, Item>, c: Chip, addr: u32): (r: bool)
    ensures c == Esp8266 ==> r == fams.esp8266.addrIsFlash(addr)
    ensures c == Esp32 ==> r == fams.esp32.addrIsFlash(addr)
    ensures c == Esp32s2 ==> r == fams.esp32s2.addrIsFlash(addr)
  {
    match c
    case Esp8266 => fams.esp8266.addrIsFlash(addr)
    case Esp32 => fams.esp32.addrIsFlash(addr)
    case Esp32s2 => fams.esp32s2.addrIsFlash(addr)
  }

  /** `Chip::spi_registers`: the chip's own family's table. */
  function SpiRegistersOf<Image, Item>(fams: Families<Image, Item>, c: Chip): (r: SpiRegisters)
    ensures c == Esp8266 ==> r == fams.esp8266.spiRegisters
    ensures c == Esp32 ==> r == fams.esp32.spiRegisters
    ensures c == Esp32s2 ==> r == fams.esp32s2.spiRegisters
  {
    match c
    case Esp8266 => fams.esp8266.spiRegisters
    case Esp32 => fams.esp32.spiRegisters
    case Esp32s2 => fams.esp32s2.spiRegisters
  }

  /** `Chip::get_flash_segments`: the chip's own family's segment sequence. */
  function GetFlashSegments<Image, Item>(fams: Families<Image, Item>, c: Chip, image: Image): (r: seq<Item>)
    ensures c == Esp8266 ==> r == fams.esp8266.flashSegments(image)
    ensures c == Esp32 ==> r == fams.esp32.flashSegments(image)
    ensures c == Esp32s2 ==> r == fams.esp32s2.flashSegments(image)
  {
    match c
    case Esp8266 => fams.esp8266.flashSegments(image)
    case Esp32 => fams.esp32.flashSegments(image)
    case Esp32s2 => fams.esp32s2.flashSegments(image)
  }

  /** All three capabilities of a chip come from one family: the one whose
      primary magic identifies that chip. */
  lemma DispatchIsCoherent<Image, Item>(fams: Families<Image, Item>, c: Chip, addr: u32, image: Image)
    ensures var f := FamilyOf(fams, c);
      && f.magic == Magic(fams, c)
      && AddrIsFlash(fams, c, addr) == f.addrIsFlash(addr)
      && SpiRegistersOf(fams, c) == f.spiRegisters
      && GetFlashSegments(fams, c, image) == f.flashSegments(image)
  {
  }

  /** A chip detected from a probed magic value is served by the family
      that owns that magic. */
  lemma DetectedChipUsesProbedFamily<Image, Item>(fams: Families<Image, Item>, magic: u32, addr: u32, image: Image)
    requires FromMagic(fams, magic).Some?
    ensures var c := FromMagic(fams, magic).value;
      && FamilyOf(fams, c).magic == magic
      && AddrIsFlash(fams, c, addr) == FamilyOf(fams, c).addrIsFlash(addr)
      && SpiRegistersOf(fams, c) == FamilyOf(fams, c).spiRegisters
      && GetFlashSegments(fams, c, image) == FamilyOf(fams, c).flashSegments(image)
  {
  }
}
