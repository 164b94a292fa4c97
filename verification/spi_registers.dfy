/** The SPI flash-controller register map (espflash/src/chip/mod.rs:31-69).

    A family supplies a base address and an offset per register; each getter
    returns `base + offset`.  Rust's `u32` addition panics on overflow in a
    debug build, so every getter requires its sum to stay below 2^32. */
module Spi {
  import opened Bytes
  import opened Wrappers

  const U32_LIMIT: int := 0x1_0000_0000

  /** The registers the map describes; `Cmd` sits at the base itself. */
  datatype Register = Cmd | Usr | Usr1 | Usr2 | W0 | MosiLength | MisoLength

  datatype SpiRegisters = SpiRegisters(
    base: u32,
    usrOffset: u32,
    usr1Offset: u32,
    usr2Offset: u32,
    w0Offset: u32,
    mosiLengthOffset: Option<u32>,
    misoLengthOffset: Option<u32>)
  {
    /** The offset table: the offset of each register from `base`, `None`
        for a register the family's controller does not have. */
    function OffsetOf(reg: Register): Option<u32> {
      match reg
      case Cmd => Some(0)
      case Usr => Some(usrOffset)
      case Usr1 => Some(usr1Offset)
      case Usr2 => Some(usr2Offset)
      case W0 => Some(w0Offset)
      case MosiLength => mosiLengthOffset
      case MisoLength => misoLengthOffset
    }

    /** The register's address can be computed without a `u32` overflow. */
    predicate Addressable(reg: Register) {
      OffsetOf(reg).None? || base + OffsetOf(reg).value < U32_LIMIT
    }

    function CmdAddr(): (a: u32)
      ensures a == base + OffsetOf(Cmd).value
    {
      base
    }

    function UsrAddr(): (a: u32)
      requires base + usrOffset < U32_LIMIT
      ensures base <= a && a - base == usrOffset
    {
      base + usrOffset
    }

    function Usr1Addr(): (a: u32)
      requires base + usr1Offset < U32_LIMIT
      ensures base <= a && a - base == usr1Offset
    {
      base + usr1Offset
    }

    function Usr2Addr(): (a: u32)
      requires base + usr2Offset < U32_LIMIT
      ensures base <= a && a - base == usr2Offset
    {
      base + usr2Offset
    }

    function W0Addr(): (a: u32)
      requires base + w0Offset < U32_LIMIT
      ensures base <= a && a - base == w0Offset
    {
      base + w0Offset
    }

    /** `None` exactly when the family declares no MOSI length register. */
    function MosiLengthAddr(): (a: Option<u32>)
      requires mosiLengthOffset.Some? ==> base + mosiLengthOffset.value < U32_LIMIT
      ensures a.None? <==> mosiLengthOffset.None?
      ensures a.Some? ==> base <= a.value && a.value - base == mosiLengthOffset.value
    {
      match mosiLengthOffset
      case None => None
      case Some(offset) => Some(base + offset)
    }

    /** `None` exactly when the family declares no MISO length register. */
    function MisoLengthAddr(): (a: Option<u32>)
      requires misoLengthOffset.Some? ==> base + misoLengthOffset.value < U32_LIMIT
      ensures a.None? <==> misoLengthOffset.None?
      ensures a.Some? ==> base <= a.value && a.value - base == misoLengthOffset.value
    {
      match misoLengthOffset
      case None => None
      case Some(offset) => Some(base + offset)
    }

    /** The getter for `reg`, the two optional ones as they are and the
        others wrapped in `Some`. */
    function Address(reg: Register): Option<u32>
      requires Addressable(reg)
    {
      match reg
      case Cmd => Some(CmdAddr())
      case Usr => Some(UsrAddr())
      case Usr1 => Some(Usr1Addr())
      case Usr2 => Some(Usr2Addr())
      case W0 => Some(W0Addr())
      case MosiLength => MosiLengthAddr()
      case MisoLength => MisoLengthAddr()
    }
  }

  /** Every getter agrees with the offset table: it is present exactly when
      the register has an offset, and then it is `base + offset`. */
  lemma GettersMatchOffsetTable(regs: SpiRegisters, reg: Register)
    requires regs.Addressable(reg)
    ensures regs.Address(reg).Some? <==> regs.OffsetOf(reg).Some?
    ensures regs.Address(reg).Some? ==>
      regs.Address(reg).value == regs.base + regs.OffsetOf(reg).value
  {
  }

  /** `cmd` is the lowest register: every present register lies at or above it. */
  lemma CmdIsLowest(regs: SpiRegisters, reg: Register)
    requires regs.Addressable(reg)
    requires regs.Address(reg).Some?
    ensures regs.CmdAddr() <= regs.Address(reg).value
  {
  }

  /** Two present registers share an address exactly when they share an offset. */
  lemma AddressesDistinctIffOffsets(regs: SpiRegisters, r1: Register, r2: Register)
    requires regs.Addressable(r1) && regs.Addressable(r2)
    requires regs.Address(r1).Some? && regs.Address(r2).Some?
    ensures regs.Address(r1) == regs.Address(r2) <==> regs.OffsetOf(r1) == regs.OffsetOf(r2)
  {
  }
}
