/** The part of the emulated x86-64 machine state that the arithmetic handlers
    and the program loader touch (native/blink/blink/machine.h, flags.h). */
module X86 {
  import opened Words

  const FLAG_CF: bv32 := 0x001
  const FLAG_AF: bv32 := 0x010
  const FLAG_ZF: bv32 := 0x040
  const FLAG_SF: bv32 := 0x080
  const FLAG_OF: bv32 := 0x800

  /** SetFlag for the flags that are stored as one bit (all but PF). */
  function SetFlag(flags: bv32, mask: bv32, v: bool): bv32 {
    (flags & !mask) | (if v then mask else 0)
  }

  predicate Has(flags: bv32, mask: bv32) {
    flags & mask != 0
  }

  /** Every bit but CF and OF is as before. */
  predicate OthersKept(flags: bv32, before: bv32) {
    flags & 0xffff_f7fe == before & 0xffff_f7fe
  }

  /** Guest memory; every address the modelled code touches is mapped. */
  type Memory = int -> Byte

  class Machine {
    var ax: U64
    var dx: U64
    var di: U64
    var sp: U64
    var flags: bv32
    var mem: Memory
  }
}
