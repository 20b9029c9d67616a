/** The RISC-V hart as the emulator keeps it in memory. */
module Guest {
  import opened Words

  /** Everything outside the hart's registers: physical memory, page tables, devices, CSRs. */
  type World(!new)

  datatype Hart = Hart(x: seq<u64>, pc: u64, instret: u64, world: World)

  predicate Valid(h: Hart) { |h.x| == 32 && h.x[0] == 0 }

  function ReadX(h: Hart, r: nat): (v: u64) {
    if r < |h.x| then h.x[r] else 0
  }

  /** A register write; the zero register never changes. */
  function WriteX(h: Hart, r: nat, v: u64): (h': Hart) {
    if 0 < r < |h.x| then h.(x := h.x[r := v]) else h
  }
}
