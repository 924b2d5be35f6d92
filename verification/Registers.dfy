/** What the integer instructions work on: data and address registers, condition codes and memory. */
module Registers {
  import opened Words
  import Ram

  datatype Ccr = Ccr(x: bool, n: bool, z: bool, v: bool, c: bool)

  class Machine {
    const bus: Ram.Bus
    const d: array<u32>
    const a: array<u32>
    var ccr: Ccr
    var memory: Ram.Memory

    predicate Valid() {
      d.Length == 8 && a.Length == 8 && d != a
    }
  }
}
