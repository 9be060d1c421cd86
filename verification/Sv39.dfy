/** The address translation of the processor, section 4.3.2 of the RISC-V Privileged Architecture, version 20190608, for
    three levels of tables that all lie in memory from 0x80000000 on. Nothing here is taken from the kernel. */
module Sv39 {

  /** The table to which an entry points: bits 10 and up are a physical page number. */
  function TableOf(mem: seq<seq<int>>, e: int): (t: seq<int>) {
    if 0 <= e / 1024 - 0x80000 < |mem| then mem[e / 1024 - 0x80000] else []
  }

  /** The entry of a table, 0 outside of it; bit 0 says whether it is valid. */
  function At(t: seq<int>, k: nat): (e: int) { if k < |t| && t[k] % 2 == 1 then t[k] else 0 }

  /** The leaf entry for an address, 0 if there is none: nine bits of the address for each level. */
  function Walk(mem: seq<seq<int>>, root: nat, va: nat): (e: int) {
    var e0 := if root < |mem| then At(mem[root], va / 0x40000000 % 512) else 0;
    var e1 := At(TableOf(mem, e0), va / 0x200000 % 512);
    At(TableOf(mem, e1), va / 0x1000 % 512)
  }

  /** The low ten bits of an entry are its flags, the others the physical page number. */
  predicate LeadsTo(e: int, pa: int, bits: nat) { e % 1024 == bits && e / 1024 == pa / 4096 }
}
