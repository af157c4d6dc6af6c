/** What several components share: bytes, word sizes, options and the layout of the counter banks. */
module Common {

  const WORD32: nat := 0x1_0000_0000
  const WORD64: nat := 0x1_0000_0000_0000_0000

  type Byte = x: int | 0 <= x < 256
  type Bytes = seq<Byte>

  datatype Option<+T> = None | Some(value: T)

  function Zeros(n: nat): (z: Bytes)
    ensures |z| == n && forall i :: 0 <= i < n ==> z[i] == 0
  {
    seq(n, _ => 0)
  }

  /** Counter banks 8 to 11 count DDR traffic and bank 12 is for debugging; a build may lack either. */
  predicate BankEnabled(bank: nat, ddr: bool, debug: bool) {
    !(8 <= bank < 12 && !ddr) && !(bank == 12 && !debug)
  }

  function BankSlots(bank: nat): nat {
    if bank < 4 then 4 else if bank == 12 then 16 else 8
  }
}
