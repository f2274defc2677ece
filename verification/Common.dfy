/** What several components share. */
module Common {
  datatype Option<T> = None | Some(value: T)

  /** Machine words are natural numbers below WORD. */
  const WORD: nat := 0x1_0000_0000
  const PAGE_SIZE: nat := 4096

  function Pow2(n: nat): (r: nat)
    ensures r > 0
  {
    if n == 0 then 1 else 2 * Pow2(n - 1)
  }

  const NENV: nat := 1024
  const NASID: nat := 256

  const UTOP: nat := 0x7f40_0000
  const UTEMP: nat := 0x003f_e000
  const USTACKTOP: nat := 0x7f3f_e000

  /** Entries of struct File in a directory block. */
  const FILE2BLK: nat := 16

  type Byte = b: int | 0 <= b < 256
  type Bytes = seq<Byte>

  /** is_illegal_va */
  predicate IllegalVa(va: nat) { va < UTEMP || va >= UTOP }
}
