/** Machine words, pages and memory by address. */
module Words {
  const WORD := 0x1_0000_0000_0000_0000
  const PAGE := 4096

  /** The page boundary at or below an address. */
  function Down(a: nat): (r: nat) { a / PAGE * PAGE }

  function Max(a: nat, b: nat): (r: nat) { if a < b then b else a }

  function Min(a: nat, b: nat): (r: nat) { if a < b then a else b }

  /** One cell per address used; a cell never written reads as zero. */
  type Cells = map<nat, nat>

  function Load(mem: Cells, a: nat): (v: nat) { if a in mem then mem[a] else 0 }
}
