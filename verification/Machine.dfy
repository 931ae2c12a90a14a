/** Sizes of the machine and of a task's address space, and the rounding to pages. */
module Machine {
  const PAGE_SIZE: nat := 4096
  const TWO32: nat := 0x1_0000_0000
  const TWO64: nat := 0x1_0000_0000_0000_0000

  /** The user stack: 128 pages, with its top where a new program starts to push. */
  const STACK_TOP: nat := 0x7FFF_FFFF_F000
  const STACK_BASE: nat := STACK_TOP - 128 * PAGE_SIZE

  function PageDown(x: nat): nat { x - x % PAGE_SIZE }
  function PageUp(x: nat): nat { PageDown(x + PAGE_SIZE - 1) }

  function Least(a: nat, b: nat): nat { if a <= b then a else b }
  function Greatest(a: nat, b: nat): nat { if a <= b then b else a }
}
