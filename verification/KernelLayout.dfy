/** Address arithmetic of the guarded kernel stacks: one 17-page region per slot 1..7. */
module KernelLayout {
  const SLOTS: int := 8
  const BOOT: int := 0
  const IDLE: int := 1

  const PAGE: int := 4096
  const STACK_PAGES: int := 16
  const STACK_BYTES: int := PAGE * STACK_PAGES
  const REGION_BYTES: int := PAGE + STACK_BYTES
  const ARENA_BASE: int := 0x0060_0000

  /** irq_frame_t is seventeen 32-bit registers. */
  const FRAME_WORDS: int := 17

  function GuardBase(idx: int): int { ARENA_BASE + (idx - 1) * REGION_BYTES }

  function StackBase(idx: int): int { GuardBase(idx) + PAGE }

  function StackTop(idx: int): int { GuardBase(idx) + REGION_BYTES }

  /** Where a fresh thread's interrupt frame is built: below the return address at the stack top. */
  function FreshFrame(idx: int): int { StackTop(idx) - 4 - 4 * FRAME_WORDS }

  /** The regions of different slots share no address, and the frame lies inside its own stack. */
  lemma RegionsAreDisjoint(i: int, j: int, a: int)
    requires IDLE <= i < SLOTS && IDLE <= j < SLOTS
    requires GuardBase(i) <= a < StackTop(i)
    ensures GuardBase(j) <= a < StackTop(j) <==> i == j
    ensures StackBase(i) <= FreshFrame(i) && FreshFrame(i) + 4 * FRAME_WORDS + 4 == StackTop(i)
    ensures 0x0060_0000 <= a < 0x0080_0000
    ensures GuardBase(i) == 0x0060_0000 + (i - 1) * 0x1_1000
    ensures StackBase(i) == GuardBase(i) + 0x1000 && StackTop(i) == StackBase(i) + 0x1_0000
  {
    if i < j {
      assert (j - 1) * REGION_BYTES >= i * REGION_BYTES;
    } else if j < i {
      assert (i - 1) * REGION_BYTES >= j * REGION_BYTES;
    }
  }
}
