/** The CHIP-8 processor's machine state and its 60 Hz timer step
    (src/chip8/cpu.rs). */
module Cpu {

  /** Rust's `u8` and `u16`. */
  newtype u8 = x: int | 0 <= x < 0x100
  newtype u16 = x: int | 0 <= x < 0x1_0000

  /** Size of the address space, in bytes. */
  const SIZE: nat := 4096
  /** Address of the first instruction of a loaded program. */
  const BEGIN_ADDR: u16 := 512
  /** Number of V registers, and of slots in the return-address stack. */
  const SLOTS: nat := 16

  function Max(a: int, b: int): int { if a < b then b else a }

  /** One tick of a countdown timer: a decrement that stops at zero. */
  function TimerStep(t: u8): (r: u8)
    ensures r as int == Max(t as int - 1, 0)
  {
    if t > 0 then t - 1 else t
  }

  /** The value of a timer that started at `t` after `k` ticks. */
  function Ticks(t: u8, k: nat): u8
  {
    if k == 0 then t else Ticks(TimerStep(t), k - 1)
  }

  /** k ticks are a saturating subtraction of k. */
  lemma {:induction false} TicksSaturate(t: u8, k: nat)
    ensures Ticks(t, k) as int == Max(t as int - k, 0)
  {
    if k > 0 {
      TicksSaturate(TimerStep(t), k - 1);
    }
  }

  /** A timer started at t is 0 after t ticks, and stays 0 after any further ticks. */
  lemma TicksExhaust(t: u8, k: nat)
    ensures Ticks(t, t as nat) == 0
    ensures k >= t as nat ==> Ticks(t, k) == 0
  {
    TicksSaturate(t, t as nat);
    TicksSaturate(t, k);
  }

  /** Ticking a ticks and then b ticks is ticking a + b ticks. */
  lemma TicksCompose(t: u8, a: nat, b: nat)
    ensures Ticks(Ticks(t, a), b) == Ticks(t, a + b)
  {
    TicksSaturate(t, a);
    TicksSaturate(Ticks(t, a), b);
    TicksSaturate(t, a + b);
  }

  /** A delay timer set to 5 reads 0 after five ticks and still 0 after a sixth. */
  lemma FiveTicks()
    ensures Ticks(5, 5) == 0 && Ticks(5, 6) == 0
  {
    TicksExhaust(5, 6);
  }

  class CPU {
    var memory: array<u8>
    var v: array<u8>
    var i: u16
    var jump: array<u16>
    var nbJump: u8
    var countGame: u8
    var countSound: u8
    var pc: u16

    /** The fixed sizes of the record's arrays; V registers and memory are distinct arrays. */
    ghost predicate Valid()
      reads this
    {
      memory.Length == SIZE && v.Length == SLOTS && jump.Length == SLOTS && memory != v
    }

    /** `CPU::new`: everything zero except the program counter, which is at BEGIN_ADDR. */
    constructor ()
      ensures Valid() && fresh(memory) && fresh(v) && fresh(jump)
      ensures forall a :: 0 <= a < memory.Length ==> memory[a] == 0
      ensures forall r :: 0 <= r < v.Length ==> v[r] == 0
      ensures forall s :: 0 <= s < jump.Length ==> jump[s] == 0
      ensures i == 0 && nbJump == 0 && countGame == 0 && countSound == 0
      ensures pc == BEGIN_ADDR && pc as int % 2 == 0 && (pc as int) < SIZE
    {
      memory := new u8[SIZE](_ => 0);
      v := new u8[SLOTS](_ => 0);
      i := 0;
      jump := new u16[SLOTS](_ => 0);
      nbJump := 0;
      countGame := 0;
      countSound := 0;
      pc := BEGIN_ADDR;
    }

    /** `CPU::step_count`: each timer ticks once, on its own old value only;
        nothing else in the machine changes. */
    method StepCount()
      modifies this
      ensures countGame == TimerStep(old(countGame))
      ensures countSound == TimerStep(old(countSound))
      ensures memory == old(memory) && v == old(v) && jump == old(jump)
      ensures unchanged(memory) && unchanged(v) && unchanged(jump)
      ensures i == old(i) && nbJump == old(nbJump) && pc == old(pc)
    {
      if countGame > 0 {
        countGame := countGame - 1;
      }
      if countSound > 0 {
        countSound := countSound - 1;
      }
    }
  }
}
