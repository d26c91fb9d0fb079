# CHIP-8 emulator: machine state, timer step and scaled framebuffer

A Dafny model of two parts of a CHIP-8 emulator written in Rust.

- `cpu.dfy` (module `Cpu`) covers the processor's machine-state record `CPU`. It models the 4096-byte
  memory, the 16 V registers, the index register `i`, the 16-slot `jump` stack with its counter,
  the two 8-bit countdown timers (game/delay and sound) and the program counter. It also models
  the constructor `CPU::new` and the 60 Hz timer step `CPU::step_count`. `CPU` is a class whose
  fixed-size Rust arrays are Dafny arrays. `u8` and `u16` are bounded newtypes. `StepCount`
  updates the two timer fields in place.
- `gpu.dfy` (module `Gpu`) covers the framebuffer of `GPU`. The 64x32 logical pixel grid is shown
  as 10x10 blocks of a flat, row-major 640x320 buffer of `u32` colours. The model covers
  `draw_pixel`, which fills one block with nested column/row loops writing
  `buffer[i + j * WIDTH]`, and `clear_screen`, which replaces the whole buffer with a new
  all-`BLACK` one. `GPU` is a class holding the buffer as an `array<u32>`.

Each state-changing method is tied to a specification function. `StepCount` is tied to
`TimerStep`. `DrawPixel` is tied to `Drawn`, a function on the buffer's contents. The lemmas are
stated about those functions:
- k ticks are a saturating subtraction.
- The exact bounds condition under which `draw_pixel` does not index out of range.
- Exact coverage of the block and the frame outside it.
- Distinct on-grid blocks are disjoint.
- Drawing is idempotent, and drawing two distinct on-grid pixels commutes.

`draw_pixel` demands no more of its caller than Rust's bounds checks do. Its precondition `Fits`
says the last index it writes lies inside the buffer. Every pixel of the 64x32 grid fits
(`OnGridFits`). A row of 32 or more never fits (`RowOffGridOverflows`). A column of 64 or more can
fit, and its block then runs on into later rows of the buffer. `OffGridBlocksOverlap` shows such
a block sharing an index with the block of another pixel.

## Model

| member | source | states |
|---|---|---|
| `Cpu.CPU.constructor` | src/chip8/cpu.rs:16-27 | memory is 4096 zero bytes; the 16 V registers and 16 jump slots are zero; `i`, `nb_jump` and both timers are 0; `pc` is `BEGIN_ADDR`, which is even and below `SIZE` |
| `Cpu.CPU.StepCount` | src/chip8/cpu.rs:29-37 | each timer's new value is one tick (`TimerStep`) of its own old value only, so the two timers are independent; memory, registers, `i`, the jump stack, `nb_jump` and `pc` are unchanged |
| `Cpu.TimerStep` | src/chip8/cpu.rs:30-36 | one tick is the saturating decrement max(t - 1, 0): a positive timer loses exactly 1 and a zero timer never underflows |
| `Cpu.TicksSaturate` | src/chip8/cpu.rs:29-37 | after k ticks a timer that started at t holds max(t - k, 0) |
| `Cpu.TicksExhaust` | src/chip8/cpu.rs:29-37 | a timer started at t is 0 after t ticks and stays 0 after any number of further ticks |
| `Cpu.TicksCompose` | src/chip8/cpu.rs:29-37 | a ticks followed by b ticks equal a + b ticks |
| `Cpu.FiveTicks` | src/chip8/cpu.rs:29-37 | a timer set to 5 is 0 after five ticks and still 0 after a sixth |
| `Gpu.GPU.constructor` | src/chip8/gpu.rs:34 | the new buffer has WIDTH * HEIGHT entries, all `BLACK` |
| `Gpu.GPU.DrawPixel` | src/chip8/gpu.rs:39-45 | when the last written index is in bounds, the new buffer is the old one with exactly the block of `pos` set to the colour; the length is kept |
| `Gpu.GPU.ClearScreen` | src/chip8/gpu.rs:47-49 | the buffer is replaced by a fresh one of WIDTH * HEIGHT entries, all `BLACK` |
| `Gpu.FitsIffInBounds` | src/chip8/gpu.rs:40-42 | the precondition of `DrawPixel` holds exactly when every index `i + j * WIDTH` of the two loops is below the buffer length |
| `Gpu.OnGridFits` | src/chip8/gpu.rs:7-13 | every logical pixel with column below `W_CHIP8` and row below `H_CHIP8` fits in a WIDTH * HEIGHT buffer |
| `Gpu.RowOffGridOverflows` | src/chip8/gpu.rs:40-42 | a row at or beyond `H_CHIP8` makes some written index exceed a WIDTH * HEIGHT buffer, whatever the column |
| `Gpu.BlockCoordinates` | src/chip8/gpu.rs:40-42 | for an on-grid pixel, an index is in its block exactly when its column and row, divided by `PIXEL_SIZE`, are the pixel's coordinates |
| `Gpu.BlocksDisjoint` | src/chip8/gpu.rs:40-42 | the blocks of two different on-grid pixels share no index |
| `Gpu.OffGridBlocksOverlap` | src/chip8/gpu.rs:40-42 | the block of column `W_CHIP8`, row 0 fits in the buffer and overlaps the block of pixel (0, 1) |
| `Gpu.DrawnCovers` | src/chip8/gpu.rs:40-43 | after drawing, every `i + j * WIDTH` with i and j in the block's ranges is in bounds and holds the colour |
| `Gpu.DrawnFrame` | src/chip8/gpu.rs:39-45 | after drawing, every index that is not some `i + j * WIDTH` of the block keeps its old value |
| `Gpu.DrawnIdempotent` | src/chip8/gpu.rs:39-45 | drawing the same colour at the same position twice gives the buffer of drawing it once |
| `Gpu.DrawnKeepsOtherBlocks` | src/chip8/gpu.rs:40-42 | drawing one on-grid pixel leaves the block of every other on-grid pixel unchanged |
| `Gpu.DrawnCommute` | src/chip8/gpu.rs:40-42 | drawing two different on-grid pixels gives the same buffer in either order |

## Left out

- `CPU::init`, `CPU::load` and `CPU::run`, and with them the opcode decoder, the executor, the call stack discipline and the sprite draw. src/chip8/chip8.rs and src/main.rs call them, but src/chip8/cpu.rs defines only `new` and `step_count`, so their behaviour is not part of this model.
- `GPU::new` apart from its buffer, `update_screen`, `must_continue`, the `window` field and `FPS_RATE`. They create, present and rate-limit a `minifb` window, which is a foreign library.
- src/chip8/input.rs. It only polls `minifb` key state for a fixed key map.
- src/chip8/rom.rs. It is file I/O, and its 3584-byte cap depends on the semantics of `read`.
- src/chip8/chip8.rs and src/main.rs. They forward to the missing CPU methods and handle process arguments.
- `Gpu.GPU.DrawPixel`: the `usize` multiplication `pos.0 * PIXEL_SIZE` is unbounded here. Under `Fits` it is below the buffer length anyway, so it cannot overflow.
- `Gpu.GPU.DrawPixel`: a call that panics partway through its loops is not modelled. The precondition excludes it.
- `WHITE` is declared but no modelled operation uses it.
