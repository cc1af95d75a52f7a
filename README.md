# CHIP-8 interpreter core in Dafny

This project models the core of a small CHIP-8 interpreter written in C++:
the `c8e_CPU` object of `src/c8e_CPU.h` and `src/c8e_CPU.cpp`. The model covers:

- the machine state: 4096 bytes of RAM, the program counter, sixteen byte registers V0..VF, the index register I, a 16-slot call stack with its depth, and a 64x32 framebuffer;
- construction: zeroed memory, the font table at 80, a cleared screen and the ROM image at 512;
- `Fetch`;
- `Decode`, including its opcode field macros and the XOR sprite draw DXYN with its collision flag;
- the timing logic of `ExecuteInstructionCycle`.

Modules:

- `Opcode` (opcode.dfy): bytes and words, the byte-swapping fetch, and the field decoders. It also models `_NNN` as the C++ compiler evaluates it when `u8` is a signed `char` (`NNNAsWritten`); the other decoders are modelled unsigned only.
- `Framebuffer` (framebuffer.dfy): the sprite draw in closed form (`Draw`, `Collides`) and its properties. It also holds the step lemma that carries the draw loop's invariant.
- `Machine` (machine.dfy): the state as a value (`State`), the state after construction (`Boot`), and one Decode as a function of the state (`Execute`, `DrawSprite`). It includes one lemma per handled opcode and two short programs run from boot. It also holds DXYN's origin column and origin row as written with a signed `char` (`SpriteColumnAsWritten`, `SpriteRowAsWritten`).
- `Scheduler` (scheduler.dfy): the instruction and frame periods, and one call's accumulator update (`Accumulate`). It also covers runs of many calls (`Run`).
- `Interpreter` (cpu.dfy): the class `Cpu`. RAM, registers, stack and framebuffer are arrays it updates in place. Every method is proved to change the object exactly as the functions above say, through `Abs()` or the array contents. The draw is the source's nested loop, carrying the loop invariant `DrawnBefore`.

Where the code differs from the documented behaviour of a CHIP-8 interpreter, the model follows the code:

- DXYN only reduces the origin column modulo 64 and never clips or wraps. The model draws at the flat index `(V[X] % 64 + col) + (V[Y] + row) * 64`, and requires every set cell to land inside the 2048 pixels.
- 2NNN does not push the return address. It pushes the 16-bit word stored at pc, loaded little-endian. Since 00EE does nothing, the stored value is never read.
- Drawing the same sprite twice over a blank region sets VF to 1 on the second draw whenever the sprite has a set bit (`DrawTwiceFromBlank`), because the second draw turns those pixels off.
- Only 00E0, 1NNN, 2NNN, 6XNN, 7XNN, ANNN and DXYN do anything. Every other opcode, 00EE included, leaves the state unchanged.

Conventions:

- `WIDTH_PIXELS` is defined in `src/c8e_constants.h`, which is not part of this model. It is taken as the `int` 64, the framebuffer's width. The negative origin column at line 212 depends on it being a signed `int`: were it unsigned, -56 would convert to 2^32 - 56 and the column would be 8.
- `m_I`, `m_stackIdx` and `m_V` are used by `c8e_CPU.cpp` but not declared in `c8e_CPU.h` (its fields are at lines 31-44). They are modelled as the byte offset `I`, the counter `depth`, and the sixteen registers `V`.
- The host is little-endian. `Fetch` and the 2NNN push read the u16 at pc as `LoadHost` says: the byte at the lower address is the low half.
- Bytes are modelled unsigned, as the opcode arithmetic intends. `u8` is plain `char`, which is signed on some platforms (e.g. x86) and unsigned on others (common ARM ABIs). Where plain `char` is signed, three readings differ; they are kept as separate functions, each with a Findings row: `_NNN` (line 40), DXYN's origin column (line 212) and DXYN's origin row (line 213). The other decoders, the registers and the sprite bytes are read unsigned only. Where plain `char` is unsigned, those three Findings do not arise, but the mask XOR at line 234 then breaks the draw (see Left out).
- The elapsed time is a parameter in whole microseconds. The source obtains it from the system clock as an integer count of microseconds.
- The ROM image is a parameter of the constructor.

## Model

| member | source | states |
|---|---|---|
| `Opcode.SwapBytesReadsBigEndian` | src/c8e_CPU.cpp:143-150 | a little-endian host load of two bytes followed by the byte swap gives `first * 256 + second` |
| `Opcode.LoadHost` | src/c8e_CPU.cpp:143 | the little-endian host load keeps the first byte as the low half and the second as the high half |
| `Opcode.SwapBytes` | src/c8e_CPU.cpp:149-150 | `(val << 8) \| (val >> 8)` in u16 exchanges the two halves of the word |
| `Opcode.N1` | src/c8e_CPU.cpp:158 | `n1` holds the class nibble (bits 12-15) in the high half of a byte |
| `Opcode.N2` | src/c8e_CPU.cpp:159 | `n2` holds the X nibble (bits 8-11) in the high half of a byte |
| `Opcode.N3` | src/c8e_CPU.cpp:160 | `n3` holds the Y nibble (bits 4-7) in the high half of a byte |
| `Opcode.N4` | src/c8e_CPU.cpp:161 | `n4` holds the N nibble (bits 0-3) in the high half of a byte |
| `Opcode.HighNibble` | src/c8e_CPU.cpp:36-38 | `(b >> 4) & 0x0f` is the nibble r with `16r <= b < 16r + 16` |
| `Opcode.X` | src/c8e_CPU.cpp:36 | X is bits 8-11 of the opcode |
| `Opcode.Y` | src/c8e_CPU.cpp:37 | Y is bits 4-7 of the opcode |
| `Opcode.N` | src/c8e_CPU.cpp:38 | N is bits 0-3 of the opcode |
| `Opcode.NN` | src/c8e_CPU.cpp:39 | NN, read unsigned, is the low 8 bits of the opcode |
| `Opcode.NNN` | src/c8e_CPU.cpp:40 | NNN, read unsigned, is the low 12 bits of the opcode |
| `Opcode.FieldsReassemble` | src/c8e_CPU.cpp:36-40 | class, X, Y and N put back together give the opcode; NN is Y and N, NNN is X and NN |
| `Opcode.FieldsOfAssembled` | src/c8e_CPU.cpp:158-161 | decoding an opcode built from four nibbles returns those nibbles and the NN and NNN they make |
| `Opcode.SignedChar` | src/c8e_CPU.h:5 | a byte held in a signed `char` promotes to the int in [-128, 128) congruent to it modulo 256 |
| `Opcode.NNNAsWritten` | src/c8e_CPU.cpp:40 | `_NNN` with `n3` and `n2` promoted from signed `char` and ORed as 32-bit ints; its values are stated by `SignExtendedAddress` |
| `Opcode.SignExtendedAddress` | src/c8e_CPU.cpp:40 | NNN as compiled with signed `char` is -128 for opcode A280 (Y >= 8) and -2048 for opcode 1800 (X >= 8); the unsigned NNN is 0x280 and 0x800 |
| `Framebuffer.SpriteBit` | src/c8e_CPU.cpp:219-222 | column 0 of a sprite row is its bit 7 (mask 0x80) and column 7 its bit 0 |
| `Framebuffer.PixelIndex` | src/c8e_CPU.cpp:224 | when the cell's column stays on the row, the flat index divides back into screen row `y0 + r` and screen column `x0 + c` |
| `Framebuffer.Draw` | src/c8e_CPU.cpp:217-238 | the draw keeps the framebuffer's size and changes exactly the pixels some set sprite cell hits |
| `Framebuffer.Collides` | src/c8e_CPU.cpp:226-229 | `setFlag`: some pixel a set cell hits was on; its meaning is stated by `CollidesIffErased` |
| `Framebuffer.PixelIndexDecodes` | src/c8e_CPU.cpp:224 | the flat index of sprite cell (r, c), less the origin, divides back into row r and column c |
| `Framebuffer.PixelIndexInjective` | src/c8e_CPU.cpp:224 | two cells of one sprite never share a pixel |
| `Framebuffer.CoversIff` | src/c8e_CPU.cpp:217-230 | a pixel is hit exactly when some set sprite cell's flat index is that pixel |
| `Framebuffer.DrawToggles` | src/c8e_CPU.cpp:222-226 | the draw toggles each set cell's pixel and leaves every pixel no set cell hits unchanged |
| `Framebuffer.CollidesIffErased` | src/c8e_CPU.cpp:226-229 | there is a collision exactly when some hit pixel ends off |
| `Framebuffer.DrawOverLitPixelCollides` | src/c8e_CPU.cpp:225-229 | drawing a set cell over a pixel that is on reports a collision |
| `Framebuffer.DrawTwiceRestores` | src/c8e_CPU.cpp:225 | drawing the same sprite twice restores the framebuffer |
| `Framebuffer.DrawTwiceFromBlank` | src/c8e_CPU.cpp:210-241 | on a blank screen the first draw reports no collision; the second restores the blank screen and reports a collision iff the sprite has a set cell |
| `Framebuffer.DrawCellStep` | src/c8e_CPU.cpp:222-231 | handling one cell (toggle and flag when its bit is set, nothing otherwise) carries the draw loop's invariant past that cell |
| `Machine.InitialRamLayers` | src/c8e_CPU.cpp:47-96 | boot RAM is calloc's zeroed memory (line 47), with the font copied in at 80 (lines 83-86) and then the ROM read in at 512 (line 96) |
| `Machine.BootState` | src/c8e_CPU.cpp:45-61 | after construction RAM is zero except the font at 80..159 in order and the ROM from 512; pc is 512, depth 0, every register 0 and every pixel off; I is 0 by the model's choice, since the source never sets `m_I` before an ANNN |
| `Machine.InitialRam` | src/c8e_CPU.cpp:83-97 | boot RAM has 4096 bytes and holds the ROM image from byte 512 |
| `Machine.Boot` | src/c8e_CPU.cpp:45-61 | the constructed state has buffers of the right sizes, pc at 512 and an empty stack |
| `Machine.FetchOpcode` | src/c8e_CPU.cpp:143-150 | the fetched opcode is `ram[pc] * 256 + ram[pc+1]` |
| `Machine.SpriteColumn` | src/c8e_CPU.cpp:212 | the origin column is below 64, congruent to V[X] modulo 64, and equal to V[X] when V[X] < 64 |
| `Machine.NegativeSpriteColumn` | src/c8e_CPU.cpp:212 | with V[X] = 200 the compiled origin column is -56 and the unsigned one is 8 |
| `Machine.SpriteColumnAsWritten` | src/c8e_CPU.cpp:212 | `m_V[_X] % WIDTH_PIXELS` on a signed `char`: strictly between -64 and 64 and congruent modulo 64 to the signed register value, with the sign of that value as C++ `%` gives it (so -56 for V[X] = 200) |
| `Machine.SpriteColumnAgreesBelow128` | src/c8e_CPU.cpp:212 | the signed and unsigned origin columns agree for V[X] < 128 |
| `Machine.SpriteRowAsWritten` | src/c8e_CPU.cpp:213 | `int _y = m_V[_Y]` is V[Y] below 128 and V[Y] - 256 from 128 up |
| `Machine.NegativeSpriteRow` | src/c8e_CPU.cpp:213-225 | with V[Y] = 255 and column 0, the compiled draw puts the first sprite row's column 0 at pixel -64 and the second's at pixel 0; read unsigned, both rows fall past the framebuffer |
| `Machine.PixelIndexAsWritten` | src/c8e_CPU.cpp:224 | the flat index over `int` origins: equal to `PixelIndex` for a non-negative origin, and a cell that stays on its row lies in row `y0 + r`, before the framebuffer when that row is negative |
| `Machine.UnsignedSpriteRow` | src/c8e_CPU.cpp:213-224 | read unsigned, every cell lands at or past the start of row V[Y] + r; the signed reading agrees below 128 and is 256 rows earlier from 128 up |
| `Machine.Execute` | src/c8e_CPU.cpp:156-248 | Decode keeps the buffers' sizes and the stack depth within 16, and never writes RAM |
| `Machine.ClearScreenOpcode` | src/c8e_CPU.cpp:164-171 | 0XE0, for any X, sets all 2048 pixels off, changes nothing else, and is idempotent |
| `Machine.JumpOpcode` | src/c8e_CPU.cpp:183-187 | 1NNN sets pc to NNN and changes nothing else |
| `Machine.CallOpcode` | src/c8e_CPU.cpp:188-194 | 2NNN writes only the stack slot at the current depth (with the little-endian word at pc), increases the depth by one, sets pc to NNN, and changes nothing else |
| `Machine.SetRegisterOpcode` | src/c8e_CPU.cpp:195-199 | 6XNN sets V[X] to NN and changes nothing else |
| `Machine.AddRegisterOpcode` | src/c8e_CPU.cpp:200-204 | 7XNN sets V[X] to (V[X] + NN) mod 256, leaves every other register (VF included unless X is F) and everything else unchanged |
| `Machine.SetIndexOpcode` | src/c8e_CPU.cpp:205-209 | ANNN sets I to NNN and changes nothing else |
| `Machine.DrawSprite` | src/c8e_CPU.cpp:210-241 | DXYN keeps the buffers' sizes, never writes RAM, and changes no register but VF and nothing but the registers and the framebuffer; its effect is stated by `DrawSpriteEffect` |
| `Machine.DrawOpcode` | src/c8e_CPU.cpp:210-214 | DXYN is the sprite draw with registers X and Y, height N, from I |
| `Machine.DrawSpriteEffect` | src/c8e_CPU.cpp:210-241 | for each row < N and set bit c of `ram[I+row]` the pixel `(V[X] % 64 + c) + (V[Y] + row) * 64` is toggled; other pixels are unchanged; VF is 1 iff some toggled pixel ends off and 0 otherwise; nothing else changes |
| `Machine.UnhandledOpcode` | src/c8e_CPU.cpp:162-246 | every opcode the switch does not handle (0NNN other than 0XE0, 00EE included, and classes 3, 4, 5, 8, 9, B, C, E, F) changes nothing |
| `Machine.AfterFetch` | src/c8e_CPU.cpp:146 | `m_pc += 1` on a `u16*` moves pc two bytes; it has no contract of its own and its effect is stated by `StepAdvancesPc` |
| `Machine.Step` | src/c8e_CPU.cpp:123-124 | one Fetch and Decode keeps the buffers' sizes and the stack depth within 16, and never writes RAM |
| `Machine.StepAdvancesPc` | src/c8e_CPU.cpp:123-124 | a cycle whose opcode is not 1NNN or 2NNN advances pc by exactly 2 |
| `Machine.ClearAndJumpLoops` | src/c8e_CPU.cpp:140-187 | from boot with ROM `00E0 1200`, the first cycle clears the screen and moves pc to 0x202, and the second returns to the boot state |
| `Machine.SetThenAdd` | src/c8e_CPU.cpp:195-204 | from boot with ROM `6A02 7A05`, two cycles leave VA = 7 and pc = 0x204 |
| `Scheduler.Period` | src/c8e_CPU.cpp:111-112 | `1000000 / rate` is the largest whole number of microseconds r with `r * rate <= 1000000`, and is at least 1 |
| `Scheduler.DefaultPeriods` | src/c8e_CPU.h:8-9 | the default instruction period is 1428 µs and the frame period 16666 µs |
| `Scheduler.Accumulate` | src/c8e_CPU.cpp:114-130 | the accumulator fires iff it reaches the period; a firing call gives back whole periods, at least one, and keeps less than one; a call that does not fire keeps everything; a call that starts below the period ends below it |
| `Scheduler.LongCallDropsPeriods` | src/c8e_CPU.cpp:118-125 | a call spanning two periods or more still fires once, and at least one whole period is dropped |
| `Scheduler.Run` | src/c8e_CPU.cpp:105-138 | over successive calls at most one firing per call, and the accumulator stays below the period |
| `Scheduler.RunNeverGains` | src/c8e_CPU.cpp:114-121 | over successive calls the fired periods plus the final accumulator never exceed the time elapsed |
| `Scheduler.RunExactWhenShort` | src/c8e_CPU.cpp:114-121 | when every call elapses less than a period, no time is lost, and exactly `(acc + total) / period` calls fire |
| `Interpreter.Cpu.constructor` | src/c8e_CPU.cpp:45-61 | the new object holds `Boot(rom)`, runs at 700 and 60 Hz, and starts with all three accumulators at 0 |
| `Interpreter.Cpu.InitFont` | src/c8e_CPU.cpp:63-87 | the 80 font bytes are copied to RAM from 80 and no other byte changes |
| `Interpreter.Cpu.LoadRom` | src/c8e_CPU.cpp:89-97 | the ROM image is copied to RAM from 512 and no other byte changes |
| `Interpreter.Cpu.ClearScreen` | src/c8e_CPU.cpp:250-256 | every pixel is off afterwards |
| `Interpreter.Cpu.GetClockSpeed` | src/c8e_CPU.h:17 | returns the stored instruction rate, 700 after construction, and changes nothing |
| `Interpreter.Cpu.GetRenderData` | src/c8e_CPU.h:18 | returns the object's own framebuffer array, not a copy |
| `Interpreter.Cpu.ExecuteInstructionCycle` | src/c8e_CPU.cpp:105-138 | the state is one `Step` if the instruction accumulator fired and unchanged otherwise; the result is whether the delay accumulator fired; both accumulators end below their periods; the sound accumulator grows by the elapsed time |
| `Interpreter.Cpu.Fetch` | src/c8e_CPU.cpp:140-154 | returns `ram[pc] * 256 + ram[pc+1]`, advances pc by exactly 2, and changes nothing else |
| `Interpreter.Cpu.Decode` | src/c8e_CPU.cpp:156-248 | the new state is `Execute` of the old state and the opcode |
| `Interpreter.Cpu.Display` | src/c8e_CPU.cpp:210-241 | the nested draw loop leaves exactly the state `DrawSprite` describes |

## Left out

- File reading in `LoadRom`: the ROM is a byte sequence passed to the constructor. The file's size is not checked against the space above 512, so the model requires a ROM of at most 3584 bytes.
- The system clock and `m_prevDelta`: the elapsed time is a parameter.
- `double` and `fmod`: the accumulators hold whole microseconds, so they are modelled exactly as `nat`s with `%`.
- Bounds the source never checks are preconditions instead of modelled behaviour:
  - pc + 2 <= 4096 for Fetch;
  - depth < 16 for 2NNN, and pc + 2 <= 4096 after the fetch for the word it pushes;
  - I + N <= 4096 for DXYN;
  - every drawn pixel inside the framebuffer for DXYN. With V[Y] >= 128 the source reads the origin row as negative (Findings, line 213) and can still put later sprite rows on screen; the model rejects such a draw instead.
- `Decode` reads the fields through `N1`..`N4` and the decoders of `Opcode`. It reads them unsigned, not through the source's signed `u8` locals.
- The mask XOR at `src/c8e_CPU.cpp:232-235` is not modelled; the model takes the masks 0x80, 0x40, ..., 0x01 directly. In the source that order holds only because `u8` is a signed `char`: `0x80 >> 1` sign-extends to 0xC0, and the XOR at line 234 turns it back into 0x40. With an unsigned `char` the same XOR would turn 0x40 into 0xC0, and column 1 would test bits 7 and 6 together.
- Memory management: `calloc`, `malloc`, `free` and the destructor. The pointer types of `m_pc` and `m_I` become integer offsets into RAM.
- `m_I` has no initial value in the source: it is not declared in `c8e_CPU.h`, the constructor (`src/c8e_CPU.cpp:45-61`) does not assign it, and its only assignment is ANNN at line 207. The model starts I at 0, so a DXYN before any ANNN reads the zeroed bytes from offset 0, where the source's behaviour is undefined (line 214 reads through the unset pointer).
- The uninitialised pixels from `malloc` are not modelled. The model allocates the framebuffer and clears it at once, as the constructor does.
- Return (00EE), skips, the 8XY* group, BNNN, random numbers, keys, the timer registers and the FX** group are not implemented by the source. The model keeps them as no-ops.
- The SDL front end and the driver loop are not part of this model: the window, the renderer, audio, key mapping and `main`.

## Findings

| source | as written | input that shows it | evidently intended | confidence | as-written member | corrected member |
|---|---|---|---|---|---|---|
| src/c8e_CPU.cpp:40 | `_NNN` ORs signed `char` nibbles. When Y >= 8 the sign bits of `n3` fill the whole address; when X >= 8, `n2 << 4` is negative | where plain `char` is signed, opcode A280 sets I to -128, and 1800 jumps to -2048 (left-shifting the negative `n2` is undefined before C++20; from C++20 on, and with the usual compilers, it is -2048), both before the start of RAM | NNN = the low 12 bits of the opcode, 0x280 and 0x800 | high (not executed) | `Opcode.SignExtendedAddress` | `Opcode.NNN` |
| src/c8e_CPU.cpp:212 | `m_V[_X] % WIDTH_PIXELS` on a signed `char` is negative when V[X] >= 128 | V[X] = 200 gives origin column -56, which draws one row up (with `WIDTH_PIXELS` a signed `int`, as taken here) | origin column V[X] mod 64 = 8 | high (not executed) | `Machine.NegativeSpriteColumn` | `Machine.SpriteColumn` |
| src/c8e_CPU.cpp:213 | `int _y = m_V[_Y]` promotes a signed `char`, so the origin row is negative when V[Y] >= 128 | V[Y] = 255, column 0, sprite `00 80`: the origin row is -1, so the set bit of the second sprite row toggles pixel 0, while a set bit in the first row would write pixel -64 | origin row V[Y], never before the framebuffer | high (not executed) | `Machine.NegativeSpriteRow` | `Machine.UnsignedSpriteRow` |
