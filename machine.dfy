/**
 * The interpreter's state (c8e_CPU.h and the fields c8e_CPU.cpp uses) as a value,
 * its state after construction, and the effect of one Decode of c8e_CPU.cpp:156-248
 * as a function of the state. The class `Interpreter.Cpu` is proved to update its arrays
 * exactly as these functions say.
 */
module Machine {
  import opened Opcode
  import opened Framebuffer

  const RamSize := 4096
  const ProgramOffset := 512
  const StackSize := 16
  const NumRegisters := 16
  const FontOffset := 80
  /** The flag register VF. */
  const VF := 0xF

  /** The sixteen 4x5 hexadecimal glyphs, five bytes each, for the digits 0 to F in order. */
  const Font: seq<byte> := [
    0xF0, 0x90, 0x90, 0x90, 0xF0, // 0
    0x20, 0x60, 0x20, 0x20, 0x70, // 1
    0xF0, 0x10, 0xF0, 0x80, 0xF0, // 2
    0xF0, 0x10, 0xF0, 0x10, 0xF0, // 3
    0x90, 0x90, 0xF0, 0x10, 0x10, // 4
    0xF0, 0x80, 0xF0, 0x10, 0xF0, // 5
    0xF0, 0x80, 0xF0, 0x90, 0xF0, // 6
    0xF0, 0x10, 0x20, 0x40, 0x40, // 7
    0xF0, 0x90, 0xF0, 0x90, 0xF0, // 8
    0xF0, 0x90, 0xF0, 0x10, 0xF0, // 9
    0xF0, 0x90, 0xF0, 0x90, 0x90, // A
    0xE0, 0x90, 0xE0, 0x90, 0xE0, // B
    0xF0, 0x80, 0x80, 0x80, 0xF0, // C
    0xE0, 0x90, 0x90, 0x90, 0xE0, // D
    0xF0, 0x80, 0xF0, 0x80, 0xF0, // E
    0xF0, 0x80, 0xF0, 0x80, 0x80  // F
  ]

  /**
   * The interpreter's state. `pc` and `I` are byte offsets into `ram` (the source
   * keeps them as pointers into it); `depth` is `m_stackIdx`; `fb` is `m_renderData`.
   */
  datatype State = State(
    ram: seq<byte>,
    pc: nat,
    V: seq<byte>,
    I: nat,
    stack: seq<word>,
    depth: nat,
    fb: seq<bool>)

  /** The sizes of the state's buffers, and a stack depth within its capacity. */
  ghost predicate WellFormed(s: State)
  {
    |s.ram| == RamSize && |s.V| == NumRegisters && |s.stack| == StackSize &&
    |s.fb| == Size && s.depth <= StackSize
  }

  // ---------------------------------------------------------------------------
  // Construction (c8e_CPU.cpp:45-97)
  // ---------------------------------------------------------------------------

  /** RAM after construction: zero, with the font at `FontOffset` and the ROM at `ProgramOffset`. */
  function InitialRam(rom: seq<byte>): (mem: seq<byte>)
    requires |rom| <= RamSize - ProgramOffset
    ensures |mem| == RamSize
    ensures forall k :: 0 <= k < |rom| ==> mem[ProgramOffset + k] == rom[k]
  {
    seq(RamSize, i requires 0 <= i < RamSize =>
      if FontOffset <= i < FontOffset + |Font| then Font[i - FontOffset]
      else if ProgramOffset <= i < ProgramOffset + |rom| then rom[i - ProgramOffset]
      else 0)
  }

  /** `mem` with `data` copied over it from offset `at`. */
  function Overwrite(mem: seq<byte>, at: nat, data: seq<byte>): (r: seq<byte>)
    requires at + |data| <= |mem|
    ensures |r| == |mem|
    ensures forall i :: at <= i < at + |data| ==> r[i] == data[i - at]
    ensures forall i :: 0 <= i < |mem| && !(at <= i < at + |data|) ==> r[i] == mem[i]
  {
    mem[..at] + data + mem[at + |data|..]
  }

  /** The boot RAM is zeroed memory with the font copied in, then the ROM. */
  lemma {:induction false} InitialRamLayers(rom: seq<byte>)
    requires |rom| <= RamSize - ProgramOffset
    ensures InitialRam(rom) ==
      Overwrite(Overwrite(seq(RamSize, _ => 0), FontOffset, Font), ProgramOffset, rom)
  {
    var layered := Overwrite(Overwrite(seq(RamSize, _ => 0), FontOffset, Font), ProgramOffset, rom);
    forall i | 0 <= i < RamSize ensures InitialRam(rom)[i] == layered[i] {
    }
  }

  /** The state the constructor builds from a ROM image; I, which the source leaves unset, starts at 0. */
  function Boot(rom: seq<byte>): (s: State)
    requires |rom| <= RamSize - ProgramOffset
    ensures WellFormed(s) && s.pc == ProgramOffset && s.depth == 0
  {
    State(InitialRam(rom), ProgramOffset, seq(NumRegisters, _ => 0), 0,
          seq(StackSize, _ => 0), 0, Blank())
  }

  /**
   * After construction RAM is zero except the font table, in order, at bytes
   * 80..159 and the ROM from byte 512; pc is 512, the stack is empty, every
   * register is 0 and every pixel is off. I is 0 by choice: the source never
   * sets `m_I` before an ANNN runs.
   */
  lemma BootState(rom: seq<byte>)
    requires |rom| <= RamSize - ProgramOffset
    ensures var s := Boot(rom);
      WellFormed(s) && s.pc == ProgramOffset && s.depth == 0 && s.I == 0 &&
      (forall k :: 0 <= k < |Font| ==> s.ram[FontOffset + k] == Font[k]) &&
      (forall k :: 0 <= k < |rom| ==> s.ram[ProgramOffset + k] == rom[k]) &&
      (forall i ::
         (0 <= i < RamSize && !(FontOffset <= i < FontOffset + |Font|) &&
          !(ProgramOffset <= i < ProgramOffset + |rom|)) ==> s.ram[i] == 0) &&
      (forall r :: 0 <= r < NumRegisters ==> s.V[r] == 0) &&
      (forall p :: 0 <= p < Size ==> !s.fb[p])
  {
  }

  // ---------------------------------------------------------------------------
  // Fetch (c8e_CPU.cpp:140-154)
  // ---------------------------------------------------------------------------

  /**
   * The opcode Fetch returns: the host's u16 load at pc with its bytes swapped,
   * which reads the two bytes big-endian (the byte at pc is the high half).
   */
  function FetchOpcode(s: State): (op: word)
    requires WellFormed(s) && s.pc + 2 <= RamSize
    ensures op == s.ram[s.pc] as int * 0x100 + s.ram[s.pc + 1]
  {
    SwapBytesReadsBigEndian(s.ram[s.pc], s.ram[s.pc + 1]);
    SwapBytes(LoadHost(s.ram[s.pc], s.ram[s.pc + 1]))
  }

  // ---------------------------------------------------------------------------
  // Decode (c8e_CPU.cpp:156-248)
  // ---------------------------------------------------------------------------

  /** DXYN's origin column `V[X] % WIDTH_PIXELS`, with V[X] read unsigned. */
  function SpriteColumn(v: byte): (r: nat)
    ensures r < Width && (v < Width ==> r == v) && (v - r) % Width == 0
  {
    v % Width
  }

  /** `%` as C++ computes it on `int`s (`WIDTH_PIXELS` an `int`): the remainder takes the sign of the dividend. */
  function TruncatedRem(a: int, m: nat): int
    requires m > 0
  {
    if a >= 0 then a % m else -((-a) % m)
  }

  /** DXYN's origin column as written: `m_V[_X]` is a signed `char`. */
  function SpriteColumnAsWritten(v: byte): (r: int)
    ensures -Width < r < Width && (r - SignedChar(v)) % Width == 0
    ensures SignedChar(v) < 0 ==> r <= 0
    ensures SignedChar(v) >= 0 ==> r >= 0
  {
    TruncatedRem(SignedChar(v), Width)
  }

  /**
   * With V[X] = 200 the source's origin column is -56, so the sprite lands one
   * row up at column 8 instead of at column 8 of row V[Y].
   */
  lemma NegativeSpriteColumn()
    ensures SpriteColumnAsWritten(200) == -56
    ensures SpriteColumn(200) == 8
  {
    assert SignedChar(200) == -56;
  }

  /** The two readings agree on registers below 128. */
  lemma {:induction false} SpriteColumnAgreesBelow128(v: byte)
    requires v < 0x80
    ensures SpriteColumnAsWritten(v) == SpriteColumn(v)
  {
  }

  /** DXYN's origin row as written: `int _y = m_V[_Y]` promotes a signed `char`. */
  function SpriteRowAsWritten(v: byte): (r: int)
    ensures -0x80 <= r < 0x80 && (v < 0x80 ==> r == v) && (v >= 0x80 ==> r == v - 0x100)
  {
    SignedChar(v)
  }

  /**
   * The flat index `(_x + x) + ((_y + y) * WIDTH_PIXELS)` on `int`s, whatever the
   * sign of the origin: `PixelIndex` for a non-negative origin, and a cell that
   * stays on its row lies in row `y0 + r`, which is before the framebuffer when negative.
   */
  function PixelIndexAsWritten(x0: int, y0: int, r: nat, c: nat): (p: int)
    ensures x0 >= 0 && y0 >= 0 ==> p == PixelIndex(x0, y0, r, c)
    ensures 0 <= x0 && x0 + c < Width ==> (y0 + r) * Width <= p < (y0 + r + 1) * Width
  {
    (x0 + c) + (y0 + r) * Width
  }

  /**
   * With V[Y] = 255 the source's origin row is -1. At column 0, a set bit of the
   * sprite's first row writes pixel -64, before the framebuffer, and one of its
   * second row toggles pixel 0. Read unsigned, the origin row is 255 and neither
   * row is on screen.
   */
  lemma NegativeSpriteRow()
    ensures SpriteRowAsWritten(255) == -1
    ensures PixelIndexAsWritten(0, SpriteRowAsWritten(255), 0, 0) == -64
    ensures PixelIndexAsWritten(0, SpriteRowAsWritten(255), 1, 0) == 0
    ensures PixelIndex(0, 255, 0, 0) >= Size && PixelIndex(0, 255, 1, 0) >= Size
  {
  }

  /**
   * Read unsigned, the origin row is V[Y] itself: every cell of the draw lands at
   * or past the start of row V[Y] + r, so no index precedes the framebuffer. The
   * two readings agree on the rows below 128; from 128 up the signed reading
   * lands 256 rows earlier.
   */
  lemma {:induction false} UnsignedSpriteRow(x0: nat, v: byte, r: nat, c: nat)
    ensures PixelIndex(x0, v, r, c) >= (v + r) * Width
    ensures v < 0x80 ==> PixelIndexAsWritten(x0, SpriteRowAsWritten(v), r, c) == PixelIndex(x0, v, r, c)
    ensures v >= 0x80 ==> PixelIndexAsWritten(x0, SpriteRowAsWritten(v), r, c) == PixelIndex(x0, v, r, c) - 0x100 * Width
  {
  }

  /** The sprite DXYN draws: N bytes of memory from I. */
  function SpriteRows(s: State, n: nat): seq<byte>
    requires WellFormed(s) && s.I + n <= RamSize
  {
    s.ram[s.I .. s.I + n]
  }

  /**
   * What Decode needs of the state to stay inside its buffers: 2NNN pushes onto a
   * stack that is not full and reads the word at pc; DXYN reads N bytes from I and
   * draws only inside the framebuffer.
   */
  ghost predicate Enabled(s: State, op: word)
    requires WellFormed(s)
  {
    (N1(op) == 0x20 ==> s.depth < StackSize && s.pc + 2 <= RamSize) &&
    (N1(op) == 0xD0 ==>
       s.I + N(op) <= RamSize && Fits(SpriteColumn(s.V[X(op)]), s.V[Y(op)], SpriteRows(s, N(op))))
  }

  /**
   * The state after Decode executes `op`. Only 0XE0, 1NNN, 2NNN, 6XNN, 7XNN, ANNN
   * and DXYN do anything; every other opcode, 0XEE included, leaves the state as it is.
   */
  ghost function Execute(s: State, op: word): (t: State)
    requires WellFormed(s) && Enabled(s, op)
    ensures WellFormed(t) && t.ram == s.ram
  {
    if N1(op) == 0x00 then
      if N3(op) == 0xE0 && N4(op) == 0x00 then s.(fb := Blank()) else s
    else if N1(op) == 0x10 then
      s.(pc := NNN(op))
    else if N1(op) == 0x20 then
      s.(stack := s.stack[s.depth := LoadHost(s.ram[s.pc], s.ram[s.pc + 1])],
         depth := s.depth + 1, pc := NNN(op))
    else if N1(op) == 0x60 then
      s.(V := s.V[X(op) := NN(op)])
    else if N1(op) == 0x70 then
      s.(V := s.V[X(op) := (s.V[X(op)] + NN(op)) % 0x100])
    else if N1(op) == 0xA0 then
      s.(I := NNN(op))
    else if N1(op) == 0xD0 then
      DrawSprite(s, X(op), Y(op), N(op))
    else
      s
  }

  /** DXYN: XOR-draw N bytes from I at column V[X] % 64 and row V[Y]; VF is the collision. */
  ghost function DrawSprite(s: State, x: nat, y: nat, n: nat): (t: State)
    requires WellFormed(s) && x < NumRegisters && y < NumRegisters && s.I + n <= RamSize
    ensures WellFormed(t) && t.ram == s.ram
    ensures t.pc == s.pc && t.I == s.I && t.stack == s.stack && t.depth == s.depth
    ensures forall r :: 0 <= r < NumRegisters && r != VF ==> t.V[r] == s.V[r]
  {
    State(s.ram, s.pc,
          s.V[VF := if Collides(s.fb, SpriteColumn(s.V[x]), s.V[y], SpriteRows(s, n)) then 1 else 0],
          s.I, s.stack, s.depth,
          Draw(s.fb, SpriteColumn(s.V[x]), s.V[y], SpriteRows(s, n)))
  }

  /** The state once Fetch has moved pc past the opcode. */
  function AfterFetch(s: State): State
  {
    s.(pc := s.pc + 2)
  }

  /** Fetch can read at pc and Decode can execute what it reads. */
  ghost predicate CanStep(s: State)
    requires WellFormed(s)
  {
    s.pc + 2 <= RamSize && Enabled(AfterFetch(s), FetchOpcode(s))
  }

  /** One instruction cycle: Fetch, then Decode of the fetched opcode. */
  ghost function Step(s: State): (t: State)
    requires WellFormed(s) && CanStep(s)
    ensures WellFormed(t) && t.ram == s.ram
  {
    Execute(AfterFetch(s), FetchOpcode(s))
  }

  // ---------------------------------------------------------------------------
  // The opcodes, one by one
  // ---------------------------------------------------------------------------

  /** 0XE0, for any X, turns every pixel off and changes nothing else; doing it twice is doing it once. */
  lemma {:induction false} ClearScreenOpcode(s: State, x: nat)
    requires WellFormed(s) && x < 0x10
    ensures var op := x * 0x100 + 0xE0;
      Enabled(s, op) && Execute(s, op) == s.(fb := Blank()) &&
      (forall p :: 0 <= p < Size ==> !Execute(s, op).fb[p]) &&
      Execute(Execute(s, op), op) == Execute(s, op)
  {
    FieldsOfAssembled(0, x, 0xE, 0);
  }

  /** 1NNN sets pc to NNN and changes nothing else. */
  lemma {:induction false} JumpOpcode(s: State, nnn: nat)
    requires WellFormed(s) && nnn < 0x1000
    ensures Enabled(s, 0x1000 + nnn) && Execute(s, 0x1000 + nnn) == s.(pc := nnn)
  {
    FieldsOfAssembled(1, nnn / 0x100, nnn / 0x10 % 0x10, nnn % 0x10);
  }

  /**
   * 2NNN writes only the stack slot at the current depth (with the memory word at
   * pc, read by the host little-endian), increases the depth by one and sets pc to NNN.
   */
  lemma {:induction false} CallOpcode(s: State, nnn: nat)
    requires WellFormed(s) && nnn < 0x1000
    requires s.depth < StackSize && s.pc + 2 <= RamSize
    ensures Enabled(s, 0x2000 + nnn)
    ensures var t := Execute(s, 0x2000 + nnn);
      t.depth == s.depth + 1 && t.pc == nnn &&
      t.stack[s.depth] == s.ram[s.pc] + s.ram[s.pc + 1] as int * 0x100 &&
      (forall k :: 0 <= k < StackSize && k != s.depth ==> t.stack[k] == s.stack[k]) &&
      t.ram == s.ram && t.V == s.V && t.I == s.I && t.fb == s.fb
  {
    FieldsOfAssembled(2, nnn / 0x100, nnn / 0x10 % 0x10, nnn % 0x10);
  }

  /** 6XNN sets V[X] to NN and changes nothing else. */
  lemma {:induction false} SetRegisterOpcode(s: State, x: nat, nn: byte)
    requires WellFormed(s) && x < 0x10
    ensures Enabled(s, 0x6000 + x * 0x100 + nn)
    ensures Execute(s, 0x6000 + x * 0x100 + nn) == s.(V := s.V[x := nn])
  {
    FieldsOfAssembled(6, x, nn / 0x10, nn % 0x10);
  }

  /**
   * 7XNN adds NN to V[X] modulo 256, changes no other register (VF included,
   * unless X is F) and nothing else.
   */
  lemma {:induction false} AddRegisterOpcode(s: State, x: nat, nn: byte)
    requires WellFormed(s) && x < 0x10
    ensures Enabled(s, 0x7000 + x * 0x100 + nn)
    ensures var t := Execute(s, 0x7000 + x * 0x100 + nn);
      t.V[x] == (s.V[x] + nn) % 0x100 &&
      (forall r :: 0 <= r < NumRegisters && r != x ==> t.V[r] == s.V[r]) &&
      (x != VF ==> t.V[VF] == s.V[VF]) &&
      t == s.(V := t.V)
  {
    FieldsOfAssembled(7, x, nn / 0x10, nn % 0x10);
  }

  /** ANNN sets I to NNN and changes nothing else. */
  lemma {:induction false} SetIndexOpcode(s: State, nnn: nat)
    requires WellFormed(s) && nnn < 0x1000
    ensures Enabled(s, 0xA000 + nnn) && Execute(s, 0xA000 + nnn) == s.(I := nnn)
  {
    FieldsOfAssembled(0xA, nnn / 0x100, nnn / 0x10 % 0x10, nnn % 0x10);
  }

  /** DXYN with registers X and Y and height N is the sprite draw `DrawSprite`. */
  lemma {:induction false} DrawOpcode(s: State, x: nat, y: nat, n: nat)
    requires WellFormed(s) && x < 0x10 && y < 0x10 && n < 0x10
    requires s.I + n <= RamSize && Fits(SpriteColumn(s.V[x]), s.V[y], SpriteRows(s, n))
    ensures Enabled(s, 0xD000 + x * 0x100 + y * 0x10 + n)
    ensures Execute(s, 0xD000 + x * 0x100 + y * 0x10 + n) == DrawSprite(s, x, y, n)
  {
    FieldsOfAssembled(0xD, x, y, n);
  }

  /**
   * The sprite draw toggles, for each row r < N and each set bit c of
   * `memory[I + r]`, the pixel at `(V[X] % 64 + c) + (V[Y] + r) * 64`; every other
   * pixel is unchanged; VF becomes 1 if some toggled pixel ends off and 0
   * otherwise; nothing but the framebuffer and VF changes.
   */
  lemma {:induction false} DrawSpriteEffect(s: State, x: nat, y: nat, n: nat)
    requires WellFormed(s) && x < NumRegisters && y < NumRegisters && s.I + n <= RamSize
    requires Fits(SpriteColumn(s.V[x]), s.V[y], SpriteRows(s, n))
    ensures var t, x0, y0 := DrawSprite(s, x, y, n), s.V[x] % Width, s.V[y];
      (forall r: nat, c: nat :: r < n && c < 8 && SpriteBit(s.ram[s.I + r], c) ==>
         PixelIndex(x0, y0, r, c) < Size &&
         t.fb[PixelIndex(x0, y0, r, c)] == !s.fb[PixelIndex(x0, y0, r, c)]) &&
      (forall p :: 0 <= p < Size && !Covers(x0, y0, SpriteRows(s, n), p) ==> t.fb[p] == s.fb[p]) &&
      (t.V[VF] == 1 <==> exists p :: 0 <= p < Size && Covers(x0, y0, SpriteRows(s, n), p) && !t.fb[p]) &&
      (t.V[VF] == 0 || t.V[VF] == 1) &&
      t == s.(fb := t.fb, V := s.V[VF := t.V[VF]])
  {
    var x0, y0, rows := SpriteColumn(s.V[x]), s.V[y], SpriteRows(s, n);
    var t := DrawSprite(s, x, y, n);
    assert t.fb == Draw(s.fb, x0, y0, rows);
    assert t.V[VF] == 1 <==> Collides(s.fb, x0, y0, rows);
    DrawToggles(s.fb, x0, y0, rows);
    CollidesIffErased(s.fb, x0, y0, rows);
    forall r: nat, c: nat | r < n && c < 8 && SpriteBit(s.ram[s.I + r], c)
      ensures CellSet(rows, r, c)
    {
      assert rows[r] == s.ram[s.I + r];
    }
  }

  /** Every opcode Decode does not handle, 0XEE included, leaves the state unchanged. */
  lemma {:induction false} UnhandledOpcode(s: State, op: word)
    requires WellFormed(s)
    requires op / 0x1000 in {0x3, 0x4, 0x5, 0x8, 0x9, 0xB, 0xC, 0xE, 0xF} ||
             (op / 0x1000 == 0 && op % 0x100 != 0xE0)
    ensures Enabled(s, op) && Execute(s, op) == s
  {
    Nibbles(op);
  }

  /** A cycle of an opcode other than 1NNN and 2NNN advances pc by exactly 2. */
  lemma {:induction false} StepAdvancesPc(s: State)
    requires WellFormed(s) && CanStep(s)
    requires s.ram[s.pc] / 0x10 != 0x1 && s.ram[s.pc] / 0x10 != 0x2
    ensures Step(s).pc == s.pc + 2
  {
  }

  // ---------------------------------------------------------------------------
  // Two short programs
  // ---------------------------------------------------------------------------

  /** `00E0 1200`: clear, then jump back to 0x200. Two cycles bring the booted machine back to where it started. */
  lemma ClearAndJumpLoops()
    ensures var s := Boot([0x00, 0xE0, 0x12, 0x00]);
      WellFormed(s) && CanStep(s) && CanStep(Step(s)) &&
      Step(s).fb == Blank() && Step(s).pc == 0x202 && Step(Step(s)) == s
  {
    var s := Boot([0x00, 0xE0, 0x12, 0x00]);
    BootState([0x00, 0xE0, 0x12, 0x00]);
    assert s.ram[0x200] == 0x00 && s.ram[0x201] == 0xE0;
    assert FetchOpcode(s) == 0 * 0x100 + 0xE0;
    ClearScreenOpcode(AfterFetch(s), 0);
    assert CanStep(s);
    var s1 := Step(s);
    assert s1 == AfterFetch(s).(fb := Blank());
    assert s1.ram == s.ram && s1.pc == 0x202;
    assert s1.ram[0x202] == 0x12 && s1.ram[0x203] == 0x00;
    assert FetchOpcode(s1) == 0x1000 + 0x200;
    JumpOpcode(AfterFetch(s1), 0x200);
    assert CanStep(s1);
    assert Step(s1) == AfterFetch(s1).(pc := 0x200);
  }

  /** `6A02 7A05`: VA = 2, then VA += 5, leaves VA = 7 and pc two instructions further. */
  lemma SetThenAdd()
    ensures var s := Boot([0x6A, 0x02, 0x7A, 0x05]);
      WellFormed(s) && CanStep(s) && CanStep(Step(s)) &&
      Step(Step(s)).V[0xA] == 7 && Step(Step(s)).pc == 0x204
  {
    var s := Boot([0x6A, 0x02, 0x7A, 0x05]);
    BootState([0x6A, 0x02, 0x7A, 0x05]);
    assert s.ram[0x200] == 0x6A && s.ram[0x201] == 0x02;
    assert FetchOpcode(s) == 0x6000 + 0xA * 0x100 + 2;
    SetRegisterOpcode(AfterFetch(s), 0xA, 2);
    assert CanStep(s);
    var s1 := Step(s);
    assert s1 == AfterFetch(s).(V := s.V[0xA := 2]);
    assert s1.ram == s.ram && s1.pc == 0x202 && s1.V[0xA] == 2;
    assert s1.ram[0x202] == 0x7A && s1.ram[0x203] == 0x05;
    assert FetchOpcode(s1) == 0x7000 + 0xA * 0x100 + 5;
    AddRegisterOpcode(AfterFetch(s1), 0xA, 5);
    assert CanStep(s1);
  }
}
