/**
 * The c8e_CPU object (c8e_CPU.h, c8e_CPU.cpp): RAM, registers, stack and
 * framebuffer are arrays it updates in place, pc, I and the stack depth are byte
 * offsets and a counter, and the three timing accumulators are whole microseconds.
 * Each method is proved to change the object exactly as the functions of `Machine`
 * and `Scheduler` say, through the abstraction `Abs()`.
 */
module Interpreter {
  import opened Opcode
  import opened Framebuffer
  import opened Machine
  import opened Scheduler

  class Cpu {
    /** `m_ram`: 4096 bytes. */
    const ram: array<byte>
    /** `m_pc`, as an offset into `ram`. */
    var pc: nat
    /** `m_stack`: 16 words. */
    const stack: array<word>
    /** `m_stackIdx`: the number of words pushed. */
    var depth: nat
    /** `m_V`: the 16 registers V0..VF. */
    const V: array<byte>
    /** `m_I`, as an offset into `ram`. */
    var I: nat
    /** `m_renderData`: 64x32 pixels, row-major. */
    const renderData: array<bool>
    /** `m_clockspeed`: instructions per second. */
    const clockSpeed: nat
    /** `m_timerspeed`: frames per second. */
    const timerSpeed: nat
    /** `m_clockCount`, `m_delayCount`, `m_soundCount`: elapsed microseconds. */
    var clockCount: nat
    var delayCount: nat
    var soundCount: nat

    /** The buffers have their sizes, the two byte arrays are distinct, the stack is not over-full, and both rates are usable. */
    ghost predicate Valid()
      reads this
    {
      ram.Length == RamSize && V.Length == NumRegisters && stack.Length == StackSize &&
      renderData.Length == Size && ram != V && depth <= StackSize &&
      0 < clockSpeed <= MicrosPerSecond && 0 < timerSpeed <= MicrosPerSecond
    }

    /** The interpreter state the object holds. */
    ghost function Abs(): (s: State)
      requires Valid()
      reads this, ram, V, stack, renderData
      ensures WellFormed(s)
    {
      State(ram[..], pc, V[..], I, stack[..], depth, renderData[..])
    }

    /**
     * Zeroed RAM, stack and registers, pc at 512, the font at 80, a cleared screen
     * and the ROM at 512; the rates are the defaults and the accumulators are 0.
     */
    constructor (rom: seq<byte>)
      requires |rom| <= RamSize - ProgramOffset
      ensures Valid() && Abs() == Boot(rom)
      ensures clockSpeed == DefaultClockSpeed && timerSpeed == TimerSpeed
      ensures clockCount == 0 && delayCount == 0 && soundCount == 0
      ensures fresh(ram) && fresh(V) && fresh(stack) && fresh(renderData)
    {
      ram := new byte[RamSize](_ => 0);
      pc := ProgramOffset;
      stack := new word[StackSize](_ => 0);
      depth := 0;
      V := new byte[NumRegisters](_ => 0);
      I := 0;
      renderData := new bool[Size];
      clockSpeed := DefaultClockSpeed;
      timerSpeed := TimerSpeed;
      clockCount, delayCount, soundCount := 0, 0, 0;
      new;
      assert ram[..] == seq(RamSize, _ => 0);
      InitFont();
      ClearScreen();
      LoadRom(rom);
      InitialRamLayers(rom);
      assert V[..] == seq(NumRegisters, _ => 0);
      assert stack[..] == seq(StackSize, _ => 0);
    }

    /** Copies the 80 font bytes to RAM from offset 80 and changes no other byte. */
    method InitFont()
      requires Valid()
      modifies ram
      ensures ram[..] == Overwrite(old(ram[..]), FontOffset, Font)
    {
      var i := 0;
      while i < |Font|
        invariant 0 <= i <= |Font|
        invariant forall k :: FontOffset <= k < FontOffset + i ==> ram[k] == Font[k - FontOffset]
        invariant forall k :: 0 <= k < RamSize && !(FontOffset <= k < FontOffset + i) ==> ram[k] == old(ram[k])
      {
        ram[FontOffset + i] := Font[i];
        i := i + 1;
      }
      assert ram[..] == Overwrite(old(ram[..]), FontOffset, Font);
    }

    /** Copies the ROM image to RAM from offset 512 and changes no other byte. */
    method LoadRom(rom: seq<byte>)
      requires Valid() && |rom| <= RamSize - ProgramOffset
      modifies ram
      ensures ram[..] == Overwrite(old(ram[..]), ProgramOffset, rom)
    {
      forall i | 0 <= i < |rom| {
        ram[ProgramOffset + i] := rom[i];
      }
      assert ram[..] == Overwrite(old(ram[..]), ProgramOffset, rom);
    }

    /** Turns every pixel off. */
    method ClearScreen()
      requires Valid()
      modifies renderData
      ensures renderData[..] == Blank()
    {
      var i := 0;
      while i < Size
        invariant 0 <= i <= Size
        invariant forall k :: 0 <= k < i ==> !renderData[k]
      {
        renderData[i] := false;
        i := i + 1;
      }
      assert renderData[..] == Blank();
    }

    /** The stored instruction rate. */
    function GetClockSpeed(): (r: nat)
      ensures r == clockSpeed
    {
      clockSpeed
    }

    /** The object's own framebuffer array, not a copy: later draws show through it. */
    function GetRenderData(): (r: array<bool>)
      ensures r == renderData
    {
      renderData
    }

    /**
     * One call of the main loop, `dt` microseconds after the previous one: the three
     * accumulators grow by `dt`; if the instruction accumulator reached its period,
     * one Fetch and Decode run (never more, however large `dt`) and it keeps the
     * remainder; the call returns whether the delay accumulator reached its period,
     * which it then also reduces. The sound accumulator only grows. Both reduced
     * accumulators end below their periods.
     */
    method ExecuteInstructionCycle(dt: nat) returns (frameReady: bool)
      requires Valid()
      requires clockCount + dt >= Period(clockSpeed) ==> CanStep(Abs())
      modifies this, V, stack, renderData
      ensures Valid()
      ensures var ran := Accumulate(old(clockCount), dt, Period(clockSpeed)).0;
        clockCount == Accumulate(old(clockCount), dt, Period(clockSpeed)).1 &&
        Abs() == (if ran then Step(old(Abs())) else old(Abs()))
      ensures frameReady == Accumulate(old(delayCount), dt, Period(timerSpeed)).0
      ensures delayCount == Accumulate(old(delayCount), dt, Period(timerSpeed)).1
      ensures clockCount < Period(clockSpeed) && delayCount < Period(timerSpeed)
      ensures soundCount == old(soundCount) + dt
    {
      var clockTick := MicrosPerSecond / clockSpeed;
      var timerTick := MicrosPerSecond / timerSpeed;
      clockCount := clockCount + dt;
      delayCount := delayCount + dt;
      soundCount := soundCount + dt;
      if clockCount >= clockTick {
        clockCount := clockCount % clockTick;
        var op := Fetch();
        Decode(op);
      }
      if delayCount >= timerTick {
        delayCount := delayCount % timerTick;
        frameReady := true;
      } else {
        frameReady := false;
      }
    }

    /**
     * Reads the opcode at pc big-endian (the host's little-endian load, then a byte
     * swap) and moves pc past it; nothing else changes.
     */
    method Fetch() returns (op: word)
      requires Valid() && pc + 2 <= RamSize
      modifies this`pc
      ensures pc == old(pc) + 2
      ensures op == ram[old(pc)] as int * 0x100 + ram[old(pc) + 1]
      ensures op == FetchOpcode(old(Abs()))
    {
      var val := LoadHost(ram[pc], ram[pc + 1]);
      pc := pc + 2;
      var temp := val / 0x100;
      var swapped: int := (val as int * 0x100) % 0x1_0000 + temp;
      assert swapped == SwapBytes(val);
      op := swapped;
      SwapBytesReadsBigEndian(ram[pc - 2], ram[pc - 1]);
    }

    /** Executes one opcode: the new state is `Execute` of the old. */
    method Decode(op: word)
      requires Valid() && Enabled(Abs(), op)
      modifies this`pc, this`I, this`depth, V, stack, renderData
      ensures Valid() && Abs() == Execute(old(Abs()), op)
    {
      var n1, n3, n4 := N1(op), N3(op), N4(op);
      if n1 == 0x00 {
        if n3 == 0xE0 {
          if n4 == 0x00 {
            ClearScreen();
          } else if n4 == 0xE0 {
            // 00EE, return from a subroutine, does nothing
          }
        }
      } else if n1 == 0x10 {
        pc := NNN(op);
      } else if n1 == 0x20 {
        stack[depth] := LoadHost(ram[pc], ram[pc + 1]);
        depth := depth + 1;
        pc := NNN(op);
      } else if n1 == 0x60 {
        V[X(op)] := NN(op);
      } else if n1 == 0x70 {
        V[X(op)] := (V[X(op)] + NN(op)) % 0x100;
      } else if n1 == 0xA0 {
        I := NNN(op);
      } else if n1 == 0xD0 {
        Display(X(op), Y(op), N(op));
      }
    }

    /**
     * DXYN: XOR-draws the n bytes from I, most significant bit first, with the top
     * left corner at column V[x] % 64 and row V[y], and sets VF to whether a pixel
     * was turned off.
     */
    method Display(x: nat, y: nat, n: nat)
      requires Valid() && x < NumRegisters && y < NumRegisters && I + n <= RamSize
      requires Fits(SpriteColumn(V[x]), V[y], ram[I .. I + n])
      modifies V, renderData
      ensures Abs() == DrawSprite(old(Abs()), x, y, n)
    {
      var x0 := V[x] % Width;
      var y0 := V[y];
      var i := I;
      var setFlag := false;
      ghost var rows := ram[I .. I + n];
      ghost var fb := renderData[..];
      assert Fits(x0, y0, rows);
      var row := 0;
      while row < n
        invariant row <= n && i == I + row
        invariant V[..] == old(V[..])
        invariant DrawnBefore(fb, renderData[..], setFlag, x0, y0, rows, row, 0)
      {
        var mask: nat := 0x80;
        var col := 0;
        assert Pow2(7) == 0x80 by {
          assert Pow2(2) == 4 && Pow2(4) == 16 && Pow2(6) == 64;
        }
        while col < 8
          invariant col <= 8 && (col < 8 ==> mask == Pow2(7 - col))
          invariant V[..] == old(V[..])
          invariant DrawnBefore(fb, renderData[..], setFlag, x0, y0, rows, row, col)
        {
          ghost var cur, flag := renderData[..], setFlag;
          assert ram[i] == rows[row];
          if ram[i] / mask % 2 == 1 {
            assert CellSet(rows, row, col);
            var pos := (x0 + col) + (y0 + row) * Width;
            renderData[pos] := !renderData[pos];
            if !renderData[pos] {
              setFlag := true;
            }
          }
          DrawCellStep(fb, cur, renderData[..], flag, setFlag, x0, y0, rows, row, col);
          mask := mask / 2;
          col := col + 1;
        }
        forall p | 0 <= p < Size
          ensures CoveredBefore(x0, y0, rows, p, row, 8) == CoveredBefore(x0, y0, rows, p, row + 1, 0)
        {
          CoverRowStep(x0, y0, rows, row, p);
        }
        i := i + 1;
        row := row + 1;
      }
      assert setFlag == Collides(fb, x0, y0, rows);
      V[VF] := if setFlag then 1 else 0;
      assert renderData[..] == Draw(fb, x0, y0, rows);
    }
  }
}
