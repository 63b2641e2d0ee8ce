/** Operand bytes of the assembler (i386-asm.c, asm_modrm), and the way a processor reads them:
    Intel 64 and IA-32 Software Developer's Manual, volume 2A, section 2.1.5. */
module ModRm {
  import opened Bytes
  import opened CodeBuffer
  import opened JumpChain

  const NONE: int := -1
  const ESP: nat := 4
  const EBP: nat := 5

  /** A 64-bit value of the assembler's expressions. */
  type Word64 = v: int | 0 <= v < 0x1_0000_0000_0000_0000

  /** A register, or base, index, scale and displacement; sym: the displacement has a symbol. */
  datatype Operand =
    | Direct(reg: int)
    | Memory(base: int, index: int, shift: nat, v: Word64, sym: bool)
  {
    predicate Ok() {
      match this
      case Direct(r) => 0 <= r < 8
      case Memory(b, i, s, _, _) => -1 <= b < 8 && -1 <= i < 8 && s < 4
    }
  }

  /** Equal to itself as a sign-extended byte. */
  predicate IsByte(v: Word64) {
    v < 0x80 || v >= 0xffff_ffff_ffff_ff80
  }

  /** mod, shifted. */
  function Mod(op: Operand): (m: byte)
    requires op.Memory?
    ensures m == 0 || m == 0x40 || m == 0x80
  {
    if op.base == NONE then 0
    else if op.v == 0 && !op.sym && op.base != EBP then 0
    else if IsByte(op.v) && !op.sym then 0x40
    else 0x80
  }

  function Displacement(op: Operand): seq<byte>
    requires op.Memory?
  {
    if Mod(op) == 0x40 then [op.v % 256]
    else if Mod(op) == 0x80 || op.base == NONE then Le32(op.v)
    else []
  }

  /** The register in the ModR/M byte: esp announces a SIB byte. */
  function Rm(op: Operand): int
    requires op.Memory?
  {
    if op.base == NONE && op.index == NONE then EBP else if op.index != NONE then ESP else op.base
  }

  function Sib(op: Operand): seq<byte>
    requires op.Memory? && op.Ok()
  {
    if Rm(op) == ESP then
      var b := if op.base == NONE then EBP else op.base;
      var i := if op.index == NONE then ESP else op.index;
      [op.shift * 64 + i * 8 + b]
    else
      []
  }

  function Registers(reg: nat, op: Operand): seq<byte>
    requires reg < 8 && op.Memory? && op.Ok()
  {
    [Mod(op) + reg * 8 + Rm(op)] + Sib(op)
  }

  function Encode(reg: nat, op: Operand): seq<byte>
    requires reg < 8 && op.Ok()
  {
    match op
    case Direct(r) => [0xc0 + reg * 8 + r]
    case Memory(_, _, _, _, _) => Registers(reg, op) + Displacement(op)
  }

  /** The displacement, for a mod that was chosen. */
  method EmitDisplacement(code: Code, op: Operand, mod: byte)
    requires op.Memory? && mod == Mod(op) && code.Valid() && code.ind + 4 < INT_LIMIT
    modifies code, code.data
    ensures code.Valid() && code.jumps == old(code.jumps) && code.nocodeWanted == old(code.nocodeWanted)
    ensures code.data == old(code.data) || fresh(code.data)
    ensures code.nocodeWanted ==>
      code.ind == old(code.ind) && code.data == old(code.data) && code.data[..] == old(code.data[..])
    ensures !code.nocodeWanted ==> code.ind == old(code.ind) + |Displacement(op)|
    ensures !code.nocodeWanted ==> code.data[..code.ind] == old(code.data[..code.ind]) + Displacement(op)
  {
    hide Le32, Jumps.Wired, Mod, IsByte;
    if mod == 0x40 {
      code.G(op.v);
    } else if mod == 0x80 || op.base == NONE {
      code.GenLe32(op.v);
    }
  }

  /** The ModR/M byte and, if there is one, the SIB byte. */
  method EmitRegisters(code: Code, reg: nat, op: Operand, mod: byte, sibBase: nat)
    requires reg < 8 && op.Memory? && op.Ok() && mod == Mod(op) && code.Valid() && code.ind + 2 < INT_LIMIT
    requires !(op.base == NONE && op.index == NONE) && sibBase == if op.base == NONE then EBP else op.base
    modifies code, code.data
    ensures code.Valid() && code.jumps == old(code.jumps) && code.nocodeWanted == old(code.nocodeWanted)
    ensures code.data == old(code.data) || fresh(code.data)
    ensures code.nocodeWanted ==>
      code.ind == old(code.ind) && code.data == old(code.data) && code.data[..] == old(code.data[..])
    ensures !code.nocodeWanted ==> code.ind == old(code.ind) + |Registers(reg, op)|
    ensures !code.nocodeWanted ==> code.data[..code.ind] == old(code.data[..code.ind]) + Registers(reg, op)
  {
    hide Jumps.Wired, Mod, IsByte;
    var reg1 := op.base;
    if op.index != NONE {
      reg1 := 4;
    }
    code.G(mod + reg * 8 + reg1);
    if reg1 == 4 {
      var reg2 := op.index;
      if reg2 == NONE {
        reg2 := 4;
      }
      code.G(op.shift * 64 + reg2 * 8 + sibBase);
    }
  }

  /** asm_modrm, for displacements that are not relative to the program counter. */
  method AsmModrm(code: Code, reg: nat, op: Operand)
    requires reg < 8 && op.Ok()
    requires code.Valid() && code.ind + 6 < INT_LIMIT
    modifies code, code.data
    ensures code.Valid() && code.jumps == old(code.jumps) && code.nocodeWanted == old(code.nocodeWanted)
    ensures code.data == old(code.data) || fresh(code.data)
    ensures code.nocodeWanted ==>
      code.ind == old(code.ind) && code.data == old(code.data) && code.data[..] == old(code.data[..])
    ensures !code.nocodeWanted ==> code.ind == old(code.ind) + |Encode(reg, op)|
    ensures !code.nocodeWanted ==> code.data[..code.ind] == old(code.data[..code.ind]) + Encode(reg, op)
  {
    hide Le32, Jumps.Wired;
    if op.Direct? {
      code.G(0xc0 + reg * 8 + op.reg);
    } else if op.base == NONE && op.index == NONE {
      code.G(0x05 + reg * 8);
      code.GenLe32(op.v);
    } else {
      var sibBase, mod := op.base, 0;
      if sibBase == NONE {
        sibBase := EBP;
      } else if op.v == 0 && !op.sym && op.base != EBP {
      } else if IsByte(op.v) && !op.sym {
        mod := 0x40;
      } else {
        mod := 0x80;
      }
      EmitRegisters(code, reg, op, mod, sibBase);
      EmitDisplacement(code, op, mod);
    }
  }

  // ---------------------------------------------------------------- the processor's view

  /** What the bytes mean; the displacement is a 32-bit address offset. */
  datatype Address = Register(r: nat) | Effective(base: int, index: int, scale: nat, disp: nat)

  datatype Decoded = Decoded(reg: nat, address: Address, length: nat) | Short

  /** Table 2-2: ModR/M with 32-bit addressing; table 2-3: the SIB byte. */
  function Decode(s: seq<byte>): Decoded {
    if s == [] then Short
    else
      var mod, reg, rm := s[0] / 64, s[0] / 8 % 8, s[0] % 8;
      if mod == 3 then Decoded(reg, Register(rm), 1)
      else if rm == ESP then
        if |s| < 2 then Short
        else
          var scale, index, base := s[1] / 64, s[1] / 8 % 8, s[1] % 8;
          var i, f := if index == ESP then NONE else index, if index == ESP then 0 else scale;
          if mod == 0 && base == EBP then WithDisp(s, reg, NONE, i, f, 2, 4)
          else WithDisp(s, reg, base, i, f, 2, DispSize(mod))
      else if mod == 0 && rm == EBP then WithDisp(s, reg, NONE, NONE, 0, 1, 4)
      else WithDisp(s, reg, rm, NONE, 0, 1, DispSize(mod))
  }

  function DispSize(mod: nat): nat {
    if mod == 0 then 0 else if mod == 1 then 1 else 4
  }

  function WithDisp(s: seq<byte>, reg: nat, base: int, index: int, scale: nat, at: nat, size: nat): Decoded {
    if |s| < at + size then Short
    else if size == 0 then Decoded(reg, Effective(base, index, scale, 0), at)
    else if size == 1 then
      var b: int := s[at];
      Decoded(reg, Effective(base, index, scale, Wrap32(if b < 128 then b else b - 256)), at + 1)
    else if at + 4 <= |s| then Decoded(reg, Effective(base, index, scale, Read32(s, at)), at + 4)
    else Short
  }

  /** What the assembler was asked for; a scale without an index means nothing. */
  function Meant(op: Operand): Address
    requires op.Ok()
  {
    match op
    case Direct(r) => Register(r)
    case Memory(b, i, f, v, _) => Effective(b, i, if i == NONE then 0 else f, Wrap32(v))
  }

  lemma Fields(mod: nat, reg: nat, rm: nat)
    requires mod < 4 && reg < 8 && rm < 8
    ensures (mod * 64 + reg * 8 + rm) / 64 == mod
    ensures (mod * 64 + reg * 8 + rm) / 8 % 8 == reg && (mod * 64 + reg * 8 + rm) % 8 == rm
  {
    assert (mod * 64 + reg * 8 + rm) / 8 == mod * 8 + reg;
  }

  lemma ByteMeans(v: Word64)
    requires IsByte(v)
    ensures var b := v % 256; Wrap32(if b < 128 then b else b - 256) == Wrap32(v)
  {
    var b := v % 256;
    if v >= 0x80 {
      var w: int := v - 0x1_0000_0000_0000_0000;
      assert b == w + 256;
      WrapCongruent(w, v, -0x1_0000_0000);
    }
  }

  /** The displacement is read back, with what stands before it. */
  lemma DispMeans(head: seq<byte>, op: Operand, reg: nat, base: int, index: int, scale: nat)
    requires op.Memory? && op.Ok()
    ensures var s := head + Displacement(op);
      WithDisp(s, reg, base, index, scale, |head|, |Displacement(op)|)
        == Decoded(reg, Effective(base, index, scale, Wrap32(op.v)), |s|)
  {
    hide Le32, Read32;
    var s := head + Displacement(op);
    if Mod(op) == 0x40 {
      ByteMeans(op.v);
      assert s[|head|] == op.v % 256;
    } else if Mod(op) == 0x80 || op.base == NONE {
      assert s[|head|..|head| + 4] == Le32(op.v);
      ReadAt(s, |head|, op.v);
    }
  }

  /** The bytes mean the operand exactly when its index is not esp. */
  lemma ModrmRoundTrip(reg: nat, op: Operand)
    requires reg < 8 && op.Ok()
    ensures Decode(Encode(reg, op)) == Decoded(reg, Meant(op), |Encode(reg, op)|) <==> !(op.Memory? && op.index == ESP)
  {
    hide Le32, Read32, Wrap32, WithDisp;
    var s := Encode(reg, op);
    if op.Direct? {
      Fields(3, reg, op.reg);
    } else {
      var mod := Mod(op) / 64;
      Fields(mod, reg, Rm(op));
      assert s[0] == mod * 64 + reg * 8 + Rm(op);
      if Rm(op) == ESP {
        var b := if op.base == NONE then EBP else op.base;
        var i := if op.index == NONE then ESP else op.index;
        Fields(op.shift, i, b);
        assert s[1] == op.shift * 64 + i * 8 + b;
        DispMeans(s[..2], op, reg, op.base, if i == ESP then NONE else i, if i == ESP then 0 else op.shift);
        assert s == s[..2] + Displacement(op);
      } else {
        DispMeans(s[..1], op, reg, op.base, NONE, 0);
        assert s == s[..1] + Displacement(op);
      }
    }
  }

  /** A displacement with a symbol always has the four bytes that its relocation patches, at the end. */
  lemma SymbolTakesFour(reg: nat, op: Operand)
    requires reg < 8 && op.Ok() && op.Memory? && op.sym
    ensures var s := Encode(reg, op); |s| >= 5 && s[|s| - 4..] == Le32(op.v)
  {
    hide Le32;
    var s := Encode(reg, op);
    assert s == Registers(reg, op) + Le32(op.v);
  }

  /** The displacement is as short as its value allows: none for zero, but for a base of ebp; one byte
      for a value from -128 to 127; and four for others, for a symbol and without a base. */
  lemma DisplacementShort(op: Operand)
    requires op.Memory? && op.Ok()
    ensures var d := if op.v < 0x8000_0000_0000_0000 then op.v else op.v - 0x1_0000_0000_0000_0000;
      |Displacement(op)| ==
        if op.base == NONE || op.sym || !(-128 <= d < 128) then 4 else if d == 0 && op.base != EBP then 0 else 1
  {
  }
}
