/** The DWARF line program: the operations the compiler writes (tccdbg.c) and the decoder that
    finds the line of an address (tccrun.c). */
module LineProgram {
  import opened Bytes
  import opened Leb128

  const LINE_BASE: int := -5
  const LINE_RANGE: nat := 14
  const OPCODE_BASE: nat := 13
  const LNS_ADVANCE_PC: byte := 2
  const LNS_ADVANCE_LINE: byte := 3
  const LNS_SET_FILE: byte := 4
  const LNS_CONST_ADD_PC: byte := 8
  const LNS_FIXED_ADVANCE_PC: byte := 9
  const LNE_SET_ADDRESS: byte := 2
  const LNE_DEFINE_FILE: byte := 3

  /** dwarf_line_opcodes: the operands of each standard opcode. */
  const OPCODE_LENGTHS: seq<nat> := [0, 1, 1, 1, 1, 0, 0, 0, 1, 0, 0, 1]

  // ---------------------------------------------------------------- operations

  datatype Op =
    | SetFile(file: nat)
    | AdvancePc(delta: nat)
    | AdvanceLine(lines: int)
    | Special(opcode: nat)

  predicate Writable(op: Op) {
    match op
    case SetFile(f) => f < WORD
    case AdvancePc(d) => d < U64
    case AdvanceLine(d) => -(U64 / 2) <= d < U64 / 2
    case Special(n) => OPCODE_BASE <= n < 256
  }

  function Encode(op: Op): seq<byte>
    requires Writable(op)
  {
    match op
    case SetFile(f) => [LNS_SET_FILE] + Uleb(f)
    case AdvancePc(d) => [LNS_ADVANCE_PC] + Uleb(d)
    case AdvanceLine(d) => [LNS_ADVANCE_LINE] + Sleb(d)
    case Special(n) => [n]
  }

  ghost predicate AllWritable(ops: seq<Op>) {
    forall i :: 0 <= i < |ops| ==> Writable(ops[i])
  }

  ghost function EncodeAll(ops: seq<Op>): seq<byte>
    requires AllWritable(ops)
  {
    if ops == [] then [] else Encode(ops[0]) + EncodeAll(ops[1..])
  }

  lemma WritableConcat(a: seq<Op>, b: seq<Op>)
    requires AllWritable(a) && AllWritable(b)
    ensures AllWritable(a + b)
  {
    hide Writable;
    forall i | 0 <= i < |a + b| ensures Writable((a + b)[i]) {
      assert (a + b)[i] == if i < |a| then a[i] else b[i - |a|];
    }
  }

  lemma {:induction false} EncodeAppend(a: seq<Op>, b: seq<Op>)
    requires AllWritable(a) && AllWritable(b)
    ensures AllWritable(a + b) && EncodeAll(a + b) == EncodeAll(a) + EncodeAll(b)
    decreases |a|
  {
    hide Encode, Writable;
    if a == [] {
      assert a + b == b;
    } else {
      WritableConcat(a, b);
      EncodeAppend(a[1..], b);
      assert (a + b)[1..] == a[1..] + b;
      assert EncodeAll(a + b) == Encode(a[0]) + EncodeAll(a[1..] + b);
    }
  }

  /** The registers of the line-number machine; addresses have 32 bits. */
  datatype Regs = Regs(pc: nat, line: int, file: nat)

  /** What an operation does (DWARF 5, sections 6.2.5.1 and 6.2.5.2). */
  function Apply(op: Op, r: Regs): Regs {
    match op
    case SetFile(f) => r.(file := f)
    case AdvancePc(d) => r.(pc := Wrap32(r.pc + d))
    case AdvanceLine(d) => r.(line := r.line + d)
    case Special(n) =>
      r.(pc := Wrap32(r.pc + (n - OPCODE_BASE) / LINE_RANGE),
         line := r.line + (n - OPCODE_BASE) % LINE_RANGE + LINE_BASE)
  }

  ghost function ApplyAll(ops: seq<Op>, r: Regs): Regs {
    if ops == [] then r else ApplyAll(ops[1..], Apply(ops[0], r))
  }

  /** The line table: special opcodes append a row. */
  ghost function Rows(ops: seq<Op>, r: Regs): seq<Regs> {
    if ops == [] then [] else (if ops[0].Special? then [Apply(ops[0], r)] else []) + Rows(ops[1..], Apply(ops[0], r))
  }

  // ---------------------------------------------------------------- the decoder

  datatype Outcome = Found(line: int, file: nat) | NotFound(regs: Regs)

  /** One turn of the loop of rt_printline_dwarf: the registers at check_pc and at the end. */
  datatype Turn = Turn(next: nat, mid: Regs, after: Regs, check: bool, stop: bool)

  function SkipString(s: seq<byte>, ln: nat, end: nat): (next: nat)
    requires end <= |s|
    ensures next >= ln
    decreases end - ln
  {
    if ln >= end then ln else if s[ln] == 0 then ln + 1 else SkipString(s, ln + 1, end)
  }

  lemma UlebForward(s: seq<byte>, cp: nat, end: nat, i: nat, acc: nat)
    requires end <= |s| && i <= MAX_BYTES
    ensures UlebFrom(s, cp, end, i, acc).1 >= cp
    decreases MAX_BYTES - i
  {
  }

  lemma SlebForward(s: seq<byte>, cp: nat, end: nat, i: nat, acc: nat)
    requires end <= |s| && i <= MAX_BYTES
    ensures SlebFrom(s, cp, end, i, acc).1 >= cp
    decreases MAX_BYTES - i
  {
  }

  function SkipUleb(s: seq<byte>, ln: nat, end: nat, n: nat): (next: nat)
    requires end <= |s|
    ensures next >= ln
    decreases n
  {
    if n == 0 then ln
    else
      UlebForward(s, ln, end, 0, 0);
      SkipUleb(s, ReadUleb(s, ln, end).1, end, n - 1)
  }

  /** An extended operation, whose length stands at ln. */
  function ExtendedTurn(s: seq<byte>, ln: nat, end: nat, r: Regs): (t: Turn)
    requires end <= |s|
    ensures t.next >= ln
  {
    UlebForward(s, ln, end, 0, 0);
    var (size, cp) := ReadUleb(s, ln, end);
    var len := Wrap32(size);
    if len == 0 then
      Turn(end + ln, r, r, false, true)
    else
      var (op, arg) := ReadByte(s, cp, end);
      if op == LNE_SET_ADDRESS then
        var r' := r.(pc := if arg + 3 < end then Read32(s, arg) else 0);
        Turn(cp + len, r', r', false, false)
      else if op == LNE_DEFINE_FILE then
        Turn(SkipUleb(s, SkipString(s, cp + len, end), end, 3), r, r, false, false)
      else
        Turn(cp + len, r, r, false, false)
  }

  /** An operation with opcode i below the special ones; ln is behind the opcode. */
  function StandardTurn(s: seq<byte>, i: byte, ln: nat, end: nat, r: Regs): (t: Turn)
    requires ln <= end <= |s| && i < OPCODE_BASE
    ensures t.next >= ln
  {
    UlebForward(s, ln, end, 0, 0);
    SlebForward(s, ln, end, 0, 0);
    if i == 0 then
      ExtendedTurn(s, ln, end, r)
    else if i == LNS_ADVANCE_PC then
      var (d, next) := ReadUleb(s, ln, end);
      var r' := r.(pc := Wrap32(r.pc + d));
      Turn(next, r', r', true, false)
    else if i == LNS_ADVANCE_LINE then
      var (d, next) := ReadSleb(s, ln, end);
      Turn(next, r, r.(line := r.line + d), false, false)
    else if i == LNS_SET_FILE then
      var (f, next) := ReadUleb(s, ln, end);
      Turn(next, r, r.(file := Wrap32(f)), false, false)
    else if i == LNS_CONST_ADD_PC then
      var r' := r.(pc := Wrap32(r.pc + (255 - OPCODE_BASE) / LINE_RANGE));
      Turn(ln, r', r', true, false)
    else if i == LNS_FIXED_ADVANCE_PC then
      var has := ln + 1 < end;
      var d := if has then s[ln] as int + 256 * s[ln + 1] as int else 0;
      var r' := r.(pc := Wrap32(r.pc + d));
      Turn(if has then ln + 2 else ln, r', r', true, false)
    else
      Turn(SkipUleb(s, ln, end, OPCODE_LENGTHS[i - 1]), r, r, false, false)
  }

  function DecodeTurn(s: seq<byte>, ln: nat, end: nat, r: Regs): (t: Turn)
    requires ln < end <= |s|
    ensures t.next > ln
  {
    var i := s[ln];
    if i >= OPCODE_BASE then
      var mid := r.(pc := Wrap32(r.pc + (i - OPCODE_BASE) / LINE_RANGE));
      Turn(ln + 1, mid, mid.(line := r.line + (i - OPCODE_BASE) % LINE_RANGE + LINE_BASE), true, false)
    else
      StandardTurn(s, i, ln + 1, end, r)
  }

  /** The address is found at check_pc, with the line in force before the operation. */
  predicate Hit(before: Regs, mid: Regs, wanted: nat) {
    before.pc <= wanted <= mid.pc
  }

  function Decode(s: seq<byte>, ln: nat, end: nat, r: Regs, wanted: nat): Outcome
    requires end <= |s|
    decreases end - ln
  {
    if ln >= end then
      NotFound(r)
    else
      var t := DecodeTurn(s, ln, end, r);
      if t.check && Hit(r, t.mid, wanted) then Found(r.line, r.file)
      else if t.stop then NotFound(r)
      else Decode(s, t.next, end, t.after, wanted)
  }

  /** The loop over the bytes of a string, up to its terminator. */
  method SkipStringLoop(s: seq<byte>, ln: nat, end: nat) returns (next: nat)
    requires end <= |s|
    ensures next == SkipString(s, ln, end)
  {
    next := ln;
    var c := 1;
    while c != 0
      invariant next >= ln && SkipString(s, ln, end) == if c != 0 then SkipString(s, next, end) else next
      decreases c != 0, end - next
    {
      if next < end {
        c, next := s[next], next + 1;
      } else {
        c := 0;
      }
    }
  }

  /** n unsigned numbers are passed over. */
  method SkipNumbers(s: seq<byte>, ln: nat, end: nat, n: nat) returns (next: nat)
    requires end <= |s|
    ensures next == SkipUleb(s, ln, end, n)
  {
    hide UlebFrom;
    next := ln;
    var j := n;
    while j > 0
      invariant 0 <= j <= n && SkipUleb(s, next, end, j) == SkipUleb(s, ln, end, n)
    {
      var v, after := ReadUlebLoop(s, next, end);
      next := after;
      j := j - 1;
    }
  }

  /** The inner switch of rt_printline_dwarf; ln is behind the zero byte. */
  method ExtendedOpcode(s: seq<byte>, ln: nat, end: nat, r: Regs) returns (t: Turn)
    requires end <= |s|
    ensures t == ExtendedTurn(s, ln, end, r)
  {
    hide UlebFrom, SkipString, SkipUleb;
    var size, cp := ReadUlebLoop(s, ln, end);
    var len := Wrap32(size);
    var next := cp + len;
    if len == 0 {
      return Turn(end + ln, r, r, false, true);
    }
    var op, arg := 0, cp;
    if cp < end {
      op, arg := s[cp], cp + 1;
    }
    var pc := r.pc;
    if op == LNE_SET_ADDRESS {
      pc := 0;
      if arg + 3 < end {
        pc := Read32(s, arg);
      }
    } else if op == LNE_DEFINE_FILE {
      next := SkipStringLoop(s, next, end);
      next := SkipNumbers(s, next, end, 3);
    }
    t := Turn(next, r.(pc := pc), r.(pc := pc), false, false);
  }

  /** The switch of rt_printline_dwarf on an opcode below the special ones; ln is behind it. */
  method StandardOpcode(s: seq<byte>, i: byte, ln: nat, end: nat, r: Regs) returns (t: Turn)
    requires ln <= end <= |s| && i < OPCODE_BASE
    ensures t == StandardTurn(s, i, ln, end, r)
  {
    hide UlebFrom, SlebFrom, ExtendedTurn, SkipUleb;
    if i == 0 {
      t := ExtendedOpcode(s, ln, end, r);
    } else if i == LNS_ADVANCE_PC {
      var d, next := ReadUlebLoop(s, ln, end);
      var r' := r.(pc := Wrap32(r.pc + d));
      t := Turn(next, r', r', true, false);
    } else if i == LNS_ADVANCE_LINE {
      var d, next := ReadSlebLoop(s, ln, end);
      t := Turn(next, r, r.(line := r.line + d), false, false);
    } else if i == LNS_SET_FILE {
      var f, next := ReadUlebLoop(s, ln, end);
      t := Turn(next, r, r.(file := Wrap32(f)), false, false);
    } else if i == LNS_CONST_ADD_PC {
      var r' := r.(pc := Wrap32(r.pc + (255 - OPCODE_BASE) / LINE_RANGE));
      t := Turn(ln, r', r', true, false);
    } else if i == LNS_FIXED_ADVANCE_PC {
      var d, next := 0, ln;
      if ln + 1 < end {
        d, next := s[ln] as int + 256 * s[ln + 1] as int, ln + 2;
      }
      var r' := r.(pc := Wrap32(r.pc + d));
      t := Turn(next, r', r', true, false);
    } else {
      var next := SkipNumbers(s, ln, end, OPCODE_LENGTHS[i - 1]);
      t := Turn(next, r, r, false, false);
    }
  }

  /** The loop of rt_printline_dwarf over one line program. */
  method PrintLine(s: seq<byte>, end: nat, start: Regs, wanted: nat) returns (o: Outcome)
    requires end <= |s|
    ensures o == Decode(s, 0, end, start, wanted)
  {
    hide ExtendedTurn, UlebFrom, SlebFrom, SkipUleb, Read32;
    var ln: nat, pc: nat, line: int, file: nat := 0, start.pc, start.line, start.file;
    while ln < end
      invariant Decode(s, ln, end, Regs(pc, line, file), wanted) == Decode(s, 0, end, start, wanted)
      decreases end - ln
    {
      var lastPc := pc;
      var i := s[ln];
      if i >= OPCODE_BASE {
        pc := Wrap32(pc + (i - OPCODE_BASE) / LINE_RANGE);
        if pc >= wanted && wanted >= lastPc {
          return Found(line, file);
        }
        line := line + (i - OPCODE_BASE) % LINE_RANGE + LINE_BASE;
        ln := ln + 1;
      } else {
        var t := StandardOpcode(s, i, ln + 1, end, Regs(pc, line, file));
        pc := t.mid.pc;
        if t.check && pc >= wanted && wanted >= lastPc {
          return Found(line, file);
        }
        if t.stop {
          return NotFound(Regs(lastPc, line, file));
        }
        ln, pc, line, file := t.next, t.after.pc, t.after.line, t.after.file;
      }
    }
    return NotFound(Regs(pc, line, file));
  }

  // ---------------------------------------------------------------- decoding what was encoded

  /** The same search on operations. */
  ghost function Search(ops: seq<Op>, r: Regs, wanted: nat): Outcome {
    if ops == [] then NotFound(r)
    else
      var after := Apply(ops[0], r);
      if (ops[0].Special? || ops[0].AdvancePc?) && Hit(r, after, wanted) then Found(r.line, r.file)
      else Search(ops[1..], after, wanted)
  }

  lemma StandsParts(s: seq<byte>, ln: nat, end: nat, a: seq<byte>, b: seq<byte>)
    requires Stands(s, ln, end, a + b)
    ensures Stands(s, ln, end, a) && Stands(s, ln + |a|, end, b)
  {
    var m := ln + |a|;
    var whole, front, back := s[ln..ln + |a + b|], s[ln..m], s[m..m + |b|];
    assert forall i :: 0 <= i < |a| ==> front[i] == whole[i] == a[i];
    assert forall i :: 0 <= i < |b| ==> back[i] == whole[|a| + i] == b[i];
    assert front == a && back == b;
  }

  /** The decoder reads one encoded operation back, to its last byte. */
  lemma TurnDecodes(s: seq<byte>, ln: nat, end: nat, op: Op, r: Regs)
    requires Writable(op) && Stands(s, ln, end, Encode(op))
    ensures ln < end
    ensures var t := DecodeTurn(s, ln, end, r);
      t.next == ln + |Encode(op)| && t.after == Apply(op, r) && !t.stop &&
      (t.check <==> op.Special? || op.AdvancePc?) && (t.check ==> t.mid.pc == Apply(op, r).pc)
  {
    hide Uleb, Sleb, UlebFrom, SlebFrom;
    StandsTail(s, ln, end, Encode(op));
    match op
    case SetFile(f) =>
      assert Encode(op)[1..] == Uleb(f);
      UlebRoundTrip(s, ln + 1, end, f);
    case AdvancePc(d) =>
      assert Encode(op)[1..] == Uleb(d);
      UlebRoundTrip(s, ln + 1, end, d);
    case AdvanceLine(d) =>
      assert Encode(op)[1..] == Sleb(d);
      SlebRoundTrip(s, ln + 1, end, d);
    case Special(n) =>
  }

  /** Decoding the bytes of a list of operations is searching the list. */
  lemma {:induction false} DecodeSearches(s: seq<byte>, ln: nat, end: nat, ops: seq<Op>, r: Regs, wanted: nat)
    requires AllWritable(ops) && Stands(s, ln, end, EncodeAll(ops))
    ensures Decode(s, ln, end, r, wanted) ==
      match Search(ops, r, wanted)
      case Found(l, f) => Found(l, f)
      case NotFound(r') => Decode(s, ln + |EncodeAll(ops)|, end, r', wanted)
    decreases |ops|
  {
    hide DecodeTurn, Encode, Apply, Writable, Stands;
    if ops != [] {
      StandsParts(s, ln, end, Encode(ops[0]), EncodeAll(ops[1..]));
      TurnDecodes(s, ln, end, ops[0], r);
      DecodeSearches(s, ln + |Encode(ops[0])|, end, ops[1..], Apply(ops[0], r), wanted);
    }
  }

  lemma {:induction false} SearchAppend(a: seq<Op>, b: seq<Op>, r: Regs, wanted: nat)
    ensures Search(a + b, r, wanted) ==
      match Search(a, r, wanted)
      case Found(l, f) => Found(l, f)
      case NotFound(r') => Search(b, r', wanted)
    decreases |a|
  {
    if a == [] {
      assert a + b == b;
    } else {
      assert (a + b)[1..] == a[1..] + b;
      SearchAppend(a[1..], b, Apply(a[0], r), wanted);
    }
  }

  lemma {:induction false} ApplyAppend(a: seq<Op>, b: seq<Op>, r: Regs)
    ensures ApplyAll(a + b, r) == ApplyAll(b, ApplyAll(a, r))
    decreases |a|
  {
    if a == [] {
      assert a + b == b;
    } else {
      assert (a + b)[1..] == a[1..] + b;
      ApplyAppend(a[1..], b, Apply(a[0], r));
    }
  }

  // ---------------------------------------------------------------- operations of other compilers

  /** DW_LNS_const_add_pc advances the address as special opcode 255 does, and nothing else. */
  lemma ConstAddPc(s: seq<byte>, ln: nat, end: nat, r: Regs)
    requires ln < end <= |s| && s[ln] == LNS_CONST_ADD_PC
    ensures var t := DecodeTurn(s, ln, end, r);
      t == Turn(ln + 1, r.(pc := Apply(Special(255), r).pc), r.(pc := Apply(Special(255), r).pc), true, false)
  {
    hide UlebFrom, SlebFrom;
  }

  /** DW_LNS_fixed_advance_pc adds its two bytes. */
  lemma FixedAdvancePc(s: seq<byte>, ln: nat, end: nat, r: Regs)
    requires ln + 2 < end <= |s| && s[ln] == LNS_FIXED_ADVANCE_PC
    ensures var t := DecodeTurn(s, ln, end, r);
      var after := r.(pc := Wrap32(r.pc + s[ln + 1] as int + 256 * s[ln + 2] as int));
      t == Turn(ln + 3, after, after, true, false)
  {
    hide UlebFrom, SlebFrom;
  }

  /** Operations without operands, and those with one number, are passed over. */
  lemma OthersSkipped(s: seq<byte>, ln: nat, end: nat, r: Regs, v: nat)
    requires ln < end <= |s|
    ensures s[ln] in {1, 6, 7, 10, 11} ==> DecodeTurn(s, ln, end, r) == Turn(ln + 1, r, r, false, false)
    ensures s[ln] in {5, 12} && v < U64 && Stands(s, ln + 1, end, Uleb(v)) ==>
      DecodeTurn(s, ln, end, r) == Turn(ln + 1 + |Uleb(v)|, r, r, false, false)
  {
    hide UlebFrom, SlebFrom, Uleb, Stands;
    if s[ln] in {5, 12} {
      UlebForward(s, ln + 1, end, 0, 0);
      var one := ReadUleb(s, ln + 1, end).1;
      assert SkipUleb(s, one, end, 0) == one;
      assert SkipUleb(s, ln + 1, end, 1) == one;
      if v < U64 && Stands(s, ln + 1, end, Uleb(v)) {
        UlebRoundTrip(s, ln + 1, end, v);
      }
    }
  }

  /** An extended operation ends where its length says; only DW_LNE_set_address changes a register,
      and DW_LNE_define_file alone, which carries a string, is read to its own end. */
  lemma ExtendedSkipped(s: seq<byte>, ln: nat, end: nat, r: Regs, len: nat)
    requires ln < end <= |s| && s[ln] == 0 && 0 < len < WORD && Stands(s, ln + 1, end, Uleb(len))
    requires var cp := ln + 1 + |Uleb(len)|; cp + 4 < end && s[cp] != LNE_DEFINE_FILE
    ensures var cp := ln + 1 + |Uleb(len)|;
      var after := if s[cp] == LNE_SET_ADDRESS then r.(pc := Read32(s, cp + 1)) else r;
      DecodeTurn(s, ln, end, r) == Turn(cp + len, after, after, false, false)
  {
    hide UlebFrom, SlebFrom, Uleb, Stands, Read32, SkipString, SkipUleb;
    UlebRoundTrip(s, ln + 1, end, len);
    assert Wrap32(len) == len;
  }

  /** A string ends with its first zero byte, or where the bytes end. */
  lemma {:induction false} SkipStringMeans(s: seq<byte>, ln: nat, end: nat, t: nat)
    requires ln <= t <= end <= |s| && (forall x :: ln <= x < t ==> s[x] != 0) && (t < end ==> s[t] == 0)
    ensures SkipString(s, ln, end) == if t < end then t + 1 else end
    decreases t - ln
  {
    if ln < t {
      SkipStringMeans(s, ln + 1, end, t);
    }
  }

  /** DW_LNE_define_file: behind its length, a string and three numbers are passed over. */
  lemma DefineFileSkipped(s: seq<byte>, ln: nat, end: nat, r: Regs, len: nat, t: nat, a: nat, b: nat, c: nat)
    requires ln < end <= |s| && s[ln] == 0 && 0 < len < WORD && Stands(s, ln + 1, end, Uleb(len))
    requires var cp := ln + 1 + |Uleb(len)|; cp < end && s[cp] == LNE_DEFINE_FILE && cp + len <= t < end
    requires var cp := ln + 1 + |Uleb(len)|; (forall x :: cp + len <= x < t ==> s[x] != 0) && s[t] == 0
    requires a < U64 && b < U64 && c < U64 && Stands(s, t + 1, end, Uleb(a) + Uleb(b) + Uleb(c))
    ensures DecodeTurn(s, ln, end, r) == Turn(t + 1 + |Uleb(a) + Uleb(b) + Uleb(c)|, r, r, false, false)
  {
    hide UlebFrom, SlebFrom, Uleb, Stands, Read32, SkipString, SkipUleb;
    UlebRoundTrip(s, ln + 1, end, len);
    assert Wrap32(len) == len;
    SkipStringMeans(s, ln + 1 + |Uleb(len)| + len, end, t);
    ThreeSkipped(s, t + 1, end, a, b, c);
  }

  lemma ThreeSkipped(s: seq<byte>, ln: nat, end: nat, a: nat, b: nat, c: nat)
    requires a < U64 && b < U64 && c < U64 && Stands(s, ln, end, Uleb(a) + Uleb(b) + Uleb(c)) && end <= |s|
    ensures SkipUleb(s, ln, end, 3) == ln + |Uleb(a) + Uleb(b) + Uleb(c)|
  {
    hide UlebFrom, Uleb, Stands;
    StandsParts(s, ln, end, Uleb(a) + Uleb(b), Uleb(c));
    StandsParts(s, ln, end, Uleb(a), Uleb(b));
    var x, y := ln + |Uleb(a)|, ln + |Uleb(a) + Uleb(b)|;
    UlebRoundTrip(s, ln, end, a);
    UlebRoundTrip(s, x, end, b);
    UlebRoundTrip(s, y, end, c);
    SkipNext(s, ln, end, 2);
    SkipNext(s, x, end, 1);
    SkipNext(s, y, end, 0);
    SkipNone(s, y + |Uleb(c)|, end);
  }

  lemma SkipNext(s: seq<byte>, ln: nat, end: nat, n: nat)
    requires end <= |s|
    ensures SkipUleb(s, ln, end, n + 1) == SkipUleb(s, ReadUleb(s, ln, end).1, end, n)
  {
    hide UlebFrom;
  }

  lemma SkipNone(s: seq<byte>, ln: nat, end: nat)
    requires end <= |s|
    ensures SkipUleb(s, ln, end, 0) == ln
  {
  }
}
