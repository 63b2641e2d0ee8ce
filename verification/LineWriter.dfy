/** The compiler's line-number output (tccdbg.c), proved against the decoder. */
module LineWriter {
  import opened Bytes
  import opened Leb128
  import opened LineProgram

  /** A position reported to tcc_debug_line and written by it. */
  datatype Call = Call(pc: nat, line: nat, file: nat)

  const START: Call := Call(0, 1, 0)

  /** Values of C ints for which the special-opcode formula does not overflow. */
  predicate InRange(prev: Call, cur: Call) {
    var scaled := (cur.pc - prev.pc) * LINE_RANGE;
    prev.pc < INT_LIMIT && cur.pc < INT_LIMIT && prev.line < INT_LIMIT && cur.line < INT_LIMIT &&
    cur.file < INT_LIMIT && -INT_LIMIT <= scaled < INT_LIMIT &&
    -INT_LIMIT <= scaled + (cur.line - prev.line) + OPCODE_BASE - LINE_BASE < INT_LIMIT
  }

  /** An operand converted from int to unsigned long long. */
  function Unsigned64(d: int): nat
    requires -U64 <= d < U64
  {
    if d < 0 then d + U64 else d
  }

  predicate SmallStep(lines: int) {
    LINE_BASE <= lines <= OPCODE_BASE + LINE_BASE
  }

  function PcOps(lenPc: int): seq<Op>
    requires -INT_LIMIT <= lenPc < INT_LIMIT
  {
    var n := lenPc * LINE_RANGE + OPCODE_BASE - LINE_BASE;
    if lenPc == 0 then []
    else if OPCODE_BASE <= n <= 255 then [Special(n)]
    else [AdvancePc(Unsigned64(lenPc))]
  }

  function LineOps(lenLine: int): seq<Op> {
    var n := lenLine + OPCODE_BASE - LINE_BASE;
    if lenLine == 0 then []
    else if SmallStep(lenLine) && OPCODE_BASE <= n <= 255 then [Special(n)]
    else [AdvanceLine(lenLine), Special(OPCODE_BASE - LINE_BASE)]
  }

  function FileOps(prev: Call, cur: Call): seq<Op> {
    if cur.file != prev.file then [SetFile(cur.file)] else []
  }

  /** The operations tcc_debug_line writes to get from prev to cur. */
  function StepOps(prev: Call, cur: Call): seq<Op>
    requires InRange(prev, cur)
  {
    var lenPc, lenLine := cur.pc - prev.pc, cur.line - prev.line;
    var n := lenPc * LINE_RANGE + lenLine + OPCODE_BASE - LINE_BASE;
    FileOps(prev, cur) +
    if lenPc != 0 && SmallStep(lenLine) && OPCODE_BASE <= n <= 255 then [Special(n)]
    else PcOps(lenPc) + LineOps(lenLine)
  }

  /** The decoder's registers after cur, for code loaded at base. */
  function RegsAt(cur: Call, base: nat): Regs {
    Regs(Wrap32(base + cur.pc), cur.line, cur.file)
  }

  ghost function LastOf(calls: seq<Call>): Call {
    if calls == [] then START else calls[|calls| - 1]
  }

  ghost predicate AllInRange(calls: seq<Call>) {
    forall i :: 0 <= i < |calls| ==> InRange(LastOf(calls[..i]), calls[i])
  }

  /** Everything written for a run of calls. */
  ghost function OpsOf(calls: seq<Call>): seq<Op>
    requires AllInRange(calls)
    decreases |calls|
  {
    if calls == [] then []
    else
      var n := |calls| - 1;
      assert forall i :: 0 <= i < n ==> calls[..n][..i] == calls[..i];
      OpsOf(calls[..n]) + StepOps(LastOf(calls[..n]), calls[n])
  }

  // ---------------------------------------------------------------- one call

  lemma WrapTwice(x: int, d: int)
    ensures Wrap32(Wrap32(x) + d) == Wrap32(x + d)
  {
    WrapCongruent(Wrap32(x) + d, x + d, -(x / WORD));
  }

  lemma StepWritable(prev: Call, cur: Call)
    requires InRange(prev, cur)
    ensures AllWritable(StepOps(prev, cur))
  {
  }

  lemma ApplyTwo(a: Op, b: Op, r: Regs)
    ensures ApplyAll([a, b], r) == Apply(b, Apply(a, r)) && Rows([a, b], r) == Rows([a], r) + Rows([b], Apply(a, r))
  {
    assert [a, b][1..] == [b] && [b][1..] == [] && [a][1..] == [];
    var row := if a.Special? then [Apply(a, r)] else [];
    assert Rows([a, b], r) == row + Rows([b], Apply(a, r));
    assert Rows([a], r) == row + Rows([], Apply(a, r)) == row;
    assert ApplyAll([a, b], r) == ApplyAll([b], Apply(a, r)) == ApplyAll([], Apply(b, Apply(a, r)));
  }

  lemma PcOpsReach(r: Regs, base: nat, prev: Call, cur: Call)
    requires InRange(prev, cur) && r.pc == Wrap32(base + prev.pc)
    ensures ApplyAll(PcOps(cur.pc - prev.pc), r) == r.(pc := Wrap32(base + cur.pc))
  {
    hide Wrap32;
    var d := cur.pc - prev.pc;
    AdvanceWraps(base + prev.pc, d);
    hide InRange;
    if d == 0 {
      return;
    }
    var n := d * LINE_RANGE + OPCODE_BASE - LINE_BASE;
    assert OPCODE_BASE <= n <= 255 ==>
      (n - OPCODE_BASE) / LINE_RANGE == d && (n - OPCODE_BASE) % LINE_RANGE == -LINE_BASE;
    hide Unsigned64;
  }

  lemma AdvanceWraps(x: int, d: int)
    requires -U64 <= d < U64
    ensures Wrap32(Wrap32(x) + d) == Wrap32(x + d) && Wrap32(Wrap32(x) + Unsigned64(d)) == Wrap32(x + d)
  {
    WrapTwice(x, Unsigned64(d));
    WrapTwice(x, d);
    WrapCongruent(x + Unsigned64(d), x + d, if d < 0 then WORD else 0);
  }

  lemma LineOpsReach(r: Regs, lines: int)
    ensures ApplyAll(LineOps(lines), r).line == r.line + lines
    ensures ApplyAll(LineOps(lines), r).file == r.file
    ensures ApplyAll(LineOps(lines), r).pc == Wrap32(r.pc) || lines == 0
    ensures lines == 0 ==> ApplyAll(LineOps(lines), r).pc == r.pc
    ensures lines != 0 ==> EndsInRow(LineOps(lines), r)
  {
    var n := lines + OPCODE_BASE - LINE_BASE;
    if lines != 0 && !(SmallStep(lines) && OPCODE_BASE <= n <= 255) {
      ApplyTwo(AdvanceLine(lines), Special(OPCODE_BASE - LINE_BASE), r);
    }
  }

  /** The last operation appends a row that shows the registers as they are then. */
  ghost predicate EndsInRow(ops: seq<Op>, r: Regs) {
    ops != [] && ops[|ops| - 1].Special? && Rows(ops, r) != [] && Rows(ops, r)[|Rows(ops, r)| - 1] == ApplyAll(ops, r)
  }

  lemma {:induction false} EndsInRowAppend(a: seq<Op>, b: seq<Op>, r: Regs)
    requires EndsInRow(b, ApplyAll(a, r))
    ensures EndsInRow(a + b, r)
    decreases |a|
  {
    if a == [] {
      assert a + b == b;
    } else {
      assert (a + b)[1..] == a[1..] + b;
      EndsInRowAppend(a[1..], b, Apply(a[0], r));
    }
  }

  /** The registers before a call: the file register is right once a file was written. */
  ghost predicate Ready(prev: Call, r: Regs, base: nat) {
    r.pc == Wrap32(base + prev.pc) && r.line == prev.line && (prev != START ==> r.file == prev.file)
  }

  /** Each call brings the decoder to its address and line, for any address, forwards or
      backwards; a call that changes the line ends by adding a row for exactly this position. */
  lemma StepReaches(prev: Call, cur: Call, r: Regs, base: nat)
    requires InRange(prev, cur) && Ready(prev, r, base) && cur.file > 0
    ensures ApplyAll(StepOps(prev, cur), r) == RegsAt(cur, base)
    ensures cur.line != prev.line ==> EndsInRow(StepOps(prev, cur), r)
  {
    hide Apply, ApplyAll, Rows, EndsInRow, PcOps, LineOps, SmallStep;
    var lenPc, lenLine := cur.pc - prev.pc, cur.line - prev.line;
    var n := lenPc * LINE_RANGE + lenLine + OPCODE_BASE - LINE_BASE;
    var front := FileOps(prev, cur);
    var r1 := r.(file := cur.file);
    FileReaches(prev, cur, r, base);
    if lenPc != 0 && SmallStep(lenLine) && OPCODE_BASE <= n <= 255 {
      SpecialReaches(prev, cur, r1, base);
      ApplyAppend(front, [Special(n)], r);
      EndsInRowAppend(front, [Special(n)], r);
    } else {
      BothReach(prev, cur, r1, base);
      ApplyAppend(front, PcOps(lenPc) + LineOps(lenLine), r);
      if lenLine != 0 {
        EndsInRowAppend(front, PcOps(lenPc) + LineOps(lenLine), r);
      }
    }
  }

  lemma FileReaches(prev: Call, cur: Call, r: Regs, base: nat)
    requires Ready(prev, r, base) && cur.file > 0
    ensures ApplyAll(FileOps(prev, cur), r) == r.(file := cur.file)
  {
  }

  lemma BothReach(prev: Call, cur: Call, r: Regs, base: nat)
    requires InRange(prev, cur) && r.pc == Wrap32(base + prev.pc) && r.line == prev.line
    ensures var ops := PcOps(cur.pc - prev.pc) + LineOps(cur.line - prev.line);
      ApplyAll(ops, r) == Regs(Wrap32(base + cur.pc), cur.line, r.file) &&
      (cur.line != prev.line ==> EndsInRow(ops, r))
  {
    hide Apply, ApplyAll, Rows, EndsInRow, PcOps, LineOps;
    var lines := cur.line - prev.line;
    PcOpsReach(r, base, prev, cur);
    var r2 := r.(pc := Wrap32(base + cur.pc));
    LineOpsReach(r2, lines);
    ApplyAppend(PcOps(cur.pc - prev.pc), LineOps(lines), r);
    if lines != 0 {
      EndsInRowAppend(PcOps(cur.pc - prev.pc), LineOps(lines), r);
    }
  }

  /** The special opcode carries both advances at once. */
  lemma SpecialReaches(prev: Call, cur: Call, r: Regs, base: nat)
    requires InRange(prev, cur) && r.pc == Wrap32(base + prev.pc) && r.line == prev.line && r.file == cur.file
    requires SmallStep(cur.line - prev.line)
    requires OPCODE_BASE <= (cur.pc - prev.pc) * LINE_RANGE + (cur.line - prev.line) + OPCODE_BASE - LINE_BASE <= 255
    ensures var op := Special((cur.pc - prev.pc) * LINE_RANGE + (cur.line - prev.line) + OPCODE_BASE - LINE_BASE);
      Apply(op, r) == RegsAt(cur, base) && ApplyAll([op], r) == RegsAt(cur, base) && EndsInRow([op], r)
  {
    var lenPc, lenLine := cur.pc - prev.pc, cur.line - prev.line;
    var m := lenPc * LINE_RANGE + (lenLine - LINE_BASE);
    assert m / LINE_RANGE == lenPc && m % LINE_RANGE == lenLine - LINE_BASE;
    WrapTwice(base + prev.pc, lenPc);
  }

  // ---------------------------------------------------------------- a whole run

  ghost predicate Nonzero(calls: seq<Call>) {
    forall i :: 0 <= i < |calls| ==> calls[i].file > 0
  }

  lemma Prefix(calls: seq<Call>, n: nat)
    requires AllInRange(calls) && n <= |calls|
    ensures AllInRange(calls[..n])
  {
    assert forall i :: 0 <= i < n ==> calls[..n][..i] == calls[..i];
  }

  lemma {:induction false} OpsWritable(calls: seq<Call>)
    requires AllInRange(calls)
    ensures AllWritable(OpsOf(calls))
    decreases |calls|
  {
    if calls != [] {
      var n := |calls| - 1;
      Prefix(calls, n);
      OpsWritable(calls[..n]);
      StepWritable(LastOf(calls[..n]), calls[n]);
    }
  }

  /** After any run of calls the decoder stands at the last address and line, and in the last file. */
  lemma {:induction false} RunReaches(calls: seq<Call>, r: Regs, base: nat)
    requires AllInRange(calls) && Nonzero(calls) && r.pc == Wrap32(base) && r.line == 1
    ensures Ready(LastOf(calls), ApplyAll(OpsOf(calls), r), base)
    decreases |calls|
  {
    hide StepOps, InRange, Wrap32, Apply, EndsInRow;
    if calls != [] {
      var n := |calls| - 1;
      Prefix(calls, n);
      RunReaches(calls[..n], r, base);
      var mid := ApplyAll(OpsOf(calls[..n]), r);
      StepReaches(LastOf(calls[..n]), calls[n], mid, base);
      ApplyAppend(OpsOf(calls[..n]), StepOps(LastOf(calls[..n]), calls[n]), r);
    }
  }

  /** Addresses do not go back and do not wrap at base. */
  ghost predicate Ascending(calls: seq<Call>, base: nat) {
    forall i :: 0 <= i < |calls| ==> LastOf(calls[..i]).pc <= calls[i].pc && base + calls[i].pc < WORD
  }

  lemma PcSearch(r: Regs, base: nat, prev: Call, cur: Call, wanted: nat)
    requires InRange(prev, cur) && prev.pc <= cur.pc && base + cur.pc < WORD
    requires r.pc == base + prev.pc < wanted
    ensures Search(PcOps(cur.pc - prev.pc), r, wanted) ==
      if wanted <= base + cur.pc then Found(r.line, r.file) else NotFound(r.(pc := base + cur.pc))
  {
    var n := (cur.pc - prev.pc) * LINE_RANGE - LINE_BASE;
    assert n / LINE_RANGE == cur.pc - prev.pc && n % LINE_RANGE == -LINE_BASE;
  }

  lemma LineSearch(r: Regs, lines: int, wanted: nat)
    requires r.pc < wanted && r.pc < WORD
    ensures Search(LineOps(lines), r, wanted) == NotFound(r.(line := r.line + lines))
  {
    var n := lines + OPCODE_BASE - LINE_BASE;
    if lines != 0 && !(SmallStep(lines) && OPCODE_BASE <= n <= 255) {
      var a, b := AdvanceLine(lines), Special(OPCODE_BASE - LINE_BASE);
      assert [a, b][1..] == [b] && [b][1..] == [];
      assert Search([a, b], r, wanted) == Search([b], Apply(a, r), wanted);
      assert Search([b], Apply(a, r), wanted) == Search([], Apply(b, Apply(a, r)), wanted);
    }
  }

  lemma BothSearch(prev: Call, cur: Call, r: Regs, base: nat, wanted: nat)
    requires InRange(prev, cur) && prev.pc <= cur.pc && base + cur.pc < WORD
    requires r.pc == base + prev.pc < wanted && r.line == prev.line
    ensures Search(PcOps(cur.pc - prev.pc) + LineOps(cur.line - prev.line), r, wanted) ==
      if wanted <= base + cur.pc then Found(prev.line, r.file) else NotFound(Regs(base + cur.pc, cur.line, r.file))
  {
    hide PcOps, LineOps, Search;
    PcSearch(r, base, prev, cur, wanted);
    SearchAppend(PcOps(cur.pc - prev.pc), LineOps(cur.line - prev.line), r, wanted);
    if wanted > base + cur.pc {
      LineSearch(r.(pc := base + cur.pc), cur.line - prev.line, wanted);
    }
  }

  lemma OneSearch(op: Op, r: Regs, wanted: nat)
    ensures Search([op], r, wanted) ==
      if (op.Special? || op.AdvancePc?) && Hit(r, Apply(op, r), wanted) then Found(r.line, r.file)
      else NotFound(Apply(op, r))
  {
    assert [op][1..] == [];
    assert Search([], Apply(op, r), wanted) == NotFound(Apply(op, r));
  }

  /** Looking an address up inside one step: it is found exactly when the step passes it, with
      the line in force before, but already with the file of the new position. */
  lemma StepSearch(prev: Call, cur: Call, r: Regs, base: nat, wanted: nat)
    requires InRange(prev, cur) && Ready(prev, r, base) && prev.pc <= cur.pc && base + cur.pc < WORD
    requires base + prev.pc < wanted && cur.file > 0
    ensures Search(StepOps(prev, cur), r, wanted) ==
      if wanted <= base + cur.pc then Found(prev.line, cur.file) else NotFound(RegsAt(cur, base))
  {
    hide Search, PcOps, LineOps, Apply;
    var lenPc, lenLine := cur.pc - prev.pc, cur.line - prev.line;
    var n := lenPc * LINE_RANGE + lenLine + OPCODE_BASE - LINE_BASE;
    var front := FileOps(prev, cur);
    var r1 := r.(file := cur.file);
    FileSearch(prev, cur, r, base, wanted);
    if lenPc != 0 && SmallStep(lenLine) && OPCODE_BASE <= n <= 255 {
      SpecialReaches(prev, cur, r1, base);
      OneSearch(Special(n), r1, wanted);
      SearchAppend(front, [Special(n)], r, wanted);
    } else {
      BothSearch(prev, cur, r1, base, wanted);
      SearchAppend(front, PcOps(lenPc) + LineOps(lenLine), r, wanted);
    }
  }

  lemma FileSearch(prev: Call, cur: Call, r: Regs, base: nat, wanted: nat)
    requires Ready(prev, r, base) && cur.file > 0
    ensures Search(FileOps(prev, cur), r, wanted) == NotFound(r.(file := cur.file))
  {
    OneSearch(SetFile(cur.file), r, wanted);
  }

  lemma {:induction false} RunMisses(calls: seq<Call>, r: Regs, base: nat, wanted: nat)
    requires AllInRange(calls) && Nonzero(calls) && Ascending(calls, base)
    requires r.pc == base < WORD && r.line == 1 && base + LastOf(calls).pc < wanted
    ensures Search(OpsOf(calls), r, wanted).NotFound?
    ensures Ready(LastOf(calls), Search(OpsOf(calls), r, wanted).regs, base)
    decreases |calls|
  {
    if calls != [] {
      var n := |calls| - 1;
      Prefix(calls, n);
      assert Ascending(calls[..n], base) by {
        assert forall i :: 0 <= i < n ==> calls[..n][..i] == calls[..i];
      }
      RunMisses(calls[..n], r, base, wanted);
      StepSearch(LastOf(calls[..n]), calls[n], Search(OpsOf(calls[..n]), r, wanted).regs, base, wanted);
      SearchAppend(OpsOf(calls[..n]), StepOps(LastOf(calls[..n]), calls[n]), r, wanted);
    }
  }

  lemma AscendingPrefix(calls: seq<Call>, base: nat, n: nat)
    requires Ascending(calls, base) && n <= |calls|
    ensures Ascending(calls[..n], base)
  {
    assert forall i :: 0 <= i < n ==> calls[..n][..i] == calls[..i];
  }

  /** An address between two reported positions is attributed to the line of the first. */
  lemma {:induction false} RunFinds(calls: seq<Call>, k: nat, r: Regs, base: nat, wanted: nat)
    requires AllInRange(calls) && Nonzero(calls) && Ascending(calls, base) && k < |calls|
    requires r.pc == base < WORD && r.line == 1
    requires base + LastOf(calls[..k]).pc < wanted <= base + calls[k].pc
    ensures Search(OpsOf(calls), r, wanted) == Found(LastOf(calls[..k]).line, calls[k].file)
    decreases |calls|
  {
    hide StepOps, Search, InRange;
    var n := |calls| - 1;
    Prefix(calls, n);
    AscendingPrefix(calls, base, n);
    hide Ascending;
    SearchAppend(OpsOf(calls[..n]), StepOps(LastOf(calls[..n]), calls[n]), r, wanted);
    if k < n {
      assert calls[..n][..k] == calls[..k];
      RunFinds(calls[..n], k, r, base, wanted);
    } else {
      RunMisses(calls[..n], r, base, wanted);
      StepSearch(LastOf(calls[..n]), calls[n], Search(OpsOf(calls[..n]), r, wanted).regs, base, wanted);
    }
  }

  // ---------------------------------------------------------------- the bytes

  /** DW_LNE_set_address with the load address, which relocation fills in. */
  function Header(base: nat): seq<byte> {
    [0] + Uleb(5) + [LNE_SET_ADDRESS] + Le32(base)
  }

  /** The bytes written for a run of calls. */
  ghost function BytesOf(calls: seq<Call>): seq<byte>
    requires AllInRange(calls)
  {
    OpsWritable(calls);
    EncodeAll(OpsOf(calls))
  }

  lemma HeaderDecodes(s: seq<byte>, base: nat, r: Regs, wanted: nat)
    requires base < WORD && Header(base) <= s
    ensures Decode(s, 0, |s|, r, wanted) == Decode(s, 7, |s|, r.(pc := base), wanted)
  {
    assert Uleb(5) == [5];
    var h := Header(base);
    assert h == [0, 5, LNE_SET_ADDRESS] + Le32(base);
    assert s[..|h|] == h && |h| == 7;
    assert s[0] == h[0] && s[1] == h[1] && s[2] == h[2];
    assert s[1..2] == [5];
    assert Stands(s, 1, |s|, Uleb(5));
    UlebRoundTrip(s, 1, |s|, 5);
    assert s[3..7] == h[3..7] == Le32(base);
    ReadAt(s, 3, base);
  }

  /** The debugger's answer, from the bytes the compiler wrote for a run of calls: an address
      after one reported position and up to the next is given the line of the first. */
  lemma LookupFinds(calls: seq<Call>, k: nat, base: nat, r: Regs, wanted: nat)
    requires AllInRange(calls) && Nonzero(calls) && Ascending(calls, base) && k < |calls|
    requires base < WORD && r.line == 1
    requires base + LastOf(calls[..k]).pc < wanted <= base + calls[k].pc
    ensures var s := Header(base) + BytesOf(calls);
      Decode(s, 0, |s|, r, wanted) == Found(LastOf(calls[..k]).line, calls[k].file)
  {
    hide Decode, Search, EncodeAll, OpsOf, Uleb;
    OpsWritable(calls);
    var ops := OpsOf(calls);
    var s := Header(base) + EncodeAll(ops);
    HeaderDecodes(s, base, r, wanted);
    HeaderLength(base);
    assert s[7..7 + |EncodeAll(ops)|] == EncodeAll(ops);
    DecodeSearches(s, 7, |s|, ops, r.(pc := base), wanted);
    RunFinds(calls, k, r.(pc := base), base, wanted);
  }

  lemma HeaderLength(base: nat)
    ensures |Header(base)| == 7
  {
    assert Uleb(5) == [5];
  }

  /** An address above all reported ones is not found, and the decoder ends at the last reported
      address and line, in its file. */
  lemma LookupEnds(calls: seq<Call>, base: nat, r: Regs, wanted: nat)
    requires AllInRange(calls) && Nonzero(calls) && Ascending(calls, base)
    requires base < WORD && r.line == 1 && base + LastOf(calls).pc < wanted
    ensures var s := Header(base) + BytesOf(calls);
      var o := Decode(s, 0, |s|, r, wanted);
      o.NotFound? && Ready(LastOf(calls), o.regs, base)
  {
    hide Search, EncodeAll, OpsOf, Uleb, DecodeTurn;
    OpsWritable(calls);
    var ops := OpsOf(calls);
    var s := Header(base) + EncodeAll(ops);
    HeaderDecodes(s, base, r, wanted);
    HeaderLength(base);
    assert s[7..7 + |EncodeAll(ops)|] == EncodeAll(ops);
    DecodeSearches(s, 7, |s|, ops, r.(pc := base), wanted);
    RunMisses(calls, r.(pc := base), base, wanted);
  }

  lemma BytesAppend(calls: seq<Call>, cur: Call)
    requires AllInRange(calls) && InRange(LastOf(calls), cur)
    ensures AllInRange(calls + [cur]) && AllWritable(StepOps(LastOf(calls), cur))
    ensures BytesOf(calls + [cur]) == BytesOf(calls) + EncodeAll(StepOps(LastOf(calls), cur))
  {
    var longer := calls + [cur];
    assert longer[..|calls|] == calls;
    forall i | 0 <= i < |longer| ensures InRange(LastOf(longer[..i]), longer[i]) {
      assert i < |calls| ==> longer[..i] == calls[..i];
    }
    OpsWritable(calls);
    StepWritable(LastOf(calls), cur);
    EncodeAppend(OpsOf(calls), StepOps(LastOf(calls), cur));
  }

  // ---------------------------------------------------------------- the writer

  class Writer {
    var lineData: array<byte>   // its length is line_max_size
    var lineSize: nat
    var lastFile: nat
    var lastPc: nat
    var lastLine: nat
    var lastLineNum: nat        // the line of the last report, 0 after a change of file
    ghost var calls: seq<Call>

    ghost function Written(): seq<byte>
      requires lineSize <= lineData.Length
      reads this, lineData
    {
      lineData[..lineSize]
    }

    ghost predicate Valid()
      reads this, lineData
    {
      lineSize <= lineData.Length && AllInRange(calls) &&
      LastOf(calls) == Call(lastPc, lastLine, lastFile) && Written() == Header(0) + BytesOf(calls)
    }

    /** The start of a unit (tcc_debug_start). */
    constructor ()
      ensures Valid() && calls == [] && lastLineNum == 0 && fresh(lineData)
    {
      lineData := new byte[0];
      lineSize := 0;
      lastFile, lastPc, lastLine, lastLineNum := 0, 0, 1, 0;
      calls := [];
      new;
      hide Uleb, Le32;
      LineOp(0);
      UlebOp(5);
      LineOp(LNE_SET_ADDRESS);
      for i := 0 to 4
        invariant lineSize <= lineData.Length && fresh(lineData) && calls == []
        invariant lastFile == lastPc == lastLineNum == 0 && lastLine == 1
        invariant Written() == [0] + Uleb(5) + [LNE_SET_ADDRESS] + Zeros(i)
      {
        LineOp(0);
      }
      ZeroAddress();
    }

    /** dwarf_line_op: the buffer grows by 1024 bytes when it is full. */
    method LineOp(op: byte)
      requires lineSize <= lineData.Length
      modifies `lineData, `lineSize, lineData
      ensures lineSize <= lineData.Length && Written() == old(Written()) + [op]
      ensures lineData == old(lineData) || fresh(lineData)
    {
      ghost var was := Written();
      if lineSize >= lineData.Length {
        var grown := new byte[lineData.Length + 1024];
        for i := 0 to lineSize
          invariant lineData == old(lineData) && lineSize <= lineData.Length && Written() == was
          invariant forall j :: 0 <= j < i ==> grown[j] == was[j]
        {
          grown[i] := lineData[i];
        }
        lineData := grown;
        assert Written() == was;
      }
      lineData[lineSize] := op;
      lineSize := lineSize + 1;
    }

    /** dwarf_uleb128_op. */
    method UlebOp(value: nat)
      requires lineSize <= lineData.Length
      modifies `lineData, `lineSize, lineData
      ensures lineSize <= lineData.Length && Written() == old(Written()) + Uleb(value)
      ensures lineData == old(lineData) || fresh(lineData)
    {
      hide Uleb;
      ghost var was, all := Written(), Uleb(value);
      var rest, more := value, true;
      ghost var done: seq<byte> := [];
      while more
        invariant lineSize <= lineData.Length && (lineData == old(lineData) || fresh(lineData))
        invariant Written() == was + done && done + (if more then Uleb(rest) else []) == all
        decreases more, rest
      {
        UlebUnfolds(rest);
        var byte_ := rest % 128;
        rest := rest / 128;
        more := rest != 0;
        var op := byte_ + (if more then 128 else 0);
        LineOp(op);
        Emit(was, done, op, if more then Uleb(rest) else []);
        done := done + [op];
      }
    }

    /** dwarf_sleb128_op. */
    method SlebOp(value: int)
      requires lineSize <= lineData.Length
      modifies `lineData, `lineSize, lineData
      ensures lineSize <= lineData.Length && Written() == old(Written()) + Sleb(value)
      ensures lineData == old(lineData) || fresh(lineData)
    {
      hide Sleb, SlebEnds, SignFill;
      var end := SignFill(value);
      ghost var was, all := Written(), Sleb(value);
      var rest, more := value, true;
      ghost var done: seq<byte> := [];
      while more
        invariant lineSize <= lineData.Length && (lineData == old(lineData) || fresh(lineData))
        invariant SignFill(rest) == end
        invariant Written() == was + done && done + (if more then Sleb(rest) else []) == all
        decreases more, if rest < 0 then -rest else rest
      {
        SlebUnfolds(rest);
        var byte_ := rest % 128;
        var next := rest / 128;
        more := !(next == end && (byte_ >= 64 <==> end != 0));
        var op := byte_ + (if more then 128 else 0);
        LineOp(op);
        Emit(was, done, op, if more then Sleb(next) else []);
        done := done + [op];
        rest := next;
      }
    }

    /** tcc_debug_line at output position ind; a change of file since the last report (newFile)
        makes a report of the same line number count again. */
    method DebugLine(active: bool, newFile: bool, ind: nat, lineNum: nat, curFile: nat)
      requires Valid()
      requires InRange(Call(lastPc, lastLine, lastFile), Call(ind, lineNum, curFile))
      modifies this, lineData
      ensures Valid() && (lineData == old(lineData) || fresh(lineData))
      ensures var reported := active && (if newFile then 0 else old(lastLineNum)) != lineNum;
        calls == old(calls) + (if reported then [Call(ind, lineNum, curFile)] else []) &&
        lastLineNum == if reported then lineNum else if active && newFile then 0 else old(lastLineNum)
    {
      hide AllInRange, BytesOf, EncodeAll, StepOps, InRange, Header, AllWritable;
      if !active {
        return;
      }
      if newFile {
        lastLineNum := 0;
      }
      if lastLineNum == lineNum {
        return;
      }
      lastLineNum := lineNum;
      BytesAppend(calls, Call(ind, lineNum, curFile));
      EmitStep(ind, lineNum, curFile);
      calls := calls + [Call(ind, lineNum, curFile)];
      lastPc, lastLine, lastFile := ind, lineNum, curFile;
    }

    /** The operations for one report, chosen as tcc_debug_line chooses them. */
    method EmitStep(ind: nat, lineNum: nat, curFile: nat)
      requires lineSize <= lineData.Length
      requires InRange(Call(lastPc, lastLine, lastFile), Call(ind, lineNum, curFile))
      requires AllWritable(StepOps(Call(lastPc, lastLine, lastFile), Call(ind, lineNum, curFile)))
      modifies `lineData, `lineSize, lineData
      ensures lineSize <= lineData.Length && (lineData == old(lineData) || fresh(lineData))
      ensures Written() == old(Written()) +
        EncodeAll(StepOps(Call(lastPc, lastLine, lastFile), Call(ind, lineNum, curFile)))
    {
      hide PcOps, LineOps, EncodeAll, Uleb, StepOps, AllWritable, InRange;
      var lenPc := ind - lastPc;
      var lenLine := lineNum - lastLine;
      var n := lenPc * LINE_RANGE + lenLine + OPCODE_BASE - LINE_BASE;
      EncodeStep(Call(lastPc, lastLine, lastFile), Call(ind, lineNum, curFile));
      EmitFile(curFile);
      if lenPc != 0 && LINE_BASE <= lenLine <= OPCODE_BASE + LINE_BASE && OPCODE_BASE <= n <= 255 {
        LineOp(n);
      } else {
        EmitAdvances(lenPc, lenLine);
      }
    }

    method EmitAdvances(lenPc: int, lenLine: int)
      requires lineSize <= lineData.Length && -INT_LIMIT <= lenPc < INT_LIMIT
      requires AllWritable(PcOps(lenPc)) && AllWritable(LineOps(lenLine))
      modifies `lineData, `lineSize, lineData
      ensures lineSize <= lineData.Length && (lineData == old(lineData) || fresh(lineData))
      ensures Written() == old(Written()) + (EncodeAll(PcOps(lenPc)) + EncodeAll(LineOps(lenLine)))
    {
      hide PcOps, LineOps, EncodeAll, AllWritable;
      EmitPc(lenPc);
      EmitLine(lenLine);
    }

    method EmitFile(curFile: nat)
      requires lineSize <= lineData.Length && curFile < WORD
      modifies `lineData, `lineSize, lineData
      ensures lineSize <= lineData.Length && (lineData == old(lineData) || fresh(lineData))
      ensures var ops: seq<Op> := if curFile != lastFile then [SetFile(curFile)] else [];
        AllWritable(ops) && Written() == old(Written()) + EncodeAll(ops)
    {
      hide EncodeAll, Uleb;
      EncodeNone();
      if curFile != lastFile {
        EncodeOne(SetFile(curFile));
        LineOp(LNS_SET_FILE);
        UlebOp(curFile);
      }
    }

    method EmitPc(lenPc: int)
      requires lineSize <= lineData.Length && -INT_LIMIT <= lenPc < INT_LIMIT && AllWritable(PcOps(lenPc))
      modifies `lineData, `lineSize, lineData
      ensures lineSize <= lineData.Length && (lineData == old(lineData) || fresh(lineData))
      ensures Written() == old(Written()) + EncodeAll(PcOps(lenPc))
    {
      hide EncodeAll, Uleb;
      EncodeNone();
      if lenPc != 0 {
        var n := lenPc * LINE_RANGE + 0 + OPCODE_BASE - LINE_BASE;
        if OPCODE_BASE <= n <= 255 {
          EncodeOne(Special(n));
          LineOp(n);
        } else {
          EncodeOne(AdvancePc(Unsigned64(lenPc)));
          LineOp(LNS_ADVANCE_PC);
          UlebOp(Unsigned64(lenPc));
        }
      }
    }

    method EmitLine(lenLine: int)
      requires lineSize <= lineData.Length && AllWritable(LineOps(lenLine))
      modifies `lineData, `lineSize, lineData
      ensures lineSize <= lineData.Length && (lineData == old(lineData) || fresh(lineData))
      ensures Written() == old(Written()) + EncodeAll(LineOps(lenLine))
    {
      hide EncodeAll, Sleb;
      EncodeNone();
      if lenLine != 0 {
        var n := 0 * LINE_RANGE + lenLine + OPCODE_BASE - LINE_BASE;
        if LINE_BASE <= lenLine <= OPCODE_BASE + LINE_BASE && OPCODE_BASE <= n <= 255 {
          EncodeOne(Special(n));
          LineOp(n);
        } else {
          assert Writable(LineOps(lenLine)[0]);
          EncodeTwo(AdvanceLine(lenLine), Special(OPCODE_BASE - LINE_BASE));
          LineOp(LNS_ADVANCE_LINE);
          SlebOp(lenLine);
          LineOp(OPCODE_BASE - LINE_BASE);
        }
      }
    }
  }

  lemma Emit(was: seq<byte>, done: seq<byte>, op: byte, tail: seq<byte>)
    ensures was + done + [op] == was + (done + [op]) && done + ([op] + tail) == done + [op] + tail
  {
  }

  lemma UlebUnfolds(v: nat)
    ensures Uleb(v) == if v / 128 == 0 then [v % 128] else [v % 128 + 128] + Uleb(v / 128)
  {
  }

  lemma SlebUnfolds(v: int)
    ensures Sleb(v) == if SlebEnds(v) then [v % 128] else [v % 128 + 128] + Sleb(v / 128)
    ensures SlebEnds(v) <==> v / 128 == SignFill(v) && (v % 128 >= 64 <==> SignFill(v) != 0)
    ensures SignFill(v / 128) == SignFill(v)
    ensures !SlebEnds(v) ==> if v < 0 then v < v / 128 < 0 else 0 <= v / 128 < v
  {
  }

  /** The bytes of a step, part by part. */
  lemma EncodeStep(prev: Call, cur: Call)
    requires InRange(prev, cur)
    ensures AllWritable(FileOps(prev, cur)) && AllWritable(StepOps(prev, cur)) && cur.file < WORD
    ensures -INT_LIMIT <= cur.pc - prev.pc < INT_LIMIT
    ensures var lenPc, lenLine := cur.pc - prev.pc, cur.line - prev.line;
      var n := lenPc * LINE_RANGE + lenLine + OPCODE_BASE - LINE_BASE;
      if lenPc != 0 && SmallStep(lenLine) && OPCODE_BASE <= n <= 255 then
        EncodeAll(StepOps(prev, cur)) == EncodeAll(FileOps(prev, cur)) + [n]
      else
        AllWritable(PcOps(lenPc)) && AllWritable(LineOps(lenLine)) &&
        EncodeAll(StepOps(prev, cur)) ==
          EncodeAll(FileOps(prev, cur)) + (EncodeAll(PcOps(lenPc)) + EncodeAll(LineOps(lenLine)))
  {
    hide PcOps, LineOps, EncodeAll;
    var lenPc, lenLine := cur.pc - prev.pc, cur.line - prev.line;
    var n := lenPc * LINE_RANGE + lenLine + OPCODE_BASE - LINE_BASE;
    if lenPc != 0 && SmallStep(lenLine) && OPCODE_BASE <= n <= 255 {
      EncodeOne(Special(n));
      EncodeAppend(FileOps(prev, cur), [Special(n)]);
    } else {
      StepParts(lenPc, lenLine);
      EncodeAppend(PcOps(lenPc), LineOps(lenLine));
      EncodeAppend(FileOps(prev, cur), PcOps(lenPc) + LineOps(lenLine));
    }
  }

  lemma StepParts(lenPc: int, lenLine: int)
    requires -INT_LIMIT <= lenPc < INT_LIMIT && -INT_LIMIT <= lenLine < INT_LIMIT
    ensures AllWritable(PcOps(lenPc)) && AllWritable(LineOps(lenLine))
  {
  }

  lemma EncodeNone()
    ensures EncodeAll([]) == []
  {
  }

  lemma EncodeOne(op: Op)
    requires Writable(op)
    ensures AllWritable([op]) && EncodeAll([op]) == Encode(op)
  {
    assert [op][1..] == [];
    assert EncodeAll([op]) == Encode(op) + EncodeAll([]);
  }

  lemma EncodeTwo(a: Op, b: Op)
    requires Writable(a) && Writable(b)
    ensures AllWritable([a, b]) && EncodeAll([a, b]) == Encode(a) + Encode(b)
  {
    EncodeOne(b);
    assert [a, b][1..] == [b];
  }

  lemma ZeroAddress()
    ensures Zeros(4) == Le32(0) && BytesOf([]) == []
  {
  }
}
