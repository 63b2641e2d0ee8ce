/** Function calls (i386-gen.c): the code gfunc_call emits around a call and the frame that
    gfunc_prolog and gfunc_epilog assume, which are computed in separate places. */
module CallFrame {
  const FUNC_CDECL: nat := 0
  const FUNC_STDCALL: nat := 1
  const FUNC_FASTCALL1: nat := 2
  const FUNC_FASTCALL3: nat := 4
  const FUNC_FASTCALLW: nat := 5
  const FUNC_THISCALL: nat := 6
  const EAX: nat := 0
  const ECX: nat := 1
  const EDX: nat := 2

  /** The type of an argument, as far as passing it goes: long double takes 12 bytes. */
  datatype Kind = Struct(bytes: nat) | Float | Double | LongDouble | LongLong | Scalar(bytes: nat) {
    predicate Ok() {
      Scalar? ==> bytes == 1 || bytes == 2 || bytes == 4
    }

    function TypeSize(): nat {
      match this
      case Float => 4
      case Double => 8
      case LongDouble => 12
      case LongLong => 8
      case _ => bytes
    }

    /** The bytes the caller makes room for. */
    function CallerSize(): nat {
      match this
      case Struct(bytes) => RoundUp4(bytes)
      case Float => 4
      case Double => 8
      case LongDouble => 12
      case LongLong => 8
      case Scalar(_) => 4
    }

    /** The bytes the callee steps over. */
    function CalleeSize(): nat {
      RoundUp4(TypeSize())
    }

    function Words(): nat {
      CallerSize() / 4
    }
  }

  function RoundUp4(n: nat): nat {
    (n + 3) / 4 * 4
  }

  lemma SizesAgree(k: Kind)
    requires k.Ok()
    ensures k.CallerSize() == k.CalleeSize() == 4 * k.Words()
  {
  }

  /** The words of each kind. */
  lemma WordsMean(k: Kind)
    ensures k.Scalar? || k.Float? ==> k.Words() == 1
    ensures k.LongLong? || k.Double? ==> k.Words() == 2
    ensures k.LongDouble? ==> k.Words() == 3
    ensures k.Struct? ==> 4 * k.Words() - 4 < k.bytes <= 4 * k.Words()
  {
  }

  // ---------------------------------------------------------------- the machine

  /** What a word of memory or a register holds: word i of argument k, or something else. */
  datatype Datum = Part(k: nat, i: nat) | Return | SavedBase | Junk

  datatype Instr =
    | SubEsp(n: nat)                  // sub $n, %esp
    | Fill(k: nat, words: nat)        // store argument k at the stack pointer
    | Push(d: Datum)
    | Pop(reg: nat)
    | Call
    | AddEsp(n: nat)
    | Room                            // left for the start of the function, which is written last
    | Enter                           // push %ebp; mov %esp, %ebp
    | Save(reg: nat, disp: int)       // mov %reg, disp(%ebp)
    | Leave
    | Ret(n: nat)

  datatype Machine = Machine(esp: int, ebp: int, words: map<int, Datum>, regs: map<nat, Datum>) {
    function Step(c: Instr): Machine {
      match c
      case SubEsp(n) => this.(esp := esp - n)
      case Fill(k, n) => this.(words := Filled(words, esp, k, n))
      case Push(d) => this.(esp := esp - 4, words := words[esp - 4 := d])
      case Pop(r) => this.(esp := esp + 4, regs := regs[r := if esp in words then words[esp] else Junk])
      case Call => this.(esp := esp - 4, words := words[esp - 4 := Return])
      case AddEsp(n) => this.(esp := esp + n)
      case Room => this
      case Enter => this.(esp := esp - 4, ebp := esp - 4, words := words[esp - 4 := SavedBase])
      case Save(r, disp) => this.(words := words[ebp + disp := if r in regs then regs[r] else Junk])
      case Leave => this.(esp := ebp + 4)
      case Ret(n) => this.(esp := esp + 4 + n)
    }

    /** The word at this address is word i of argument k. */
    predicate Holds(a: int, k: nat, i: nat) {
      a in words && words[a] == Part(k, i)
    }
  }

  function Filled(words: map<int, Datum>, at: int, k: nat, n: nat): map<int, Datum> {
    if n == 0 then words else Filled(words, at, k, n - 1)[at + 4 * (n - 1) := Part(k, n - 1)]
  }

  function Run(m: Machine, code: seq<Instr>): Machine
    decreases |code|
  {
    if code == [] then m else Run(m.Step(code[0]), code[1..])
  }

  lemma {:induction false} RunConcat(m: Machine, c: seq<Instr>, d: seq<Instr>)
    ensures Run(m, c + d) == Run(Run(m, c), d)
    decreases |c|
  {
    if c == [] {
      assert c + d == d;
    } else {
      assert (c + d)[1..] == c[1..] + d;
      RunConcat(m.Step(c[0]), c[1..], d);
    }
  }

  // ---------------------------------------------------------------- the conventions

  /** The registers that take the first words of the arguments. */
  function Regs(conv: nat): (r: seq<nat>)
    ensures |r| <= 3 && forall i, j :: 0 <= i < j < |r| ==> r[i] != r[j]
  {
    if FUNC_FASTCALL1 <= conv <= FUNC_FASTCALL3 then [EAX, EDX, ECX][..conv - FUNC_FASTCALL1 + 1]
    else if conv == FUNC_FASTCALLW then [ECX, EDX]
    else if conv == FUNC_THISCALL then [ECX]
    else []
  }

  predicate CalleePops(conv: nat) {
    conv == FUNC_STDCALL || conv == FUNC_THISCALL || conv == FUNC_FASTCALLW
  }

  /** The arguments a caller passes: a returned structure adds the address where it goes. */
  function Passed(params: seq<Kind>, sret: bool): seq<Kind> {
    if sret then [Scalar(4)] + params else params
  }

  function Hidden(sret: bool): nat {
    if sret then 1 else 0
  }

  function Min(a: int, b: int): int {
    if a < b then a else b
  }

  // ---------------------------------------------------------------- the caller

  /** One argument onto the stack. */
  function PushCode(k: nat, a: Kind): seq<Instr> {
    match a
    case LongLong => [Push(Part(k, 1)), Push(Part(k, 0))]
    case Scalar(_) => [Push(Part(k, 0))]
    case _ => [SubEsp(a.CallerSize()), Fill(k, a.Words())]
  }

  /** The arguments from number k on, the last one first. */
  function PushAll(args: seq<Kind>, k: nat): seq<Instr>
    requires k <= |args|
    decreases |args| - k
  {
    if k == |args| then [] else PushAll(args, k + 1) + PushCode(k, args[k])
  }

  function Total(args: seq<Kind>): nat {
    if args == [] then 0 else args[0].Words() + Total(args[1..])
  }

  function Pops(regs: seq<nat>): (c: seq<Instr>)
    ensures |c| == |regs| && forall i :: 0 <= i < |c| ==> c[i] == Pop(regs[i])
  {
    seq(|regs|, i requires 0 <= i < |regs| => Pop(regs[i]))
  }

  /** The words taken off again into registers. */
  function Popped(args: seq<Kind>, conv: nat): (n: nat)
    ensures n <= |Regs(conv)| && n <= Total(args)
  {
    Min(|Regs(conv)|, Total(args))
  }

  function Setup(args: seq<Kind>, conv: nat): seq<Instr> {
    PushAll(args, 0) + Pops(Regs(conv)[..Popped(args, conv)])
  }

  /** What the caller still believes to be on the stack after the call. */
  function Remaining(args: seq<Kind>, conv: nat, sret: bool): int {
    4 * (Total(args) - Popped(args, conv)) - (if Regs(conv) == [] && sret then 4 else 0)
  }

  function Cleanup(args: seq<Kind>, conv: nat, sret: bool): seq<Instr> {
    var n := Remaining(args, conv, sret);
    if n > 0 && !CalleePops(conv) then [AddEsp(n)] else []
  }

  // ---------------------------------------------------------------- the callee

  /** How many parameters are saved from registers. */
  function Saved(n: nat, conv: nat, sret: bool): nat {
    if |Regs(conv)| < Hidden(sret) then 0 else Min(n, |Regs(conv)| - Hidden(sret))
  }

  /** The place of parameter j, relative to %ebp. */
  function ParamAddr(params: seq<Kind>, conv: nat, sret: bool, j: nat): int
    requires j < |params|
  {
    var f := Saved(|params|, conv, sret);
    if j < f then -4 * (j + 1) else 8 + 4 * Hidden(sret) + 4 * Total(params[f..j])
  }

  /** The registers that are saved start with the one of the parameter's own index. */
  function Saves(n: nat, conv: nat, sret: bool): (c: seq<Instr>)
    ensures |c| == Saved(n, conv, sret)
  {
    seq(Saved(n, conv, sret), j requires 0 <= j < Saved(n, conv, sret) =>
      Save(Regs(conv)[j + Hidden(sret)], -4 * (j + 1)))
  }

  /** func_ret_sub. */
  function RetSub(params: seq<Kind>, conv: nat, sret: bool): nat {
    if CalleePops(conv) then 4 * Hidden(sret) + 4 * Total(params[Saved(|params|, conv, sret)..])
    else 4 * Hidden(sret)
  }

  // ---------------------------------------------------------------- the code generator

  lemma {:induction false} TotalConcat(a: seq<Kind>, b: seq<Kind>)
    ensures Total(a + b) == Total(a) + Total(b)
    decreases |a|
  {
    if a == [] {
      assert a + b == b;
    } else {
      assert (a + b)[1..] == a[1..] + b;
      TotalConcat(a[1..], b);
    }
  }

  lemma TotalNext(args: seq<Kind>, k: nat)
    requires k < |args|
    ensures Total(args[k..]) == args[k].Words() + Total(args[k + 1..])
  {
    assert args[k..][1..] == args[k + 1..];
  }

  lemma TotalLast(args: seq<Kind>, f: nat, k: nat)
    requires f <= k < |args|
    ensures Total(args[f..k + 1]) == Total(args[f..k]) + args[k].Words()
  {
    assert args[f..k + 1] == args[f..k] + [args[k]];
    TotalConcat(args[f..k], [args[k]]);
    assert [args[k]][1..] == [];
  }

  lemma SretTakesRoom(args: seq<Kind>)
    requires args != [] && args[0] == Scalar(4)
    ensures Total(args) >= 1
  {
  }

  /** The bytes of the parameters f to j that are on the stack. */
  function StackBytes(params: seq<Kind>, f: nat, j: nat): nat
    requires f <= |params| && j <= |params|
  {
    if j <= f then 0 else 4 * Total(params[f..j])
  }

  lemma StackBytesNext(params: seq<Kind>, f: nat, j: nat)
    requires f <= |params| && j < |params| && params[j].Ok()
    ensures j < f ==> StackBytes(params, f, j + 1) == StackBytes(params, f, j) == 0
    ensures j >= f ==> StackBytes(params, f, j + 1) == StackBytes(params, f, j) + params[j].CalleeSize()
    ensures j >= f ==> StackBytes(params, f, j) == 4 * Total(params[f..j])
  {
    SizesAgree(params[j]);
    assert params[f..f] == [];
    if j >= f {
      TotalLast(params, f, j);
    }
  }

  lemma StackBytesAll(params: seq<Kind>, f: nat)
    requires f <= |params|
    ensures StackBytes(params, f, |params|) == 4 * Total(params[f..])
  {
    assert params[f..|params|] == params[f..];
  }

  lemma LowHalf(n: nat)
    ensures n % 256 + 256 * (n / 256 % 256) == n % 0x1_0000
  {
    var q, r := n / 256 / 256, n % 256 + 256 * (n / 256 % 256);
    assert n == 0x1_0000 * q + r && 0 <= r < 0x1_0000;
  }

  lemma SavesNext(n: nat, conv: nat, sret: bool, j: nat)
    requires j < n
    ensures j < Saved(n, conv, sret) <==> j + Hidden(sret) < |Regs(conv)|
    ensures j < Saved(n, conv, sret) ==>
      Saves(n, conv, sret)[..j + 1] == Saves(n, conv, sret)[..j] + [Save(Regs(conv)[j + Hidden(sret)], -4 * (j + 1))]
  {
    hide Regs;
  }

  class Generator {
    var code: seq<Instr>
    var loc: int
    var funcVc: nat
    var funcRetSub: nat
    var subSp: nat           // func_sub_sp_offset: where the start of the function goes

    constructor ()
      ensures code == []
    {
      code, loc, funcVc, funcRetSub, subSp := [], 0, 0, 0, 0;
    }

    /** One turn of the first loop of gfunc_call. */
    method PushArgument(a: Kind, k: nat) returns (size: nat)
      requires a.Ok()
      modifies `code
      ensures code == old(code) + PushCode(k, a) && size == 4 * a.Words()
    {
      if a.Struct? {
        size := RoundUp4(a.bytes);
        code := code + [SubEsp(size), Fill(k, size / 4)];
      } else if a.Float? || a.Double? || a.LongDouble? {
        if a.Float? {
          size := 4;
        } else if a.Double? {
          size := 8;
        } else {
          size := 12;
        }
        code := code + [SubEsp(size), Fill(k, size / 4)];
      } else if a.LongLong? {
        size := 8;
        code := code + [Push(Part(k, 1)), Push(Part(k, 0))];
      } else {
        size := 4;
        code := code + [Push(Part(k, 0))];
      }
    }

    /** The second loop of gfunc_call. */
    method PopRegisters(regs: seq<nat>, argsSize: nat) returns (left: nat)
      requires argsSize % 4 == 0
      modifies `code
      ensures code == old(code) + Pops(regs[..Min(|regs|, argsSize / 4)])
      ensures left == argsSize - 4 * Min(|regs|, argsSize / 4)
    {
      ghost var start := code;
      left := argsSize;
      var i := 0;
      assert code == start + Pops(regs[..0]);
      while i < |regs|
        invariant 0 <= i <= Min(|regs|, argsSize / 4) && left == argsSize - 4 * i
        invariant code == start + Pops(regs[..i])
      {
        if left <= 0 {
          break;
        }
        assert Pops(regs[..i + 1]) == Pops(regs[..i]) + [Pop(regs[i])];
        code := code + [Pop(regs[i])];
        left := left - 4;
        i := i + 1;
      }
    }

    /** The first loop of gfunc_call: the last argument is pushed first. */
    method PushArguments(args: seq<Kind>) returns (argsSize: nat)
      requires forall i :: 0 <= i < |args| ==> args[i].Ok()
      modifies `code
      ensures code == old(code) + PushAll(args, 0) && argsSize == 4 * Total(args)
    {
      hide PushCode, Kind.Words;
      argsSize := 0;
      var k := |args|;
      assert args[k..] == [];
      while k > 0
        invariant 0 <= k <= |args| && argsSize == 4 * Total(args[k..])
        invariant code == old(code) + PushAll(args, k)
      {
        k := k - 1;
        TotalNext(args, k);
        var size := PushArgument(args[k], k);
        argsSize := argsSize + size;
      }
      assert args[0..] == args;
    }

    /** gfunc_call, for arguments that are at hand and a function that is called by name. */
    method GfuncCall(args: seq<Kind>, conv: nat, sret: bool)
      requires forall i :: 0 <= i < |args| ==> args[i].Ok()
      requires sret ==> args != [] && args[0] == Scalar(4)
      modifies `code
      ensures code == old(code) + Setup(args, conv) + [Call] + Cleanup(args, conv, sret)
    {
      hide PushAll, Regs, Total, Pops;
      var argsSize := PushArguments(args);
      var left: int := PopRegisters(Regs(conv), argsSize);
      assert code == old(code) + Setup(args, conv);
      if Regs(conv) == [] && sret {
        left := left - 4;
        SretTakesRoom(args);
      }
      hide Setup;
      code := code + [Call];
      if left != 0 && conv != FUNC_STDCALL && conv != FUNC_THISCALL && conv != FUNC_FASTCALLW {
        code := code + [AddEsp(left)];
      }
    }

    /** gfunc_prolog: addrs[j] is the place of parameter j. */
    method GfuncProlog(params: seq<Kind>, conv: nat, sret: bool) returns (addrs: seq<int>)
      requires forall i :: 0 <= i < |params| ==> params[i].Ok()
      modifies this
      ensures code == old(code) + [Room, Room] + Saves(|params|, conv, sret) && subSp == |old(code)|
      ensures |addrs| == |params| && forall j :: 0 <= j < |addrs| ==> addrs[j] == ParamAddr(params, conv, sret, j)
      ensures loc == -4 * Saved(|params|, conv, sret)
      ensures funcVc == (if sret then 8 else 0) && funcRetSub == RetSub(params, conv, sret)
    {
      hide Total, Regs, Saves, Kind.CalleeSize;
      var regs, addr, index := Regs(conv), 8, 0;
      loc, funcVc, funcRetSub, addrs := 0, 0, 0, [];
      subSp := |code|;
      code := code + [Room, Room];
      ghost var start, f := code, Saved(|params|, conv, sret);
      if sret {
        funcVc := addr;
        addr := addr + 4;
        index := index + 1;
      }
      var j := 0;
      while j < |params|
        invariant 0 <= j <= |params| && index == j + Hidden(sret)
        invariant |addrs| == j && loc == -4 * Min(j, f)
        invariant addr == 8 + 4 * Hidden(sret) + StackBytes(params, f, j)
        invariant code == start + Saves(|params|, conv, sret)[..Min(j, f)]
        invariant forall i :: 0 <= i < j ==> addrs[i] == ParamAddr(params, conv, sret, i)
        invariant funcVc == (if sret then 8 else 0) && funcRetSub == 0 && subSp == |old(code)|
      {
        StackBytesNext(params, f, j);
        SavesNext(|params|, conv, sret, j);
        var size := params[j].CalleeSize();
        if index < |regs| {
          loc := loc - 4;
          code := code + [Save(regs[index], loc)];
          addrs := addrs + [loc];
        } else {
          addrs := addrs + [addr];
          addr := addr + size;
        }
        index := index + 1;
        j := j + 1;
      }
      StackBytesAll(params, f);
      if conv == FUNC_STDCALL || conv == FUNC_FASTCALLW || conv == FUNC_THISCALL {
        funcRetSub := addr - 8;
      } else if funcVc != 0 {
        funcRetSub := 4;
      }
    }

    /** gfunc_epilog: the operand of ret has 16 bits; the start of the function, with room for the
        locals, is written into the place left for it. */
    method GfuncEpilog()
      requires subSp + 2 <= |code| && loc <= 0
      modifies `code
      ensures code == old(code)[subSp := Enter][subSp + 1 := SubEsp(RoundUp4(-loc))]
        + [Leave, Ret(funcRetSub % 0x1_0000)]
    {
      var v := RoundUp4(-loc);
      code := code + [Leave];
      if funcRetSub == 0 {
        code := code + [Ret(0)];
      } else {
        LowHalf(funcRetSub);
        code := code + [Ret(funcRetSub % 256 + 256 * (funcRetSub / 256 % 256))];
      }
      code := code[subSp := Enter];
      code := code[subSp + 1 := SubEsp(v)];
    }
  }

  // ---------------------------------------------------------------- where the words are

  /** The words of the arguments from number k on, in order of address. */
  function Flat(args: seq<Kind>, k: nat): (s: seq<Datum>)
    requires k <= |args|
    ensures |s| == Total(args[k..])
    decreases |args| - k
  {
    if k == |args| then [] else TotalNext(args, k); Parts(k, args[k].Words()) + Flat(args, k + 1)
  }

  function Parts(k: nat, n: nat): (s: seq<Datum>)
    ensures |s| == n && forall i :: 0 <= i < n ==> s[i] == Part(k, i)
  {
    seq(n, i requires 0 <= i < n => Part(k, i))
  }

  /** The stack, from the stack pointer up to top, is s; nothing else was written from there on. */
  ghost predicate Stack(m: Machine, s: seq<Datum>, top: int) {
    m.esp + 4 * |s| == top &&
    StackWords(m.words, m.esp, s) && AllBelow(m.words, top)
  }

  ghost predicate StackWords(words: map<int, Datum>, at: int, s: seq<Datum>) {
    forall i :: 0 <= i < |s| ==> at + 4 * i in words && words[at + 4 * i] == s[i]
  }

  ghost predicate AllBelow(words: map<int, Datum>, top: int) {
    forall a :: a in words ==> a < top
  }

  lemma {:induction false} FilledHolds(words: map<int, Datum>, at: int, k: nat, n: nat)
    ensures forall i :: 0 <= i < n ==>
      at + 4 * i in Filled(words, at, k, n) && Filled(words, at, k, n)[at + 4 * i] == Part(k, i)
    ensures forall a :: a in Filled(words, at, k, n) && (a < at || a >= at + 4 * n) ==>
      a in words && Filled(words, at, k, n)[a] == words[a]
    ensures forall a :: a in words ==> a in Filled(words, at, k, n)
    ensures forall a :: a in Filled(words, at, k, n) ==> a in words || a < at + 4 * n
  {
    if n > 0 {
      FilledHolds(words, at, k, n - 1);
    }
  }

  lemma RunOne(m: Machine, c: Instr)
    ensures Run(m, [c]) == m.Step(c)
  {
    assert [c][1..] == [];
  }

  lemma RunTwo(m: Machine, c: Instr, d: Instr)
    ensures Run(m, [c, d]) == m.Step(c).Step(d)
  {
    assert [c, d][1..] == [d];
    RunOne(m.Step(c), d);
  }

  lemma WordsPushed(words: map<int, Datum>, at: int, s: seq<Datum>, d: Datum)
    requires StackWords(words, at, s)
    ensures StackWords(words[at - 4 := d], at - 4, [d] + s)
  {
    var r, t := words[at - 4 := d], [d] + s;
    forall i | 0 <= i < |t| ensures at - 4 + 4 * i in r && r[at - 4 + 4 * i] == t[i] {
      if i > 0 {
        StackWord(words, at, s, i - 1);
        assert at - 4 + 4 * i == at + 4 * (i - 1) && t[i] == s[i - 1];
      }
    }
  }

  lemma StackWord(words: map<int, Datum>, at: int, s: seq<Datum>, i: nat)
    requires StackWords(words, at, s) && i < |s|
    ensures at + 4 * i in words && words[at + 4 * i] == s[i]
  {
  }

  lemma PushStacksOne(m: Machine, s: seq<Datum>, top: int, d: Datum)
    requires Stack(m, s, top)
    ensures Stack(m.Step(Push(d)), [d] + s, top)
  {
    hide StackWords;
    WordsPushed(m.words, m.esp, s, d);
  }

  lemma FillStacks(m: Machine, s: seq<Datum>, top: int, k: nat, n: nat)
    requires Stack(m, s, top)
    ensures Stack(m.Step(SubEsp(4 * n)).Step(Fill(k, n)), Parts(k, n) + s, top)
  {
    var at := m.esp - 4 * n;
    var r, t := m.Step(SubEsp(4 * n)).Step(Fill(k, n)), Parts(k, n) + s;
    FilledHolds(m.words, at, k, n);
    hide Filled;
    forall i | 0 <= i < |t| ensures at + 4 * i in r.words && r.words[at + 4 * i] == t[i] {
      if i >= n {
        var j := i - n;
        assert m.esp + 4 * j in m.words && m.words[m.esp + 4 * j] == s[j];
      }
    }
  }

  lemma PushStacks(m: Machine, s: seq<Datum>, top: int, k: nat, a: Kind)
    requires Stack(m, s, top) && a.Ok()
    ensures Stack(Run(m, PushCode(k, a)), Parts(k, a.Words()) + s, top)
    ensures Run(m, PushCode(k, a)).regs == m.regs
  {
    hide Stack, Run;
    SizesAgree(a);
    if a.LongLong? {
      RunTwo(m, Push(Part(k, 1)), Push(Part(k, 0)));
      PushStacksOne(m, s, top, Part(k, 1));
      PushStacksOne(m.Step(Push(Part(k, 1))), [Part(k, 1)] + s, top, Part(k, 0));
      assert [Part(k, 0)] + ([Part(k, 1)] + s) == Parts(k, 2) + s;
    } else if a.Scalar? {
      RunOne(m, Push(Part(k, 0)));
      PushStacksOne(m, s, top, Part(k, 0));
      assert [Part(k, 0)] + s == Parts(k, 1) + s;
    } else {
      RunTwo(m, SubEsp(a.CallerSize()), Fill(k, a.Words()));
      FillStacks(m, s, top, k, a.Words());
    }
  }

  lemma PopStacks(m: Machine, s: seq<Datum>, top: int, reg: nat)
    requires Stack(m, s, top) && s != []
    ensures Stack(m.Step(Pop(reg)), s[1..], top) && m.Step(Pop(reg)).regs == m.regs[reg := s[0]]
  {
    var r := m.Step(Pop(reg));
    assert m.esp + 4 * 0 in m.words && m.words[m.esp + 4 * 0] == s[0];
    forall i | 0 <= i < |s[1..]| ensures r.esp + 4 * i in r.words && r.words[r.esp + 4 * i] == s[1..][i] {
      var j := i + 1;
      assert m.esp + 4 * j in m.words && m.words[m.esp + 4 * j] == s[j];
    }
  }

  lemma {:induction false} PushAllStacks(m: Machine, args: seq<Kind>, k: nat)
    requires k <= |args| && (forall i :: 0 <= i < |args| ==> args[i].Ok()) && m.words == map[]
    ensures Stack(Run(m, PushAll(args, k)), Flat(args, k), m.esp)
    ensures Run(m, PushAll(args, k)).regs == m.regs
    decreases |args| - k
  {
    if k < |args| {
      PushAllStacks(m, args, k + 1);
      RunConcat(m, PushAll(args, k + 1), PushCode(k, args[k]));
      PushStacks(Run(m, PushAll(args, k + 1)), Flat(args, k + 1), m.esp, k, args[k]);
    }
  }

  /** Popping takes the first words into the registers. */
  lemma {:induction false} PopsTake(m: Machine, s: seq<Datum>, top: int, regs: seq<nat>)
    requires Stack(m, s, top) && |regs| <= |s| && m.regs == map[]
    requires forall i, j :: 0 <= i < j < |regs| ==> regs[i] != regs[j]
    ensures var r := Run(m, Pops(regs)); Stack(r, s[|regs|..], top) && r.ebp == m.ebp
    ensures var r := Run(m, Pops(regs)); forall i :: 0 <= i < |regs| ==> regs[i] in r.regs && r.regs[regs[i]] == s[i]
    ensures var r := Run(m, Pops(regs)); forall x :: x in r.regs ==> x in regs
    decreases |regs|
  {
    hide Stack;
    if |regs| == 0 {
      assert s[0..] == s;
    } else {
      var n := |regs| - 1;
      PopsTake(m, s, top, regs[..n]);
      var r := Run(m, Pops(regs[..n]));
      assert Pops(regs) == Pops(regs[..n]) + [Pop(regs[n])];
      RunConcat(m, Pops(regs[..n]), [Pop(regs[n])]);
      RunOne(r, Pop(regs[n]));
      PopStacks(r, s[n..], top, regs[n]);
      assert s[n..][1..] == s[|regs|..];
    }
  }

  /** Each word stands at the total of the arguments before its own, plus its number. */
  lemma {:induction false} FlatWord(args: seq<Kind>, from: nat, x: nat)
    requires from <= |args| && x < |Flat(args, from)|
    ensures var d := Flat(args, from)[x];
      d.Part? && from <= d.k < |args| && d.i < args[d.k].Words() && x == Total(args[from..d.k]) + d.i
    decreases |args| - from
  {
    TotalNext(args, from);
    var n := args[from].Words();
    if x < n {
      assert args[from..from] == [];
    } else {
      FlatWord(args, from + 1, x - n);
      var d := Flat(args, from + 1)[x - n];
      assert args[from..d.k][1..] == args[from + 1..d.k];
    }
  }

  lemma {:induction false} FlatFinds(args: seq<Kind>, from: nat, k: nat, i: nat)
    requires from <= k < |args| && i < args[k].Words()
    ensures Total(args[from..k]) + i < |Flat(args, from)|
    ensures Flat(args, from)[Total(args[from..k]) + i] == Part(k, i)
    decreases |args| - from
  {
    TotalNext(args, from);
    if from == k {
      assert args[from..k] == [];
    } else {
      FlatFinds(args, from + 1, k, i);
      assert args[from..k][1..] == args[from + 1..k];
    }
  }

  /** The word x of the stack is word i of argument k just when that is its place. */
  lemma FlatIs(args: seq<Kind>, k: nat, i: nat, x: nat)
    requires k < |args| && i < args[k].Words()
    ensures x < |Flat(args, 0)| && Flat(args, 0)[x] == Part(k, i) <==> x == Total(args[..k]) + i
  {
    FlatFinds(args, 0, k, i);
    assert args[0..k] == args[..k];
    if x < |Flat(args, 0)| {
      FlatWord(args, 0, x);
    }
  }

  // ---------------------------------------------------------------- the frame

  function SaveList(regs: seq<nat>): (c: seq<Instr>)
    ensures |c| == |regs| && forall i :: 0 <= i < |c| ==> c[i] == Save(regs[i], -4 * (i + 1))
  {
    seq(|regs|, i requires 0 <= i < |regs| => Save(regs[i], -4 * (i + 1)))
  }

  /** The word in a register, or nothing known. */
  function InReg(m: Machine, r: nat): Datum {
    if r in m.regs then m.regs[r] else Junk
  }

  predicate Kept(m: Machine, a: int, d: Datum) {
    a in m.words && m.words[a] == d
  }

  /** The frame that m1 becomes: saved registers below %ebp, the old words above it. */
  ghost predicate FrameOf(m1: Machine, m2: Machine, regs: seq<nat>) {
    m2.ebp == m1.esp - 8 &&
    (forall a :: a >= m1.esp ==>
      (a in m2.words <==> a in m1.words) && (a in m1.words ==> m2.words[a] == m1.words[a])) &&
    m2.ebp in m2.words && m2.words[m2.ebp] == SavedBase &&
    (forall j :: 0 <= j < |regs| ==> Kept(m2, m2.ebp - 4 * (j + 1), InReg(m1, regs[j])))
  }

  lemma FrameSave(m1: Machine, m2: Machine, regs: seq<nat>, r: nat)
    requires FrameOf(m1, m2, regs) && m2.regs == m1.regs
    ensures FrameOf(m1, m2.Step(Save(r, -4 * (|regs| + 1))), regs + [r])
  {
    var m3 := m2.Step(Save(r, -4 * (|regs| + 1)));
    var all, b := regs + [r], m2.ebp - 4 * (|regs| + 1);
    assert m3.ebp == m2.ebp && m3.words == m2.words[b := InReg(m1, r)];
    hide Machine.Step;
    forall j | 0 <= j < |all| ensures Kept(m3, m3.ebp - 4 * (j + 1), InReg(m1, all[j])) {
      if j < |regs| {
        assert all[j] == regs[j];
        assert Kept(m2, m2.ebp - 4 * (j + 1), InReg(m1, regs[j])) && m2.ebp - 4 * (j + 1) != b;
      }
    }
  }

  lemma {:induction false} FrameMade(m1: Machine, regs: seq<nat>, local: nat)
    ensures FrameOf(m1, Run(m1, [Call, Enter, SubEsp(local)] + SaveList(regs)), regs)
    ensures Run(m1, [Call, Enter, SubEsp(local)] + SaveList(regs)).regs == m1.regs
    decreases |regs|
  {
    if |regs| == 0 {
      assert [Call, Enter, SubEsp(local)] + SaveList(regs) == [Call] + [Enter, SubEsp(local)];
      RunConcat(m1, [Call], [Enter, SubEsp(local)]);
      RunOne(m1, Call);
      RunTwo(m1.Step(Call), Enter, SubEsp(local));
    } else {
      hide FrameOf, Run;
      var n := |regs| - 1;
      var head, save := [Call, Enter, SubEsp(local)], Save(regs[n], -4 * (n + 1));
      FrameMade(m1, regs[..n], local);
      assert head + SaveList(regs) == head + SaveList(regs[..n]) + [save];
      RunConcat(m1, head + SaveList(regs[..n]), [save]);
      RunOne(Run(m1, head + SaveList(regs[..n])), save);
      FrameSave(m1, Run(m1, head + SaveList(regs[..n])), regs[..n], regs[n]);
      assert regs[..n] + [regs[n]] == regs;
    }
  }

  /** The machine when the body of the callee starts, with this much room for locals. */
  ghost function Entered(params: seq<Kind>, conv: nat, sret: bool, local: nat, start: Machine): Machine {
    Run(Run(start, Setup(Passed(params, sret), conv)), [Call, Enter, SubEsp(local)] + Saves(|params|, conv, sret))
  }

  /** And when the caller goes on. */
  ghost function Returned(params: seq<Kind>, conv: nat, sret: bool, local: nat, start: Machine): Machine {
    Run(Run(Entered(params, conv, sret, local, start), [Leave, Ret(RetSub(params, conv, sret) % 0x1_0000)]),
        Cleanup(Passed(params, sret), conv, sret))
  }

  function Fresh(top: int): Machine {
    Machine(top, 0, map[], map[])
  }

  /** All words of parameter j are where the prolog says, in a frame with this base. */
  ghost predicate ParamPlaced(params: seq<Kind>, conv: nat, sret: bool, m: Machine, j: nat)
    requires j < |params|
  {
    forall i :: 0 <= i < params[j].Words() ==>
      m.Holds(m.ebp + ParamAddr(params, conv, sret, j) + 4 * i, j + Hidden(sret), i)
  }

  /** The callee finds every argument, and the stack is as before the call when it is over. */
  ghost predicate Agree(params: seq<Kind>, conv: nat, sret: bool, local: nat, top: int) {
    var m := Entered(params, conv, sret, local, Fresh(top));
    (sret ==> m.Holds(m.ebp + 8, 0, 0)) &&
    (forall j :: 0 <= j < |params| ==> ParamPlaced(params, conv, sret, m, j)) &&
    Returned(params, conv, sret, local, Fresh(top)).esp == top
  }

  /** The parameters that go into registers take one word each, unless no words follow at all. */
  predicate OneWordEach(params: seq<Kind>, n: nat) {
    forall j :: 0 <= j < |params| && j < n ==> params[j].Words() == 1 || NoWords(params, j)
  }

  predicate NoWords(params: seq<Kind>, j: nat) {
    forall i :: j <= i < |params| ==> params[i].Words() == 0
  }

  /** What a caller can check: no structure is returned by a function with a register convention,
      register parameters take one word, and what the callee pops fits the operand of ret. */
  predicate Sound(params: seq<Kind>, conv: nat, sret: bool) {
    (sret ==> Regs(conv) == []) && OneWordEach(params, |Regs(conv)|) &&
    (CalleePops(conv) ==> RetSub(params, conv, sret) < 0x1_0000)
  }

  /** The machine just before the call: the words that were not popped are on the stack, the
      others in the registers. */
  ghost predicate AtCall(m: Machine, args: seq<Kind>, conv: nat, top: int) {
    var n := Popped(args, conv);
    |Flat(args, 0)| == Total(args) && Stack(m, Flat(args, 0)[n..], top) &&
    (forall i :: 0 <= i < |Regs(conv)| ==> InReg(m, Regs(conv)[i]) == if i < n then Flat(args, 0)[i] else Junk)
  }

  lemma SetupReaches(args: seq<Kind>, conv: nat, top: int)
    requires forall i :: 0 <= i < |args| ==> args[i].Ok()
    ensures AtCall(Run(Fresh(top), Setup(args, conv)), args, conv, top)
  {
    hide Stack, PushAll;
    var m, n := Fresh(top), Popped(args, conv);
    assert args[0..] == args;
    PushAllStacks(m, args, 0);
    RunConcat(m, PushAll(args, 0), Pops(Regs(conv)[..n]));
    PopsTake(Run(m, PushAll(args, 0)), Flat(args, 0), top, Regs(conv)[..n]);
    hide Run, Flat;
    var r := Run(m, Setup(args, conv));
    forall i | 0 <= i < |Regs(conv)| ensures InReg(r, Regs(conv)[i]) == if i < n then Flat(args, 0)[i] else Junk {
      if i < n {
        assert Regs(conv)[..n][i] == Regs(conv)[i];
      } else {
        assert Regs(conv)[i] !in Regs(conv)[..n];
      }
    }
  }

  lemma FrameReached(params: seq<Kind>, conv: nat, sret: bool, local: nat, top: int)
    requires forall i :: 0 <= i < |params| ==> params[i].Ok()
    ensures var m1 := Run(Fresh(top), Setup(Passed(params, sret), conv));
      AtCall(m1, Passed(params, sret), conv, top)
      && FrameOf(m1, Entered(params, conv, sret, local, Fresh(top)), SavedRegs(|params|, conv, sret))
  {
    hide Run, AtCall, FrameOf;
    var args := Passed(params, sret);
    var m1 := Run(Fresh(top), Setup(args, conv));
    SetupReaches(args, conv, top);
    var regs := SavedRegs(|params|, conv, sret);
    assert Saves(|params|, conv, sret) == SaveList(regs);
    FrameMade(m1, regs, local);
  }

  function SavedRegs(n: nat, conv: nat, sret: bool): (r: seq<nat>)
    ensures |r| == Saved(n, conv, sret) && forall j :: 0 <= j < |r| ==> r[j] == Regs(conv)[j + Hidden(sret)]
  {
    var f := Saved(n, conv, sret);
    if f == 0 then [] else Regs(conv)[Hidden(sret)..Hidden(sret) + f]
  }

  lemma HiddenTotal(params: seq<Kind>)
    ensures Total([Scalar(4)] + params) == 1 + Total(params)
  {
    assert ([Scalar(4)] + params)[1..] == params;
  }

  lemma PassedTotals(params: seq<Kind>, sret: bool, j: nat)
    requires j <= |params|
    ensures Total(Passed(params, sret)[..j + Hidden(sret)]) == Hidden(sret) + Total(params[..j])
    ensures Total(Passed(params, sret)) == Hidden(sret) + Total(params)
  {
    hide Total;
    if sret {
      HiddenTotal(params);
      HiddenTotal(params[..j]);
      assert Passed(params, sret)[..j + 1] == [Scalar(4)] + params[..j];
    }
  }

  lemma TotalSplit(args: seq<Kind>, f: nat, j: nat)
    requires f <= j <= |args|
    ensures Total(args[..j]) == Total(args[..f]) + Total(args[f..j])
  {
    assert args[..j] == args[..f] + args[f..j];
    TotalConcat(args[..f], args[f..j]);
  }

  /** What the callee sees above its return address are the words that were not popped. */
  lemma AboveFrame(args: seq<Kind>, conv: nat, m1: Machine, m: Machine, regs: seq<nat>, top: int, y: nat, k: nat,
                   i: nat)
    requires AtCall(m1, args, conv, top) && FrameOf(m1, m, regs)
    ensures var x := Popped(args, conv) + y;
      m.Holds(m.ebp + 8 + 4 * y, k, i) <==> x < |Flat(args, 0)| && Flat(args, 0)[x] == Part(k, i)
  {
    hide Flat, Total, Regs, Popped;
    var rest := Flat(args, 0)[Popped(args, conv)..];
    assert m.ebp + 8 + 4 * y == m1.esp + 4 * y;
    if y < |rest| {
      assert m1.esp + 4 * y in m1.words && m1.words[m1.esp + 4 * y] == rest[y];
    }
  }

  /** Word i of a parameter that the prolog looks for on the stack is there just when the words
      popped are those of the parameters it looks for in registers. */
  lemma StackWordPlaced(params: seq<Kind>, conv: nat, sret: bool, m1: Machine, m: Machine, top: int, j: nat, i: nat)
    requires AtCall(m1, Passed(params, sret), conv, top) && FrameOf(m1, m, SavedRegs(|params|, conv, sret))
    requires Saved(|params|, conv, sret) <= j < |params| && i < params[j].Words()
    ensures m.Holds(m.ebp + ParamAddr(params, conv, sret, j) + 4 * i, j + Hidden(sret), i)
      <==> Popped(Passed(params, sret), conv) == Total(params[..Saved(|params|, conv, sret)])
  {
    hide Flat, Total, Regs, AtCall, FrameOf;
    var args, f, h := Passed(params, sret), Saved(|params|, conv, sret), Hidden(sret);
    PassedTotals(params, sret, j);
    TotalSplit(params, f, j);
    var y: nat := h + Total(params[f..j]) + i;
    AboveFrame(args, conv, m1, m, SavedRegs(|params|, conv, sret), top, y, j + h, i);
    FlatIs(args, j + h, i, Popped(args, conv) + y);
    var a, b := m.ebp + ParamAddr(params, conv, sret, j) + 4 * i, m.ebp + 8 + 4 * y;
    assert a == b;
  }

  lemma FlatTotal(args: seq<Kind>)
    ensures |Flat(args, 0)| == Total(args)
  {
    assert args[0..] == args;
  }

  /** The callee's save area holds the first words of the arguments, as far as they were popped. */
  lemma SavedWord(params: seq<Kind>, conv: nat, sret: bool, m1: Machine, m: Machine, top: int, j: nat)
    requires AtCall(m1, Passed(params, sret), conv, top) && FrameOf(m1, m, SavedRegs(|params|, conv, sret))
    requires j < Saved(|params|, conv, sret)
    ensures var args, i := Passed(params, sret), j + Hidden(sret);
      Kept(m, m.ebp - 4 * (j + 1), if i < Popped(args, conv) && i < |Flat(args, 0)| then Flat(args, 0)[i] else Junk)
  {
    hide Flat, Total;
    assert SavedRegs(|params|, conv, sret)[j] == Regs(conv)[j + Hidden(sret)];
    hide Regs;
  }

  /** Word 0 of a parameter that the prolog takes from a register. */
  lemma FirstWordPlaced(params: seq<Kind>, conv: nat, sret: bool, m1: Machine, m: Machine, top: int, j: nat)
    requires AtCall(m1, Passed(params, sret), conv, top) && FrameOf(m1, m, SavedRegs(|params|, conv, sret))
    requires j < Saved(|params|, conv, sret) && params[j].Words() > 0
    ensures m.Holds(m.ebp + ParamAddr(params, conv, sret, j), j + Hidden(sret), 0) <==> Total(params[..j]) == j
  {
    hide Flat, Total, Regs, AtCall, FrameOf;
    var args, h := Passed(params, sret), Hidden(sret);
    PassedTotals(params, sret, j);
    FlatIs(args, j + h, 0, j + h);
    FlatFinds(args, 0, j + h, 0);
    assert args[0..j + h] == args[..j + h];
    SavedWord(params, conv, sret, m1, m, top, j);
    FlatTotal(args);
  }

  /** A second word is never found beside the first in the callee's save area. */
  lemma SecondWordLost(params: seq<Kind>, conv: nat, sret: bool, m1: Machine, m: Machine, top: int, j: nat)
    requires AtCall(m1, Passed(params, sret), conv, top) && FrameOf(m1, m, SavedRegs(|params|, conv, sret))
    requires j < Saved(|params|, conv, sret) && params[j].Words() > 1
    ensures !ParamPlaced(params, conv, sret, m, j)
  {
    hide Flat, Total, Regs;
    var args, h := Passed(params, sret), Hidden(sret);
    FirstWordPlaced(params, conv, sret, m1, m, top, j);
    if j > 0 {
      PassedTotals(params, sret, j);
      FlatIs(args, j + h, 1, j - 1 + h);
      assert SavedRegs(|params|, conv, sret)[j - 1] == Regs(conv)[j - 1 + h];
      var a := m.ebp - 4 * (j - 1 + 1);
      assert Kept(m, a, InReg(m1, Regs(conv)[j - 1 + h]));
    }
    var at := m.ebp + ParamAddr(params, conv, sret, j);
    if ParamPlaced(params, conv, sret, m, j) {
      WordPlaced(params, conv, sret, m, j, 0);
      assert Total(params[..j]) == j;
      WordPlaced(params, conv, sret, m, j, 1);
    }
  }

  lemma WordPlaced(params: seq<Kind>, conv: nat, sret: bool, m: Machine, j: nat, i: nat)
    requires j < |params| && ParamPlaced(params, conv, sret, m, j) && i < params[j].Words()
    ensures m.Holds(m.ebp + ParamAddr(params, conv, sret, j) + 4 * i, j + Hidden(sret), i)
  {
  }

  lemma {:induction false} AtMostOne(params: seq<Kind>, f: nat)
    requires f <= |params| && forall j :: 0 <= j < f ==> params[j].Words() <= 1
    ensures Total(params[..f]) <= f
    ensures Total(params[..f]) == f <==> forall j :: 0 <= j < f ==> params[j].Words() == 1
  {
    if f > 0 {
      AtMostOne(params, f - 1);
      TotalLast(params, 0, f - 1);
      assert params[0..f] == params[..f] && params[0..f - 1] == params[..f - 1];
    }
  }

  lemma {:induction false} NoWordsTotal(params: seq<Kind>, j: nat)
    requires j <= |params| && NoWords(params, j)
    ensures Total(params[j..]) == 0
    decreases |params| - j
  {
    if j < |params| {
      TotalNext(params, j);
      NoWordsTotal(params, j + 1);
    }
  }

  lemma HiddenPlaced(params: seq<Kind>, conv: nat, m1: Machine, m: Machine, top: int)
    requires AtCall(m1, Passed(params, true), conv, top) && FrameOf(m1, m, SavedRegs(|params|, conv, true))
    ensures m.Holds(m.ebp + 8, 0, 0) <==> Regs(conv) == []
  {
    hide Flat, Regs, AtCall, FrameOf;
    var args := Passed(params, true);
    PassedTotals(params, true, 0);
    AboveFrame(args, conv, m1, m, SavedRegs(|params|, conv, true), top, 0, 0, 0);
    FlatIs(args, 0, 0, Popped(args, conv));
    assert args[..0] == [];
  }

  /** Under the condition, the words popped are those of the parameters taken from registers. */
  lemma PoppedAreSaved(params: seq<Kind>, conv: nat, sret: bool)
    requires (sret ==> Regs(conv) == []) && OneWordEach(params, |Regs(conv)|)
    ensures Popped(Passed(params, sret), conv) == Total(params[..Saved(|params|, conv, sret)])
  {
    hide Regs, Total;
    var f := Saved(|params|, conv, sret);
    PassedTotals(params, sret, 0);
    TotalSplit(params, f, |params|);
    assert params[..|params|] == params && params[f..|params|] == params[f..];
    if j :| 0 <= j < f && params[j].Words() != 1 {
      assert NoWords(params, j) && NoWords(params, f);
      NoWordsTotal(params, f);
    }
    AtMostOne(params, f);
    if f == |params| {
      assert params[f..] == [];
      EmptyTotal();
    }
  }

  lemma EmptyTotal()
    ensures Total([]) == 0
  {
  }

  lemma PlacedWhenSound(params: seq<Kind>, conv: nat, sret: bool, m1: Machine, m: Machine, top: int, j: nat)
    requires AtCall(m1, Passed(params, sret), conv, top) && FrameOf(m1, m, SavedRegs(|params|, conv, sret))
    requires (sret ==> Regs(conv) == []) && OneWordEach(params, |Regs(conv)|) && j < |params|
    ensures ParamPlaced(params, conv, sret, m, j)
  {
    hide AtCall, FrameOf, Regs, Total;
    var f := Saved(|params|, conv, sret);
    if j < f && params[j].Words() > 0 {
      forall i | 0 <= i < j ensures params[i].Words() == 1 {
        assert !NoWords(params, i);
      }
      assert !NoWords(params, j);
      AtMostOne(params, j);
      FirstWordPlaced(params, conv, sret, m1, m, top, j);
    } else if j >= f {
      PoppedAreSaved(params, conv, sret);
      forall i | 0 <= i < params[j].Words()
        ensures m.Holds(m.ebp + ParamAddr(params, conv, sret, j) + 4 * i, j + Hidden(sret), i)
      {
        StackWordPlaced(params, conv, sret, m1, m, top, j, i);
      }
    }
  }

  lemma OneWordWhenPlaced(params: seq<Kind>, conv: nat, sret: bool, m1: Machine, m: Machine, top: int, j: nat)
    requires AtCall(m1, Passed(params, sret), conv, top) && FrameOf(m1, m, SavedRegs(|params|, conv, sret))
    requires sret ==> Regs(conv) == []
    requires forall i :: 0 <= i < |params| ==> ParamPlaced(params, conv, sret, m, i)
    requires j < |params| && j < |Regs(conv)|
    ensures params[j].Words() == 1 || NoWords(params, j)
  {
    hide AtCall, FrameOf, Regs, Total;
    var f := Saved(|params|, conv, sret);
    PassedTotals(params, sret, 0);
    forall i | 0 <= i < f ensures params[i].Words() <= 1 {
      if params[i].Words() > 1 {
        SecondWordLost(params, conv, sret, m1, m, top, i);
      }
    }
    if params[j].Words() == 0 {
      forall k | j <= k < |params| ensures params[k].Words() == 0 {
        if params[k].Words() > 0 {
          WordPlaced(params, conv, sret, m, k, 0);
          if k < f {
            AtMostOne(params, k);
            FirstWordPlaced(params, conv, sret, m1, m, top, k);
          } else {
            AtMostOne(params, f);
            StackWordPlaced(params, conv, sret, m1, m, top, k, 0);
            MoreWords(params, f, k);
          }
        }
      }
    }
  }

  lemma MoreWords(params: seq<Kind>, f: nat, k: nat)
    requires f <= k < |params| && params[k].Words() > 0
    ensures Total(params) > Total(params[..f])
  {
    hide Total;
    TotalSplit(params, k, |params|);
    assert params[..|params|] == params && params[k..|params|] == params[k..];
    TotalSplit(params, f, k);
    TotalNext(params, k);
  }

  /** The stack pointer is restored, given that the arguments are in place. */
  lemma Balanced(params: seq<Kind>, conv: nat, sret: bool, local: nat, top: int)
    requires forall i :: 0 <= i < |params| ==> params[i].Ok()
    requires (sret ==> Regs(conv) == []) && OneWordEach(params, |Regs(conv)|)
    ensures Returned(params, conv, sret, local, Fresh(top)).esp == top
      <==> (CalleePops(conv) ==> RetSub(params, conv, sret) < 0x1_0000)
  {
    hide Regs, Total, Run, CalleePops, OneWordEach, Returned;
    ReturnReaches(params, conv, sret, local, top);
    PoppedAreSaved(params, conv, sret);
    PassedTotals(params, sret, 0);
    TotalSplit(params, Saved(|params|, conv, sret), |params|);
    assert params[..|params|] == params &&
      params[Saved(|params|, conv, sret)..|params|] == params[Saved(|params|, conv, sret)..];
    hide Passed, Popped, Saved;
  }

  /** Where the stack pointer ends: the arguments left on the stack, what ret pops and what the
      caller adds. */
  lemma ReturnReaches(params: seq<Kind>, conv: nat, sret: bool, local: nat, top: int)
    requires forall i :: 0 <= i < |params| ==> params[i].Ok()
    ensures var args := Passed(params, sret);
      var n := Remaining(args, conv, sret);
      Returned(params, conv, sret, local, Fresh(top)).esp ==
        top - 4 * (Total(args) - Popped(args, conv)) + RetSub(params, conv, sret) % 0x1_0000
          + (if n > 0 && !CalleePops(conv) then n else 0)
  {
    hide Regs, Total, Run, Flat, CalleePops, Remaining, RetSub;
    var args, rs := Passed(params, sret), RetSub(params, conv, sret) % 0x1_0000;
    var m := Entered(params, conv, sret, local, Fresh(top));
    FrameReached(params, conv, sret, local, top);
    RunTwo(m, Leave, Ret(rs));
    CleanupAdds(Run(m, [Leave, Ret(rs)]), args, conv, sret);
    hide Cleanup, Saves, Setup;
  }

  lemma CleanupAdds(m: Machine, args: seq<Kind>, conv: nat, sret: bool)
    ensures Run(m, Cleanup(args, conv, sret)).esp
      == m.esp + (if Remaining(args, conv, sret) > 0 && !CalleePops(conv) then Remaining(args, conv, sret) else 0)
  {
    var n := Remaining(args, conv, sret);
    if n > 0 && !CalleePops(conv) {
      RunOne(m, AddEsp(n));
    }
  }

  /** Caller and callee agree on the frame exactly when the call is of the sound kind. */
  lemma FrameAgrees(params: seq<Kind>, conv: nat, sret: bool, local: nat, top: int)
    requires forall i :: 0 <= i < |params| ==> params[i].Ok()
    ensures Agree(params, conv, sret, local, top) <==> Sound(params, conv, sret)
  {
    hide Regs, Total, Run, AtCall, FrameOf, Returned, CalleePops, RetSub, NoWords, ParamPlaced;
    var m1 := Run(Fresh(top), Setup(Passed(params, sret), conv));
    var m := Entered(params, conv, sret, local, Fresh(top));
    FrameReached(params, conv, sret, local, top);
    if sret {
      HiddenPlaced(params, conv, m1, m, top);
    }
    if Agree(params, conv, sret, local, top) {
      forall j | 0 <= j < |params| && j < |Regs(conv)| ensures params[j].Words() == 1 || NoWords(params, j) {
        OneWordWhenPlaced(params, conv, sret, m1, m, top, j);
      }
      Balanced(params, conv, sret, local, top);
    } else if Sound(params, conv, sret) {
      forall j | 0 <= j < |params| ensures ParamPlaced(params, conv, sret, m, j) {
        PlacedWhenSound(params, conv, sret, m1, m, top, j);
      }
      Balanced(params, conv, sret, local, top);
    }
  }

  /** The ordinary conventions: any parameters, any result, as long as ret can pop them. */
  lemma OrdinaryCallsAgree(params: seq<Kind>, sret: bool, local: nat, top: int)
    requires forall i :: 0 <= i < |params| ==> params[i].Ok()
    ensures Agree(params, FUNC_CDECL, sret, local, top)
    ensures Agree(params, FUNC_STDCALL, sret, local, top) <==> 4 * Total(Passed(params, sret)) < 0x1_0000
  {
    FrameAgrees(params, FUNC_CDECL, sret, local, top);
    FrameAgrees(params, FUNC_STDCALL, sret, local, top);
    PassedTotals(params, sret, 0);
    assert params[0..] == params;
    hide Total, Agree;
  }

  /** A long long as the first fastcall parameter: half of it is never found. */
  lemma SplitLongLong(local: nat, top: int)
    ensures !Agree([LongLong], FUNC_FASTCALL1, false, local, top)
  {
    FrameAgrees([LongLong], FUNC_FASTCALL1, false, local, top);
    assert [LongLong][0].Words() == 2;
  }

  /** A structure returned by a fastcall function: the callee looks for its address on the stack. */
  lemma StructFromFastcall(local: nat, top: int)
    ensures !Agree([], FUNC_FASTCALL1, true, local, top)
  {
    FrameAgrees([], FUNC_FASTCALL1, true, local, top);
  }

  /** A stdcall with 65536 bytes of arguments: the operand of ret comes out as 0. */
  lemma LongStdcall(local: nat, top: int)
    ensures !Agree([Struct(0x1_0000)], FUNC_STDCALL, false, local, top)
  {
    OrdinaryCallsAgree([Struct(0x1_0000)], false, local, top);
    hide Agree;
    var args := Passed([Struct(0x1_0000)], false);
    assert args[1..] == [] && args[0].Words() == 0x4000;
  }

  // ---------------------------------------------------------------- the conventions, by register and by who pops

  /** The words of arguments of one word each. */
  lemma {:induction false} FlatSingle(args: seq<Kind>, from: nat, x: nat)
    requires (forall i :: 0 <= i < |args| ==> args[i].Words() == 1) && from <= |args| && x < |args| - from
    ensures |Flat(args, from)| == |args| - from && Flat(args, from)[x] == Part(from + x, 0)
    decreases |args| - from
  {
    hide Kind.Words;
    TotalNext(args, from);
    if from + 1 == |args| {
      assert args[from + 1..] == [];
      EmptyTotal();
    } else {
      FlatSingle(args, from + 1, if x == 0 then 0 else x - 1);
    }
  }

  /** The number of registers of a convention, and which they are: eax, edx, ecx with up to three
      words in registers, ecx, edx for Windows, ecx for a method. */
  lemma ConventionRegisters(conv: nat)
    ensures FUNC_FASTCALL1 <= conv <= FUNC_FASTCALL3 ==>
      |Regs(conv)| == conv - 1 && forall i :: 0 <= i < |Regs(conv)| ==> Regs(conv)[i] == [EAX, EDX, ECX][i]
    ensures conv == FUNC_FASTCALLW ==> Regs(conv) == [ECX, EDX]
    ensures conv == FUNC_THISCALL ==> Regs(conv) == [ECX]
    ensures conv == FUNC_CDECL || conv == FUNC_STDCALL ==> Regs(conv) == []
  {
  }

  /** At the call, argument x of one word is in the register that the convention has for it. */
  lemma InRegisters(args: seq<Kind>, conv: nat, top: int, x: nat)
    requires (forall i :: 0 <= i < |args| ==> args[i].Ok() && args[i].Words() == 1) && x < |args|
    ensures var m := Run(Fresh(top), Setup(args, conv));
      (FUNC_FASTCALL1 <= conv <= FUNC_FASTCALL3 && x < conv - 1 ==> InReg(m, [EAX, EDX, ECX][x]) == Part(x, 0)) &&
      (conv == FUNC_FASTCALLW && x < 2 ==> InReg(m, [ECX, EDX][x]) == Part(x, 0)) &&
      (conv == FUNC_THISCALL && x == 0 ==> InReg(m, ECX) == Part(0, 0))
  {
    hide Flat, Total, Run, Regs, Stack, Kind.Words, Setup, InReg;
    ConventionRegisters(conv);
    SetupReaches(args, conv, top);
    FlatSingle(args, 0, x);
    if x < |Regs(conv)| {
      assert InReg(Run(Fresh(top), Setup(args, conv)), Regs(conv)[x]) == Part(x, 0);
    }
  }

  /** What the callee pops: with cdecl and register conventions only the address of a structure
      result; with the conventions of Windows everything that is on the stack. */
  lemma WhoPops(params: seq<Kind>, sret: bool)
    ensures RetSub(params, FUNC_CDECL, sret) == if sret then 4 else 0
    ensures forall conv :: FUNC_FASTCALL1 <= conv <= FUNC_FASTCALL3 ==>
      RetSub(params, conv, sret) == if sret then 4 else 0
    ensures RetSub(params, FUNC_STDCALL, sret) == 4 * Total(params) + (if sret then 4 else 0)
    ensures RetSub(params, FUNC_FASTCALLW, false) == 4 * Total(params[Min(|params|, 2)..])
    ensures RetSub(params, FUNC_THISCALL, false) == 4 * Total(params[Min(|params|, 1)..])
  {
    hide Total;
    assert params[0..] == params;
  }
}
