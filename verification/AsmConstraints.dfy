/** Register allocation for the operands of inline assembly (i386-asm.c, asm_compute_constraints). */
module AsmConstraints {
  const NB_ASM_REGS: nat := 8
  const EAX: nat := 0
  const ECX: nat := 1
  const EDX: nat := 2
  const EBX: nat := 3
  const ESP: nat := 4
  const EBP: nat := 5
  const ESI: nat := 6
  const EDI: nat := 7
  const REFERENCE_PRIORITY: nat := 5

  /** REG_IN_MASK and REG_OUT_MASK: a register is needed before or after the instruction. */
  datatype Uses = Uses(input: bool, output: bool) {
    predicate Meets(u: Uses) {
      (input && u.input) || (output && u.output)
    }

    function Or(u: Uses): Uses {
      Uses(input || u.input, output || u.output)
    }

    predicate Covers(u: Uses) {
      (u.input ==> input) && (u.output ==> output)
    }
  }

  const NEITHER: Uses := Uses(false, false)
  const BOTH: Uses := Uses(true, true)
  const INPUT: Uses := Uses(true, false)
  const OUTPUT: Uses := Uses(false, true)

  /** What is read of the C value: VT_LLOCAL; VT_CONST without VT_LVAL; the same without VT_SYM;
      and the register of a register variable, or -1. */
  datatype Value = Value(llocal: bool, constant: bool, number: bool, regVar: int)

  /** target is the operand that a constraint by number or name refers to, or -1. */
  datatype Operand = Operand(constraint: string, target: int, value: Value, inputIndex: int, refIndex: int,
                             priority: nat, reg: int, isLlong: bool, isMemory: bool, isRw: bool) {
    predicate SameSource(o: Operand) {
      constraint == o.constraint && target == o.target && value == o.value
    }
  }

  // ---------------------------------------------------------------- constraint strings

  function Letters(s: string): string {
    if s != "" && s[0] in "=&+%" then Letters(s[1..]) else s
  }

  predicate IsReference(s: string) {
    var l := Letters(s); l != "" && ('0' <= l[0] <= '9' || l[0] == '[')
  }

  predicate Known(c: char) {
    c in "AabcdSDqrRpNMIeimg"
  }

  function LetterPriority(c: char): nat {
    if c == 'A' then 0 else if c in "abcdSD" then 1 else if c == 'q' then 2 else if c in "rRp" then 3 else 4
  }

  /** constraint_priority: the hardest letter to place counts least. */
  method ConstraintPriority(s: string) returns (ok: bool, priority: nat)
    ensures ok <==> forall i :: 0 <= i < |s| ==> Known(s[i])
    ensures ok ==> forall i :: 0 <= i < |s| ==> LetterPriority(s[i]) <= priority
    ensures ok && priority > 0 ==> exists i :: 0 <= i < |s| && LetterPriority(s[i]) == priority
    ensures priority < REFERENCE_PRIORITY
  {
    priority, ok := 0, true;
    var p := 0;
    while p < |s|
      invariant 0 <= p <= |s| && priority < REFERENCE_PRIORITY
      invariant ok && forall i :: 0 <= i < p ==> Known(s[i]) && LetterPriority(s[i]) <= priority
      invariant priority > 0 ==> exists i :: 0 <= i < p && LetterPriority(s[i]) == priority
    {
      if !Known(s[p]) {
        ok := false;
        return;
      }
      var pr := LetterPriority(s[p]);
      if pr > priority {
        priority := pr;
      }
      p := p + 1;
    }
  }

  // ---------------------------------------------------------------- references

  function Blank(o: Operand): Operand {
    o.(inputIndex := -1, refIndex := -1, reg := -1, isMemory := false, isRw := false)
  }

  predicate KnownLetters(s: string) {
    var l := Letters(s); forall x :: 0 <= x < |l| ==> Known(l[x])
  }

  /** Operand i alone is acceptable. */
  predicate Acceptable(ops: seq<Operand>, i: nat, nbOutputs: nat)
    requires i < |ops|
  {
    var o := ops[i];
    if IsReference(o.constraint) then 0 <= o.target < i && i >= nbOutputs
    else o.value.regVar >= 0 || KnownLetters(o.constraint)
  }

  predicate NoTargetTwice(ops: seq<Operand>, n: nat)
    requires n <= |ops|
  {
    forall i, j :: 0 <= i < j < n && IsReference(ops[i].constraint) && IsReference(ops[j].constraint) ==>
      ops[i].target != ops[j].target
  }

  function RefAfter(o: Operand, seen: bool): int {
    if seen && IsReference(o.constraint) then o.target else -1
  }

  function RegAfter(o: Operand, seen: bool): int {
    if seen && !IsReference(o.constraint) then o.value.regVar else -1
  }

  predicate AllAcceptable(ops: seq<Operand>, nbOutputs: nat) {
    NoTargetTwice(ops, |ops|) && forall i :: 0 <= i < |ops| ==> Acceptable(ops, i, nbOutputs)
  }

  /** The first n operands have been looked at. */
  ghost predicate Evaluated(was: seq<Operand>, now: seq<Operand>, n: nat) {
    |was| == |now| && n <= |now| &&
    (forall i :: 0 <= i < |now| ==> now[i].SameSource(was[i]) && now[i].isLlong == was[i].isLlong) &&
    (forall i :: 0 <= i < |now| ==> !now[i].isMemory && !now[i].isRw) &&
    (forall i :: 0 <= i < |now| ==> now[i].refIndex == RefAfter(was[i], i < n)) &&
    (forall i :: 0 <= i < |now| ==> now[i].reg == RegAfter(was[i], i < n)) &&
    (forall i :: 0 <= i < n && now[i].refIndex >= 0 ==> now[i].refIndex < i && now[now[i].refIndex].inputIndex == i) &&
    (forall k :: 0 <= k < |now| ==> -1 <= now[k].inputIndex < n) &&
    (forall k :: 0 <= k < |now| && now[k].inputIndex >= 0 ==> now[now[k].inputIndex].refIndex == k)
  }

  predicate RegVarsFit(ops: seq<Operand>) {
    forall i :: 0 <= i < |ops| ==> -1 <= ops[i].value.regVar < NB_ASM_REGS && ops[i].target >= -1
  }

  method Initialize(operands: array<Operand>)
    modifies operands
    ensures forall i :: 0 <= i < operands.Length ==> operands[i] == Blank(old(operands[i]))
  {
    var i := 0;
    while i < operands.Length
      invariant 0 <= i <= operands.Length
      invariant forall k :: 0 <= k < i ==> operands[k] == Blank(old(operands[k]))
      invariant forall k :: i <= k < operands.Length ==> operands[k] == old(operands[k])
    {
      operands[i] := operands[i].(inputIndex := -1, refIndex := -1, reg := -1, isMemory := false, isRw := false);
      i := i + 1;
    }
  }

  /** The first part: references are resolved and priorities computed. */
  method Evaluate(operands: array<Operand>, nbOutputs: nat) returns (ok: bool)
    requires RegVarsFit(operands[..])
    modifies operands
    ensures ok <==> AllAcceptable(old(operands[..]), nbOutputs)
    ensures ok ==> Evaluated(old(operands[..]), operands[..], operands.Length)
    ensures ok ==> forall i :: 0 <= i < operands.Length ==> PriorityIs(operands[i])
  {
    hide Evaluated, HardestLetter, Letters, IsReference, NoTargetTwice, Known;
    ghost var was := operands[..];
    Initialize(operands);
    EvaluatedNone(was, operands[..]);
    NoTargets(was);
    var i := 0;
    while i < operands.Length
      invariant 0 <= i <= operands.Length
      invariant Evaluated(was, operands[..], i)
      invariant NoTargetTwice(was, i) && forall k :: 0 <= k < i ==> Acceptable(was, k, nbOutputs)
      invariant forall k :: 0 <= k < i ==> PriorityIs(operands[k])
    {
      var o := operands[i];
      ghost var now := operands[..];
      EvaluatedSource(was, now, i);
      if IsReference(o.constraint) {
        var k := o.target;
        if !(0 <= k < i) || i < nbOutputs {
          assert !Acceptable(was, i, nbOutputs);
          return false;
        }
        TargetFree(was, now, i);
        if operands[k].inputIndex >= 0 {
          return false;
        }
        operands[i] := operands[i].(refIndex := k, priority := REFERENCE_PRIORITY);
        operands[k] := operands[k].(inputIndex := i);
        assert operands[..] == Referring(now, i, k);
      } else {
        DirectTarget(was, i);
        if o.value.regVar >= 0 {
          operands[i] := o.(priority := 1, reg := o.value.regVar);
        } else {
          var known, priority := ConstraintPriority(Letters(o.constraint));
          if !known {
            assert !Acceptable(was, i, nbOutputs);
            return false;
          }
          PriorityMeans(Letters(o.constraint), priority);
          operands[i] := o.(priority := priority);
        }
        EvaluatedDirect(was, now, operands[..], i);
      }
      i := i + 1;
    }
    ok := true;
  }

  lemma NoTargets(was: seq<Operand>)
    ensures NoTargetTwice(was, 0)
  {
  }

  lemma PriorityMeans(s: string, priority: nat)
    requires forall i :: 0 <= i < |s| ==> LetterPriority(s[i]) <= priority
    requires priority < REFERENCE_PRIORITY &&
      (priority > 0 ==> exists i :: 0 <= i < |s| && LetterPriority(s[i]) == priority)
    ensures HardestLetter(s, priority)
  {
  }

  lemma EvaluatedNone(was: seq<Operand>, now: seq<Operand>)
    requires |was| == |now| && forall i :: 0 <= i < |now| ==> now[i] == Blank(was[i])
    ensures Evaluated(was, now, 0)
  {
  }

  lemma EvaluatedSource(was: seq<Operand>, now: seq<Operand>, i: nat)
    requires Evaluated(was, now, i) && i < |now|
    ensures |was| == |now| && now[i].SameSource(was[i]) && now[i].refIndex == -1 && now[i].reg == -1
  {
  }

  lemma DirectTarget(was: seq<Operand>, i: nat)
    requires i < |was| && NoTargetTwice(was, i) && !IsReference(was[i].constraint)
    ensures NoTargetTwice(was, i + 1)
  {
  }

  /** Operand i refers to operand k. */
  function Referring(now: seq<Operand>, i: nat, k: nat): seq<Operand>
    requires i < |now| && k < |now|
  {
    now[i := now[i].(refIndex := k, priority := REFERENCE_PRIORITY)][k := now[k].(inputIndex := i)]
  }

  /** The target has no reference yet exactly when this one is the first. */
  lemma TargetFree(was: seq<Operand>, now: seq<Operand>, i: nat)
    requires Evaluated(was, now, i) && i < |now| && NoTargetTwice(was, i)
    requires IsReference(was[i].constraint) && 0 <= was[i].target < i
    ensures var k := was[i].target; -1 <= now[k].inputIndex
    ensures var k := was[i].target; now[k].inputIndex >= 0 ==> !NoTargetTwice(was, |was|)
    ensures var k := was[i].target; now[k].inputIndex < 0 ==> NoTargetTwice(was, i + 1)
    ensures var k := was[i].target; now[k].inputIndex < 0 ==>
      Evaluated(was, Referring(now, i, k), i + 1)
  {
    hide IsReference, Letters;
    var k := was[i].target;
    if now[k].inputIndex >= 0 {
      var j := now[k].inputIndex;
      assert now[j].refIndex == k == was[j].target == was[i].target && IsReference(was[j].constraint);
    } else {
      forall j | 0 <= j < i && IsReference(was[j].constraint) ensures was[j].target != k {
        assert now[j].refIndex == was[j].target;
      }
      EvaluatedReference(was, now, i, k);
    }
  }

  lemma EvaluatedReference(was: seq<Operand>, now: seq<Operand>, i: nat, k: nat)
    requires Evaluated(was, now, i) && i < |now| && IsReference(was[i].constraint)
    requires k == was[i].target && k < i && now[k].inputIndex < 0
    ensures Evaluated(was, Referring(now, i, k), i + 1)
  {
    hide IsReference;
    var next := Referring(now, i, k);
    assert next[i].refIndex == k && next[k].inputIndex == i;
    forall x | 0 <= x < |now| && x != i && x != k ensures next[x] == now[x] {
    }
    forall x | 0 <= x < i && next[x].refIndex >= 0
      ensures next[x].refIndex < x && next[next[x].refIndex].inputIndex == x
    {
      assert now[x].refIndex == next[x].refIndex;
    }
  }

  lemma EvaluatedDirect(was: seq<Operand>, now: seq<Operand>, next: seq<Operand>, i: nat)
    requires Evaluated(was, now, i) && i < |now| && !IsReference(was[i].constraint)
    requires |next| == |now|
    requires next == now[i := now[i].(priority := next[i].priority, reg := was[i].value.regVar)]
    ensures Evaluated(was, next, i + 1)
  {
    hide IsReference;
    forall x | 0 <= x < i && next[x].refIndex >= 0
      ensures next[x].refIndex < x && next[next[x].refIndex].inputIndex == x
    {
      assert now[x].refIndex == next[x].refIndex;
    }
  }

  ghost predicate PriorityIs(o: Operand) {
    if o.refIndex >= 0 then o.priority == REFERENCE_PRIORITY
    else if o.value.regVar >= 0 then o.priority == 1
    else HardestLetter(Letters(o.constraint), o.priority)
  }

  ghost predicate HardestLetter(s: string, priority: nat) {
    (forall i :: 0 <= i < |s| ==> LetterPriority(s[i]) <= priority) && priority < REFERENCE_PRIORITY &&
    (priority > 0 ==> exists i :: 0 <= i < |s| && LetterPriority(s[i]) == priority)
  }

  // ---------------------------------------------------------------- the order

  ghost predicate Permutes(sorted: seq<nat>, n: nat) {
    |sorted| == n && (forall i :: 0 <= i < n ==> sorted[i] < n) &&
    (forall i, j :: 0 <= i < j < n ==> sorted[i] != sorted[j]) && (forall v :: 0 <= v < n ==> v in sorted)
  }

  lemma SwapPermutes(sorted: seq<nat>, n: nat, i: nat, j: nat)
    requires Permutes(sorted, n) && i < j < n
    ensures Permutes(sorted[i := sorted[j]][j := sorted[i]], n)
  {
    var t := sorted[i := sorted[j]][j := sorted[i]];
    forall v | 0 <= v < n ensures v in t {
      assert v in sorted;
      var k :| 0 <= k < |sorted| && sorted[k] == v;
      assert t[if k == i then j else if k == j then i else k] == v;
    }
  }

  /** Operands by priority, by exchanges. */
  method SortOperands(operands: array<Operand>) returns (sorted: seq<nat>)
    ensures Permutes(sorted, operands.Length)
    ensures forall i, j :: 0 <= i < j < |sorted| ==> operands[sorted[i]].priority <= operands[sorted[j]].priority
  {
    var n := operands.Length;
    sorted := seq(n, i requires 0 <= i < n => i);
    forall v | 0 <= v < n ensures v in sorted {
      assert sorted[v] == v;
    }
    var i := 0;
    while i < n - 1
      invariant 0 <= i && (n > 0 ==> i < n) && Permutes(sorted, n)
      invariant forall x, y :: 0 <= x < i && x < y < n ==> operands[sorted[x]].priority <= operands[sorted[y]].priority
    {
      var j := i + 1;
      while j < n
        invariant i < j <= n && Permutes(sorted, n)
        invariant forall y :: i < y < j ==> operands[sorted[i]].priority <= operands[sorted[y]].priority
        invariant forall x, y :: 0 <= x < i && x < y < n ==>
          operands[sorted[x]].priority <= operands[sorted[y]].priority
      {
        if operands[sorted[j]].priority < operands[sorted[i]].priority {
          SwapPermutes(sorted, n, i, j);
          sorted := sorted[i := sorted[j]][j := sorted[i]];
        }
        j := j + 1;
      }
      i := i + 1;
    }
  }

  // ---------------------------------------------------------------- one operand

  /** The first of the registers below limit that is free for these uses, or limit. */
  function FirstFree(regs: seq<Uses>, u: Uses, limit: nat): (r: nat)
    requires limit <= |regs|
    ensures r <= limit && (r < limit ==> !regs[r].Meets(u))
    ensures forall x :: 0 <= x < r ==> regs[x].Meets(u)
  {
    FreeFrom(regs, u, limit, 0)
  }

  function FreeFrom(regs: seq<Uses>, u: Uses, limit: nat, from: nat): (r: nat)
    requires from <= limit <= |regs|
    ensures from <= r <= limit && (r < limit ==> !regs[r].Meets(u))
    ensures forall x :: from <= x < r ==> regs[x].Meets(u)
    decreases limit - from
  {
    if from == limit || !regs[from].Meets(u) then from else FreeFrom(regs, u, limit, from + 1)
  }

  method FindFree(regs: seq<Uses>, u: Uses, limit: nat) returns (r: nat)
    requires limit <= |regs|
    ensures r == FirstFree(regs, u, limit)
  {
    r := 0;
    while r < limit
      invariant 0 <= r <= limit && FreeFrom(regs, u, limit, 0) == FreeFrom(regs, u, limit, r)
    {
      if !regs[r].Meets(u) {
        return;
      }
      r := r + 1;
    }
  }

  function RegisterOf(c: char): nat
    requires c in "abcdSD"
  {
    match c
    case 'a' => EAX
    case 'b' => EBX
    case 'c' => ECX
    case 'd' => EDX
    case 'S' => ESI
    case _ => EDI
  }

  /** Where an operand goes, for which uses; pair: it takes eax and edx; rw: a '+' was met. */
  datatype Choice =
    | Register(reg: nat, uses: Uses, pair: bool, rw: bool)
    | Memory(reg: nat, rw: bool)
    | InPlace(rw: bool)
    | Unsatisfied

  /** The first letter that can be met decides; own is the register of a register variable. */
  function Choose(s: string, regs: seq<Uses>, output: bool, v: Value, own: int, u: Uses, rw: bool): Choice
    requires |regs| == NB_ASM_REGS && own < NB_ASM_REGS
    decreases |s|
  {
    if s == "" then
      Unsatisfied
    else
      var c := s[0];
      if c == '+' || c == '&' then
        if output then Choose(s[1..], regs, output, v, own, BOTH, rw || c == '+') else Unsatisfied
      else if c != '=' && !Known(c) then
        Unsatisfied
      else
        var here := if c == '=' then Unsatisfied else Try(c, regs, output, v, own, u, rw);
        if here != Unsatisfied then here else Choose(s[1..], regs, output, v, own, u, rw)
  }

  /** One letter. */
  function Try(c: char, regs: seq<Uses>, output: bool, v: Value, own: int, u: Uses, rw: bool): Choice
    requires |regs| == NB_ASM_REGS && own < NB_ASM_REGS && Known(c)
  {
    if c == 'A' then
      if regs[EAX].Meets(u) || regs[EDX].Meets(u) then Unsatisfied else Register(EAX, u, true, rw)
    else if c in "abcdSD" then
      var r := RegisterOf(c);
      if (own >= 0 && r != own) || regs[r].Meets(u) then Unsatisfied else Register(r, u, false, rw)
    else if c in "qrRp" then
      AnyRegister(regs, u, own, if c == 'q' then 4 else NB_ASM_REGS, rw)
    else if c in "ei" then
      if v.constant then InPlace(rw) else Unsatisfied
    else if c in "INM" then
      if v.number then InPlace(rw) else Unsatisfied
    else if (output || c == 'm') && v.llocal then
      Pointer(regs, rw)
    else
      InPlace(rw)
  }

  /** Any register below limit, or the one of a register variable. */
  function AnyRegister(regs: seq<Uses>, u: Uses, own: int, limit: nat, rw: bool): Choice
    requires |regs| == NB_ASM_REGS && own < NB_ASM_REGS && limit <= NB_ASM_REGS
  {
    var r := if own >= 0 then own else FirstFree(regs, u, limit);
    if r < limit then Register(r, u, false, rw) else Unsatisfied
  }

  method ChooseAny(regs: seq<Uses>, u: Uses, own: int, limit: nat, rw: bool) returns (choice: Choice)
    requires |regs| == NB_ASM_REGS && own < NB_ASM_REGS && limit <= NB_ASM_REGS
    ensures choice == AnyRegister(regs, u, own, limit, rw)
  {
    var r := own;
    if own < 0 {
      r := FindFree(regs, u, limit);
    }
    choice := if r < limit then Register(r, u, false, rw) else Unsatisfied;
  }

  /** A register that points to the operand. */
  function Pointer(regs: seq<Uses>, rw: bool): Choice
    requires |regs| == NB_ASM_REGS
  {
    var r := FirstFree(regs, INPUT, NB_ASM_REGS);
    if r < NB_ASM_REGS then Memory(r, rw) else Unsatisfied
  }

  method ChoosePointer(regs: seq<Uses>, rw: bool) returns (choice: Choice)
    requires |regs| == NB_ASM_REGS
    ensures choice == Pointer(regs, rw)
  {
    var r := FindFree(regs, INPUT, NB_ASM_REGS);
    choice := if r < NB_ASM_REGS then Memory(r, rw) else Unsatisfied;
  }

  /** The loop over the letters of a constraint. */
  method ChooseRegister(s: string, regs: seq<Uses>, output: bool, v: Value, own: int, base: Uses)
      returns (choice: Choice)
    requires |regs| == NB_ASM_REGS && own < NB_ASM_REGS
    ensures choice == Choose(s, regs, output, v, own, base, false)
  {
    hide Choose, AnyRegister, Pointer;
    var p, u, rw := 0, base, false;
    assert s[0..] == s;
    while p < |s|
      invariant 0 <= p <= |s|
      invariant Choose(s, regs, output, v, own, base, false) == Choose(s[p..], regs, output, v, own, u, rw)
    {
      var c := s[p];
      ChooseStep(s, p, regs, output, v, own, u, rw);
      p := p + 1;
      if c == '=' {
        continue;
      } else if c == '+' || c == '&' {
        rw := rw || c == '+';
        if !output {
          return Unsatisfied;
        }
        u := BOTH;
      } else if c == 'A' {
        if !regs[EAX].Meets(u) && !regs[EDX].Meets(u) {
          return Register(EAX, u, true, rw);
        }
      } else if c in "abcdSD" {
        var r := if c == 'a' then EAX else if c == 'b' then EBX else if c == 'c' then ECX
                 else if c == 'd' then EDX else if c == 'S' then ESI else EDI;
        if !(own >= 0 && r != own) && !regs[r].Meets(u) {
          return Register(r, u, false, rw);
        }
      } else if c == 'q' {
        choice := ChooseAny(regs, u, own, 4, rw);
        if choice != Unsatisfied {
          return;
        }
      } else if c == 'r' || c == 'R' || c == 'p' {
        choice := ChooseAny(regs, u, own, NB_ASM_REGS, rw);
        if choice != Unsatisfied {
          return;
        }
      } else if c == 'e' || c == 'i' {
        if v.constant {
          return InPlace(rw);
        }
      } else if c == 'I' || c == 'N' || c == 'M' {
        if v.number {
          return InPlace(rw);
        }
      } else if c == 'm' || c == 'g' {
        if !((output || c == 'm') && v.llocal) {
          return InPlace(rw);
        }
        choice := ChoosePointer(regs, rw);
        if choice != Unsatisfied {
          return;
        }
      } else {
        return Unsatisfied;
      }
    }
    choice := Unsatisfied;
    assert s[p..] == "";
    ChooseNone(regs, output, v, own, u, rw);
  }

  lemma ChooseStep(s: string, p: nat, regs: seq<Uses>, output: bool, v: Value, own: int, u: Uses, rw: bool)
    requires |regs| == NB_ASM_REGS && own < NB_ASM_REGS && p < |s|
    ensures var c, next := s[p], s[p + 1..];
      Choose(s[p..], regs, output, v, own, u, rw) ==
        if c == '+' || c == '&' then
          if output then Choose(next, regs, output, v, own, BOTH, rw || c == '+') else Unsatisfied
        else if c == '=' then Choose(next, regs, output, v, own, u, rw)
        else if !Known(c) then Unsatisfied
        else if Try(c, regs, output, v, own, u, rw) != Unsatisfied then Try(c, regs, output, v, own, u, rw)
        else Choose(next, regs, output, v, own, u, rw)
  {
    hide Try, Known;
    assert s[p..][1..] == s[p + 1..] && s[p..][0] == s[p];
  }

  lemma ChooseNone(regs: seq<Uses>, output: bool, v: Value, own: int, u: Uses, rw: bool)
    requires |regs| == NB_ASM_REGS && own < NB_ASM_REGS
    ensures Choose("", regs, output, v, own, u, rw) == Unsatisfied
  {
  }

  // ---------------------------------------------------------------- what a choice promises

  /** The uses an operand asks for: '+' or '&' among the first modifiers makes it both. */
  function Required(s: string, u: Uses): Uses {
    if s == "" then u else if s[0] == '=' then Required(s[1..], u) else if s[0] == '+' || s[0] == '&' then BOTH else u
  }

  /** A letter of the constraint allows this place. */
  predicate Admits(c: char, ch: Choice, v: Value) {
    match ch
    case Register(r, _, pair, _) =>
      (c == 'A' && pair && r == EAX) || (c == 'a' && !pair && r == EAX) || (c == 'b' && !pair && r == EBX)
      || (c == 'c' && !pair && r == ECX) || (c == 'd' && !pair && r == EDX) || (c == 'S' && !pair && r == ESI)
      || (c == 'D' && !pair && r == EDI) || (c == 'q' && !pair && r <= EBX) || (c in "rRp" && !pair)
    case Memory(_, _) => c in "mg" && v.llocal
    case InPlace(_) => (c in "ei" && v.constant) || (c in "INM" && v.number) || c in "mg"
    case Unsatisfied => false
  }

  predicate Fits(ch: Choice, regs: seq<Uses>, u: Uses)
    requires |regs| == NB_ASM_REGS
  {
    match ch
    case Register(r, uses, pair, _) =>
      r < NB_ASM_REGS && uses.Covers(u) && !regs[r].Meets(uses) && (pair ==> r == EAX && !regs[EDX].Meets(uses))
    case Memory(r, _) => r < NB_ASM_REGS && !regs[r].Meets(INPUT)
    case InPlace(_) => true
    case Unsatisfied => false
  }

  ghost predicate Admitted(s: string, ch: Choice, v: Value) {
    exists i :: 0 <= i < |s| && Admits(s[i], ch, v)
  }

  lemma TryGood(c: char, regs: seq<Uses>, output: bool, v: Value, u: Uses, rw: bool)
    requires |regs| == NB_ASM_REGS && Known(c) && Try(c, regs, output, v, -1, u, rw) != Unsatisfied
    ensures var ch := Try(c, regs, output, v, -1, u, rw); Fits(ch, regs, u) && Admits(c, ch, v)
  {
    hide FirstFree;
  }

  lemma {:induction false} ChoiceGood(s: string, regs: seq<Uses>, output: bool, v: Value, u: Uses, rw: bool)
    requires |regs| == NB_ASM_REGS && Choose(s, regs, output, v, -1, u, rw) != Unsatisfied
    ensures var ch := Choose(s, regs, output, v, -1, u, rw);
      Fits(ch, regs, u) && Fits(ch, regs, Required(s, u)) && Admitted(s, ch, v)
    decreases |s|
  {
    hide Try, Fits, Admits, Admitted, Known;
    var ch, c := Choose(s, regs, output, v, -1, u, rw), s[0];
    if c == '+' || c == '&' {
      ChoiceGood(s[1..], regs, output, v, BOTH, rw || c == '+');
      AdmittedLater(s, ch, v);
      FitsLess(ch, regs, BOTH, u);
    } else if c == '=' || Try(c, regs, output, v, -1, u, rw) == Unsatisfied {
      ChoiceGood(s[1..], regs, output, v, u, rw);
      AdmittedLater(s, ch, v);
    } else {
      TryGood(c, regs, output, v, u, rw);
      AdmittedFirst(s, ch, v);
    }
  }

  lemma FitsLess(ch: Choice, regs: seq<Uses>, more: Uses, less: Uses)
    requires |regs| == NB_ASM_REGS && Fits(ch, regs, more) && more.Covers(less)
    ensures Fits(ch, regs, less)
  {
  }

  lemma AdmittedFirst(s: string, ch: Choice, v: Value)
    requires s != "" && Admits(s[0], ch, v)
    ensures Admitted(s, ch, v)
  {
  }

  lemma AdmittedLater(s: string, ch: Choice, v: Value)
    requires s != "" && Admitted(s[1..], ch, v)
    ensures Admitted(s, ch, v)
  {
    var i :| 0 <= i < |s[1..]| && Admits(s[1..][i], ch, v);
    var j := i + 1;
    assert s[1..][i] == s[j];
  }

  // ---------------------------------------------------------------- all operands

  predicate Reserved(clobber: seq<bool>, r: nat)
    requires |clobber| == NB_ASM_REGS
  {
    r == ESP || r == EBP || (r < NB_ASM_REGS && clobber[r])
  }

  /** The uses an operand starts with. */
  function Base(o: Operand, j: nat, nbOutputs: nat): Uses {
    if o.inputIndex >= 0 then BOTH else if j < nbOutputs then OUTPUT else INPUT
  }

  /** When an operand's register has to be its own; the address of an operand in memory is
      needed before the instruction. */
  function UsesOf(o: Operand, j: nat, nbOutputs: nat): Uses {
    if o.isMemory then INPUT else Required(o.constraint, Base(o, j, nbOutputs))
  }

  /** A pair takes edx too. */
  predicate Occupies(o: Operand, r: nat) {
    o.reg >= 0 && (r == o.reg || (o.isLlong && !o.isMemory && r == EDX))
  }

  function Placed(o: Operand, ch: Choice): Operand {
    match ch
    case Register(r, _, pair, rw) => o.(reg := r, isLlong := pair, isRw := rw)
    case Memory(r, rw) => o.(reg := r, isMemory := true, isRw := rw)
    case InPlace(rw) => o.(isRw := rw)
    case Unsatisfied => o
  }

  function Taken(regs: seq<Uses>, ch: Choice): (r: seq<Uses>)
    requires |regs| == NB_ASM_REGS
    requires ch.Register? || ch.Memory? ==> ch.reg < NB_ASM_REGS
    ensures |r| == |regs|
  {
    match ch
    case Register(r, u, pair, _) =>
      var once := regs[r := regs[r].Or(u)];
      if pair then once[EDX := once[EDX].Or(u)] else once
    case Memory(r, _) => regs[r := regs[r].Or(INPUT)]
    case _ => regs
  }

  predicate Direct(ops: seq<Operand>, done: set<nat>, q: nat) {
    q in done && q < |ops| && ops[q].refIndex < 0
  }

  /** Its place is one that its constraint allows. */
  ghost predicate Satisfied(o: Operand) {
    exists ch: Choice :: Admitted(o.constraint, ch, o.value) && AsPlaced(o, ch)
  }

  predicate AsPlaced(o: Operand, ch: Choice) {
    match ch
    case Register(r, _, pair, _) => o.reg == r && o.isLlong == pair && !o.isMemory
    case Memory(r, _) => o.reg == r && o.isMemory
    case InPlace(_) => o.reg == -1 && !o.isMemory
    case Unsatisfied => false
  }

  /** The allocator's state after the operands in done. */
  ghost predicate Allocated(ops: seq<Operand>, regs: seq<Uses>, done: set<nat>, nbOutputs: nat, clobber: seq<bool>) {
    |regs| == NB_ASM_REGS == |clobber| && ReservedTaken(regs, clobber) &&
      AllHeld(ops, regs, done, nbOutputs, clobber) &&
    AllApart(ops, done, nbOutputs) && AllSatisfied(ops, done) && OthersNone(ops, done)
  }

  ghost predicate ReservedTaken(regs: seq<Uses>, clobber: seq<bool>)
    requires |regs| == NB_ASM_REGS == |clobber|
  {
    forall r :: 0 <= r < NB_ASM_REGS && Reserved(clobber, r) ==> regs[r] == BOTH
  }

  ghost predicate AllHeld(ops: seq<Operand>, regs: seq<Uses>, done: set<nat>, nbOutputs: nat, clobber: seq<bool>)
    requires |regs| == NB_ASM_REGS == |clobber|
  {
    forall q: nat, r: nat {:trigger Occupies(ops[q], r)} :: Direct(ops, done, q) && Occupies(ops[q], r) ==>
      Holder(ops[q], q, r, regs, nbOutputs) && !Reserved(clobber, r)
  }

  ghost predicate AllApart(ops: seq<Operand>, done: set<nat>, nbOutputs: nat) {
    forall q: nat, s: nat :: Direct(ops, done, q) && Direct(ops, done, s) && q != s ==>
      Apart(ops[q], q, ops[s], s, nbOutputs)
  }

  ghost predicate AllSatisfied(ops: seq<Operand>, done: set<nat>) {
    forall q: nat :: Direct(ops, done, q) ==> Satisfied(ops[q])
  }

  ghost predicate OthersNone(ops: seq<Operand>, done: set<nat>) {
    forall q :: 0 <= q < |ops| && q !in done && ops[q].refIndex < 0 ==> ops[q].reg == -1 && !ops[q].isMemory
  }

  ghost predicate Holder(o: Operand, j: nat, r: nat, regs: seq<Uses>, nbOutputs: nat) {
    r < |regs| && regs[r].Covers(UsesOf(o, j, nbOutputs))
  }

  lemma HolderOf(ops: seq<Operand>, regs: seq<Uses>, done: set<nat>, nbOutputs: nat, clobber: seq<bool>, q: nat, r: nat)
    requires |regs| == NB_ASM_REGS == |clobber| && AllHeld(ops, regs, done, nbOutputs, clobber)
    requires Direct(ops, done, q) && Occupies(ops[q], r)
    ensures Holder(ops[q], q, r, regs, nbOutputs) && r < NB_ASM_REGS && !Reserved(clobber, r)
  {
    hide Direct, Occupies, Reserved, UsesOf;
  }

  lemma ApartOf(ops: seq<Operand>, done: set<nat>, nbOutputs: nat, q: nat, s: nat)
    requires AllApart(ops, done, nbOutputs) && Direct(ops, done, q) && Direct(ops, done, s) && q != s
    ensures Apart(ops[q], q, ops[s], s, nbOutputs)
  {
    hide Direct, Apart;
  }

  lemma SatisfiedOf(ops: seq<Operand>, done: set<nat>, q: nat)
    requires AllSatisfied(ops, done) && Direct(ops, done, q)
    ensures Satisfied(ops[q])
  {
    hide Direct, Satisfied;
  }

  /** Two operands that are in use at one time share no register. */
  ghost predicate Apart(o: Operand, j: nat, p: Operand, k: nat, nbOutputs: nat) {
    UsesOf(o, j, nbOutputs).Meets(UsesOf(p, k, nbOutputs)) ==> forall r: nat :: !(Occupies(o, r) && Occupies(p, r))
  }

  /** References have the register of their operand from the moment it has one. */
  ghost predicate Shared(ops: seq<Operand>, done: set<nat>) {
    forall i :: 0 <= i < |ops| && ops[i].refIndex >= 0 ==> ops[i].refIndex < |ops| && SharesIf(ops, done, i)
  }

  ghost predicate SharesIf(ops: seq<Operand>, done: set<nat>, i: nat)
    requires i < |ops| && 0 <= ops[i].refIndex < |ops|
  {
    var k := ops[i].refIndex;
    if Direct(ops, done, k) then ops[i].reg == ops[k].reg && ops[i].isLlong == ops[k].isLlong else ops[i].reg == -1
  }

  /** The step for operand j: it is placed, and a reference to it with it. */
  function Stepped(ops: seq<Operand>, j: nat, ch: Choice): (r: seq<Operand>)
    requires j < |ops| && ops[j].inputIndex < |ops|
    ensures |r| == |ops|
  {
    var once := ops[j := Placed(ops[j], ch)];
    var i := ops[j].inputIndex;
    if i >= 0 then once[i := once[i].(reg := once[j].reg, isLlong := once[j].isLlong)] else once
  }

  lemma PlacedHolds(o: Operand, j: nat, regs: seq<Uses>, ch: Choice, nbOutputs: nat)
    requires |regs| == NB_ASM_REGS && o.reg == -1 && !o.isMemory
    requires Fits(ch, regs, Required(o.constraint, Base(o, j, nbOutputs)))
    ensures forall r: nat :: Occupies(Placed(o, ch), r) ==> Holder(Placed(o, ch), j, r, Taken(regs, ch), nbOutputs)
    ensures forall r: nat :: Occupies(Placed(o, ch), r) ==> !regs[r].Meets(UsesOf(Placed(o, ch), j, nbOutputs))
  {
    hide Required;
  }

  lemma TakenCovers(regs: seq<Uses>, ch: Choice, u: Uses)
    requires |regs| == NB_ASM_REGS && Fits(ch, regs, u)
    ensures ch.Register? || ch.Memory? ==> ch.reg < NB_ASM_REGS
    ensures forall r :: 0 <= r < NB_ASM_REGS ==> Taken(regs, ch)[r].Covers(regs[r])
  {
  }

  /** Apart from the fields that allocation sets, the operands stay as they are. */
  predicate SameBut(now: seq<Operand>, was: seq<Operand>) {
    |now| == |was| && forall i :: 0 <= i < |was| ==>
      now[i].SameSource(was[i]) && now[i].refIndex == was[i].refIndex && now[i].inputIndex == was[i].inputIndex
  }

  /** inputIndex and refIndex point at each other. */
  ghost predicate Linked(ops: seq<Operand>) {
    (forall k :: 0 <= k < |ops| ==> -1 <= ops[k].inputIndex < |ops| && -1 <= ops[k].refIndex < k) &&
    (forall k :: 0 <= k < |ops| && ops[k].inputIndex >= 0 ==> ops[ops[k].inputIndex].refIndex == k) &&
    (forall k :: 0 <= k < |ops| && ops[k].refIndex >= 0 ==> ops[ops[k].refIndex].inputIndex == k)
  }

  lemma SteppedOthers(ops: seq<Operand>, j: nat, ch: Choice, q: nat)
    requires j < |ops| && Linked(ops) && ops[j].refIndex < 0 && q < |ops| && ops[q].refIndex < 0
    ensures Stepped(ops, j, ch)[q] == if q == j then Placed(ops[j], ch) else ops[q]
  {
    assert ops[j].inputIndex >= 0 ==> ops[ops[j].inputIndex].refIndex == j;
  }

  lemma SteppedSame(ops: seq<Operand>, j: nat, ch: Choice)
    requires j < |ops| && Linked(ops)
    ensures SameBut(Stepped(ops, j, ch), ops) && Linked(Stepped(ops, j, ch))
  {
    var next := Stepped(ops, j, ch);
    assert SameBut(next, ops);
    forall k | 0 <= k < |ops|
      ensures (next[k].inputIndex >= 0 ==> next[next[k].inputIndex].refIndex == k)
      ensures (next[k].refIndex >= 0 ==> next[next[k].refIndex].inputIndex == k)
    {
      assert next[k].inputIndex == ops[k].inputIndex && next[k].refIndex == ops[k].refIndex;
      assert -1 <= ops[k].inputIndex < |ops| && -1 <= ops[k].refIndex < k;
    }
  }

  /** Only operand j and references to it are changed. */
  lemma StepChanges(ops: seq<Operand>, done: set<nat>, j: nat, ch: Choice, q: nat)
    requires Linked(ops) && j < |ops| && j !in done && ops[j].refIndex < 0 && Direct(Stepped(ops, j, ch), done + {j}, q)
    ensures Stepped(ops, j, ch)[q] == if q == j then Placed(ops[j], ch) else ops[q]
    ensures q != j ==> Direct(ops, done, q)
  {
    SteppedSame(ops, j, ch);
    SteppedOthers(ops, j, ch, q);
  }

  lemma StepNone(ops: seq<Operand>, done: set<nat>, j: nat, ch: Choice)
    requires Linked(ops) && j < |ops| && ops[j].refIndex < 0 && OthersNone(ops, done)
    ensures OthersNone(Stepped(ops, j, ch), done + {j})
  {
    hide Stepped;
    var next := Stepped(ops, j, ch);
    SteppedSame(ops, j, ch);
    forall q | 0 <= q < |next| && q !in done + {j} && next[q].refIndex < 0
      ensures next[q].reg == -1 && !next[q].isMemory
    {
      SteppedOthers(ops, j, ch, q);
    }
  }

  lemma StepSatisfied(ops: seq<Operand>, done: set<nat>, j: nat, ch: Choice)
    requires Linked(ops) && j < |ops| && j !in done && ops[j].refIndex < 0 && AllSatisfied(ops, done)
    requires ops[j].reg == -1 && !ops[j].isMemory && ch != Unsatisfied && Admitted(ops[j].constraint, ch, ops[j].value)
    ensures AllSatisfied(Stepped(ops, j, ch), done + {j})
  {
    hide Stepped, Admitted, Satisfied, AllSatisfied;
    forall q: nat | Direct(Stepped(ops, j, ch), done + {j}, q) ensures Satisfied(Stepped(ops, j, ch)[q]) {
      StepChanges(ops, done, j, ch, q);
      if q == j {
        PlacedSatisfies(ops[j], ch);
      } else {
        SatisfiedOf(ops, done, q);
      }
    }
    SatisfiedAll(Stepped(ops, j, ch), done + {j});
  }

  lemma SatisfiedAll(ops: seq<Operand>, done: set<nat>)
    requires forall q: nat :: Direct(ops, done, q) ==> Satisfied(ops[q])
    ensures AllSatisfied(ops, done)
  {
    hide Direct, Satisfied;
  }

  lemma StepHeld(ops: seq<Operand>, regs: seq<Uses>, done: set<nat>, nbOutputs: nat, clobber: seq<bool>, j: nat,
                 ch: Choice)
    requires |regs| == NB_ASM_REGS == |clobber| && ReservedTaken(regs, clobber) && Linked(ops)
    requires j < |ops| && j !in done && ops[j].refIndex < 0 && AllHeld(ops, regs, done, nbOutputs, clobber)
    requires ops[j].reg == -1 && !ops[j].isMemory &&
      Fits(ch, regs, Required(ops[j].constraint, Base(ops[j], j, nbOutputs)))
    ensures ch.Register? || ch.Memory? ==> ch.reg < NB_ASM_REGS
    ensures AllHeld(Stepped(ops, j, ch), Taken(regs, ch), done + {j}, nbOutputs, clobber)
    ensures ReservedTaken(Taken(regs, ch), clobber)
  {
    TakenCovers(regs, ch, Required(ops[j].constraint, Base(ops[j], j, nbOutputs)));
    PlacedHolds(ops[j], j, regs, ch, nbOutputs);
    hide Stepped, Required, Base, Fits, Taken, Holder, Occupies, UsesOf, Reserved, Direct, AllHeld;
    var next, regs' := Stepped(ops, j, ch), Taken(regs, ch);
    forall q: nat, r: nat {:trigger Occupies(next[q], r)} | Direct(next, done + {j}, q) && Occupies(next[q], r)
      ensures Holder(next[q], q, r, regs', nbOutputs) && !Reserved(clobber, r)
    {
      StepChanges(ops, done, j, ch, q);
      if q == j {
        NotReserved(regs, regs', clobber, r, next[q], q, nbOutputs);
      } else {
        HolderOf(ops, regs, done, nbOutputs, clobber, q, r);
        HolderStays(ops[q], q, r, regs, regs', nbOutputs);
      }
    }
    HeldAll(next, regs', done + {j}, nbOutputs, clobber);
  }

  lemma HeldAll(ops: seq<Operand>, regs: seq<Uses>, done: set<nat>, nbOutputs: nat, clobber: seq<bool>)
    requires |regs| == NB_ASM_REGS == |clobber|
    requires forall q: nat, r: nat {:trigger Occupies(ops[q], r)} :: Direct(ops, done, q) && Occupies(ops[q], r) ==>
      Holder(ops[q], q, r, regs, nbOutputs) && !Reserved(clobber, r)
    ensures AllHeld(ops, regs, done, nbOutputs, clobber)
  {
  }

  lemma StepApart(ops: seq<Operand>, regs: seq<Uses>, done: set<nat>, nbOutputs: nat, clobber: seq<bool>, j: nat,
                  ch: Choice)
    requires |regs| == NB_ASM_REGS == |clobber| && Linked(ops) && AllApart(ops, done, nbOutputs)
    requires j < |ops| && j !in done && ops[j].refIndex < 0 && AllHeld(ops, regs, done, nbOutputs, clobber)
    requires ops[j].reg == -1 && !ops[j].isMemory &&
      Fits(ch, regs, Required(ops[j].constraint, Base(ops[j], j, nbOutputs)))
    ensures AllApart(Stepped(ops, j, ch), done + {j}, nbOutputs)
  {
    PlacedHolds(ops[j], j, regs, ch, nbOutputs);
    hide Stepped, Required, Base, Fits, Taken, Holder, Occupies;
    hide UsesOf, Reserved, Direct, AllHeld, Placed, Apart, AllApart;
    var next := Stepped(ops, j, ch);
    forall q: nat, s: nat | Direct(next, done + {j}, q) && Direct(next, done + {j}, s) && q != s
      ensures Apart(next[q], q, next[s], s, nbOutputs)
    {
      StepChanges(ops, done, j, ch, q);
      StepChanges(ops, done, j, ch, s);
      if q == j {
        NewApart(ops, regs, done, nbOutputs, clobber, j, Placed(ops[j], ch), s);
      } else if s == j {
        NewApart(ops, regs, done, nbOutputs, clobber, j, Placed(ops[j], ch), q);
      } else {
        ApartOf(ops, done, nbOutputs, q, s);
      }
    }
    ApartAll(next, done + {j}, nbOutputs);
  }

  lemma ApartAll(ops: seq<Operand>, done: set<nat>, nbOutputs: nat)
    requires forall q: nat, s: nat :: Direct(ops, done, q) && Direct(ops, done, s) && q != s ==>
      Apart(ops[q], q, ops[s], s, nbOutputs)
    ensures AllApart(ops, done, nbOutputs)
  {
    hide Direct, Apart;
  }

  /** A new operand o has only registers whose present uses do not meet its own. */
  lemma NewApart(ops: seq<Operand>, regs: seq<Uses>, done: set<nat>, nbOutputs: nat, clobber: seq<bool>,
                 j: nat, o: Operand, q: nat)
    requires |regs| == NB_ASM_REGS == |clobber| && AllHeld(ops, regs, done, nbOutputs, clobber) && Direct(ops, done, q)
    requires forall r: nat :: Occupies(o, r) ==> r < |regs| && !regs[r].Meets(UsesOf(o, j, nbOutputs))
    ensures Apart(o, j, ops[q], q, nbOutputs) && Apart(ops[q], q, o, j, nbOutputs)
  {
    hide Occupies, UsesOf, AllHeld, Holder;
    forall r: nat | Occupies(o, r) && Occupies(ops[q], r)
      ensures !UsesOf(o, j, nbOutputs).Meets(UsesOf(ops[q], q, nbOutputs))
    {
      HolderOf(ops, regs, done, nbOutputs, clobber, q, r);
      HolderClashes(ops[q], q, r, regs, nbOutputs, UsesOf(o, j, nbOutputs));
    }
  }

  /** Registers given earlier stay held, and the new operand is apart from all others. */
  lemma StepAllocates(ops: seq<Operand>, regs: seq<Uses>, done: set<nat>, nbOutputs: nat, clobber: seq<bool>,
                      j: nat, ch: Choice)
    requires Allocated(ops, regs, done, nbOutputs, clobber) && Linked(ops)
    requires j < |ops| && j !in done && ops[j].refIndex < 0
    requires ch == Choose(ops[j].constraint, regs, j < nbOutputs, ops[j].value, -1, Base(ops[j], j, nbOutputs), false)
    requires ch != Unsatisfied
    ensures Fits(ch, regs, Base(ops[j], j, nbOutputs))
    ensures Allocated(Stepped(ops, j, ch), Taken(regs, ch), done + {j}, nbOutputs, clobber)
  {
    hide Choose, Required, Base, Admitted, Fits, Taken, Stepped, Linked, ReservedTaken, AllHeld, AllApart, AllSatisfied;
    ChoiceGood(ops[j].constraint, regs, j < nbOutputs, ops[j].value, Base(ops[j], j, nbOutputs), false);
    StepNone(ops, done, j, ch);
    StepSatisfied(ops, done, j, ch);
    StepHeld(ops, regs, done, nbOutputs, clobber, j, ch);
    StepApart(ops, regs, done, nbOutputs, clobber, j, ch);
  }

  lemma PlacedSatisfies(o: Operand, ch: Choice)
    requires o.reg == -1 && !o.isMemory && ch != Unsatisfied && Admitted(o.constraint, ch, o.value)
    ensures Satisfied(Placed(o, ch))
  {
    hide Admitted;
    assert AsPlaced(Placed(o, ch), ch);
  }

  lemma HolderStays(o: Operand, j: nat, r: nat, regs: seq<Uses>, more: seq<Uses>, nbOutputs: nat)
    requires Holder(o, j, r, regs, nbOutputs) && |more| == |regs|
    requires forall x :: 0 <= x < |regs| ==> more[x].Covers(regs[x])
    ensures Holder(o, j, r, more, nbOutputs)
  {
    hide UsesOf;
  }

  lemma HolderClashes(o: Operand, j: nat, r: nat, regs: seq<Uses>, nbOutputs: nat, u: Uses)
    requires Holder(o, j, r, regs, nbOutputs) && !regs[r].Meets(u)
    ensures !u.Meets(UsesOf(o, j, nbOutputs))
  {
    hide UsesOf;
  }

  lemma NotReserved(regs: seq<Uses>, after: seq<Uses>, clobber: seq<bool>, r: nat, o: Operand, j: nat, nbOutputs: nat)
    requires |regs| == NB_ASM_REGS == |clobber| == |after| && Holder(o, j, r, after, nbOutputs)
    requires forall x :: 0 <= x < NB_ASM_REGS && Reserved(clobber, x) ==> regs[x] == BOTH
    requires !regs[r].Meets(UsesOf(o, j, nbOutputs))
    ensures !Reserved(clobber, r)
  {
    UsesSomething(o.constraint, Base(o, j, nbOutputs));
  }

  lemma {:induction false} UsesSomething(s: string, u: Uses)
    requires u != NEITHER
    ensures Required(s, u) != NEITHER
  {
    if s != "" && s[0] == '=' {
      UsesSomething(s[1..], u);
    }
  }

  /** The reference to j, if there is one, gets its register; the others keep theirs. */
  lemma StepShares(ops: seq<Operand>, done: set<nat>, j: nat, ch: Choice)
    requires Shared(ops, done) && Linked(ops) && j < |ops| && j !in done && ops[j].refIndex < 0
    ensures Shared(Stepped(ops, j, ch), done + {j})
  {
    var next := Stepped(ops, j, ch);
    SteppedSame(ops, j, ch);
    hide Placed;
    forall i | 0 <= i < |next| && next[i].refIndex >= 0 ensures SharesIf(next, done + {j}, i) {
      var k: nat := ops[i].refIndex;
      assert SharesIf(ops, done, i);
      assert ops[k].inputIndex == i;
      if k == j {
        assert next[j] == Placed(ops[j], ch);
      } else {
        assert next[i] == ops[i];
        if ops[k].refIndex < 0 {
          SteppedOthers(ops, j, ch, k);
        }
      }
    }
  }

  /** A reference is skipped. */
  lemma SkipKeeps(ops: seq<Operand>, regs: seq<Uses>, done: set<nat>, nbOutputs: nat, clobber: seq<bool>, j: nat)
    requires Allocated(ops, regs, done, nbOutputs, clobber) && Shared(ops, done)
    requires j < |ops| && ops[j].refIndex >= 0
    ensures Allocated(ops, regs, done + {j}, nbOutputs, clobber) && Shared(ops, done + {j})
  {
    forall q: nat | Direct(ops, done + {j}, q) ensures Direct(ops, done, q) {
    }
    hide Holder, Apart, Satisfied, Occupies, Direct, Reserved;
    SameDirect(ops, regs, done, done + {j}, nbOutputs, clobber);
    hide AllHeld, AllApart, AllSatisfied;
    forall i | 0 <= i < |ops| && ops[i].refIndex >= 0 ensures SharesIf(ops, done + {j}, i) {
      assert SharesIf(ops, done, i);
      DirectMore(ops, done, j, ops[i].refIndex);
    }
  }

  lemma DirectMore(ops: seq<Operand>, done: set<nat>, j: nat, q: nat)
    requires j < |ops| && ops[j].refIndex >= 0
    ensures Direct(ops, done + {j}, q) <==> Direct(ops, done, q)
  {
  }

  lemma SameDirect(ops: seq<Operand>, regs: seq<Uses>, done: set<nat>, more: set<nat>, nbOutputs: nat,
                   clobber: seq<bool>)
    requires |regs| == NB_ASM_REGS == |clobber| && AllHeld(ops, regs, done, nbOutputs, clobber)
    requires AllApart(ops, done, nbOutputs) && AllSatisfied(ops, done)
    requires forall q: nat :: Direct(ops, more, q) ==> Direct(ops, done, q)
    ensures AllHeld(ops, regs, more, nbOutputs, clobber) && AllApart(ops, more, nbOutputs) && AllSatisfied(ops, more)
  {
    hide Holder, Apart, Satisfied, Occupies, Direct, Reserved;
  }

  lemma StartAllocated(ops: seq<Operand>, regs: seq<Uses>, nbOutputs: nat, clobber: seq<bool>)
    requires |clobber| == |regs| == NB_ASM_REGS
    requires forall r :: 0 <= r < NB_ASM_REGS && Reserved(clobber, r) ==> regs[r] == BOTH
    requires forall i :: 0 <= i < |ops| ==> ops[i].reg == -1 && !ops[i].isMemory && -1 <= ops[i].refIndex < i
    ensures Allocated(ops, regs, {}, nbOutputs, clobber) && Shared(ops, {})
  {
  }

  // ---------------------------------------------------------------- the whole

  /** What an allocation without register variables gives. */
  ghost predicate Sound(ops: seq<Operand>, nbOutputs: nat, clobber: seq<bool>, outReg: int)
    requires |clobber| == NB_ASM_REGS
  {
    NoInterference(ops, nbOutputs) && NoneReserved(ops, clobber) && ConstraintsMet(ops) && ReferencesShare(ops) &&
    (outReg != -1 ==> OutRegisterFree(ops, nbOutputs, clobber, outReg))
  }

  ghost predicate NoInterference(ops: seq<Operand>, nbOutputs: nat) {
    forall i: nat, j: nat :: IsDirect(ops, i) && IsDirect(ops, j) && i != j ==> Apart(ops[i], i, ops[j], j, nbOutputs)
  }

  predicate IsDirect(ops: seq<Operand>, i: nat) {
    i < |ops| && ops[i].refIndex < 0
  }

  ghost predicate NoneReserved(ops: seq<Operand>, clobber: seq<bool>)
    requires |clobber| == NB_ASM_REGS
  {
    forall i: nat, r: nat {:trigger Occupies(ops[i], r)} :: IsDirect(ops, i) && Occupies(ops[i], r) ==>
      r < NB_ASM_REGS && !Reserved(clobber, r)
  }

  ghost predicate ConstraintsMet(ops: seq<Operand>) {
    forall i: nat :: IsDirect(ops, i) ==> Satisfied(ops[i])
  }

  ghost predicate ReferencesShare(ops: seq<Operand>) {
    forall i :: 0 <= i < |ops| && ops[i].refIndex >= 0 ==> ops[i].refIndex < i && RefersTo(ops[i], ops[ops[i].refIndex])
  }

  predicate OutRegisterFree(ops: seq<Operand>, nbOutputs: nat, clobber: seq<bool>, r: int)
    requires |clobber| == NB_ASM_REGS
  {
    0 <= r < NB_ASM_REGS && !Reserved(clobber, r) &&
    forall i :: 0 <= i < nbOutputs && i < |ops| && ops[i].refIndex < 0 && !ops[i].isMemory ==> !Occupies(ops[i], r)
  }

  /** A reference to an operand that is itself a reference gets no register. */
  predicate RefersTo(o: Operand, target: Operand) {
    if target.refIndex < 0 then o.reg == target.reg && o.isLlong == target.isLlong else o.reg == -1
  }

  lemma SoundAtLast(ops: seq<Operand>, regs: seq<Uses>, done: set<nat>, nbOutputs: nat, clobber: seq<bool>, outReg: int)
    requires Allocated(ops, regs, done, nbOutputs, clobber) && Shared(ops, done) && Linked(ops)
    requires forall i :: 0 <= i < |ops| ==> i in done
    requires outReg == -1 || (0 <= outReg < NB_ASM_REGS && !regs[outReg].output)
    ensures Sound(ops, nbOutputs, clobber, outReg)
  {
    hide AllHeld, AllApart, AllSatisfied, OutRegisterFree, Shared;
    hide Linked, NoInterference, NoneReserved, ConstraintsMet, ReferencesShare;
    SharedAtLast(ops, done);
    ApartAtLast(ops, regs, done, nbOutputs, clobber);
    if outReg != -1 {
      OutRegisterIsFree(ops, regs, done, nbOutputs, clobber, outReg);
    }
  }

  lemma SharedAtLast(ops: seq<Operand>, done: set<nat>)
    requires Shared(ops, done) && Linked(ops) && forall i :: 0 <= i < |ops| ==> i in done
    ensures ReferencesShare(ops)
  {
    forall i | 0 <= i < |ops| && ops[i].refIndex >= 0
      ensures ops[i].refIndex < i && RefersTo(ops[i], ops[ops[i].refIndex])
    {
      assert SharesIf(ops, done, i);
    }
  }

  lemma ApartAtLast(ops: seq<Operand>, regs: seq<Uses>, done: set<nat>, nbOutputs: nat, clobber: seq<bool>)
    requires |regs| == NB_ASM_REGS == |clobber| && AllHeld(ops, regs, done, nbOutputs, clobber)
    requires AllApart(ops, done, nbOutputs) && AllSatisfied(ops, done)
    requires forall i :: 0 <= i < |ops| ==> i in done
    ensures NoInterference(ops, nbOutputs) && NoneReserved(ops, clobber) && ConstraintsMet(ops)
  {
    forall i: nat | IsDirect(ops, i) ensures Direct(ops, done, i) {
    }
    hide Apart, Satisfied, Occupies, Reserved, AllHeld, AllApart, AllSatisfied, Direct, IsDirect;
    forall i: nat, j: nat | IsDirect(ops, i) && IsDirect(ops, j) && i != j
      ensures Apart(ops[i], i, ops[j], j, nbOutputs)
    {
      ApartOf(ops, done, nbOutputs, i, j);
    }
    forall i: nat, r: nat {:trigger Occupies(ops[i], r)} | IsDirect(ops, i) && Occupies(ops[i], r)
      ensures r < NB_ASM_REGS && !Reserved(clobber, r)
    {
      HolderOf(ops, regs, done, nbOutputs, clobber, i, r);
    }
    forall i: nat | IsDirect(ops, i) ensures Satisfied(ops[i]) {
      SatisfiedOf(ops, done, i);
    }
  }

  lemma OutRegisterIsFree(ops: seq<Operand>, regs: seq<Uses>, done: set<nat>, nbOutputs: nat, clobber: seq<bool>,
                          r: nat)
    requires |regs| == NB_ASM_REGS == |clobber| && ReservedTaken(regs, clobber)
    requires AllHeld(ops, regs, done, nbOutputs, clobber) && r < NB_ASM_REGS && !regs[r].output
    requires forall i :: 0 <= i < |ops| ==> i in done
    ensures OutRegisterFree(ops, nbOutputs, clobber, r)
  {
    hide Occupies, UsesOf, AllHeld, Reserved;
    forall i | 0 <= i < nbOutputs && i < |ops| && ops[i].refIndex < 0 && !ops[i].isMemory ensures !Occupies(ops[i], r) {
      OutputUses(ops[i], i, nbOutputs);
      if Occupies(ops[i], r) {
        HolderOf(ops, regs, done, nbOutputs, clobber, i, r);
      }
    }
  }

  lemma OutputUses(o: Operand, i: nat, nbOutputs: nat)
    requires i < nbOutputs && !o.isMemory
    ensures UsesOf(o, i, nbOutputs).output
  {
    RequiredOutput(o.constraint, Base(o, i, nbOutputs));
  }

  lemma {:induction false} RequiredOutput(s: string, u: Uses)
    requires u.output
    ensures Required(s, u).output
  {
    if s != "" && s[0] == '=' {
      RequiredOutput(s[1..], u);
    }
  }

  /** Clobbered registers, esp and ebp count as in use from the start. */
  function StartUses(clobber: seq<bool>): (regs: seq<Uses>)
    requires |clobber| == NB_ASM_REGS
    ensures |regs| == NB_ASM_REGS
  {
    seq(NB_ASM_REGS, r requires 0 <= r < NB_ASM_REGS => if Reserved(clobber, r) then BOTH else NEITHER)
  }

  method StartRegisters(clobber: seq<bool>) returns (regs: seq<Uses>)
    requires |clobber| == NB_ASM_REGS
    ensures regs == StartUses(clobber)
  {
    regs := seq(NB_ASM_REGS, i requires 0 <= i < NB_ASM_REGS => if clobber[i] then BOTH else NEITHER);
    regs := regs[ESP := BOTH][EBP := BOTH];
  }

  /** An operand reached through a pointer was given a register. */
  predicate NeedsOutRegister(ops: seq<Operand>) {
    exists i :: 0 <= i < |ops| && Reloads(ops[i])
  }

  /** out_reg: needed when an operand reached through a pointer was given a register. */
  method OutRegister(operands: array<Operand>, regs: seq<Uses>) returns (ok: bool, outReg: int)
    requires |regs| == NB_ASM_REGS
    ensures ok <==> !NeedsOutRegister(operands[..]) || FirstFree(regs, OUTPUT, NB_ASM_REGS) < NB_ASM_REGS
    ensures ok ==> outReg == if NeedsOutRegister(operands[..]) then FirstFree(regs, OUTPUT, NB_ASM_REGS) else -1
  {
    outReg, ok := -1, true;
    var i := 0;
    while i < operands.Length
      invariant 0 <= i <= operands.Length && forall k :: 0 <= k < i ==> !Reloads(operands[k])
    {
      if Reloads(operands[i]) {
        assert Reloads(operands[..][i]);
        var r := FindFree(regs, OUTPUT, NB_ASM_REGS);
        if r == NB_ASM_REGS {
          return false, -1;
        }
        return true, r;
      }
      i := i + 1;
    }
  }

  predicate Reloads(o: Operand) {
    o.reg >= 0 && o.value.llocal && !o.isMemory
  }

  /** The allocator between two operands, or after a constraint that cannot be satisfied. */
  datatype Alloc = Alloc(ops: seq<Operand>, regs: seq<Uses>) | Failed

  ghost predicate Ready(a: Alloc) {
    a.Alloc? ==> |a.regs| == NB_ASM_REGS && RegVarsInRange(a.ops) && Linked(a.ops)
  }

  /** One operand: references are skipped, a register variable must have its register free, any
      other operand takes the place that its constraint gives. */
  ghost function AllocStep(a: Alloc, j: nat, nbOutputs: nat): (r: Alloc)
    requires Ready(a) && (a.Alloc? ==> j < |a.ops|)
    ensures Ready(r) && (r.Alloc? ==> a.Alloc? && SameBut(r.ops, a.ops))
  {
    if a.Failed? then
      Failed
    else if a.ops[j].refIndex >= 0 then
      SameStart(a.ops);
      a
    else
      var o := a.ops[j];
      var u := Base(o, j, nbOutputs);
      var ch := Choose(o.constraint, a.regs, j < nbOutputs, o.value, o.reg, u, false);
      if (o.reg >= 0 && a.regs[o.reg].Meets(u)) || ch == Unsatisfied then
        Failed
      else
        StepReady(a, j, nbOutputs, ch);
        Alloc(Stepped(a.ops, j, ch), Taken(a.regs, ch))
  }

  lemma StepReady(a: Alloc, j: nat, nbOutputs: nat, ch: Choice)
    requires Ready(a) && a.Alloc? && j < |a.ops|
    requires var o := a.ops[j];
      ch == Choose(o.constraint, a.regs, j < nbOutputs, o.value, o.reg, Base(o, j, nbOutputs), false)
    ensures ch.Register? || ch.Memory? ==> ch.reg < NB_ASM_REGS
    ensures Ready(Alloc(Stepped(a.ops, j, ch), Taken(a.regs, ch))) && SameBut(Stepped(a.ops, j, ch), a.ops)
  {
    hide Choose, Taken, Base, Linked, SameBut, RegVarsInRange;
    var o := a.ops[j];
    LinkedAt(a.ops, j);
    ChoiceInRange(o.constraint, a.regs, j < nbOutputs, o.value, o.reg, Base(o, j, nbOutputs), false);
    SteppedSame(a.ops, j, ch);
    SteppedInRange(a.ops, j, ch);
  }

  /** The first i operands of the order, one after the other. */
  ghost function AllocRun(start: Alloc, sorted: seq<nat>, i: nat, nbOutputs: nat): (r: Alloc)
    requires Ready(start) && start.Alloc? && i <= |sorted| && forall k :: 0 <= k < |sorted| ==> sorted[k] < |start.ops|
    ensures Ready(r) && (r.Alloc? ==> SameBut(r.ops, start.ops))
  {
    if i == 0 then
      SameStart(start.ops);
      start
    else
      var a := AllocRun(start, sorted, i - 1, nbOutputs);
      var b := AllocStep(a, sorted[i - 1], nbOutputs);
      if b.Failed? then Failed else SameTwice(b.ops, a.ops, start.ops); b
  }

  /** What has failed stays failed. */
  lemma {:induction false} RunFails(start: Alloc, sorted: seq<nat>, i: nat, n: nat, nbOutputs: nat)
    requires Ready(start) && start.Alloc? && i <= n <= |sorted|
    requires forall k :: 0 <= k < |sorted| ==> sorted[k] < |start.ops|
    requires AllocRun(start, sorted, i, nbOutputs).Failed?
    ensures AllocRun(start, sorted, n, nbOutputs).Failed?
    decreases n
  {
    hide Ready, SameBut;
    if i < n {
      RunFails(start, sorted, i, n - 1, nbOutputs);
    }
  }

  /** One turn of the allocation loop, for an operand that is not a reference. */
  method AllocateOperand(operands: array<Operand>, j: nat, nbOutputs: nat, regs: seq<Uses>)
      returns (ok: bool, after: seq<Uses>)
    requires j < operands.Length && Ready(Alloc(operands[..], regs)) && operands[j].refIndex < 0
    modifies operands
    ensures AllocStep(Alloc(old(operands[..]), regs), j, nbOutputs) == if ok then Alloc(operands[..], after) else Failed
  {
    hide Choose, Taken, Linked, RegVarsInRange, SameBut;
    after := regs;
    var o := operands[j];
    var u := Base(o, j, nbOutputs);
    ghost var was := operands[..];
    LinkedAt(was, j);
    if o.reg >= 0 && regs[o.reg].Meets(u) {
      return false, regs;
    }
    var ch := ChooseRegister(o.constraint, regs, j < nbOutputs, o.value, o.reg, u);
    if ch == Unsatisfied {
      return false, regs;
    }
    StepReady(Alloc(was, regs), j, nbOutputs, ch);
    after := Taken(regs, ch);
    operands[j] := Placed(o, ch);
    if o.inputIndex >= 0 {
      operands[o.inputIndex] := operands[o.inputIndex].(reg := operands[j].reg, isLlong := operands[j].isLlong);
    }
    assert operands[..] == Stepped(was, j, ch);
    ok := true;
  }

  lemma LinkedAt(ops: seq<Operand>, j: nat)
    requires Linked(ops) && j < |ops| && RegVarsInRange(ops)
    ensures -1 <= ops[j].inputIndex < |ops| && -1 <= ops[j].reg < NB_ASM_REGS && SameBut(ops, ops)
  {
  }

  lemma SteppedInRange(ops: seq<Operand>, j: nat, ch: Choice)
    requires j < |ops| && Linked(ops) && RegVarsInRange(ops)
    requires ch.Register? || ch.Memory? ==> ch.reg < NB_ASM_REGS
    ensures RegVarsInRange(Stepped(ops, j, ch))
  {
  }

  predicate RegVarsInRange(ops: seq<Operand>) {
    forall i :: 0 <= i < |ops| ==> -1 <= ops[i].reg < NB_ASM_REGS
  }

  lemma {:induction false} ChoiceInRange(s: string, regs: seq<Uses>, output: bool, v: Value, own: int, u: Uses,
                                         rw: bool)
    requires |regs| == NB_ASM_REGS && own < NB_ASM_REGS
    ensures var ch := Choose(s, regs, output, v, own, u, rw); ch.Register? || ch.Memory? ==> ch.reg < NB_ASM_REGS
    decreases |s|
  {
    hide Try, Known;
    if s != "" {
      ChoiceInRange(s[1..], regs, output, v, own, BOTH, rw || s[0] == '+');
      ChoiceInRange(s[1..], regs, output, v, own, u, rw);
      if Known(s[0]) {
        TryInRange(s[0], regs, output, v, own, u, rw);
      }
    }
  }

  lemma TryInRange(c: char, regs: seq<Uses>, output: bool, v: Value, own: int, u: Uses, rw: bool)
    requires |regs| == NB_ASM_REGS && own < NB_ASM_REGS && Known(c)
    ensures var ch := Try(c, regs, output, v, own, u, rw); ch.Register? || ch.Memory? ==> ch.reg < NB_ASM_REGS
  {
    hide FirstFree;
  }

  ghost function DoneTo(sorted: seq<nat>, i: nat): (done: set<nat>)
    requires i <= |sorted|
    ensures forall k :: 0 <= k < i ==> sorted[k] in done
    ensures forall x :: x in done ==> exists k :: 0 <= k < i && sorted[k] == x
  {
    if i == 0 then {} else DoneTo(sorted, i - 1) + {sorted[i - 1]}
  }

  /** Without register variables, what the run has placed so far is placed soundly. */
  lemma {:induction false} RunAllocates(start: Alloc, sorted: seq<nat>, i: nat, nbOutputs: nat, clobber: seq<bool>)
    requires Ready(start) && start.Alloc? && i <= |sorted| && Permutes(sorted, |start.ops|) && |clobber| == NB_ASM_REGS
    requires start.regs == StartUses(clobber)
    requires forall k :: 0 <= k < |start.ops| ==> start.ops[k].reg == -1 && !start.ops[k].isMemory
    ensures var a := AllocRun(start, sorted, i, nbOutputs);
      a.Alloc? ==> Allocated(a.ops, a.regs, DoneTo(sorted, i), nbOutputs, clobber) && Shared(a.ops, DoneTo(sorted, i))
  {
    hide Choose, Allocated, Shared, Stepped, Taken, SameBut, RegVarsInRange, Permutes, Base;
    PermutesMeans(sorted, |start.ops|);
    if i == 0 {
      assert DoneTo(sorted, 0) == {};
      StartAllocated(start.ops, start.regs, nbOutputs, clobber);
    } else {
      RunAllocates(start, sorted, i - 1, nbOutputs, clobber);
      var a, j, done := AllocRun(start, sorted, i - 1, nbOutputs), sorted[i - 1], DoneTo(sorted, i - 1);
      assert j !in done;
      if a.Alloc? {
        SameLength(a.ops, start.ops);
        if a.ops[j].refIndex >= 0 {
          SkipKeeps(a.ops, a.regs, done, nbOutputs, clobber, j);
        } else {
          UndoneHasNone(a.ops, a.regs, done, nbOutputs, clobber, j);
          var o := a.ops[j];
          var ch := Choose(o.constraint, a.regs, j < nbOutputs, o.value, -1, Base(o, j, nbOutputs), false);
          if ch != Unsatisfied {
            StepAllocates(a.ops, a.regs, done, nbOutputs, clobber, j, ch);
            StepShares(a.ops, done, j, ch);
          }
        }
      }
    }
  }

  lemma SameLength(now: seq<Operand>, was: seq<Operand>)
    requires SameBut(now, was)
    ensures |now| == |was|
  {
  }

  /** The run to the end, without register variables, is sound. */
  lemma RunSound(start: Alloc, sorted: seq<nat>, nbOutputs: nat, clobber: seq<bool>, outReg: int)
    requires Ready(start) && start.Alloc? && Permutes(sorted, |start.ops|) && |clobber| == NB_ASM_REGS
    requires start.regs == StartUses(clobber)
    requires forall k :: 0 <= k < |start.ops| ==> start.ops[k].reg == -1 && !start.ops[k].isMemory
    requires forall k :: 0 <= k < |sorted| ==> sorted[k] < |start.ops|
    requires var a := AllocRun(start, sorted, |sorted|, nbOutputs);
      a.Alloc? && (outReg == -1 || (0 <= outReg < NB_ASM_REGS && !a.regs[outReg].output))
    ensures Sound(AllocRun(start, sorted, |sorted|, nbOutputs).ops, nbOutputs, clobber, outReg)
  {
    hide Allocated, Shared, Linked, SameBut, RegVarsInRange, Permutes, Sound, AllocStep;
    var a := AllocRun(start, sorted, |sorted|, nbOutputs);
    RunAllocates(start, sorted, |sorted|, nbOutputs, clobber);
    SameLength(a.ops, start.ops);
    PermutesMeans(sorted, |start.ops|);
    AllDone(sorted, |start.ops|, DoneTo(sorted, |sorted|));
    SoundAtLast(a.ops, a.regs, DoneTo(sorted, |sorted|), nbOutputs, clobber, outReg);
  }

  /** The references are resolved and the priorities known. */
  ghost predicate Started(was: seq<Operand>, start: seq<Operand>) {
    Evaluated(was, start, |start|) && forall i :: 0 <= i < |start| ==> PriorityIs(start[i])
  }

  ghost predicate ByPriority(ops: seq<Operand>, sorted: seq<nat>) {
    Permutes(sorted, |ops|) && forall i, j :: 0 <= i < j < |sorted| ==>
      ops[sorted[i]].priority <= ops[sorted[j]].priority
  }

  /** The run over the operands by priority, from the registers that are not clobbered. */
  ghost function Allocation(start: seq<Operand>, sorted: seq<nat>, nbOutputs: nat, clobber: seq<bool>): (a: Alloc)
    requires |clobber| == NB_ASM_REGS && RegVarsInRange(start) && Linked(start) && Permutes(sorted, |start|)
    ensures a.Alloc? ==> |a.regs| == NB_ASM_REGS
  {
    AllocRun(Alloc(start, StartUses(clobber)), sorted, |sorted|, nbOutputs)
  }

  ghost predicate Succeeds(a: Alloc)
    requires a.Alloc? ==> |a.regs| == NB_ASM_REGS
  {
    a.Alloc? && (NeedsOutRegister(a.ops) ==> FirstFree(a.regs, OUTPUT, NB_ASM_REGS) < NB_ASM_REGS)
  }

  /** The allocation loop. */
  method AllocateAll(operands: array<Operand>, order: seq<nat>, nbOutputs: nat, regs: seq<Uses>)
    returns (ok: bool, after: seq<Uses>)
    requires Ready(Alloc(operands[..], regs)) && forall k :: 0 <= k < |order| ==> order[k] < operands.Length
    modifies operands
    ensures AllocRun(Alloc(old(operands[..]), regs), order, |order|, nbOutputs)
      == if ok then Alloc(operands[..], after) else Failed
  {
    hide SameBut, Linked, RegVarsInRange, AllocStep;
    ghost var from := Alloc(operands[..], regs);
    after := regs;
    var i := 0;
    while i < |order|
      invariant 0 <= i <= |order| && AllocRun(from, order, i, nbOutputs) == Alloc(operands[..], after)
    {
      var j := order[i];
      ghost var k := i + 1;
      assert AllocRun(from, order, k, nbOutputs) == AllocStep(Alloc(operands[..], after), j, nbOutputs);
      if operands[j].refIndex >= 0 {
        SkipStep(Alloc(operands[..], after), j, nbOutputs);
      } else {
        var placed, next := AllocateOperand(operands, j, nbOutputs, after);
        if !placed {
          RunFails(from, order, k, |order|, nbOutputs);
          return false, after;
        }
        after := next;
      }
      i := i + 1;
    }
    ok := true;
  }

  /** asm_compute_constraints: it fails when an operand is not acceptable, when a constraint cannot
      be satisfied on the way through the operands by priority, or for want of an output register. */
  method ComputeConstraints(operands: array<Operand>, nbOutputs: nat, clobber: seq<bool>)
    returns (ok: bool, outReg: int, ghost start: seq<Operand>, ghost sorted: seq<nat>)
    requires |clobber| == NB_ASM_REGS && RegVarsFit(operands[..])
    modifies operands
    ensures !AllAcceptable(old(operands[..]), nbOutputs) ==> !ok
    ensures AllAcceptable(old(operands[..]), nbOutputs) ==>
      Started(old(operands[..]), start) && ByPriority(start, sorted) && RegVarsInRange(start) && Linked(start)
    ensures AllAcceptable(old(operands[..]), nbOutputs) ==>
      (ok <==> Succeeds(Allocation(start, sorted, nbOutputs, clobber)))
    ensures ok ==> operands[..] == Allocation(start, sorted, nbOutputs, clobber).ops
    ensures ok ==>
      (outReg == -1 <==> forall i :: 0 <= i < operands.Length && operands[i].value.llocal ==>
        operands[i].reg == -1 || operands[i].isMemory)
    ensures ok && (forall i :: 0 <= i < operands.Length ==> old(operands[i]).value.regVar == -1) ==>
      Sound(operands[..], nbOutputs, clobber, outReg)
    ensures ok ==> forall i :: 0 <= i < operands.Length ==> operands[i].SameSource(old(operands[i]))
    ensures ok ==> forall i :: 0 <= i < operands.Length ==> operands[i].refIndex == RefAfter(old(operands[i]), true)
    ensures ok ==> forall i :: 0 <= i < operands.Length && operands[i].refIndex >= 0 ==>
      i >= nbOutputs && operands[i].refIndex < i
  {
    hide AllAcceptable, Sound, Permutes, PriorityIs, Evaluated, SameBut, Linked, RegVarsInRange, RegVarsFit, AllocStep;
    hide NeedsOutRegister, StartUses, AllocRun, RefAfter;
    outReg := -1;
    ghost var was := operands[..];
    ok := Evaluate(operands, nbOutputs);
    start, sorted := operands[..], [];
    if !ok {
      return;
    }
    EvaluatedMeans(was, start);
    var order := SortOperands(operands);
    sorted := order;
    PermutesMeans(sorted, operands.Length);
    var regs := StartRegisters(clobber);
    var placed, after := AllocateAll(operands, order, nbOutputs, regs);
    if !placed {
      return false, -1, start, sorted;
    }
    ok, outReg := OutRegister(operands, after);
    NeedMeans(operands[..]);
    SameMeans(operands[..], start, was);
    InputsRefer(was, start, nbOutputs);
    if ok && forall x :: 0 <= x < |was| ==> was[x].value.regVar == -1 {
      RunSound(Alloc(start, regs), sorted, nbOutputs, clobber, outReg);
    }
  }

  lemma SkipStep(a: Alloc, j: nat, nbOutputs: nat)
    requires Ready(a) && a.Alloc? && j < |a.ops| && a.ops[j].refIndex >= 0
    ensures AllocStep(a, j, nbOutputs) == a
  {
    hide Ready;
  }

  lemma EvaluatedMeans(was: seq<Operand>, now: seq<Operand>)
    requires Evaluated(was, now, |now|) && RegVarsFit(was)
    ensures |now| == |was| && Linked(now) && RegVarsInRange(now)
    ensures forall i :: 0 <= i < |now| ==> now[i].SameSource(was[i]) && now[i].refIndex == RefAfter(was[i], true)
    ensures forall i :: 0 <= i < |now| ==> !now[i].isMemory && -1 <= now[i].refIndex < i
    ensures (forall i :: 0 <= i < |was| ==> was[i].value.regVar == -1) ==> forall i :: 0 <= i < |now| ==>
      now[i].reg == -1
  {
    hide IsReference;
  }

  lemma NeedMeans(ops: seq<Operand>)
    requires RegVarsInRange(ops)
    ensures NeedsOutRegister(ops) <==>
      !(forall i :: 0 <= i < |ops| && ops[i].value.llocal ==> ops[i].reg == -1 || ops[i].isMemory)
  {
    if i :| 0 <= i < |ops| && ops[i].value.llocal && ops[i].reg != -1 && !ops[i].isMemory {
      assert Reloads(ops[i]);
    }
  }

  lemma InputsRefer(was: seq<Operand>, now: seq<Operand>, nbOutputs: nat)
    requires Evaluated(was, now, |now|) && AllAcceptable(was, nbOutputs)
    ensures |now| == |was|
    ensures forall i :: 0 <= i < |now| && RefAfter(was[i], true) >= 0 ==> i >= nbOutputs && RefAfter(was[i], true) < i
  {
    hide Letters;
    forall i | 0 <= i < |was| && RefAfter(was[i], true) >= 0 ensures i >= nbOutputs && RefAfter(was[i], true) < i {
      assert Acceptable(was, i, nbOutputs);
    }
  }

  lemma PermutesMeans(sorted: seq<nat>, n: nat)
    requires Permutes(sorted, n)
    ensures |sorted| == n && forall i :: 0 <= i < n ==> sorted[i] < n
    ensures forall i, j :: 0 <= i < j < n ==> sorted[i] != sorted[j]
  {
  }

  lemma AllDone(sorted: seq<nat>, n: nat, done: set<nat>)
    requires Permutes(sorted, n) && forall k :: 0 <= k < n ==> sorted[k] in done
    ensures forall v :: 0 <= v < n ==> v in done
  {
    forall v | 0 <= v < n ensures v in done {
      assert v in sorted;
    }
  }

  lemma SameStart(ops: seq<Operand>)
    ensures SameBut(ops, ops)
  {
  }

  lemma SameTwice(now: seq<Operand>, before: seq<Operand>, start: seq<Operand>)
    requires SameBut(now, before) && SameBut(before, start)
    ensures SameBut(now, start)
  {
  }

  lemma SameMeans(now: seq<Operand>, start: seq<Operand>, was: seq<Operand>)
    requires SameBut(now, start) && |was| == |start|
    requires forall i :: 0 <= i < |was| ==> start[i].SameSource(was[i]) && start[i].refIndex == RefAfter(was[i], true)
    ensures forall i :: 0 <= i < |was| ==> now[i].SameSource(was[i]) && now[i].refIndex == RefAfter(was[i], true)
  {
  }

  lemma UndoneHasNone(ops: seq<Operand>, regs: seq<Uses>, done: set<nat>, nbOutputs: nat, clobber: seq<bool>, j: nat)
    requires Allocated(ops, regs, done, nbOutputs, clobber) && j < |ops| && j !in done && ops[j].refIndex < 0
    ensures ops[j].reg == -1
  {
  }

  // ---------------------------------------------------------------- a reference to a reference

  /** The operands of asm("..." : "=r"(x) : "0"(y), "1"(z)). */
  function Chained(): seq<Operand> {
    var v := Value(false, false, false, -1);
    [Operand("=r", -1, v, -1, -1, 0, -1, false, false, false),
     Operand("0", 0, v, -1, -1, 0, -1, false, false, false),
     Operand("1", 1, v, -1, -1, 0, -1, false, false, false)]
  }

  /** As they stand after the first part. */
  function ChainedStart(): seq<Operand> {
    var o := Chained();
    [o[0].(inputIndex := 1, priority := 3),
     o[1].(inputIndex := 2, refIndex := 0, priority := REFERENCE_PRIORITY),
     o[2].(refIndex := 1, priority := REFERENCE_PRIORITY)]
  }

  lemma ChainedLetters()
    ensures Letters("=r") == "r" && Letters("0") == "0" && Letters("1") == "1"
    ensures !IsReference("=r") && IsReference("0") && IsReference("1")
  {
    assert "=r"[1..] == "r";
  }

  lemma ChainedAcceptable()
    ensures AllAcceptable(Chained(), 1)
  {
    ChainedLetters();
    hide IsReference, Letters;
    var was := Chained();
    assert Known("r"[0]);
    assert KnownLetters(was[0].constraint);
    assert Acceptable(was, 0, 1) && Acceptable(was, 1, 1) && Acceptable(was, 2, 1);
  }

  lemma ChainedEvaluated()
    ensures Evaluated(Chained(), ChainedStart(), 3)
  {
    ChainedLetters();
    hide IsReference, Letters;
    var now := ChainedStart();
    assert now[0].inputIndex == 1 && now[1].inputIndex == 2 && now[2].inputIndex == -1;
  }

  lemma ChainedLinked()
    ensures RegVarsInRange(ChainedStart()) && Linked(ChainedStart())
  {
  }

  lemma ChainedPriorities()
    ensures forall i :: 0 <= i < 3 ==> PriorityIs(ChainedStart()[i])
  {
    ChainedLetters();
    hide Letters;
    assert "r"[0] == 'r';
    assert HardestLetter("r", 3);
  }

  lemma ChainedSorted()
    ensures ByPriority(ChainedStart(), [0, 1, 2])
  {
    var sorted: seq<nat> := [0, 1, 2];
    assert sorted[0] == 0 && sorted[1] == 1 && sorted[2] == 2;
  }

  /** The first operand takes eax, and the second shares it. */
  lemma ChainedChoice(regs: seq<Uses>)
    requires |regs| == NB_ASM_REGS && regs[EAX] == NEITHER
    ensures Choose("=r", regs, true, ChainedStart()[0].value, -1, BOTH, false) == Register(EAX, BOTH, false, false)
  {
    var v := ChainedStart()[0].value;
    ChooseStep("=r", 0, regs, true, v, -1, BOTH, false);
    ChooseStep("=r", 1, regs, true, v, -1, BOTH, false);
    hide Choose;
    assert "=r"[0..] == "=r" && "=r"[0] == '=' && "=r"[1] == 'r';
    assert FreeFrom(regs, BOTH, NB_ASM_REGS, 0) == EAX;
    assert Try('r', regs, true, v, -1, BOTH, false) == Register(EAX, BOTH, false, false);
  }

  lemma ChainedStep(regs: seq<Uses>)
    requires |regs| == NB_ASM_REGS && regs[EAX] == NEITHER
    ensures var ops := ChainedStart();
      RegVarsInRange(ops) && Linked(ops) &&
      AllocStep(Alloc(ops, regs), 0, 1) ==
        Alloc(Stepped(ops, 0, Register(EAX, BOTH, false, false)), Taken(regs, Register(EAX, BOTH, false, false)))
  {
    ChainedLinked();
    ChainedChoice(regs);
    ChainedLetters();
    hide Linked, RegVarsInRange, Letters, Choose, Stepped, Taken;
  }

  /** The third operand is left without a register. */
  lemma ChainedReference()
    ensures AllAcceptable(Chained(), 1) && Started(Chained(), ChainedStart()) && ByPriority(ChainedStart(), [0, 1, 2])
    ensures RegVarsInRange(ChainedStart()) && Linked(ChainedStart())
    ensures var a := Allocation(ChainedStart(), [0, 1, 2], 1, seq(NB_ASM_REGS, _ => false));
      Succeeds(a) && |a.ops| == 3 && a.ops[0].reg == EAX && a.ops[1].reg == EAX && a.ops[2].reg == -1
  {
    ChainedAcceptable();
    ChainedEvaluated();
    ChainedPriorities();
    ChainedSorted();
    ChainedLinked();
    hide AllAcceptable, Evaluated, PriorityIs, Permutes, ByPriority;
    var regs := StartUses(seq(NB_ASM_REGS, _ => false));
    assert regs[EAX] == NEITHER;
    var a0 := Alloc(ChainedStart(), regs);
    ChainedStep(regs);
    var sorted: seq<nat> := [0, 1, 2];
    var a1 := AllocStep(a0, 0, 1);
    hide Linked, RegVarsInRange, Letters, Choose, Try;
    assert AllocRun(a0, sorted, 0, 1) == a0;
    assert AllocRun(a0, sorted, 1, 1) == a1;
    assert AllocRun(a0, sorted, 2, 1) == a1;
    assert AllocRun(a0, sorted, 3, 1) == a1;
  }
}
