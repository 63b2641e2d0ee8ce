/** Why the operands of inline assembly are placed by priority: the order is from particular
    registers to any place, and simple operands all find theirs (i386-asm.c). */
module AsmOrder {
  import opened AsmConstraints

  // ---------------------------------------------------------------- the order

  /** All letters of the constraint are among these, and there is one. */
  predicate Names(o: Operand, letters: string) {
    var l := Letters(o.constraint); l != "" && forall i :: 0 <= i < |l| ==> l[i] in letters
  }

  predicate Asks(o: Operand, letters: string) {
    var l := Letters(o.constraint); exists i :: 0 <= i < |l| && l[i] in letters
  }

  /** Neither a reference nor a register variable. */
  predicate Direct(o: Operand) {
    o.refIndex < 0 && o.value.regVar < 0
  }

  /** The pair, particular registers, a register with byte parts, any register; and what is less
      demanding than each. */
  const DEMANDS: seq<string> := ["A", "AabcdSD", "AabcdSDq", "AabcdSDqrRp"]
  const EASIER: seq<string> := ["abcdSDqrRpINMeimg", "qrRpINMeimg", "rRpINMeimg", "INMeimg"]

  lemma MoreDemanding(o: Operand, p: Operand, k: nat)
    requires PriorityIs(o) && PriorityIs(p) && Direct(o) && Direct(p) && k < 4
    requires Names(o, DEMANDS[k]) && Asks(p, EASIER[k])
    ensures o.priority < p.priority
  {
    NamesLow(o, k);
    AsksHigh(p, k);
  }

  lemma NamesLow(o: Operand, k: nat)
    requires PriorityIs(o) && Direct(o) && k < 4 && Names(o, DEMANDS[k])
    ensures o.priority <= k
  {
    var l := Letters(o.constraint);
    hide Letters, LetterPriority;
    if o.priority > 0 {
      var i :| 0 <= i < |l| && LetterPriority(l[i]) == o.priority;
      DemandLow(l[i], k);
    }
  }

  lemma AsksHigh(o: Operand, k: nat)
    requires PriorityIs(o) && Direct(o) && k < 4 && Asks(o, EASIER[k])
    ensures o.priority > k
  {
    var l := Letters(o.constraint);
    hide Letters, LetterPriority;
    var i :| 0 <= i < |l| && l[i] in EASIER[k];
    EasierHigh(l[i], k);
  }

  lemma EasierHigh(c: char, k: nat)
    requires k < 4 && c in EASIER[k]
    ensures LetterPriority(c) > k
  {
  }

  lemma DemandLow(c: char, k: nat)
    requires k < 4 && c in DEMANDS[k]
    ensures LetterPriority(c) <= k
  {
  }

  /** An operand that can only have particular places is placed before one that has more. */
  lemma DemandingFirst(ops: seq<Operand>, sorted: seq<nat>, x: nat, y: nat, k: nat)
    requires ByPriority(ops, sorted) && (forall i :: 0 <= i < |ops| ==> PriorityIs(ops[i]))
    requires x < |sorted| && y < |sorted| && sorted[x] < |ops| && sorted[y] < |ops| && k < 4
    requires Direct(ops[sorted[x]]) && Direct(ops[sorted[y]])
    requires Names(ops[sorted[x]], DEMANDS[k]) && Asks(ops[sorted[y]], EASIER[k])
    ensures x < y
  {
    hide PriorityIs, Names, Asks, Permutes;
    MoreDemanding(ops[sorted[x]], ops[sorted[y]], k);
  }

  /** References are placed, with their operands, after all others have been looked at. */
  lemma ReferencesLast(ops: seq<Operand>, sorted: seq<nat>, x: nat, y: nat)
    requires ByPriority(ops, sorted) && (forall i :: 0 <= i < |ops| ==> PriorityIs(ops[i]))
    requires x < |sorted| && y < |sorted| && sorted[x] < |ops| && sorted[y] < |ops|
    requires ops[sorted[x]].refIndex < 0 && ops[sorted[y]].refIndex >= 0
    ensures x < y
  {
    hide Letters, Permutes;
  }

  // ---------------------------------------------------------------- simple operands

  const PARTICULAR: string := "abcdSD"

  /** The register that a letter names. */
  function Named(c: char): nat {
    match c
    case 'a' => 0
    case 'c' => 1
    case 'd' => 2
    case 'b' => 3
    case 'S' => 6
    case _ => 7
  }

  function Letter(o: Operand): char {
    if |o.constraint| == 1 then o.constraint[0] else ' '
  }

  predicate IsSimple(o: Operand) {
    |o.constraint| == 1 && o.value.regVar == -1 && (Letter(o) in PARTICULAR || Letter(o) == 'r')
  }

  /** The registers that can be given out: not esp, ebp or clobbered. */
  ghost function Free(clobber: seq<bool>): set<nat>
    requires |clobber| == NB_ASM_REGS
  {
    set r: nat | r < NB_ASM_REGS && r != ESP && r != EBP && !clobber[r]
  }

  /** Inputs for different particular registers, which are free, and for any register, not more
      than there are free ones. */
  ghost predicate Satisfiable(ops: seq<Operand>, clobber: seq<bool>)
    requires |clobber| == NB_ASM_REGS
  {
    (forall i :: 0 <= i < |ops| && Letter(ops[i]) in PARTICULAR ==> Named(Letter(ops[i])) in Free(clobber)) &&
    (forall i, j :: 0 <= i < j < |ops| && Letter(ops[i]) in PARTICULAR ==> Letter(ops[i]) != Letter(ops[j])) &&
    |ops| <= |Free(clobber)|
  }

  lemma SimpleLetters(o: Operand)
    requires IsSimple(o)
    ensures Letters(o.constraint) == o.constraint && KnownLetters(o.constraint) && !IsReference(o.constraint)
  {
    assert o.constraint[1..] == "";
  }

  /** Simple operands are acceptable, and none refers to another. */
  lemma SimpleStarted(was: seq<Operand>, start: seq<Operand>)
    requires (forall i :: 0 <= i < |was| ==> IsSimple(was[i])) && Started(was, start)
    ensures AllAcceptable(was, 0) && |start| == |was|
    ensures forall i :: 0 <= i < |start| ==> IsSimple(start[i]) && Letter(start[i]) == Letter(was[i]) && Idle(start[i])
  {
    hide Letters, IsReference, KnownLetters, PriorityIs;
    forall i | 0 <= i < |was| ensures Acceptable(was, i, 0) && !IsReference(was[i].constraint) {
      SimpleLetters(was[i]);
    }
    assert forall i :: 0 <= i < |start| ==> start[i].SameSource(was[i]);
    forall i | 0 <= i < |start| ensures Idle(start[i]) {
    }
  }

  /** No reference points here or comes from here, and there is no register yet. */
  predicate Idle(o: Operand) {
    o.refIndex == -1 && o.inputIndex == -1 && o.reg == -1
  }

  // ---------------------------------------------------------------- one operand

  /** A particular register that is free is taken. */
  lemma ChooseParticular(o: Operand, regs: seq<Uses>)
    requires IsSimple(o) && Letter(o) in PARTICULAR && |regs| == NB_ASM_REGS && !regs[Named(Letter(o))].input
    ensures Choose(o.constraint, regs, false, o.value, -1, INPUT, false)
      == Register(Named(Letter(o)), INPUT, false, false)
  {
    var s, c := o.constraint, Letter(o);
    ParticularLetter(c);
    ChooseStep(s, 0, regs, false, o.value, -1, INPUT, false);
    assert s[0..] == s;
    hide Choose, AnyRegister, Pointer, RegisterOf, Named, Known;
    assert Try(c, regs, false, o.value, -1, INPUT, false) == Register(Named(c), INPUT, false, false);
  }

  lemma ParticularLetter(c: char)
    requires c in PARTICULAR
    ensures Known(c) && RegisterOf(c) == Named(c) && c in DEMANDS[1] && c !in "+&=rA"
  {
  }

  /** Any register that is free is taken, if there is one. */
  lemma ChooseAnyFree(o: Operand, regs: seq<Uses>, free: nat) returns (r: nat)
    requires IsSimple(o) && Letter(o) == 'r' && |regs| == NB_ASM_REGS && free < NB_ASM_REGS && !regs[free].input
    ensures r < NB_ASM_REGS && !regs[r].input
    ensures Choose(o.constraint, regs, false, o.value, -1, INPUT, false) == Register(r, INPUT, false, false)
  {
    var s := o.constraint;
    ChooseStep(s, 0, regs, false, o.value, -1, INPUT, false);
    assert s[0..] == s;
    hide Choose, FirstFree;
    r := FirstFree(regs, INPUT, NB_ASM_REGS);
    assert Try('r', regs, false, o.value, -1, INPUT, false) == Register(r, INPUT, false, false);
  }

  /** What the step does when the choice is a register for the input. */
  lemma StepTakes(a: Alloc, j: nat, r: nat)
    requires Ready(a) && a.Alloc? && j < |a.ops| && Idle(a.ops[j]) && r < NB_ASM_REGS
    requires Choose(a.ops[j].constraint, a.regs, false, a.ops[j].value, -1, INPUT, false)
      == Register(r, INPUT, false, false)
    ensures AllocStep(a, j, 0) ==
      Alloc(a.ops[j := a.ops[j].(reg := r, isLlong := false, isRw := false)],
            a.regs[r := Uses(true, a.regs[r].output)])
  {
    hide Choose, RegVarsInRange, Linked;
  }

  // ---------------------------------------------------------------- the run

  /** The operands when the first i of the order are placed, particular ones in their registers. */
  ghost predicate OpsAt(start: seq<Operand>, sorted: seq<nat>, i: nat, ops: seq<Operand>)
    requires i <= |sorted| == |start| && forall k :: 0 <= k < |sorted| ==> sorted[k] < |start|
  {
    |ops| == |start| && (forall k :: i <= k < |sorted| ==> ops[sorted[k]] == start[sorted[k]]) &&
    forall k :: 0 <= k < i && Letter(start[sorted[k]]) in PARTICULAR ==>
      ops[sorted[k]].reg == Named(Letter(start[sorted[k]]))
  }

  /** The registers then: of the free ones only those of the i operands are in use. */
  ghost predicate RegsAt(sorted: seq<nat>, i: nat, clobber: seq<bool>, ops: seq<Operand>, regs: seq<Uses>)
    requires |clobber| == NB_ASM_REGS && i <= |sorted| && forall k :: 0 <= k < |sorted| ==> sorted[k] < |ops|
  {
    |regs| == NB_ASM_REGS &&
    (forall r: nat :: r < NB_ASM_REGS && r !in Free(clobber) ==> regs[r].input) &&
    (forall r: nat :: r in Free(clobber) ==> !regs[r].output) &&
    (forall r: nat :: r in Free(clobber) && regs[r].input ==> HasRegister(sorted, i, ops, r)) &&
    |UsedFree(regs, clobber)| <= i
  }

  ghost predicate HasRegister(sorted: seq<nat>, i: nat, ops: seq<Operand>, r: nat)
    requires i <= |sorted| && forall k :: 0 <= k < |sorted| ==> sorted[k] < |ops|
  {
    exists k :: 0 <= k < i && ops[sorted[k]].reg == r
  }

  ghost function UsedFree(regs: seq<Uses>, clobber: seq<bool>): set<nat>
    requires |clobber| == NB_ASM_REGS == |regs|
  {
    set r | r in Free(clobber) && regs[r].input
  }

  lemma RegsStart(start: seq<Operand>, sorted: seq<nat>, clobber: seq<bool>)
    requires |clobber| == NB_ASM_REGS && forall k :: 0 <= k < |sorted| ==> sorted[k] < |start|
    ensures RegsAt(sorted, 0, clobber, start, StartUses(clobber))
  {
    assert UsedFree(StartUses(clobber), clobber) == {};
  }

  lemma OpsStart(start: seq<Operand>, sorted: seq<nat>)
    requires |sorted| == |start| && forall k :: 0 <= k < |sorted| ==> sorted[k] < |start|
    ensures OpsAt(start, sorted, 0, start)
  {
  }

  lemma OpsLength(start: seq<Operand>, sorted: seq<nat>, i: nat, ops: seq<Operand>)
    requires i <= |sorted| == |start| && (forall k :: 0 <= k < |sorted| ==> sorted[k] < |start|)
    requires OpsAt(start, sorted, i, ops)
    ensures |ops| == |start|
  {
  }

  lemma OpsNext(start: seq<Operand>, sorted: seq<nat>, i: nat, ops: seq<Operand>, o: Operand)
    requires i < |sorted| == |start| && Permutes(sorted, |start|) && OpsAt(start, sorted, i, ops)
    requires Letter(start[sorted[i]]) in PARTICULAR ==> o.reg == Named(Letter(start[sorted[i]]))
    ensures OpsAt(start, sorted, i + 1, ops[sorted[i] := o])
  {
    hide Named;
    PermutesMeans(sorted, |start|);
    hide Permutes;
  }

  /** One more operand has a register, which was free. */
  lemma RegsNext(sorted: seq<nat>, i: nat, clobber: seq<bool>, ops: seq<Operand>, regs: seq<Uses>, o: Operand, r: nat)
    requires |clobber| == NB_ASM_REGS && i < |sorted| && Permutes(sorted, |ops|)
    requires RegsAt(sorted, i, clobber, ops, regs) && r in Free(clobber) && o.reg == r
    ensures RegsAt(sorted, i + 1, clobber, ops[sorted[i] := o], regs[r := Uses(true, regs[r].output)])
  {
    PermutesMeans(sorted, |ops|);
    hide Permutes;
    var ops', regs' := ops[sorted[i] := o], regs[r := Uses(true, regs[r].output)];
    FreeBelow(clobber);
    hide Free;
    UsedMore(regs, r, clobber);
    hide UsedFree, HasRegister;
    forall x: nat | x in Free(clobber) && regs'[x].input ensures HasRegister(sorted, i + 1, ops', x) {
      RegisterNext(sorted, i, ops, o, x);
    }
  }

  lemma UsedMore(regs: seq<Uses>, r: nat, clobber: seq<bool>)
    requires |clobber| == NB_ASM_REGS == |regs| && r in Free(clobber) && r < NB_ASM_REGS
    ensures |UsedFree(regs[r := Uses(true, regs[r].output)], clobber)| <= |UsedFree(regs, clobber)| + 1
  {
    FreeBelow(clobber);
    hide Free;
    assert UsedFree(regs[r := Uses(true, regs[r].output)], clobber) == UsedFree(regs, clobber) + {r};
  }

  lemma RegisterNext(sorted: seq<nat>, i: nat, ops: seq<Operand>, o: Operand, x: nat)
    requires i < |sorted| && (forall k :: 0 <= k < |sorted| ==> sorted[k] < |ops|)
    requires (forall k :: 0 <= k < i ==> sorted[k] != sorted[i]) && (o.reg == x || HasRegister(sorted, i, ops, x))
    ensures HasRegister(sorted, i + 1, ops[sorted[i] := o], x)
  {
    var ops' := ops[sorted[i] := o];
    if o.reg == x {
      assert ops'[sorted[i]].reg == x;
    } else {
      var k :| 0 <= k < i && ops[sorted[k]].reg == x;
      assert ops'[sorted[k]].reg == x;
    }
  }

  lemma FreeBelow(clobber: seq<bool>)
    requires |clobber| == NB_ASM_REGS
    ensures forall r :: r in Free(clobber) ==> r < NB_ASM_REGS
  {
  }

  lemma NamedApart(c: char, d: char)
    requires c in PARTICULAR && d in PARTICULAR && c != d
    ensures Named(c) != Named(d)
  {
  }

  /** The register of a particular operand is still free when its turn comes. */
  lemma StillFree(start: seq<Operand>, sorted: seq<nat>, i: nat, clobber: seq<bool>, ops: seq<Operand>, regs: seq<Uses>)
    requires |clobber| == NB_ASM_REGS && i < |sorted| && |sorted| == |start| && ByPriority(start, sorted)
    requires forall k :: 0 <= k < |sorted| ==> sorted[k] < |start|
    requires forall k :: 0 <= k < |start| ==> IsSimple(start[k]) && Idle(start[k]) && PriorityIs(start[k])
    requires Satisfiable(start, clobber) && OpsAt(start, sorted, i, ops) && RegsAt(sorted, i, clobber, ops, regs)
    requires Letter(start[sorted[i]]) in PARTICULAR
    ensures Named(Letter(start[sorted[i]])) in Free(clobber) && !regs[Named(Letter(start[sorted[i]]))].input
  {
    hide Named, PriorityIs, UsedFree, Letters, Names, Asks, Free;
    var j := sorted[i];
    forall k | 0 <= k < i ensures ops[sorted[k]].reg != Named(Letter(start[j])) {
      EarlierParticular(start, sorted, k, i);
      PermutesMeans(sorted, |start|);
      assert sorted[k] < j || j < sorted[k];
      NamedApart(Letter(start[j]), Letter(start[sorted[k]]));
    }
  }

  /** Before a particular operand there are only such. */
  lemma EarlierParticular(start: seq<Operand>, sorted: seq<nat>, k: nat, i: nat)
    requires k < i < |sorted| && |sorted| == |start| && ByPriority(start, sorted)
    requires forall x :: 0 <= x < |sorted| ==> sorted[x] < |start|
    requires forall x :: 0 <= x < |start| ==> IsSimple(start[x]) && Idle(start[x]) && PriorityIs(start[x])
    requires Letter(start[sorted[i]]) in PARTICULAR
    ensures Letter(start[sorted[k]]) in PARTICULAR
  {
    hide PriorityIs, Letters, Names, Asks;
    SimpleAsks(start[sorted[i]]);
    SimpleAsks(start[sorted[k]]);
    if Letter(start[sorted[k]]) == 'r' {
      DemandingFirst(start, sorted, i, k, 1);
    }
  }

  lemma SimpleAsks(o: Operand)
    requires IsSimple(o)
    ensures Letter(o) in PARTICULAR ==> Names(o, DEMANDS[1])
    ensures Letter(o) == 'r' ==> Asks(o, EASIER[1])
  {
    OneLetter(o);
    hide Letters, Letter, IsSimple, Names, Asks;
    if Letter(o) in PARTICULAR {
      ParticularLetter(Letter(o));
      NamesOne(o, Letter(o), DEMANDS[1]);
    }
    if Letter(o) == 'r' {
      AnyLetter();
      AsksOne(o, 'r', EASIER[1]);
    }
  }

  lemma OneLetter(o: Operand)
    requires IsSimple(o)
    ensures Letters(o.constraint) == [Letter(o)]
  {
    SimpleLetters(o);
    hide Letters, KnownLetters, IsReference;
  }

  lemma AnyLetter()
    ensures 'r' in EASIER[1]
  {
    assert EASIER[1][1] == 'r';
  }

  lemma NamesOne(o: Operand, c: char, letters: string)
    requires Letters(o.constraint) == [c] && c in letters
    ensures Names(o, letters)
  {
    hide Letters;
  }

  lemma AsksOne(o: Operand, c: char, letters: string)
    requires Letters(o.constraint) == [c] && c in letters
    ensures Asks(o, letters)
  {
    var l := Letters(o.constraint);
    hide Letters;
    assert l[0] in letters;
  }

  lemma MoreFree(regs: seq<Uses>, clobber: seq<bool>) returns (r: nat)
    requires |clobber| == NB_ASM_REGS == |regs| && |UsedFree(regs, clobber)| < |Free(clobber)|
    ensures r in Free(clobber) && !regs[r].input
  {
    var rest := Free(clobber) - UsedFree(regs, clobber);
    assert Free(clobber) == rest + UsedFree(regs, clobber);
    r :| r in rest;
  }

  /** Satisfiable simple operands find their places one after the other. */
  lemma {:induction false} RunSucceeds(start: seq<Operand>, sorted: seq<nat>, i: nat, clobber: seq<bool>)
    requires |clobber| == NB_ASM_REGS && i <= |sorted| == |start| && ByPriority(start, sorted)
    requires forall k :: 0 <= k < |sorted| ==> sorted[k] < |start|
    requires forall k :: 0 <= k < |start| ==> IsSimple(start[k]) && Idle(start[k]) && PriorityIs(start[k])
    requires Satisfiable(start, clobber) && RegVarsInRange(start) && Linked(start)
    ensures var a := AllocRun(Alloc(start, StartUses(clobber)), sorted, i, 0);
      a.Alloc? && OpsAt(start, sorted, i, a.ops) && RegsAt(sorted, i, clobber, a.ops, a.regs)
  {
    hide AllocStep, Satisfiable, PriorityIs, Permutes, Named, Letter, IsSimple, Free, UsedFree, SameBut;
    hide OpsAt, RegsAt, Idle, RegVarsInRange, Linked;
    if i == 0 {
      RegsStart(start, sorted, clobber);
      OpsStart(start, sorted);
    } else {
      RunSucceeds(start, sorted, i - 1, clobber);
      var a, j := AllocRun(Alloc(start, StartUses(clobber)), sorted, i - 1, 0), sorted[i - 1];
      var r := PlaceFound(start, sorted, i - 1, clobber, a);
      OpsLength(start, sorted, i - 1, a.ops);
      var o := a.ops[j].(reg := r, isLlong := false, isRw := false);
      OpsNext(start, sorted, i - 1, a.ops, o);
      RegsNext(sorted, i - 1, clobber, a.ops, a.regs, o, r);
    }
  }

  lemma PlaceFound(start: seq<Operand>, sorted: seq<nat>, i: nat, clobber: seq<bool>, a: Alloc) returns (r: nat)
    requires |clobber| == NB_ASM_REGS && i < |sorted| && |sorted| == |start| && ByPriority(start, sorted) && Ready(a)
    requires forall k :: 0 <= k < |sorted| ==> sorted[k] < |start|
    requires forall k :: 0 <= k < |start| ==> IsSimple(start[k]) && Idle(start[k]) && PriorityIs(start[k])
    requires Satisfiable(start, clobber)
    requires a.Alloc? && OpsAt(start, sorted, i, a.ops) && RegsAt(sorted, i, clobber, a.ops, a.regs)
    ensures r in Free(clobber) && r < NB_ASM_REGS
    ensures Letter(start[sorted[i]]) in PARTICULAR ==> r == Named(Letter(start[sorted[i]]))
    ensures AllocStep(a, sorted[i], 0) ==
      Alloc(a.ops[sorted[i] := a.ops[sorted[i]].(reg := r, isLlong := false, isRw := false)],
            a.regs[r := Uses(true, a.regs[r].output)])
  {
    hide AllocStep, PriorityIs, Permutes, Named, Choose, UsedFree, Ready;
    FreeBelow(clobber);
    var j := sorted[i];
    if Letter(start[j]) in PARTICULAR {
      StillFree(start, sorted, i, clobber, a.ops, a.regs);
      ChooseParticular(a.ops[j], a.regs);
      r := Named(Letter(start[j]));
    } else {
      var free := MoreFree(a.regs, clobber);
      r := ChooseAnyFree(a.ops[j], a.regs, free);
    }
    hide Free, Satisfiable, OpsAt, RegsAt;
    StepTakes(a, j, r);
  }

  /** An output register is found too, if one is needed. */
  lemma OutputFree(sorted: seq<nat>, clobber: seq<bool>, ops: seq<Operand>, regs: seq<Uses>)
    requires |clobber| == NB_ASM_REGS && (forall k :: 0 <= k < |sorted| ==> sorted[k] < |ops|)
    requires RegsAt(sorted, |sorted|, clobber, ops, regs) && |ops| <= |Free(clobber)| && ops != []
    ensures FirstFree(regs, OUTPUT, NB_ASM_REGS) < NB_ASM_REGS
  {
    FreeBelow(clobber);
    assert Free(clobber) != {};
    var r :| r in Free(clobber);
    assert !regs[r].Meets(OUTPUT);
    hide FirstFree;
  }

  /** Satisfiable simple inputs are accepted, and particular ones get their registers. */
  lemma SimpleSucceed(was: seq<Operand>, start: seq<Operand>, sorted: seq<nat>, clobber: seq<bool>)
    requires |clobber| == NB_ASM_REGS && (forall i :: 0 <= i < |was| ==> IsSimple(was[i])) && Satisfiable(was, clobber)
    requires Started(was, start) && ByPriority(start, sorted) && RegVarsInRange(start) && Linked(start)
    ensures AllAcceptable(was, 0)
    ensures var a := Allocation(start, sorted, 0, clobber);
      Succeeds(a) && |a.ops| == |was| &&
      forall i :: 0 <= i < |was| && Letter(was[i]) in PARTICULAR ==> a.ops[i].reg == Named(Letter(was[i]))
  {
    hide IsSimple, Evaluated, PriorityIs, Named, RegVarsInRange, Linked;
    hide Free, AllAcceptable, Letter, FirstFree, OpsAt, RegsAt;
    SimpleStarted(was, start);
    SameSatisfiable(was, start, clobber);
    PermutesMeans(sorted, |start|);
    RunSucceeds(start, sorted, |sorted|, clobber);
    var a := Allocation(start, sorted, 0, clobber);
    OpsLength(start, sorted, |sorted|, a.ops);
    if a.ops != [] {
      OutputFree(sorted, clobber, a.ops, a.regs);
    }
    forall i | 0 <= i < |was| && Letter(was[i]) in PARTICULAR ensures a.ops[i].reg == Named(Letter(was[i])) {
      PlacedParticular(start, sorted, a.ops, i);
    }
  }

  lemma PlacedParticular(start: seq<Operand>, sorted: seq<nat>, ops: seq<Operand>, i: nat)
    requires |sorted| == |start| && (forall k :: 0 <= k < |sorted| ==> sorted[k] < |start|)
    requires Permutes(sorted, |start|) && OpsAt(start, sorted, |sorted|, ops) && i < |start|
    requires Letter(start[i]) in PARTICULAR
    ensures ops[i].reg == Named(Letter(start[i]))
  {
    assert i in sorted;
    var k :| 0 <= k < |sorted| && sorted[k] == i;
  }

  lemma SameSatisfiable(was: seq<Operand>, start: seq<Operand>, clobber: seq<bool>)
    requires |clobber| == NB_ASM_REGS && Satisfiable(was, clobber) && |start| == |was|
    requires forall i :: 0 <= i < |was| ==> Letter(start[i]) == Letter(was[i])
    ensures Satisfiable(start, clobber)
  {
    hide Free, Letter, Named;
  }

  // ---------------------------------------------------------------- and no others

  /** An operand that was placed has a register of its letter. */
  lemma SimplePlaced(o: Operand, j: nat)
    requires IsSimple(o) && Satisfied(o)
    ensures o.reg >= 0 && !o.isMemory && Occupies(o, o.reg)
    ensures Letter(o) in PARTICULAR ==> o.reg == Named(Letter(o))
    ensures o.inputIndex < 0 ==> UsesOf(o, j, 0) == INPUT
  {
    var ch: Choice :| Admitted(o.constraint, ch, o.value) && AsPlaced(o, ch);
    var i :| 0 <= i < |o.constraint| && Admits(o.constraint[i], ch, o.value);
    assert o.constraint[i] == Letter(o);
    SimpleAdmits(Letter(o), ch, o.value);
    hide Admits, Named;
  }

  lemma SimpleAdmits(c: char, ch: Choice, v: Value)
    requires (c in PARTICULAR || c == 'r') && Admits(c, ch, v)
    ensures ch.Register? && (c in PARTICULAR ==> ch.reg == Named(c)) && c !in "=+&"
  {
  }

  /** Sound placement of simple inputs: registers that are free, all different. */
  lemma SoundRegisters(ops: seq<Operand>, clobber: seq<bool>, i: nat, j: nat)
    requires |clobber| == NB_ASM_REGS && Sound(ops, 0, clobber, -1) && i < |ops| && j < |ops|
    requires forall k :: 0 <= k < |ops| ==> IsSimple(ops[k]) && ops[k].refIndex < 0 && ops[k].inputIndex < 0
    ensures ops[i].reg >= 0 && ops[i].reg in Free(clobber)
    ensures Letter(ops[i]) in PARTICULAR ==> ops[i].reg == Named(Letter(ops[i]))
    ensures i != j ==> ops[i].reg != ops[j].reg
  {
    hide IsSimple, Satisfied, Named, Letter, UsesOf, Occupies;
    assert IsDirect(ops, i) && IsDirect(ops, j);
    SimplePlaced(ops[i], i);
    SimplePlaced(ops[j], j);
    assert i != j ==> Apart(ops[i], i, ops[j], j, 0);
    assert Occupies(ops[i], ops[i].reg);
  }

  ghost function Registers(ops: seq<Operand>, n: nat): set<int>
    requires n <= |ops|
  {
    set i | 0 <= i < n :: ops[i].reg
  }

  lemma {:induction false} RegistersCount(ops: seq<Operand>, n: nat)
    requires n <= |ops| && forall i, j :: 0 <= i < j < n ==> ops[i].reg != ops[j].reg
    ensures |Registers(ops, n)| == n
  {
    if n > 0 {
      RegistersCount(ops, n - 1);
      assert ops[n - 1].reg !in Registers(ops, n - 1);
      assert Registers(ops, n) == Registers(ops, n - 1) + {ops[n - 1].reg};
    }
  }

  lemma SubsetSize(a: set<int>, b: set<int>)
    requires a <= b
    ensures |a| <= |b|
  {
    assert b == a + (b - a);
  }

  lemma SoundSatisfiable(ops: seq<Operand>, clobber: seq<bool>)
    requires |clobber| == NB_ASM_REGS && Sound(ops, 0, clobber, -1)
    requires forall k :: 0 <= k < |ops| ==> IsSimple(ops[k]) && ops[k].refIndex < 0 && ops[k].inputIndex < 0
    ensures Satisfiable(ops, clobber)
  {
    hide IsSimple, Sound, Named, Letter, Free;
    forall i, j | 0 <= i < |ops| && 0 <= j < |ops|
      ensures ops[i].reg >= 0 && ops[i].reg in Free(clobber)
      ensures Letter(ops[i]) in PARTICULAR ==> ops[i].reg == Named(Letter(ops[i]))
      ensures i != j ==> ops[i].reg != ops[j].reg
    {
      SoundRegisters(ops, clobber, i, j);
    }
    RegistersCount(ops, |ops|);
    SubsetSize(Registers(ops, |ops|), Free(clobber));
  }

  /** Simple inputs that are accepted are satisfiable: with the lemma before, exactly those are. */
  lemma OnlySatisfiable(was: seq<Operand>, start: seq<Operand>, sorted: seq<nat>, clobber: seq<bool>)
    requires |clobber| == NB_ASM_REGS && (forall i :: 0 <= i < |was| ==> IsSimple(was[i]))
    requires Started(was, start) && ByPriority(start, sorted) && RegVarsInRange(start) && Linked(start)
    requires Succeeds(Allocation(start, sorted, 0, clobber))
    ensures Satisfiable(was, clobber)
  {
    hide IsSimple, Evaluated, PriorityIs, Named, Free, AllAcceptable, Letter, FirstFree, Permutes, Sound, Letters;
    SimpleStarted(was, start);
    PermutesMeans(sorted, |start|);
    var a := Allocation(start, sorted, 0, clobber);
    StartedFresh(was, start);
    RunSound(Alloc(start, StartUses(clobber)), sorted, 0, clobber, -1);
    SameSimple(a.ops, start);
    SoundSatisfiable(a.ops, clobber);
    SameSatisfiable(a.ops, was, clobber);
  }

  lemma StartedFresh(was: seq<Operand>, start: seq<Operand>)
    requires Started(was, start)
    ensures forall k :: 0 <= k < |start| ==> !start[k].isMemory
  {
    hide PriorityIs;
  }

  lemma SameSimple(ops: seq<Operand>, start: seq<Operand>)
    requires SameBut(ops, start) && forall k :: 0 <= k < |start| ==> IsSimple(start[k]) && Idle(start[k])
    ensures |ops| == |start|
    ensures forall k :: 0 <= k < |ops| ==> IsSimple(ops[k]) && ops[k].refIndex < 0 && ops[k].inputIndex < 0
    ensures forall k :: 0 <= k < |ops| ==> Letter(ops[k]) == Letter(start[k])
  {
  }

  // ---------------------------------------------------------------- what a failure means

  /** The letters that constraint_priority and the allocator know. */
  const LETTERS: string := "AabcdSDqrRpNMIeimg"

  lemma LettersKnown(c: char)
    ensures Known(c) <==> c in LETTERS
  {
  }

  /** A place that the letter allows and that is free; a value whose address is in memory itself is
      not in place for an output, or for 'm'. */
  ghost predicate Possible(c: char, ch: Choice, regs: seq<Uses>, output: bool, v: Value, u: Uses)
    requires |regs| == NB_ASM_REGS
  {
    Admits(c, ch, v) && Fits(ch, regs, u) && (ch.InPlace? && c in "mg" ==> !(v.llocal && (output || c == 'm')))
  }

  lemma TryParticular(c: char, regs: seq<Uses>, output: bool, v: Value, u: Uses, rw: bool, ch: Choice)
    requires |regs| == NB_ASM_REGS && Known(c) && Try(c, regs, output, v, -1, u, rw) == Unsatisfied
    requires c == 'A' || c in PARTICULAR
    ensures !Possible(c, ch, regs, output, v, u)
  {
    hide FirstFree, AnyRegister, Pointer;
  }

  lemma TryAny(c: char, regs: seq<Uses>, output: bool, v: Value, u: Uses, rw: bool, ch: Choice)
    requires |regs| == NB_ASM_REGS && Known(c) && Try(c, regs, output, v, -1, u, rw) == Unsatisfied
    requires c in "qrRp"
    ensures !Possible(c, ch, regs, output, v, u)
  {
    hide FirstFree, Pointer;
  }

  lemma TryPlace(c: char, regs: seq<Uses>, output: bool, v: Value, u: Uses, rw: bool, ch: Choice)
    requires |regs| == NB_ASM_REGS && Known(c) && Try(c, regs, output, v, -1, u, rw) == Unsatisfied
    requires c in "INMeimg"
    ensures !Possible(c, ch, regs, output, v, u)
  {
    hide FirstFree, AnyRegister, RegisterOf;
  }

  lemma LetterGroups(c: char)
    requires Known(c)
    ensures c == 'A' || c in PARTICULAR || c in "qrRp" || c in "INMeimg"
  {
  }

  lemma TryComplete(c: char, regs: seq<Uses>, output: bool, v: Value, u: Uses, rw: bool, ch: Choice)
    requires |regs| == NB_ASM_REGS && Known(c) && Try(c, regs, output, v, -1, u, rw) == Unsatisfied
    ensures !Possible(c, ch, regs, output, v, u)
  {
    LetterGroups(c);
    hide Try, Possible, Known;
    if c == 'A' || c in PARTICULAR {
      TryParticular(c, regs, output, v, u, rw, ch);
    } else if c in "qrRp" {
      TryAny(c, regs, output, v, u, rw, ch);
    } else {
      TryPlace(c, regs, output, v, u, rw, ch);
    }
  }

  /** A constraint of an operand without a register variable fails only when none of its letters
      allows a place that is free. */
  lemma {:induction false} ChoiceComplete(s: string, regs: seq<Uses>, output: bool, v: Value, u: Uses, rw: bool, i: nat,
                                          ch: Choice)
    requires |regs| == NB_ASM_REGS && Choose(s, regs, output, v, -1, u, rw) == Unsatisfied
    requires (forall k :: 0 <= k < |s| ==> s[k] in LETTERS || s[k] == '=') && i < |s| && s[i] in LETTERS
    ensures !Possible(s[i], ch, regs, output, v, u)
    decreases |s|
  {
    hide Try, Possible, Known;
    var c := s[0];
    LettersKnown(c);
    FirstLetter(c);
    if i == 0 {
      TryComplete(c, regs, output, v, u, rw, ch);
    } else {
      ChoiceComplete(s[1..], regs, output, v, u, rw, i - 1, ch);
    }
  }

  lemma FirstLetter(c: char)
    requires c in LETTERS || c == '='
    ensures c != '+' && c != '&' && '=' !in LETTERS
  {
  }

  // ---------------------------------------------------------------- who may share a register

  /** Needed before the instruction only: an input to which none refers. */
  predicate InputOnly(o: Operand, i: nat, nbOutputs: nat) {
    i >= nbOutputs && o.inputIndex < 0
  }

  /** Written after all inputs are read: an output to which none refers. */
  predicate OutputOnly(o: Operand, i: nat, nbOutputs: nat) {
    i < nbOutputs && o.inputIndex < 0
  }

  /** Two operands share a register only if one is an input and the other an output, neither is
      matched by another, and neither begins with '&' or '+'. */
  lemma SharersDiffer(ops: seq<Operand>, nbOutputs: nat, clobber: seq<bool>, outReg: int, i: nat, j: nat, r: nat)
    requires |clobber| == NB_ASM_REGS && Sound(ops, nbOutputs, clobber, outReg) && i < |ops| && j < |ops| && i != j
    requires ops[i].refIndex < 0 && ops[j].refIndex < 0 && !ops[i].isMemory && !ops[j].isMemory
    requires Occupies(ops[i], r) && Occupies(ops[j], r)
    ensures (InputOnly(ops[i], i, nbOutputs) && OutputOnly(ops[j], j, nbOutputs)) ||
      (OutputOnly(ops[i], i, nbOutputs) && InputOnly(ops[j], j, nbOutputs))
    ensures !Earlyclobber(ops[i].constraint) && !Earlyclobber(ops[j].constraint)
  {
    hide Occupies;
    assert IsDirect(ops, i) && IsDirect(ops, j);
    assert Apart(ops[i], i, ops[j], j, nbOutputs);
    UsesMean(ops[i], i, nbOutputs);
    UsesMean(ops[j], j, nbOutputs);
  }

  /** The first letter, behind any '=', is '&' or '+'. */
  predicate Earlyclobber(s: string) {
    s != "" && (if s[0] == '=' then Earlyclobber(s[1..]) else s[0] == '&' || s[0] == '+')
  }

  lemma UsesMean(o: Operand, i: nat, nbOutputs: nat)
    requires !o.isMemory
    ensures var u := UsesOf(o, i, nbOutputs);
      (u.input <==> i >= nbOutputs || o.inputIndex >= 0 || Earlyclobber(o.constraint)) &&
      (u.output <==> i < nbOutputs || o.inputIndex >= 0 || Earlyclobber(o.constraint))
  {
    RequiredMeans(o.constraint, Base(o, i, nbOutputs));
  }

  lemma {:induction false} RequiredMeans(s: string, u: Uses)
    ensures Required(s, u) == if Earlyclobber(s) then BOTH else u
  {
    if s != "" && s[0] == '=' {
      RequiredMeans(s[1..], u);
    }
  }

  /** A constraint is a reference if a digit or a bracket follows the modifiers. */
  lemma ReferenceMeans(s: string)
    ensures IsReference(s) <==> Letters(s) != "" && Letters(s)[0] in "0123456789["
  {
    hide Letters;
  }

  /** The modifiers are left out, and nothing else. */
  lemma {:induction false} LettersMean(s: string, k: nat)
    requires k <= |s| && (forall i :: 0 <= i < k ==> s[i] in "=&+%") && (k < |s| ==> s[k] !in "=&+%")
    ensures Letters(s) == s[k..]
    decreases k
  {
    if k > 0 {
      LettersMean(s[1..], k - 1);
      assert s[1..][k - 1..] == s[k..];
    } else {
      assert s[0..] == s;
    }
  }

  /** A register variable is given its own register, unless the pair is asked for. */
  lemma {:induction false} OwnRegister(s: string, regs: seq<Uses>, output: bool, v: Value, own: int, u: Uses, rw: bool)
    requires |regs| == NB_ASM_REGS && 0 <= own < NB_ASM_REGS
    ensures var ch := Choose(s, regs, output, v, own, u, rw); ch.Register? && !ch.pair ==> ch.reg == own
    decreases |s|
  {
    hide Try, Known;
    if s != "" {
      OwnRegister(s[1..], regs, output, v, own, BOTH, rw || s[0] == '+');
      OwnRegister(s[1..], regs, output, v, own, u, rw);
      if Known(s[0]) {
        OwnTried(s[0], regs, output, v, own, u, rw);
      }
    }
  }

  lemma OwnTried(c: char, regs: seq<Uses>, output: bool, v: Value, own: int, u: Uses, rw: bool)
    requires |regs| == NB_ASM_REGS && 0 <= own < NB_ASM_REGS && Known(c)
    ensures var ch := Try(c, regs, output, v, own, u, rw); ch.Register? && !ch.pair ==> ch.reg == own
  {
    hide FirstFree;
  }
}
