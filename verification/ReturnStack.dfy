/**
 The return stack: a ring of 32 slots that every cycle may push to and pop from, and
 that behaves as a stack as long as at most 32 return addresses are live.
 */
module ReturnStack {
  import opened Words
  import opened Microcode
  import opened PipelineTheory

  datatype SpcOp = Push(v: Word) | Pop

  datatype Ring = Ring(slots: Bank32, ptr: Index5)

  function RingOf(c: Cpu): Ring { Ring(c.mem.spc, c.spcPtr) }

  function Apply(r: Ring, op: SpcOp): Ring {
    match op
    case Push(v) => var p := (r.ptr + 1) % 32; Ring(r.slots[p := v], p)
    case Pop => Ring(r.slots, (r.ptr - 1) % 32)
  }

  function ApplyAll(r: Ring, ops: seq<SpcOp>): Ring
    decreases |ops|
  {
    if ops == [] then r else ApplyAll(Apply(r, ops[0]), ops[1..])
  }

  function Top(r: Ring): Word { r.slots[r.ptr] }

  /** The i-th slot below the top. */
  function Slot(r: Ring, i: nat): Word { r.slots[(r.ptr - i) % 32] }

  /** The i-th element below the last. */
  function Entry(st: seq<Word>, i: nat): Word
    requires i < |st|
  {
    st[|st| - 1 - i]
  }

  /** The ring holds the stack st, last element on top. */
  ghost predicate Holds(r: Ring, st: seq<Word>) {
    |st| <= 32 && forall i: nat :: i < |st| ==> Slot(r, i) == Entry(st, i)
  }

  lemma SlotAfter(r: Ring, v: Word, i: nat)
    requires i < 31
    ensures Slot(Apply(r, Push(v)), 0) == v && Slot(r, 0) == Top(r)
    ensures Slot(Apply(r, Push(v)), i + 1) == Slot(r, i)
    ensures Slot(Apply(r, Pop), i) == Slot(r, i + 1)
  {
  }

  lemma PushHolds(r: Ring, st: seq<Word>, v: Word)
    requires Holds(r, st) && |st| < 32
    ensures Holds(Apply(r, Push(v)), st + [v])
  {
    hide Slot, Apply;
    forall i: nat | i < |st| + 1 ensures Slot(Apply(r, Push(v)), i) == Entry(st + [v], i) {
      if i > 0 {
        SlotAfter(r, v, i - 1);
        assert Slot(r, i - 1) == Entry(st, i - 1);
      } else {
        SlotAfter(r, v, 0);
      }
    }
  }

  lemma PopHolds(r: Ring, st: seq<Word>)
    requires Holds(r, st) && st != []
    ensures Holds(Apply(r, Pop), st[..|st| - 1]) && Top(r) == st[|st| - 1]
  {
    hide Slot, Apply;
    SlotAfter(r, 0, 0);
    assert Slot(r, 0) == Entry(st, 0);
    forall i: nat | i < |st| - 1 ensures Slot(Apply(r, Pop), i) == Entry(st[..|st| - 1], i) {
      SlotAfter(r, 0, i);
      assert Slot(r, i + 1) == Entry(st, i + 1);
    }
  }

  /** An ordinary stack with room for `room` entries: it refuses to overflow or to pop below its base. */
  function Stack(st: seq<Word>, room: nat, ops: seq<SpcOp>): Option<seq<Word>>
    decreases |ops|
  {
    if ops == [] then Some(st)
    else match ops[0]
      case Push(v) => if |st| < room then Stack(st + [v], room, ops[1..]) else None
      case Pop => if st != [] then Stack(st[..|st| - 1], room, ops[1..]) else None
  }

  /** Above any base that leaves enough room, the ring does what the stack does and keeps the base. */
  lemma {:induction false} RingRefinesStack(r: Ring, base: seq<Word>, st: seq<Word>, room: nat, ops: seq<SpcOp>)
    requires |base| + room <= 32 && |st| <= room && Holds(r, base + st) && Stack(st, room, ops).Some?
    ensures |Stack(st, room, ops).value| <= room
    ensures Holds(ApplyAll(r, ops), base + Stack(st, room, ops).value)
    decreases |ops|
  {
    hide Holds, Apply;
    if ops != [] {
      match ops[0]
      case Push(v) =>
        PushHolds(r, base + st, v);
        assert base + st + [v] == base + (st + [v]);
        RingRefinesStack(Apply(r, ops[0]), base, st + [v], room, ops[1..]);
      case Pop =>
        PopHolds(r, base + st);
        assert (base + st)[..|base + st| - 1] == base + st[..|st| - 1];
        RingRefinesStack(Apply(r, ops[0]), base, st[..|st| - 1], room, ops[1..]);
    }
  }

  /** Balanced operations that nest at most 31 deep leave the address below them on top. */
  lemma BalancedKeepsTop(r: Ring, ret: Word, ops: seq<SpcOp>)
    requires Stack([], 31, ops) == Some([])
    ensures Top(ApplyAll(Apply(r, Push(ret)), ops)) == ret
  {
    assert Holds(r, []);
    hide Holds, Apply, Top, Stack, ApplyAll;
    PushHolds(r, [], ret);
    assert [] + [ret] == [ret] + [] == [ret];
    RingRefinesStack(Apply(r, Push(ret)), [ret], [], 31, ops);
    PopHolds(ApplyAll(Apply(r, Push(ret)), ops), [ret]);
  }

  function Pushes(vs: seq<Word>): seq<SpcOp> { seq(|vs|, i requires 0 <= i < |vs| => Push(vs[i])) }

  lemma {:induction false} PushAll(r: Ring, vs: seq<Word>, st: seq<Word>)
    requires Holds(r, st) && |st| + |vs| <= 32
    ensures Holds(ApplyAll(r, Pushes(vs)), st + vs)
    decreases |vs|
  {
    hide Holds, Apply;
    if vs == [] {
      assert st + vs == st;
    } else {
      PushHolds(r, st, vs[0]);
      assert Pushes(vs)[1..] == Pushes(vs[1..]);
      PushAll(Apply(r, Push(vs[0])), vs[1..], st + [vs[0]]);
      assert st + [vs[0]] + vs[1..] == st + vs;
    }
  }

  /** The bound is exact: a thirty-third live address destroys the oldest one. */
  lemma ThirtyTwoNestedPushesOverwrite(r: Ring, vs: seq<Word>)
    requires |vs| == 32
    ensures ApplyAll(r, Pushes(vs)).ptr == r.ptr
    ensures Top(ApplyAll(r, Pushes(vs))) == vs[31]
  {
    assert Holds(r, []);
    hide Holds, Apply, Top;
    PushAll(r, vs, []);
    assert [] + vs == vs;
    PopHolds(ApplyAll(r, Pushes(vs)), vs);
    PushesMove(r, vs);
  }

  lemma {:induction false} PushesMove(r: Ring, vs: seq<Word>)
    ensures ApplyAll(r, Pushes(vs)).ptr == (r.ptr + |vs|) % 32
    decreases |vs|
  {
    if vs != [] {
      assert Pushes(vs)[1..] == Pushes(vs[1..]);
      PushesMove(Apply(r, Push(vs[0])), vs[1..]);
    }
  }

  lemma {:induction false} ApplyAppend(r: Ring, a: seq<SpcOp>, b: seq<SpcOp>)
    ensures ApplyAll(r, a + b) == ApplyAll(ApplyAll(r, a), b)
    decreases |a|
  {
    if a == [] {
      assert a + b == b;
    } else {
      assert (a + b)[1..] == a[1..] + b;
      ApplyAppend(Apply(r, a[0]), a[1..], b);
    }
  }

  // ----- the ring operations of a cycle -----

  /** The ring operation that leads from c to c', read off the pointer. */
  function OpBetween(c: Cpu, c': Cpu): seq<SpcOp> {
    if c'.spcPtr == c.spcPtr then []
    else if c'.spcPtr == (c.spcPtr + 1) % 32 then [Push(Top(RingOf(c')))]
    else [Pop]
  }

  /** A phase of a cycle does at most one ring operation. */
  ghost predicate OneOp(c: Cpu, c': Cpu) { RingOf(c') == ApplyAll(RingOf(c), OpBetween(c, c')) }

  lemma OneOpCases(c: Cpu, c': Cpu)
    requires RingOf(c') == RingOf(c) || RingOf(c') == Apply(RingOf(c), Pop)
          || exists v :: RingOf(c') == Apply(RingOf(c), Push(v))
    ensures OneOp(c, c')
  {
    var ops := OpBetween(c, c');
    if ops != [] {
      assert ApplyAll(RingOf(c), ops) == ApplyAll(Apply(RingOf(c), ops[0]), ops[1..]) == Apply(RingOf(c), ops[0]);
    }
  }

  lemma LatchOneOp(c: Cpu, env: Env)
    requires LatchOperands(c, env).Some?
    ensures OneOp(c, LatchOperands(c, env).value)
  {
    OneOpCases(c, LatchOperands(c, env).value);
  }

  lemma MfWriteOneOp(c: Cpu, env: Env, dest: nat, data: Word)
    ensures OneOp(c, MfWrite(c, env, dest, data))
  {
    if dest / 32 == 13 {
      assert RingOf(MfWrite(c, env, dest, data)) == Apply(RingOf(c), Push(data));
    }
    OneOpCases(c, MfWrite(c, env, dest, data));
  }

  lemma ReturnPops(c: Cpu, env: Env)
    ensures RingOf(Return(c, env).1) == Apply(RingOf(c), Pop)
  {
    hide AdvanceLc;
    ReturnFrame(c, env);
  }

  lemma TransferOneOp(c: Cpu, env: Env, n: bool, p: bool, r: bool, target: Word)
    requires !(p && r)
    ensures RingOf(Transfer(c, env, n, p, r, target)) ==
            if p then Apply(RingOf(c), Push(ReturnAddress(c, n)))
            else if r then Apply(RingOf(c), Pop) else RingOf(c)
  {
    hide Return;
    if r { ReturnPops(c, env); }
  }

  lemma CycleRing(c: Cpu)
    ensures RingOf(AluCycle(c)) == RingOf(BytCycle(c)) == RingOf(c)
  {
    hide AluResult, RotatePosition, Msk, Merge;
  }

  lemma WriteDestOneOp(c: Cpu, env: Env, dest: nat)
    ensures OneOp(c, WriteDest(c, env, dest))
  {
    hide MfWrite;
    MfWriteOneOp(c, env, dest, c.path.out);
  }

  lemma JmpOneOp(c: Cpu, env: Env)
    requires Jmp(c, env).Some?
    ensures OneOp(c, Jmp(c, env).value)
  {
    hide CheckJumpCondition, Transfer, ReturnAddress, PField, RField, NField, TargetField, InvertField, MiscField;
    var w := c.pipe.p0;
    var c0 := if MiscField(w) == 1 then c.(halted := true) else c;
    CheckFrame(c0, env);
    if !(PField(w) && RField(w)) {
      var c1 := CheckJumpCondition(c0, env).value.1;
      TransferOneOp(c1, env, NField(w), PField(w), RField(w), TargetField(w));
    }
    OneOpCases(c, Jmp(c, env).value);
  }

  lemma DispatchTransferOneOp(c: Cpu, env: Env, word: Word)
    ensures OneOp(c, DispatchTransfer(c, env, word))
  {
    hide DispatchPrefix, Transfer, ReturnAddress;
    var n, p, r := word / 0x4000 % 2 == 1, word / 0x8000 % 2 == 1, word / 0x1_0000 % 2 == 1;
    DispatchPrefixFrame(c, env, n);
    if !(p && r) { TransferOneOp(DispatchPrefix(c, env, n), env, n, p, r, word % 0x4000); }
    OneOpCases(c, DispatchTransfer(c, env, word));
  }

  lemma DispatchOneOp(c: Cpu, env: Env)
    requires Dispatch(c, env).Some?
    ensures OneOp(c, Dispatch(c, env).value)
  {
    hide WriteDest, AluCycle, BytCycle, Jmp, DispatchTransfer, DestField, OpField, MiscField, PosField, AField;
    hide DispatchAddress, LcByteMode, DispatchField;
    match OpField(c.pipe.p0)
    case 0 =>
      CycleRing(c);
      WriteDestOneOp(AluCycle(c), env, DestField(c.pipe.p0));
    case 1 => JmpOneOp(c, env);
    case 2 =>
      if MiscField(c.pipe.p0) != 2 {
        var m := Arithmetic.Rol32(c.path.mData, RotatePosition(c));
        DispatchTransferOneOp(c.(path := c.path.(mData := m), dispatchConstant := AField(c.pipe.p0)), env,
                              c.mem.dmem[DispatchAddress(c.pipe.p0, env.mapL2, m)]);
      }
    case _ =>
      CycleRing(c);
      WriteDestOneOp(BytCycle(c), env, DestField(c.pipe.p0));
  }

  /** The ring operations of one cycle: of the source operand, of the instruction, of POPJ. */
  function StepOps(c: Cpu, env: Env): seq<SpcOp> {
    match IncNpc(c)
    case None => []
    case Some(c1) =>
      if c1.pipe.inhibit then []
      else match LatchOperands(Merged(c1), env)
        case None => []
        case Some(c2) =>
          match Dispatch(c2, env)
          case None => []
          case Some(c3) => OpBetween(Merged(c1), c2) + OpBetween(c2, c3) + OpBetween(c3, FinishPopj(c3, env))
  }

  lemma StepRing(c: Cpu, env: Env)
    requires Step(c, env).Some?
    ensures RingOf(Step(c, env).value) == ApplyAll(RingOf(c), StepOps(c, env))
  {
    hide LatchOperands, Dispatch, Return, MergeOa, TickMd, OpBetween;
    var c1 := IncNpc(c).value;
    MergedFrame(c1);
    TickRing(c1);
    if !c1.pipe.inhibit {
      var c2 := LatchOperands(Merged(c1), env).value;
      var c3 := Dispatch(c2, env).value;
      LatchOneOp(Merged(c1), env);
      DispatchOneOp(c2, env);
      if c3.pipe.popj { ReturnPops(c3, env); }
      OneOpCases(c3, FinishPopj(c3, env));
      var a, b, d := OpBetween(Merged(c1), c2), OpBetween(c2, c3), OpBetween(c3, FinishPopj(c3, env));
      ApplyAppend(RingOf(c), a + b, d);
      ApplyAppend(RingOf(c), a, b);
    }
  }

  lemma TickRing(c: Cpu)
    ensures RingOf(TickMd(c)) == RingOf(c) && TickMd(c).pipe == c.pipe
  {
  }

  function RunOps(c: Cpu, envs: seq<Env>): seq<SpcOp>
    decreases |envs|
  {
    if envs == [] then []
    else match Step(c, envs[0])
      case None => []
      case Some(c1) => StepOps(c, envs[0]) + RunOps(c1, envs[1..])
  }

  /** Over a whole run the ring undergoes exactly the operations of its cycles. */
  lemma {:induction false} RunRing(c: Cpu, envs: seq<Env>)
    requires Run(c, envs).Some?
    ensures RingOf(Run(c, envs).value) == ApplyAll(RingOf(c), RunOps(c, envs))
    decreases |envs|
  {
    hide Step, StepOps;
    if envs != [] {
      var c1 := Step(c, envs[0]).value;
      StepRing(c, envs[0]);
      RunRing(c1, envs[1..]);
      ApplyAppend(RingOf(c), StepOps(c, envs[0]), RunOps(c1, envs[1..]));
    }
  }
}
