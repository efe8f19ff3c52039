/** What the sequential `kernel_invoke` says of one call is what the calls of all cores do: each
    call has a moment between its beginning and its end at which it looks its target up, or
    has its effect, on the memory that the calls with earlier moments left. */
module CapLink {
  import opened Wrappers
  import opened Bytes
  import opened CapMachine
  import opened CapInvariant
  import opened CapKernel

  /** The memory that the calls which have had their moment leave, one after the other. */
  function Now(s: State): map<Addr, Record> {
    Replay(s.g.start, s.g.done)
  }

  /** The call in frame `i` of core `c` is under way until the last of the steps, and then
      finished. */
  predicate Underway(s: State, c: nat, i: nat, ls: seq<Label>)
    requires IsRun(s, ls)
    decreases |ls|
  {
    && c < |s.cores| && i < |s.cores[c].frames| && s.cores[c].frames[i].Call?
    && if ls == [] then s.cores[c].frames[i].pc.Finished?
       else !s.cores[c].frames[i].pc.Finished? && Underway(Apply(s, ls[0]), c, i, ls[1..])
  }

  /** The frame of that call, in the end. */
  function EndOf(s: State, c: nat, i: nat, ls: seq<Label>): Frame
    requires IsRun(s, ls) && Underway(s, c, i, ls)
    decreases |ls|
  {
    if ls == [] then s.cores[c].frames[i] else EndOf(Apply(s, ls[0]), c, i, ls[1..])
  }

  /** What the caller of an operation on this memory sees. */
  predicate Outcome(mem: map<Addr, Record>, f: Frame)
    requires f.Call?
  {
    && (f.op.Invoke? ==> (f.ok <==> Live(At(mem, f.op.target))) && (f.ok ==> f.copy == At(mem, f.op.target)))
    && (f.op.Destroy? ==> (f.ok <==> Live(At(mem, f.op.victim))))
  }

  /** At step `k` the call with the end `f` has its moment. */
  predicate IsMoment(s: State, c: nat, ls: seq<Label>, k: nat, f: Frame) {
    && k < |ls| && ls[k] == Step(c) && IsRun(s, ls[..k]) && f.Call?
    && var m := After(s, ls[..k]);
    && Enabled(m, ls[k]) && Now(Apply(m, ls[k])) == Alone(Now(m), f.op) && Outcome(Now(m), f)
  }

  // ----- A frame that is not finished stays where it is -----

  lemma FrameStep(s: State, c: nat, i: nat, l: Label)
    requires Enabled(s, l) && c < |s.cores| && i < |s.cores[c].frames|
    requires s.cores[c].frames[i].Call? && !s.cores[c].frames[i].pc.Finished?
    ensures i < |Apply(s, l).cores[c].frames|
    ensures Apply(s, l).cores[c].frames[i] ==
            if l == Step(c) && i == |s.cores[c].frames| - 1
            then CallStep(s, c, s.cores[c].masked, s.cores[c].frames[i]).2 else s.cores[c].frames[i]
  {
    hide CallStep;
  }

  /** The call's own steps before it gives the lock back. */
  lemma OwnStep(s: State, c: nat)
    requires Inv(s) && Enabled(s, Step(c)) && !Top(s.cores[c]).pc.Unlock? && !Top(s.cores[c]).pc.Restore?
    ensures var f := Top(s.cores[c]);
            var f' := CallStep(s, c, s.cores[c].masked, f).2;
            && f'.Call? && f'.op == f.op && !f'.pc.Restore?
            && (f'.pc.Finished? <==> f.pc.Start? && RefusedEarly(s.factory, f.op))
            && (f'.pc.Finished? ==> !f'.ok)
            && (!f.pc.Start? ==> !RefusedEarly(s.factory, f.op))
  {
    hide AccessStep, MemOk, HistoryOk, OwnerOk;
    var f := Top(s.cores[c]);
    assert CoreOk(s, s.cores[c]);
    assert FrameOk(s, f);
    if f.pc.Access? {
      AccessShape(s.g, f, f.pc.k);
    }
  }

  /** After that, what the caller sees does not change. */
  lemma {:induction false} SameEnd(s: State, c: nat, i: nat, ls: seq<Label>)
    requires IsRun(s, ls) && Underway(s, c, i, ls)
    requires s.cores[c].frames[i].pc.Restore? || s.cores[c].frames[i].pc.Finished?
    ensures var f, e := s.cores[c].frames[i], EndOf(s, c, i, ls);
            e.Call? && e.op == f.op && e.ok == f.ok && e.copy == f.copy
    decreases |ls|
  {
    hide Apply, Enabled;
    if ls != [] {
      FrameStep(s, c, i, ls[0]);
      SameEnd(Apply(s, ls[0]), c, i, ls[1..]);
    }
  }

  lemma FactoryIsKept(s: State, l: Label)
    requires Enabled(s, l)
    ensures Apply(s, l).factory == s.factory
  {
  }

  lemma LaterMoment(s: State, c: nat, ls: seq<Label>, k: nat, f: Frame)
    requires IsRun(s, ls) && ls != [] && IsMoment(Apply(s, ls[0]), c, ls[1..], k, f)
    ensures IsMoment(s, c, ls, k + 1, f)
  {
    hide Apply, Enabled, Outcome, Now;
    assert ls[..k + 1][1..] == ls[1..][..k] && ls[..k + 1][0] == ls[0];
  }

  lemma ReplayMore(mem: map<Addr, Record>, ops: seq<Op>, op: Op)
    ensures Replay(mem, ops + [op]) == Alone(Replay(mem, ops), op)
  {
    assert (ops + [op])[..|ops|] == ops;
  }

  lemma FirstMoment(s: State, c: nat, ls: seq<Label>, e: Frame)
    requires Inv(s) && IsRun(s, ls) && ls != [] && ls[0] == Step(c)
    requires Top(s.cores[c]).pc.Unlock? && e.Call?
    requires e.op == Top(s.cores[c]).op && e.ok == Top(s.cores[c]).ok && e.copy == Top(s.cores[c]).copy
    ensures IsMoment(s, c, ls, 0, e)
  {
    hide Inv, Replay, Alone;
    EachCallRunsAlone(s, c);
    ReplayMore(s.g.start, s.g.done, e.op);
    StartIsKept(s, Step(c));
    assert ls[..0] == [];
  }

  lemma StartIsKept(s: State, l: Label)
    requires Enabled(s, l)
    ensures Apply(s, l).g.start == s.g.start
  {
  }

  /** Every call, in every run of all cores from its beginning to its end: it is refused before
      it takes the lock, or there is a step in between at which it has its moment. */
  lemma {:induction false} CallHasItsMoment(s: State, c: nat, i: nat, ls: seq<Label>) returns (k: nat)
    requires Inv(s) && IsRun(s, ls) && Underway(s, c, i, ls)
    requires !s.cores[c].frames[i].pc.Restore? && !s.cores[c].frames[i].pc.Finished?
    ensures var f, e := s.cores[c].frames[i], EndOf(s, c, i, ls);
            && e.Call? && e.op == f.op
            && if RefusedEarly(s.factory, f.op) then !e.ok else IsMoment(s, c, ls, k, e)
    decreases |ls|
  {
    hide Inv, Apply, Enabled, CallStep, IsMoment, RefusedEarly;
    var f, l, s' := s.cores[c].frames[i], ls[0], Apply(s, ls[0]);
    StepKeeps(s, l);
    FrameStep(s, c, i, l);
    FactoryIsKept(s, l);
    if l == Step(c) && i == |s.cores[c].frames| - 1 {
      if f.pc.Unlock? {
        Releases(s, c);
        SameEnd(s', c, i, ls[1..]);
        FirstMoment(s, c, ls, EndOf(s', c, i, ls[1..]));
        k := 0;
        return;
      }
      OwnStep(s, c);
      if s'.cores[c].frames[i].pc.Finished? {
        SameEnd(s', c, i, ls[1..]);
        k := 0;
        return;
      }
    }
    k := CallHasItsMoment(s', c, i, ls[1..]);
    if !RefusedEarly(s.factory, f.op) {
      LaterMoment(s, c, ls, k, EndOf(s', c, i, ls[1..]));
    }
    k := k + 1;
  }

  lemma Releases(s: State, c: nat)
    requires Inv(s) && Enabled(s, Step(c)) && Top(s.cores[c]).pc.Unlock?
    ensures var f := Top(s.cores[c]);
            CallStep(s, c, s.cores[c].masked, f).2 == f.(pc := Restore) && !RefusedEarly(s.factory, f.op)
  {
    hide MemOk, HistoryOk, OwnerOk;
    assert CoreOk(s, s.cores[c]);
    assert FrameOk(s, Top(s.cores[c]));
  }

  // ----- What that is for kernel_invoke -----

  /** A call's lookup: when it is done, the call is dispatched on what the sequential
      `kernel_invoke` is dispatched on at a moment in between. */
  lemma LookupIsInvokes(s: State, c: nat, i: nat, ls: seq<Label>, tables: Tables, id: nat, msg: seq<byte>)
    returns (k: nat)
    requires Inv(s) && IsRun(s, ls) && Underway(s, c, i, ls)
    requires s.cores[c].frames[i].pc.Start? && s.cores[c].frames[i].op.Invoke?
    ensures k < |ls| && IsRun(s, ls[..k])
    ensures var e := EndOf(s, c, i, ls);
            && e.Call? && e.op == s.cores[c].frames[i].op
            && DispatchOf(Now(After(s, ls[..k])), tables, e.op.target, id, msg) ==
               if e.ok then DispatchOn(e.copy, tables, id, msg) else None
  {
    hide Inv, Underway, EndOf, Now, DispatchOn;
    k := CallHasItsMoment(s, c, i, ls);
  }

  /** A factory request: at a moment in between, memory becomes what the sequential
      `kernel_invoke` makes of it by the same request; or it is one that has no effect on any
      memory. */
  lemma EffectIsInvokes(s: State, c: nat, i: nat, ls: seq<Label>, id: nat, msg: seq<byte>) returns (k: nat)
    requires Inv(s) && IsRun(s, ls) && Underway(s, c, i, ls)
    requires (id == METHOD_CREATE || id == METHOD_DESTROY) && |msg| >= HandlerReads(id)
    requires s.cores[c].frames[i].pc.Start? && s.cores[c].frames[i].op == RequestOp(id, msg)
    ensures (forall mem :: FactoryEffect(s.factory, mem, id, msg) == mem) ||
            (&& k < |ls| && IsRun(s, ls[..k])
             && var m := After(s, ls[..k]);
             Enabled(m, ls[k]) && Now(Apply(m, ls[k])) == FactoryEffect(s.factory, Now(m), id, msg))
  {
    hide Inv, Underway, EndOf, Now, RequestOp, Alone;
    k := CallHasItsMoment(s, c, i, ls);
  }

  /** And whenever the lock is free, memory is what the calls made of it at their moments. */
  lemma MemoryIsNow(s: State, a: Addr)
    requires Inv(s) && !s.g.lock
    ensures At(s.g.mem, a) == At(Now(s), a)
  {
    hide CoreOk, HistoryOk;
    assert Settled(s.g, a);
  }
}
