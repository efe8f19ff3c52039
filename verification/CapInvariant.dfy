/** What every step of the lock protocol keeps, and what follows for every run. */
module CapInvariant {
  import opened CapMachine

  /** The frame holds the lock. */
  predicate Holding(f: Frame) {
    f.Call? && (f.pc.Access? || f.pc.Unlock?)
  }

  /** The frame has masked IRQs and not yet restored them. */
  predicate Masking(f: Frame) {
    f.Call? && (f.pc.Spin? || f.pc.Access? || f.pc.Unlock? || f.pc.Restore?)
  }

  predicate BeforeMask(f: Frame) {
    f.Call? && (f.pc.Start? || f.pc.Saved?)
  }

  /** A frame under another one has finished, is an interrupt handler, or was interrupted
      before it masked IRQs. */
  predicate Beneath(f: Frame, above: Frame) {
    f.Isr? || f.pc.Finished? || (BeforeMask(f) && !f.entry && above.Isr?)
  }

  predicate TopOk(masked: bool, f: Frame) {
    (BeforeMask(f) ==> masked == f.entry) && (Masking(f) ==> masked)
  }

  /** `prior` is what `entry` was; a call's access count is in range. */
  predicate FrameOk(s: State, f: Frame) {
    f.Call? ==>
      && AllowedOp(s.factory, f.op)
      && (Masking(f) || f.pc.Saved? ==> f.prior == f.entry && !RefusedEarly(s.factory, f.op))
      && (f.pc.Access? ==> f.pc.k < Accesses(f.op))
      && (f.op.Invoke? && f.ok && (f.pc.Restore? || f.pc.Finished?) ==> LeftByOne(s, f.op.target, f.copy))
  }

  /** `r` is the whole record that one CREATE left at `a`, or the factory's own. */
  predicate LeftByOne(s: State, a: Addr, r: Record) {
    Create(a, r) in s.g.done || (a == s.factory && r == At(s.g.start, a))
  }

  function Accesses(op: Op): nat {
    match op
    case Bootstrap => 1
    case Create(_, _) => FIELDS
    case _ => FIELDS + 2
  }

  predicate CoreOk(s: State, core: Core) {
    && (forall i :: 0 <= i < |core.frames| ==> FrameOk(s, core.frames[i]))
    && (forall i :: 0 <= i < |core.frames| - 1 ==> Beneath(core.frames[i], core.frames[i + 1]))
    && (core.frames != [] ==> TopOk(core.masked, Top(core)))
  }

  predicate IsHolder(s: State, c: int) {
    0 <= c < |s.cores| && s.cores[c].frames != [] && Holding(Top(s.cores[c]))
  }

  /** The lock is taken exactly when its owner's top frame holds it; nobody else does. */
  predicate OwnerOk(s: State) {
    && (s.g.lock <==> s.g.owner != -1)
    && (s.g.owner != -1 ==> IsHolder(s, s.g.owner))
    && (forall c :: 0 <= c < |s.cores| && IsHolder(s, c) ==> c == s.g.owner)
  }

  /** The first `n` fields agree. */
  predicate Agree(r: Record, n: nat, from: Record) {
    forall i :: 0 <= i < n && i < FIELDS ==> SameField(r, i, from)
  }

  predicate ClearedTo(r: Record, n: nat) {
    forall i :: 0 <= i < n && i < FIELDS ==> SameField(r, ClearOrder(i), CLEARED)
  }

  /** What the completed operations, one after the other, leave at `a`. */
  function Expected(g: Shared, a: Addr): Record {
    At(Replay(g.start, g.done), a)
  }

  predicate Settled(g: Shared, a: Addr) {
    At(g.mem, a) == Expected(g, a)
  }

  /** The record that the holder of the lock is part way through changing. */
  predicate Touching(f: Frame, a: Addr) {
    f.Call? &&
    match f.op
    case Create(x, _) => a == x
    case Destroy(x) => a == x && (if f.pc.Access? then f.pc.k > 2 else f.ok)
    case _ => false
  }

  /** How far the holder has got. */
  predicate Progress(g: Shared, f: Frame)
    requires f.Call?
  {
    match f.op
    case Bootstrap => true
    case Create(a, rec) => if f.pc.Access? then Agree(At(g.mem, a), f.pc.k, rec) else At(g.mem, a) == rec
    case Invoke(a) =>
      if f.pc.Access? then
        && (f.pc.k >= 1 ==> At(g.mem, a).magic == MAGIC)
        && (f.pc.k >= 2 ==> Live(At(g.mem, a)) && Agree(f.copy, f.pc.k - 2, At(g.mem, a)))
      else (f.ok <==> Live(At(g.mem, a))) && (f.ok ==> f.copy == At(g.mem, a))
    case Destroy(a) =>
      if f.pc.Access? then
        && (f.pc.k >= 1 ==> Expected(g, a).magic == MAGIC)
        && (f.pc.k >= 2 ==> Live(Expected(g, a)) && ClearedTo(At(g.mem, a), f.pc.k - 2))
      else (f.ok <==> Live(Expected(g, a))) && (f.ok ==> At(g.mem, a) == CLEARED)
  }

  ghost predicate MemFree(g: Shared) {
    forall a :: Settled(g, a)
  }

  ghost predicate MemHeld(g: Shared, f: Frame) {
    f.Call? && Progress(g, f) && forall a :: !Touching(f, a) ==> Settled(g, a)
  }

  ghost predicate MemOk(s: State)
    requires OwnerOk(s)
  {
    if s.g.owner == -1 then MemFree(s.g) else MemHeld(s.g, Top(s.cores[s.g.owner]))
  }

  ghost predicate HistoryOk(s: State) {
    DoneOk(s.factory, s.g.done) && forall a :: Live(At(s.g.start, a)) <==> a == s.factory
  }

  ghost predicate Inv(s: State) {
    && (forall c :: 0 <= c < |s.cores| ==> CoreOk(s, s.cores[c]))
    && OwnerOk(s)
    && MemOk(s)
    && HistoryOk(s)
  }

  lemma InitInv(s: State)
    requires Init(s)
    ensures Inv(s)
  {
  }

  // ----- The shared state under one step of a call -----

  lemma CopyAgrees(r: Record, k: nat, from: Record)
    requires k < FIELDS && Agree(r, k, from)
    ensures Agree(CopyField(r, k, from), k + 1, from)
    ensures k + 1 == FIELDS ==> CopyField(r, k, from) == from
  {
    var r' := CopyField(r, k, from);
    forall i | 0 <= i < k + 1 ensures SameField(r', i, from) {
      assert i < k ==> SameField(r, i, from);
    }
    if k + 1 == FIELDS {
      assert SameField(r', 0, from) && SameField(r', 1, from) && SameField(r', 2, from);
      assert SameField(r', 3, from) && SameField(r', 4, from) && SameField(r', 5, from);
    }
  }

  lemma ClearClears(r: Record, k: nat)
    requires k < FIELDS && ClearedTo(r, k)
    ensures ClearedTo(CopyField(r, ClearOrder(k), CLEARED), k + 1)
    ensures k + 1 == FIELDS ==> CopyField(r, ClearOrder(k), CLEARED) == CLEARED
  {
    var r' := CopyField(r, ClearOrder(k), CLEARED);
    forall i | 0 <= i < k + 1 ensures SameField(r', ClearOrder(i), CLEARED) {
      assert i < k ==> SameField(r, ClearOrder(i), CLEARED);
    }
    if k + 1 == FIELDS {
      assert SameField(r', ClearOrder(0), CLEARED) && SameField(r', ClearOrder(1), CLEARED);
      assert SameField(r', ClearOrder(2), CLEARED) && SameField(r', ClearOrder(3), CLEARED);
      assert SameField(r', ClearOrder(4), CLEARED) && SameField(r', ClearOrder(5), CLEARED);
    }
  }

  predicate Names(op: Op, a: Addr) {
    (op.Create? && op.slot == a) || (op.Destroy? && op.victim == a)
  }

  /** The shape of a field access: only the record that the operation names can change. */
  lemma AccessShape(g: Shared, f: Frame, k: nat)
    requires f.Call? && k < Accesses(f.op)
    ensures var (h, f') := AccessStep(g, f, k);
            && h == g.(mem := h.mem) && (forall a :: !Names(f.op, a) ==> At(h.mem, a) == At(g.mem, a))
            && f'.Call? && f'.op == f.op
            && (f'.pc.Unlock? || (f'.pc == Access(k + 1) && k + 1 < Accesses(f.op)))
  {
    hide CopyField, Live;
  }

  /** Only the record that the holder touches changes. */
  lemma AccessTouches(g: Shared, f: Frame, k: nat)
    requires f.Call? && f.pc == Access(k) && k < Accesses(f.op) && MemHeld(g, f)
    ensures var (h, f') := AccessStep(g, f, k);
            forall a :: !Touching(f', a) ==> Settled(h, a)
  {
    hide CopyField, SameField, Live, Progress;
    var (h, f') := AccessStep(g, f, k);
    forall a | !Touching(f', a) ensures Settled(h, a) {
      assert !Touching(f, a);
      assert Settled(g, a);
      assert At(h.mem, a) == At(g.mem, a);
    }
  }

  lemma AccessProgresses(g: Shared, f: Frame, k: nat)
    requires f.Call? && f.pc == Access(k) && k < Accesses(f.op) && MemHeld(g, f)
    ensures var (h, f') := AccessStep(g, f, k); Progress(h, f')
  {
    hide SameField, CopyField, ClearOrder, Agree, ClearedTo, Replay;
    NothingYet(f.copy, At(g.mem, if f.op.Invoke? then f.op.target else 0));
    match f.op
    case Bootstrap =>
    case Create(a, rec) => CopyAgrees(At(g.mem, a), k, rec);
    case Invoke(a) => if k >= 2 { CopyAgrees(f.copy, k - 2, At(g.mem, a)); }
    case Destroy(a) =>
      NothingCleared(At(g.mem, a));
      if k <= 2 { assert Settled(g, a); }
      if k >= 2 { ClearClears(At(g.mem, a), k - 2); }
  }

  lemma NothingYet(r: Record, from: Record)
    ensures Agree(r, 0, from)
  {
  }

  lemma NothingCleared(r: Record)
    ensures ClearedTo(r, 0)
  {
  }

  lemma AccessKeeps(g: Shared, f: Frame, k: nat)
    requires f.Call? && f.pc == Access(k) && k < Accesses(f.op) && MemHeld(g, f)
    ensures var (h, f') := AccessStep(g, f, k);
            && MemHeld(h, f') && Holding(f') && h == g.(mem := h.mem)
            && f'.op == f.op && f'.prior == f.prior && f'.entry == f.entry
            && (f'.pc.Access? ==> f'.pc.k == k + 1 && k + 1 < Accesses(f.op))
  {
    hide Progress, Settled;
    AccessTouches(g, f, k);
    AccessProgresses(g, f, k);
  }

  lemma ReleaseKeeps(g: Shared, f: Frame)
    requires f.Call? && f.pc.Unlock? && MemHeld(g, f) && (f.op.Create? ==> Live(f.op.record))
    ensures MemFree(Release(g, f))
  {
    var h := Release(g, f);
    assert h.done[..|g.done|] == g.done;
    forall a ensures Settled(h, a) {
      if !Touching(f, a) {
        assert Settled(g, a);
      }
    }
  }

  // ----- One step of the machine -----

  predicate Extends(s: State, s': State) {
    s'.factory == s.factory && s'.g.start == s.g.start && s.g.done <= s'.g.done
  }

  /** History only grows, so what was true of a frame stays true. */
  lemma FrameStaysOk(s: State, s': State, f: Frame)
    requires FrameOk(s, f) && Extends(s, s')
    ensures FrameOk(s', f)
  {
  }

  lemma CoreStaysOk(s: State, s': State, core: Core)
    requires CoreOk(s, core) && Extends(s, s')
    ensures CoreOk(s', core)
  {
    hide FrameOk, Beneath;
    forall i | 0 <= i < |core.frames| ensures FrameOk(s', core.frames[i]) {
      FrameStaysOk(s, s', core.frames[i]);
    }
  }

  lemma PushKeeps(s: State, core: Core, f: Frame, masked: bool)
    requires CoreOk(s, core) && FrameOk(s, f) && TopOk(masked, f)
    requires core.frames != [] ==> Beneath(Top(core), f)
    ensures CoreOk(s, Core(masked, core.frames + [f]))
  {
    hide FrameOk, Beneath, TopOk;
  }

  lemma PopKeeps(s: State, core: Core, masked: bool)
    requires CoreOk(s, core) && core.frames != []
    requires |core.frames| >= 2 ==> TopOk(masked, core.frames[|core.frames| - 2])
    ensures CoreOk(s, Core(masked, core.frames[..|core.frames| - 1]))
  {
    hide FrameOk, Beneath, TopOk;
  }

  /** Labels other than `Step` leave the shared state alone, and the lock's holder too. */
  lemma QuietKeepsCore(s: State, l: Label)
    requires Enabled(s, l) && !l.Step? && CoreOk(s, s.cores[l.core])
    ensures CoreOk(s, Apply(s, l).cores[l.core])
    ensures Apply(s, l).g == s.g
    ensures !IsHolder(s, l.core) && !IsHolder(Apply(s, l), l.core)
  {
    hide FrameOk;
    var core := s.cores[l.core];
    var n := |core.frames|;
    if n >= 2 {
      assert Beneath(core.frames[n - 2], core.frames[n - 1]);
    }
    match l
    case Enter(_, op) =>
      var f := Call(op, Start, core.masked, false, CLEARED, false);
      NewFrameOk(s, f);
      PushKeeps(s, core, f, core.masked);
    case Leave(_) => PopKeeps(s, core, core.masked);
    case Interrupt(_) =>
      NewFrameOk(s, Isr);
      PushKeeps(s, core, Isr, true);
    case Resume(_) => PopKeeps(s, core, false);
    case SetMask(_, _) =>
  }

  lemma NewFrameOk(s: State, f: Frame)
    requires f.Isr? || (f.pc.Start? && AllowedOp(s.factory, f.op))
    ensures FrameOk(s, f)
  {
  }

  lemma QuietKeeps(s: State, l: Label)
    requires Inv(s) && Enabled(s, l) && !l.Step?
    ensures Inv(Apply(s, l))
  {
    hide MemFree, MemHeld, CoreOk, DoneOk;
    var s' := Apply(s, l);
    QuietKeepsCore(s, l);
    forall c | 0 <= c < |s'.cores| ensures CoreOk(s', s'.cores[c]) && (IsHolder(s', c) <==> IsHolder(s, c)) {
      CoreStaysOk(s, s', s'.cores[c]);
    }
  }

  /** The stepping frame stays in order, and its core with it. */
  lemma StepKeepsCore(s: State, c: nat)
    requires Inv(s) && Enabled(s, Step(c))
    ensures CoreOk(Apply(s, Step(c)), Apply(s, Step(c)).cores[c])
    ensures Extends(s, Apply(s, Step(c)))
  {
    var s', core := Apply(s, Step(c)), s.cores[c];
    var f, f' := Top(core), Top(s'.cores[c]);
    assert CoreOk(s, core);
    StepKeepsFrame(s, c);
    hide FrameOk, TopOk, MemHeld, MemFree, CallStep, HistoryOk;
    CoreStaysOk(s, s', core);
    var n := |core.frames|;
    if n >= 2 {
      assert Beneath(core.frames[n - 2], core.frames[n - 1]);
    }
  }

  lemma StepKeepsFrame(s: State, c: nat)
    requires Inv(s) && Enabled(s, Step(c))
    ensures var s' := Apply(s, Step(c));
            && FrameOk(s', Top(s'.cores[c])) && TopOk(s'.cores[c].masked, Top(s'.cores[c]))
            && Top(s'.cores[c]).Call? && Extends(s, s')
  {
    hide Settled;
    var f := Top(s.cores[c]);
    assert CoreOk(s, s.cores[c]);
    assert FrameOk(s, f) && TopOk(s.cores[c].masked, f);
    if f.pc.Access? {
      assert IsHolder(s, c);
      AccessKeeps(s.g, f, f.pc.k);
    } else if f.pc.Unlock? {
      assert IsHolder(s, c);
      if f.op.Invoke? && f.ok {
        CopiedWhole(s, c);
      }
    }
  }

  /** A copy made under the lock is the very record that the latest CREATE left. */
  lemma CopiedWhole(s: State, c: nat)
    requires Inv(s) && IsHolder(s, c)
    requires var f := Top(s.cores[c]); f.op.Invoke? && f.pc.Unlock? && f.ok
    ensures var f := Top(s.cores[c]);
            f.copy == Expected(s.g, f.op.target) && Live(f.copy) && LeftByOne(s, f.op.target, f.copy)
  {
    hide Replay, Latest;
    var f := Top(s.cores[c]);
    assert MemHeld(s.g, f);
    assert Settled(s.g, f.op.target);
    LiveIffCreated(s.g.start, s.factory, s.g.done, f.op.target);
  }

  lemma StepKeepsShared(s: State, c: nat)
    requires Inv(s) && Enabled(s, Step(c))
    ensures OwnerOk(Apply(s, Step(c))) && MemOk(Apply(s, Step(c))) && HistoryOk(Apply(s, Step(c)))
  {
    hide Settled, Progress, Touching;
    var s' := Apply(s, Step(c));
    var f, f' := Top(s.cores[c]), Top(s'.cores[c]);
    assert CoreOk(s, s.cores[c]);
    assert FrameOk(s, f);
    forall d | 0 <= d < |s.cores| && d != c ensures IsHolder(s', d) <==> IsHolder(s, d) {}
    if f.pc.Access? {
      assert IsHolder(s, c);
      AccessKeeps(s.g, f, f.pc.k);
      assert IsHolder(s', c);
    } else if f.pc.Unlock? {
      assert IsHolder(s, c);
      ReleaseKeeps(s.g, f);
    } else if f.pc.Spin? && !s.g.lock {
      TakesLock(s.g, s'.g, f');
    }
  }

  lemma TakesLock(g: Shared, h: Shared, f: Frame)
    requires MemFree(g) && h.mem == g.mem && h.start == g.start && h.done == g.done && f.Call? && f.pc == Access(0)
    ensures MemHeld(h, f)
  {
    forall a ensures Settled(h, a) {
      assert Settled(g, a);
    }
    if f.op.Invoke? {
      NothingYet(f.copy, At(h.mem, f.op.target));
    }
  }

  lemma StepKeeps(s: State, l: Label)
    requires Inv(s) && Enabled(s, l)
    ensures Inv(Apply(s, l))
  {
    hide MemOk, CoreOk, HistoryOk, OwnerOk;
    if l.Step? {
      StepKeepsCore(s, l.core);
      StepKeepsShared(s, l.core);
      forall c | 0 <= c < |s.cores| && c != l.core ensures CoreOk(Apply(s, l), s.cores[c]) {
        CoreStaysOk(s, Apply(s, l), s.cores[c]);
      }
    } else {
      QuietKeeps(s, l);
    }
  }

  /** The invariant holds after every run. */
  lemma {:induction false} RunKeeps(s: State, ls: seq<Label>)
    requires Inv(s) && IsRun(s, ls)
    ensures Inv(After(s, ls))
    decreases |ls|
  {
    hide Inv, Apply, Enabled;
    if ls != [] {
      StepKeeps(s, ls[0]);
      RunKeeps(Apply(s, ls[0]), ls[1..]);
    }
  }

  // ----- What holds in every state that a run reaches -----

  /** At most one frame, of one core, is inside the critical section. */
  lemma MutualExclusion(s: State, c: nat, i: nat, d: nat, j: nat)
    requires Inv(s)
    requires c < |s.cores| && i < |s.cores[c].frames| && Holding(s.cores[c].frames[i])
    requires d < |s.cores| && j < |s.cores[d].frames| && Holding(s.cores[d].frames[j])
    ensures c == d && i == j
  {
    hide MemOk, HistoryOk;
    HolderIsOnTop(s, c, i);
    HolderIsOnTop(s, d, j);
    assert IsHolder(s, c) && IsHolder(s, d);
  }

  /** The frame that holds the lock has nothing above it, runs with IRQs masked, so that no
      interrupt can arrive on its core, and can make its next step. */
  lemma HolderIsOnTop(s: State, c: nat, i: nat)
    requires Inv(s) && c < |s.cores| && i < |s.cores[c].frames| && Holding(s.cores[c].frames[i])
    ensures i == |s.cores[c].frames| - 1 && s.cores[c].masked
    ensures !Enabled(s, Interrupt(c)) && Enabled(s, Step(c))
  {
    hide MemOk, HistoryOk, FrameOk;
    var core := s.cores[c];
    assert CoreOk(s, core);
    assert i < |core.frames| - 1 ==> Beneath(core.frames[i], core.frames[i + 1]);
  }

  /** How many steps the holder still needs before the lock is free. */
  function StepsLeft(f: Frame): nat {
    if !Holding(f) then 0
    else if f.pc.Unlock? then 1
    else if f.pc.k < Accesses(f.op) then 1 + Accesses(f.op) - f.pc.k
    else 1
  }

  /** The lock is free after at most nine steps of its holder: every one of them brings the
      release closer, and nothing that happens elsewhere delays it. */
  lemma LockIsReleased(s: State, l: Label)
    requires Inv(s) && s.g.owner != -1 && Enabled(s, l)
    ensures StepsLeft(Top(s.cores[s.g.owner])) <= 9
    ensures l == Step(s.g.owner) ==>
              var s' := Apply(s, l);
              StepsLeft(Top(s'.cores[s.g.owner])) < StepsLeft(Top(s.cores[s.g.owner])) &&
              (s'.g.owner == -1 <==> StepsLeft(Top(s'.cores[s.g.owner])) == 0)
    ensures l != Step(s.g.owner) ==> Apply(s, l).cores[s.g.owner] == s.cores[s.g.owner]
  {
    hide MemFree, HistoryOk;
    var c := s.g.owner;
    var f := Top(s.cores[c]);
    assert CoreOk(s, s.cores[c]);
    assert FrameOk(s, f);
    HolderIsOnTop(s, c, |s.cores[c].frames| - 1);
    if f.pc.Access? {
      AccessKeeps(s.g, f, f.pc.k);
    }
  }

  /** When `cap_unlock` is through, the IRQ mask is what it was at the call. */
  lemma MaskIsRestored(s: State, c: nat)
    requires Inv(s) && Enabled(s, Step(c))
    requires Top(Apply(s, Step(c)).cores[c]).pc.Finished?
    ensures Apply(s, Step(c)).cores[c].masked == Top(s.cores[c]).entry
  {
    hide MemOk, HistoryOk;
    var f := Top(s.cores[c]);
    assert CoreOk(s, s.cores[c]);
    assert FrameOk(s, f) && TopOk(s.cores[c].masked, f);
    if f.pc.Access? {
      assert IsHolder(s, c);
    }
  }

  /** Each call behaves as if it ran alone, at the moment it releases the lock, after the
      calls that released it before: the memory is what the calls leave one by one, and the
      caller sees the outcome, and the record, that it would have seen then. */
  lemma EachCallRunsAlone(s: State, c: nat)
    requires Inv(s) && Enabled(s, Step(c)) && Top(s.cores[c]).pc.Unlock?
    ensures var f, s' := Top(s.cores[c]), Apply(s, Step(c));
            && s'.g.done == s.g.done + [f.op]
            && (forall a :: At(s'.g.mem, a) == At(Alone(Replay(s.g.start, s.g.done), f.op), a))
            && (f.op.Invoke? ==> (f.ok <==> Live(Expected(s.g, f.op.target))))
            && (f.op.Invoke? && f.ok ==> f.copy == Expected(s.g, f.op.target))
            && (f.op.Destroy? ==> (f.ok <==> Live(Expected(s.g, f.op.victim))))
  {
    hide HistoryOk;
    var f, s' := Top(s.cores[c]), Apply(s, Step(c));
    assert CoreOk(s, s.cores[c]);
    assert IsHolder(s, c) && FrameOk(s, f);
    ReleaseKeeps(s.g, f);
    assert (s.g.done + [f.op])[..|s.g.done|] == s.g.done;
    forall a ensures At(s'.g.mem, a) == At(Alone(Replay(s.g.start, s.g.done), f.op), a) {
      assert Settled(s'.g, a);
    }
    if f.op.Invoke? {
      assert Settled(s.g, f.op.target);
    }
  }

  // ----- Destroying what is not live -----

  /** Core `c` holds the lock for a DESTROY of a handle that was dead when it took it. */
  ghost predicate Refusing(s: State, c: nat, a: Addr) {
    Inv(s) && s.g.owner == c && Top(s.cores[c]).op == Destroy(a) && !Live(Expected(s.g, a))
  }

  /** Core `c` has the lock until the last of the steps. */
  predicate HeldThrough(s: State, c: nat, ls: seq<Label>)
    requires IsRun(s, ls)
    decreases |ls|
  {
    ls == [] || (s.g.owner == c && HeldThrough(Apply(s, ls[0]), c, ls[1..]))
  }

  lemma RefusalStep(s: State, c: nat, a: Addr, l: Label)
    requires Refusing(s, c, a) && Enabled(s, l)
    ensures Apply(s, l).g.mem == s.g.mem
    ensures Refusing(Apply(s, l), c, a) || (Apply(s, l).g.owner == -1 && IsRefused(Apply(s, l), c, a))
  {
    hide CoreOk, HistoryOk, MemFree, Replay;
    StepKeeps(s, l);
    var f := Top(s.cores[c]);
    assert MemHeld(s.g, f);
    if l == Step(c) {
      assert !Touching(f, a);
      assert Settled(s.g, a);
    } else if l.Step? {
      assert !IsHolder(s, l.core);
      OnlyHolderWrites(s, l.core);
    } else {
      QuietKeepsShared(s, l);
    }
  }

  /** The DESTROY has released the lock without success. */
  predicate IsRefused(s: State, c: nat, a: Addr) {
    && c < |s.cores| && s.cores[c].frames != []
    && var f := Top(s.cores[c]);
    f.Call? && f.op == Destroy(a) && f.pc.Restore? && !f.ok
  }

  lemma OnlyHolderWrites(s: State, d: nat)
    requires Enabled(s, Step(d)) && !IsHolder(s, d) && s.g.lock
    ensures Apply(s, Step(d)).g == s.g
  {
  }

  lemma QuietKeepsShared(s: State, l: Label)
    requires Enabled(s, l) && !l.Step?
    ensures Apply(s, l).g == s.g
  {
  }

  lemma {:induction false} RefusalRun(s: State, c: nat, a: Addr, ls: seq<Label>)
    requires Refusing(s, c, a) && IsRun(s, ls) && HeldThrough(s, c, ls)
    ensures After(s, ls).g.mem == s.g.mem
    ensures Refusing(After(s, ls), c, a) || IsRefused(After(s, ls), c, a)
    decreases |ls|
  {
    hide Inv, Apply, Enabled, Expected, IsRefused;
    if ls != [] {
      RefusalStep(s, c, a, ls[0]);
      if Refusing(Apply(s, ls[0]), c, a) {
        RefusalRun(Apply(s, ls[0]), c, a, ls[1..]);
      } else {
        assert ls[1..] == [];
      }
    }
  }

  /** A DESTROY whose handle is dead when it takes the lock: whatever all cores do while it
      has the lock, memory stays as it was in each of their steps, and when the lock is free
      again the call has failed. */
  lemma DestroyOfDead(s: State, c: nat, a: Addr, ls: seq<Label>)
    requires Inv(s) && Enabled(s, Step(c)) && Top(s.cores[c]).op == Destroy(a) && Top(s.cores[c]).pc.Spin?
    requires !s.g.lock && !Live(At(s.g.mem, a))
    requires IsRun(Apply(s, Step(c)), ls) && HeldThrough(Apply(s, Step(c)), c, ls)
    ensures var e := After(Apply(s, Step(c)), ls);
            e.g.mem == s.g.mem && (e.g.owner != c ==> IsRefused(e, c, a))
  {
    hide IsRun, HeldThrough, After, CoreOk, HistoryOk;
    StepKeeps(s, Step(c));
    assert Settled(s.g, a);
    RefusalRun(Apply(s, Step(c)), c, a, ls);
  }

  /** While the lock is free, the live handles are the factory's and those whose latest
      completed operation is a CREATE. */
  lemma LiveHandles(s: State, a: Addr)
    requires Inv(s) && !s.g.lock
    ensures Live(At(s.g.mem, a)) <==>
            if Latest(s.g.done, a) == [] then a == s.factory else Latest(s.g.done, a)[0].Create?
  {
    hide Replay, Latest;
    assert Settled(s.g, a);
    LiveIffCreated(s.g.start, s.factory, s.g.done, a);
  }

  /** The factory's record never changes, whoever holds the lock. */
  lemma FactoryStaysLive(s: State)
    requires Inv(s)
    ensures At(s.g.mem, s.factory) == At(s.g.start, s.factory) && Live(At(s.g.mem, s.factory))
  {
    hide Replay;
    FactoryUntouched(s.g.start, s.factory, s.g.done);
    if s.g.owner != -1 {
      var core := s.cores[s.g.owner];
      assert CoreOk(s, core);
      assert FrameOk(s, Top(core));
      assert !Touching(Top(core), s.factory);
    }
    assert Settled(s.g, s.factory);
  }

  /** Every record that an invocation dispatches on was left whole by one CREATE (or is the
      factory's), in every state that any run reaches, however the cores interleave. */
  lemma DispatchedRecordsAreWhole(s: State, ls: seq<Label>, c: nat, i: nat)
    requires Init(s) && IsRun(s, ls)
    requires var e := After(s, ls); c < |e.cores| && i < |e.cores[c].frames|
    requires var f := After(s, ls).cores[c].frames[i]; f.Call? && f.op.Invoke? && f.ok && f.pc.Finished?
    ensures var e := After(s, ls);
            var f := e.cores[c].frames[i];
            LeftByOne(e, f.op.target, f.copy)
  {
    hide After, IsRun, Apply, MemOk, HistoryOk;
    InitInv(s);
    RunKeeps(s, ls);
    var e := After(s, ls);
    assert CoreOk(e, e.cores[c]);
    assert FrameOk(e, e.cores[c].frames[i]);
  }
}
