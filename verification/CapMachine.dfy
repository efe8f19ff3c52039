/** The capability kernel's lock protocol, as the steps of any number of cores.

    Every core has a stack of frames: calls into the kernel, and interrupt handlers. A
    call takes the lock the way `cap_lock` does, one instruction at a time: read the IRQ
    mask, mask IRQs, test-and-set; it then touches the fields of a record one at a time,
    releases the lock and restores the mask. An interrupt can arrive at every step at
    which IRQs are not masked, and its handler can call into the kernel again. */
module CapMachine {
  import Capnp

  type Addr = nat

  const MAGIC: nat := 0xCAB1_E000_CAB1_E000

  datatype Record = Record(magic: nat, valid: nat, handler: nat, data: nat, table: nat, index: nat)

  predicate Live(r: Record) {
    r.magic == MAGIC && r.valid != 0
  }

  /** What DESTROY leaves behind. */
  const CLEARED := Record(0, 0, 0, 0, 0, Capnp.IDX_NONE)
  const FIELDS: nat := 6

  /** `r` with its `i`-th field, in declaration order, taken from `from`. */
  function CopyField(r: Record, i: nat, from: Record): Record {
    match i
    case 0 => r.(magic := from.magic)
    case 1 => r.(valid := from.valid)
    case 2 => r.(handler := from.handler)
    case 3 => r.(data := from.data)
    case 4 => r.(table := from.table)
    case _ => r.(index := from.index)
  }

  predicate SameField(r: Record, i: nat, s: Record) {
    match i
    case 0 => r.magic == s.magic
    case 1 => r.valid == s.valid
    case 2 => r.handler == s.handler
    case 3 => r.data == s.data
    case 4 => r.table == s.table
    case _ => r.index == s.index
  }

  /** The order in which DESTROY clears the fields: `valid` before `magic`. */
  function ClearOrder(i: nat): nat {
    match i
    case 0 => 1
    case 1 => 0
    case _ => i
  }

  /** What a call does while it holds the lock. */
  datatype Op =
    | Invoke(target: Addr)                // check the record, copy it field by field
    | Create(slot: Addr, record: Record)  // write the record field by field
    | Destroy(victim: Addr)               // check the record, clear it field by field
    | Bootstrap                           // nothing: a second bootstrap in a shared image

  datatype Pc =
    | Start          // about to read the IRQ mask
    | Saved          // the mask is in `prior`, IRQs are not yet masked
    | Spin           // testing and setting the lock
    | Access(k: nat) // holding the lock, `k` field accesses made
    | Unlock         // about to release the lock
    | Restore        // lock released, about to restore the mask
    | Finished       // past `cap_unlock`: validation, the handler, nested calls

  /** `entry` is the IRQ mask at the call, kept to state what `prior` must restore. */
  datatype Frame =
    | Isr
    | Call(op: Op, pc: Pc, entry: bool, prior: bool, copy: Record, ok: bool)

  datatype Core = Core(masked: bool, frames: seq<Frame>)

  /** The shared state, and the history that the claims are about: who holds the lock, the
      memory at the start, and the operations in the order in which they released the lock. */
  datatype Shared = Shared(lock: bool, mem: map<Addr, Record>, owner: int, start: map<Addr, Record>, done: seq<Op>)

  datatype State = State(g: Shared, factory: Addr, cores: seq<Core>)

  function At(mem: map<Addr, Record>, a: Addr): Record {
    if a in mem then mem[a] else CLEARED
  }

  // ----- Steps of a call -----

  /** One field access; `g` is the state before it. */
  function AccessStep(g: Shared, f: Frame, k: nat): (r: (Shared, Frame))
    requires f.Call?
  {
    match f.op
    case Bootstrap => (g, f.(pc := Unlock, ok := true))
    case Create(a, rec) =>
      (g.(mem := g.mem[a := CopyField(At(g.mem, a), k, rec)]),
       if k + 1 < FIELDS then f.(pc := Access(k + 1)) else f.(pc := Unlock, ok := true))
    case Invoke(a) =>
      var r := At(g.mem, a);
      if k == 0 then (g, if r.magic != MAGIC then f.(pc := Unlock, ok := false) else f.(pc := Access(1)))
      else if k == 1 then (g, if r.valid == 0 then f.(pc := Unlock, ok := false) else f.(pc := Access(2)))
      else
        var h := f.(copy := CopyField(f.copy, k - 2, r));
        (g, if k - 1 < FIELDS then h.(pc := Access(k + 1)) else h.(pc := Unlock, ok := true))
    case Destroy(a) =>
      var r := At(g.mem, a);
      if k == 0 then (g, if r.magic != MAGIC then f.(pc := Unlock, ok := false) else f.(pc := Access(1)))
      else if k == 1 then (g, if r.valid == 0 then f.(pc := Unlock, ok := false) else f.(pc := Access(2)))
      else
        (g.(mem := g.mem[a := CopyField(r, ClearOrder(k - 2), CLEARED)]),
         if k - 1 < FIELDS then f.(pc := Access(k + 1)) else f.(pc := Unlock, ok := true))
  }

  function Release(g: Shared, f: Frame): Shared
    requires f.Call?
  {
    g.(lock := false, owner := -1, done := g.done + [f.op])
  }

  /** DESTROY refuses the factory's own handle, and CREATE a null slot, before locking. */
  predicate RefusedEarly(factory: Addr, op: Op) {
    match op
    case Destroy(a) => a == factory
    case Create(a, _) => a == 0
    case _ => false
  }

  /** One step of the call on top of core `c`. */
  function CallStep(s: State, c: nat, masked: bool, f: Frame): (r: (Shared, bool, Frame))
    requires f.Call? && !f.pc.Finished?
  {
    var g := s.g;
    match f.pc
    case Start =>
      if RefusedEarly(s.factory, f.op) then (g, masked, f.(pc := Finished, ok := false))
      else (g, masked, f.(pc := Saved, prior := masked))
    case Saved => (g, true, f.(pc := Spin))
    case Spin =>
      if g.lock then (g, masked, f) else (g.(lock := true, owner := c), masked, f.(pc := Access(0)))
    case Access(k) => var (h, f') := AccessStep(g, f, k); (h, masked, f')
    case Unlock => (Release(g, f), masked, f.(pc := Restore))
    case Restore => (g, if f.prior then masked else false, f.(pc := Finished))
  }

  // ----- Steps of the machine -----

  datatype Label =
    | Step(core: nat)              // the call on top of the core makes one step
    | Enter(core: nat, op: Op)     // code outside the lock calls into the kernel
    | Leave(core: nat)             // a finished call returns
    | Interrupt(core: nat)         // an interrupt arrives; the hardware masks IRQs
    | Resume(core: nat)            // its handler returns; the hardware unmasks them
    | SetMask(core: nat, b: bool)  // code outside the kernel changes its IRQ mask

  /** The core runs code that is not inside `cap_lock .. cap_unlock`. */
  predicate Outside(core: Core) {
    core.frames == [] || Top(core).Isr? || Top(core).pc.Finished?
  }

  function Top(core: Core): Frame
    requires core.frames != []
  {
    core.frames[|core.frames| - 1]
  }

  function NewRecord(handler: nat, data: nat, table: nat, index: nat): Record {
    Record(MAGIC, 1, handler, data, table, index)
  }

  /** CREATE writes MAGIC and a valid bit, and no CREATE names the factory's own record. */
  predicate AllowedOp(factory: Addr, op: Op) {
    op.Create? ==> op.slot != factory && op.record.magic == MAGIC && op.record.valid == 1
  }

  predicate Enabled(s: State, l: Label) {
    && l.core < |s.cores|
    && var core := s.cores[l.core];
    match l
    case Step(_) => core.frames != [] && Top(core).Call? && !Top(core).pc.Finished?
    case Enter(_, op) => Outside(core) && AllowedOp(s.factory, op)
    case Leave(_) => core.frames != [] && Top(core).Call? && Top(core).pc.Finished?
    case Interrupt(_) => !core.masked
    case Resume(_) => core.frames != [] && Top(core).Isr?
    case SetMask(_, _) => Outside(core)
  }

  function Push(core: Core, f: Frame): Core {
    core.(frames := core.frames + [f])
  }

  function Pop(core: Core): Core
    requires core.frames != []
  {
    core.(frames := core.frames[..|core.frames| - 1])
  }

  function Apply(s: State, l: Label): (r: State)
    requires Enabled(s, l)
    ensures |r.cores| == |s.cores| && r.factory == s.factory
    ensures forall c :: 0 <= c < |s.cores| && c != l.core ==> r.cores[c] == s.cores[c]
  {
    var core := s.cores[l.core];
    match l
    case Step(c) =>
      var (g, masked, f) := CallStep(s, c, core.masked, Top(core));
      s.(g := g, cores := s.cores[c := Core(masked, core.frames[|core.frames| - 1 := f])])
    case Enter(c, op) =>
      s.(cores := s.cores[c := Push(core, Call(op, Start, core.masked, false, CLEARED, false))])
    case Leave(c) => s.(cores := s.cores[c := Pop(core)])
    case Interrupt(c) => s.(cores := s.cores[c := Push(core, Isr).(masked := true)])
    case Resume(c) => s.(cores := s.cores[c := Pop(core).(masked := false)])
    case SetMask(c, b) => s.(cores := s.cores[c := core.(masked := b)])
  }

  /** A run: labels, each enabled where it is applied. */
  predicate IsRun(s: State, ls: seq<Label>)
    decreases |ls|
  {
    ls == [] || (Enabled(s, ls[0]) && IsRun(Apply(s, ls[0]), ls[1..]))
  }

  function After(s: State, ls: seq<Label>): State
    requires IsRun(s, ls)
    decreases |ls|
  {
    if ls == [] then s else After(Apply(s, ls[0]), ls[1..])
  }

  /** Bootstrapped, no call in flight: the factory's record is live and no other is. */
  ghost predicate Init(s: State) {
    && !s.g.lock && s.g.owner == -1 && s.g.mem == s.g.start && s.g.done == []
    && s.factory != 0 && (forall a :: Live(At(s.g.start, a)) <==> a == s.factory)
    && (forall c :: 0 <= c < |s.cores| ==> s.cores[c].frames == [])
  }

  // ----- The operations one at a time -----

  /** What an operation does to memory when nothing interferes. */
  function Alone(mem: map<Addr, Record>, op: Op): map<Addr, Record> {
    match op
    case Create(a, rec) => mem[a := rec]
    case Destroy(a) => if Live(At(mem, a)) then mem[a := CLEARED] else mem
    case _ => mem
  }

  function Replay(mem: map<Addr, Record>, ops: seq<Op>): map<Addr, Record> {
    if ops == [] then mem else Alone(Replay(mem, ops[..|ops| - 1]), ops[|ops| - 1])
  }

  /** The latest of `ops` that creates or destroys `a`, if any. */
  function Latest(ops: seq<Op>, a: Addr): (r: seq<Op>)
    ensures |r| <= 1
  {
    if ops == [] then []
    else
      var op := ops[|ops| - 1];
      if (op.Create? && op.slot == a) || (op.Destroy? && op.victim == a) then [op]
      else Latest(ops[..|ops| - 1], a)
  }

  predicate DoneOk(factory: Addr, ops: seq<Op>) {
    forall i :: 0 <= i < |ops| ==> AllowedOp(factory, ops[i]) && !RefusedEarly(factory, ops[i])
  }

  /** Over every run: a handle is live exactly when its latest operation is a CREATE, and
      its record is then the one that CREATE left. */
  lemma {:induction false} LiveIffCreated(mem: map<Addr, Record>, factory: Addr, ops: seq<Op>, a: Addr)
    requires DoneOk(factory, ops)
    ensures Latest(ops, a) == [] ==> At(Replay(mem, ops), a) == At(mem, a)
    ensures Latest(ops, a) != [] ==>
              (Live(At(Replay(mem, ops), a)) <==> Latest(ops, a)[0].Create?)
    ensures Latest(ops, a) != [] && Latest(ops, a)[0].Create? ==>
              At(Replay(mem, ops), a) == Latest(ops, a)[0].record && Create(a, At(Replay(mem, ops), a)) in ops
  {
    if ops != [] {
      var rest := ops[..|ops| - 1];
      assert forall i :: 0 <= i < |rest| ==> rest[i] == ops[i];
      LiveIffCreated(mem, factory, rest, a);
      assert forall op :: op in rest ==> op in ops;
    }
  }

  /** The factory is never created over and never destroyed: its record never changes. */
  lemma {:induction false} FactoryUntouched(mem: map<Addr, Record>, factory: Addr, ops: seq<Op>)
    requires DoneOk(factory, ops)
    ensures Latest(ops, factory) == [] && At(Replay(mem, ops), factory) == At(mem, factory)
  {
    if ops != [] {
      var rest := ops[..|ops| - 1];
      assert forall i :: 0 <= i < |rest| ==> rest[i] == ops[i];
      FactoryUntouched(mem, factory, rest);
    }
  }
}
