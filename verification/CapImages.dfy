/** Two images of the kernel in one memory: the original, and a copy of it, byte for byte, at
    another address, in which the bootstrap has run. Calls are made through the copy's
    factory. They take the lock, and run the handler, of the image whose code they are in:
    first the copy's `kernel_invoke`, then the handler that the record they looked up leads
    to. Any number of calls are under way, and any of them makes the next step. */
module CapImages {
  import opened Wrappers
  import opened CapMachine
  import opened CapInvariant
  import opened CapKernel
  import opened CapBootstrap

  // ----- One memory -----

  /** A call, in the code of the image at `code`: looking up its target's record, and then in
      the factory's handler. */
  datatype Task =
    | Looking(code: Addr, f: Frame, request: Op)
    | Handling(code: Addr, f: Frame)
    | Over

  /** Records, descriptors and locks by address, the images' globals among them; where images
      are; the calls; and the operations that have released a lock, in that order. */
  datatype World = World(layout: Layout, images: set<Addr>, records: map<Addr, Record>,
                         tables: map<Addr, Descriptor>, locks: map<Addr, bool>, tasks: seq<Task>, done: seq<Op>)

  const NO_TABLE := Descriptor(0, 0, 0, 0, 0, 0, 0, 0)

  function TableAt(w: World, a: Addr): Descriptor {
    if a in w.tables then w.tables[a] else NO_TABLE
  }

  function LockAt(w: World, a: Addr): bool {
    a in w.locks && w.locks[a]
  }

  function RecordOf(w: World, base: Addr): Addr {
    base + w.layout.record
  }

  function LockOf(w: World, base: Addr): Addr {
    base + w.layout.lock
  }

  function GlobalsAt(w: World, base: Addr): Globals {
    Globals(At(w.records, RecordOf(w, base)), TableAt(w, base + w.layout.table), LockAt(w, LockOf(w, base)))
  }

  function SetGlobals(w: World, base: Addr, g: Globals): World {
    w.(records := w.records[RecordOf(w, base) := g.record],
       tables := w.tables[base + w.layout.table := g.table],
       locks := w.locks[LockOf(w, base) := g.lock])
  }

  /** The image at `base` is bound and no call is under way; a copy of it has been made at
      `copy`, its globals being those of the original at that moment; and the copy's bootstrap
      has left `h`. */
  ghost predicate Start(before: World, base: Addr, copy: Addr, h: Globals, w: World) {
    && Bound(base, before.layout, GlobalsAt(before, base)) && base in before.images
    && copy != base && RecordOf(before, base) != 0
    && before.tasks == [] && before.done == []
    && var copied := SetGlobals(before, copy, GlobalsAt(before, base)).(images := before.images + {copy});
    && Bootstrapped(copy, before.layout, GlobalsAt(copied, copy), h)
    && w == SetGlobals(copied, copy, h)
  }

  // ----- Steps -----

  /** What the code of the image at `b` sees: its own lock, its own factory's address, and all
      records. */
  function View(w: World, b: Addr): State {
    State(Shared(LockAt(w, LockOf(w, b)), w.records, -1, w.records, w.done), RecordOf(w, b), [])
  }

  function StepIn(w: World, b: Addr, f: Frame): (r: (World, Frame))
    requires f.Call? && !f.pc.Finished?
  {
    var (g, _, f') := CallStep(View(w, b), 0, true, f);
    (w.(records := g.mem, locks := w.locks[LockOf(w, b) := g.lock], done := g.done), f')
  }

  /** The method by which a request is made. */
  function MethodId(op: Op): nat {
    if op.Create? then METHOD_CREATE else METHOD_DESTROY
  }

  /** The image whose factory's handler a record leads to: `find_method` finds the request's
      method by the record's table and index, and the handler is that of an image. */
  function LeadsTo(w: World, r: Record, op: Op): Option<Addr> {
    var table := Resolve(w.layout, w.images, TableAt(w, r.table));
    if table.Some? && MethodOf(table.value, r.index, MethodId(op)).Some?
       && r.handler >= w.layout.handler && (r.handler - w.layout.handler) in w.images
    then Some(r.handler - w.layout.handler) else None
  }

  function NewCall(op: Op): Frame {
    Call(op, CapMachine.Start, false, false, CLEARED, false)
  }

  datatype Event =
    | Begin(op: Op)    // the copy's kernel_invoke is called on its factory's handle
    | Advance(i: nat)  // a call makes its next step
    | Refuse(i: nat)   // a call is refused between lookup and handler: its message is not valid

  /** Requests are CREATEs and DESTROYs; no CREATE names the factory through which it goes. */
  predicate Request(factory: Addr, op: Op) {
    (op.Create? || op.Destroy?) && AllowedOp(factory, op)
  }

  predicate Possible(w: World, copy: Addr, e: Event) {
    match e
    case Begin(op) => Request(RecordOf(w, copy), op)
    case Advance(i) => i < |w.tasks| && !w.tasks[i].Over? && w.tasks[i].f.Call?
    case Refuse(i) => i < |w.tasks| && w.tasks[i].Looking?
  }

  function Next(w: World, copy: Addr, e: Event): (r: World)
    requires Possible(w, copy, e)
    ensures r.layout == w.layout && r.images == w.images && r.tables == w.tables && |w.tasks| <= |r.tasks|
  {
    match e
    case Begin(op) => w.(tasks := w.tasks + [Looking(copy, NewCall(Invoke(RecordOf(w, copy))), op)])
    case Refuse(i) => w.(tasks := w.tasks[i := Over])
    case Advance(i) =>
      match w.tasks[i]
      case Looking(b, f, op) =>
        if !f.pc.Finished? then
          var (w', f') := StepIn(w, b, f);
          w'.(tasks := w.tasks[i := Looking(b, f', op)])
        else
          var h := if f.ok then LeadsTo(w, f.copy, op) else None;
          w.(tasks := w.tasks[i := if h.Some? then Handling(h.value, NewCall(op)) else Over])
      case Handling(b, f) =>
        if !f.pc.Finished? then
          var (w', f') := StepIn(w, b, f);
          w'.(tasks := w.tasks[i := Handling(b, f')])
        else w.(tasks := w.tasks[i := Over])
  }

  predicate IsRunOf(w: World, copy: Addr, es: seq<Event>)
    decreases |es|
  {
    es == [] || (Possible(w, copy, es[0]) && IsRunOf(Next(w, copy, es[0]), copy, es[1..]))
  }

  function Then(w: World, copy: Addr, es: seq<Event>): World
    requires IsRunOf(w, copy, es)
    decreases |es|
  {
    if es == [] then w else Then(Next(w, copy, es[0]), copy, es[1..])
  }

  // ----- What every step keeps -----

  /** The lookup has read nothing but the copy's own record. */
  predicate LookupOk(w: World, copy: Addr, f: Frame) {
    && f.Call? && f.op == Invoke(RecordOf(w, copy))
    && (f.pc.Access? ==> f.pc.k < Accesses(f.op))
    && (f.pc.Access? && f.pc.k >= 2 ==> Agree(f.copy, f.pc.k - 2, BoundRecord(copy, w.layout)))
    && (f.pc.Unlock? || f.pc.Restore? || f.pc.Finished? ==> f.ok && f.copy == BoundRecord(copy, w.layout))
  }

  predicate HandlerOk(w: World, copy: Addr, f: Frame) {
    && f.Call? && Request(RecordOf(w, copy), f.op)
    && (f.pc.Access? ==> f.pc.k < Accesses(f.op))
    && (!f.pc.Start? && !f.pc.Finished? ==> !RefusedEarly(RecordOf(w, copy), f.op))
    && ((f.pc.Restore? || f.pc.Finished?) && !RefusedEarly(RecordOf(w, copy), f.op) ==> f.op in w.done)
  }

  predicate TaskOk(w: World, copy: Addr, t: Task) {
    match t
    case Looking(b, f, op) => b == copy && LookupOk(w, copy, f) && Request(RecordOf(w, copy), op)
    case Handling(b, f) => b == copy && HandlerOk(w, copy, f)
    case Over => true
  }

  predicate WorldOk(w: World, copy: Addr) {
    && copy in w.images
    && At(w.records, RecordOf(w, copy)) == BoundRecord(copy, w.layout)
    && TableAt(w, copy + w.layout.table) == BoundTable(copy, w.layout)
    && forall i :: 0 <= i < |w.tasks| ==> TaskOk(w, copy, w.tasks[i])
  }

  /** The copy's record leads to the copy. */
  lemma CopyLeadsToItself(w: World, copy: Addr, op: Op)
    requires WorldOk(w, copy)
    ensures LeadsTo(w, BoundRecord(copy, w.layout), op) == Some(copy)
  {
    hide TaskOk, Resolve, MethodOf;
    BoundIsFactory(copy, w.layout, w.images, Globals(BoundRecord(copy, w.layout), BoundTable(copy, w.layout), false));
  }

  lemma LookupStep(w: World, copy: Addr, f: Frame)
    requires At(w.records, RecordOf(w, copy)) == BoundRecord(copy, w.layout)
    requires LookupOk(w, copy, f) && !f.pc.Finished?
    ensures var (w', f') := StepIn(w, copy, f);
            LookupOk(w', copy, f') && w'.records == w.records && w.done <= w'.done
            && (forall op :: op in w'.done && op !in w.done ==> op.Invoke?)
  {
    hide CopyField, SameField, Agree;
    var bound := BoundRecord(copy, w.layout);
    NothingYet(f.copy, bound);
    if f.pc.Access? && f.pc.k >= 2 {
      CopyAgrees(f.copy, f.pc.k - 2, bound);
    }
  }

  lemma HandlerStep(w: World, copy: Addr, f: Frame)
    requires HandlerOk(w, copy, f) && !f.pc.Finished?
    ensures var (w', f') := StepIn(w, copy, f);
            HandlerOk(w', copy, f') && w.done <= w'.done && f'.op == f.op
            && At(w'.records, RecordOf(w, copy)) == At(w.records, RecordOf(w, copy))
            && (forall op :: op in w'.done && op !in w.done ==> op == f.op)
  {
    hide AccessStep;
    if f.pc.Access? {
      AccessShape(View(w, copy).g, f, f.pc.k);
    }
  }

  lemma TaskStaysOk(w: World, w': World, copy: Addr, t: Task)
    requires TaskOk(w, copy, t) && w'.layout == w.layout && w.done <= w'.done
    ensures TaskOk(w', copy, t)
  {
  }

  lemma StepKeepsWorld(w: World, copy: Addr, e: Event)
    requires WorldOk(w, copy) && Possible(w, copy, e)
    ensures WorldOk(Next(w, copy, e), copy)
    ensures w.done <= Next(w, copy, e).done
  {
    hide LookupOk, HandlerOk, CallStep, BoundTable, BoundRecord, Request;
    var w' := Next(w, copy, e);
    var i := if e.Begin? then |w.tasks| else e.i;
    if e.Begin? {
      FreshLookup(w', copy);
    } else {
      assert TaskOk(w, copy, w.tasks[i]);
      StepKeepsTask(w, copy, e);
    }
    forall j | 0 <= j < |w'.tasks| ensures TaskOk(w', copy, w'.tasks[j]) {
      if j != i {
        TaskStaysOk(w, w', copy, w.tasks[j]);
      }
    }
  }

  lemma FreshLookup(w: World, copy: Addr)
    ensures LookupOk(w, copy, NewCall(Invoke(RecordOf(w, copy))))
  {
  }

  lemma FreshHandler(w: World, copy: Addr, op: Op)
    requires Request(RecordOf(w, copy), op)
    ensures HandlerOk(w, copy, NewCall(op))
  {
  }

  lemma FoundIsCopy(w: World, copy: Addr, f: Frame)
    requires LookupOk(w, copy, f) && f.pc.Finished?
    ensures f.ok && f.copy == BoundRecord(copy, w.layout)
  {
  }

  lemma StepKeepsTask(w: World, copy: Addr, e: Event)
    requires WorldOk(w, copy) && Possible(w, copy, e) && !e.Begin?
    ensures var w' := Next(w, copy, e);
            && TaskOk(w', copy, w'.tasks[e.i]) && w.done <= w'.done
            && At(w'.records, RecordOf(w, copy)) == At(w.records, RecordOf(w, copy))
  {
    hide LookupOk, HandlerOk, CallStep, BoundTable, BoundRecord, Request;
    var t, w' := w.tasks[e.i], Next(w, copy, e);
    assert TaskOk(w, copy, t);
    if e.Advance? {
      match t
      case Looking(_, f, op) =>
        if f.pc.Finished? {
          FoundIsCopy(w, copy, f);
          CopyLeadsToItself(w, copy, op);
          FreshHandler(w', copy, op);
        } else {
          LookupStep(w, copy, f);
          LookupOkOnly(StepIn(w, copy, f).0, w', copy, StepIn(w, copy, f).1);
        }
      case Handling(_, f) =>
        if !f.pc.Finished? {
          HandlerStep(w, copy, f);
          HandlerOkOnly(StepIn(w, copy, f).0, w', copy, StepIn(w, copy, f).1);
        }
    }
  }

  lemma LookupOkOnly(w: World, w': World, copy: Addr, f: Frame)
    requires LookupOk(w, copy, f) && w'.layout == w.layout
    ensures LookupOk(w', copy, f)
  {
  }

  lemma HandlerOkOnly(w: World, w': World, copy: Addr, f: Frame)
    requires HandlerOk(w, copy, f) && w'.layout == w.layout && w'.done == w.done
    ensures HandlerOk(w', copy, f)
  {
  }

  lemma {:induction false} RunKeepsWorld(w: World, copy: Addr, es: seq<Event>)
    requires WorldOk(w, copy) && IsRunOf(w, copy, es)
    ensures WorldOk(Then(w, copy, es), copy)
    decreases |es|
  {
    hide WorldOk, Next, Possible;
    if es != [] {
      StepKeepsWorld(w, copy, es[0]);
      RunKeepsWorld(Next(w, copy, es[0]), copy, es[1..]);
    }
  }

  lemma StartOk(before: World, base: Addr, copy: Addr, h: Globals, w: World)
    requires Start(before, base, copy, h, w)
    ensures WorldOk(w, copy) && !LockAt(w, LockOf(w, copy))
    ensures GlobalsAt(w, base) == GlobalsAt(before, base)
  {
    assert !Bound(copy, before.layout, GlobalsAt(before, base));
  }

  // ----- Where calls go -----

  const IMAGE_SIZE: nat := 0x10_0000

  predicate Inside(base: Addr, a: Addr) {
    base <= a < base + IMAGE_SIZE
  }

  predicate ValidLayout(l: Layout) {
    && l.record < IMAGE_SIZE && l.table < IMAGE_SIZE && l.lock < IMAGE_SIZE && l.structs < IMAGE_SIZE
    && l.pointers < IMAGE_SIZE && l.methods < IMAGE_SIZE && l.objects < IMAGE_SIZE && l.handler < IMAGE_SIZE
  }

  /** The code that the call is in, the lock it takes, and all that it has looked up lie in the
      image. */
  ghost predicate StaysIn(w: World, b: Addr, t: Task) {
    match t
    case Looking(code, f, op) =>
      && code == b && Inside(b, LockOf(w, code))
      && f.Call? && (f.pc.Finished? && f.ok ==>
            var d := TableAt(w, f.copy.table);
            && LeadsTo(w, f.copy, op) == Some(b) && Inside(b, f.copy.handler) && Inside(b, f.copy.table)
            && Inside(b, d.structs) && Inside(b, d.pointers) && Inside(b, d.methods) && Inside(b, d.objects))
    case Handling(code, _) => code == b && Inside(b, LockOf(w, code))
    case Over => true
  }

  /** After every run of calls through the copy's factory, every call is in the copy, with all
      that it looked up; and no lock but the copy's, and no descriptor at all, has changed. */
  lemma CallsStayInCopy(before: World, base: Addr, copy: Addr, h: Globals, w: World, es: seq<Event>)
    requires Start(before, base, copy, h, w) && IsRunOf(w, copy, es) && ValidLayout(w.layout)
    ensures var e := Then(w, copy, es);
            && (forall i :: 0 <= i < |e.tasks| ==> StaysIn(e, copy, e.tasks[i]))
            && e.tables == w.tables && forall a :: a != LockOf(w, copy) ==> LockAt(e, a) == LockAt(w, a)
  {
    hide IsRunOf, Then;
    StartOk(before, base, copy, h, w);
    RunKeepsWorld(w, copy, es);
    RunKeepsRest(w, copy, es);
    var e := Then(w, copy, es);
    forall i | 0 <= i < |e.tasks| ensures StaysIn(e, copy, e.tasks[i]) {
      assert TaskOk(e, copy, e.tasks[i]);
      if e.tasks[i].Looking? {
        CopyLeadsToItself(e, copy, e.tasks[i].request);
      }
    }
  }

  lemma StepKeepsRest(w: World, copy: Addr, e: Event)
    requires WorldOk(w, copy) && Possible(w, copy, e)
    ensures forall a :: a != LockOf(w, copy) ==> LockAt(Next(w, copy, e), a) == LockAt(w, a)
  {
    hide CallStep, LookupOk, HandlerOk;
    if !e.Begin? {
      assert TaskOk(w, copy, w.tasks[e.i]);
    }
  }

  lemma {:induction false} RunKeepsRest(w: World, copy: Addr, es: seq<Event>)
    requires WorldOk(w, copy) && IsRunOf(w, copy, es)
    ensures var e := Then(w, copy, es);
            && e.layout == w.layout && e.tables == w.tables
            && forall a :: a != LockOf(w, copy) ==> LockAt(e, a) == LockAt(w, a)
    decreases |es|
  {
    hide WorldOk, Possible, LockAt;
    if es != [] {
      var w' := Next(w, copy, es[0]);
      StepKeepsWorld(w, copy, es[0]);
      StepKeepsRest(w, copy, es[0]);
      RunKeepsRest(w', copy, es[1..]);
    }
  }

  // ----- What becomes of the original -----

  /** A DESTROY of the original's factory, or a CREATE of another record over it. */
  predicate Harms(w: World, base: Addr, op: Op) {
    Names(op, RecordOf(w, base)) && (op.Create? ==> op.record != BoundRecord(base, w.layout))
  }

  /** The call has begun to change the original's record. */
  predicate Harming(w: World, base: Addr, t: Task) {
    && t.Handling? && t.f.Call? && Names(t.f.op, RecordOf(w, base))
    && match t.f.pc
       case Start => false
       case Saved => false
       case Spin => false
       case Access(k) => if t.f.op.Create? then !Agree(BoundRecord(base, w.layout), k, t.f.op.record) else k > 2
       case _ => Harms(w, base, t.f.op)
  }

  predicate Unharmed(w: World, base: Addr) {
    && (forall op :: op in w.done ==> !Harms(w, base, op))
    && (forall i :: 0 <= i < |w.tasks| ==> !Harming(w, base, w.tasks[i]))
  }

  lemma AgreeAll(r: Record, from: Record)
    ensures Agree(r, FIELDS, from) <==> r == from
  {
    if Agree(r, FIELDS, from) {
      assert SameField(r, 0, from) && SameField(r, 1, from) && SameField(r, 2, from);
      assert SameField(r, 3, from) && SameField(r, 4, from) && SameField(r, 5, from);
    }
  }

  lemma AgreeMore(r: Record, k: nat, from: Record)
    requires k < FIELDS
    ensures Agree(r, k + 1, from) <==> Agree(r, k, from) && CopyField(r, k, from) == r
  {
    assert CopyField(r, k, from) == r <==> SameField(r, k, from);
    assert Agree(r, k + 1, from) ==> SameField(r, k, from);
  }

  /** While the original is as it was, the next step of a call changes it exactly if the call
      is then harming it. */
  lemma HandlerHarms(w: World, base: Addr, copy: Addr, f: Frame)
    requires HandlerOk(w, copy, f) && !f.pc.Finished? && base != copy && RecordOf(w, base) != 0
    requires At(w.records, RecordOf(w, base)) == BoundRecord(base, w.layout)
    requires !Harming(w, base, Handling(copy, f))
    ensures var (w', f') := StepIn(w, copy, f);
            && (At(w'.records, RecordOf(w, base)) == BoundRecord(base, w.layout) <==>
                  !Harming(w', base, Handling(copy, f')))
            && (f.pc.Unlock? ==> !Harms(w, base, f.op))
  {
    hide CopyField, SameField, Agree;
    var bound := BoundRecord(base, w.layout);
    if f.op.Create? && f.pc.Access? {
      AgreeMore(bound, f.pc.k, f.op.record);
      AgreeAll(bound, f.op.record);
    }
    NothingYet(bound, if f.op.Create? then f.op.record else bound);
    ClearsValid(bound);
  }

  lemma ClearsValid(r: Record)
    requires r.valid != 0
    ensures CopyField(r, ClearOrder(0), CLEARED) != r
  {
  }

  lemma HarmStays(w: World, base: Addr, copy: Addr, f: Frame)
    requires HandlerOk(w, copy, f) && !f.pc.Finished? && Harming(w, base, Handling(copy, f))
    ensures var (w', f') := StepIn(w, copy, f); Harming(w', base, Handling(copy, f'))
  {
    hide CopyField, SameField, Agree;
    var bound := BoundRecord(base, w.layout);
    if f.op.Create? && f.pc.Access? {
      AgreeMore(bound, f.pc.k, f.op.record);
      AgreeAll(bound, f.op.record);
    }
  }

  /** What a step appends to the completed operations, and to which task it happens. */
  lemma StepDone(w: World, copy: Addr, e: Event)
    requires WorldOk(w, copy) && Possible(w, copy, e)
    ensures var w' := Next(w, copy, e);
            && w.done <= w'.done
            && (forall op :: op in w'.done && op !in w.done ==>
                  op.Invoke? || (e.Advance? && w.tasks[e.i].Handling? && w.tasks[e.i].f.pc.Unlock?
                                 && op == w.tasks[e.i].f.op))
            && forall j :: 0 <= j < |w.tasks| && (e.Begin? || j != e.i) ==> w'.tasks[j] == w.tasks[j]
  {
    hide LookupOk, HandlerOk, BoundTable, BoundRecord, Request;
    if e.Advance? {
      var t := w.tasks[e.i];
      assert TaskOk(w, copy, t);
      if !t.f.pc.Finished? {
        DoneIn(w, t.code, t.f);
        if t.Looking? {
          LookupIsInvoke(w, copy, t.f);
        }
      }
    }
  }

  lemma DoneIn(w: World, b: Addr, f: Frame)
    requires f.Call? && !f.pc.Finished?
    ensures StepIn(w, b, f).0.done == if f.pc.Unlock? then w.done + [f.op] else w.done
  {
  }

  lemma LookupIsInvoke(w: World, copy: Addr, f: Frame)
    requires LookupOk(w, copy, f)
    ensures f.Call? && f.op.Invoke?
  {
  }

  lemma StepHarms(w: World, base: Addr, copy: Addr, e: Event)
    requires WorldOk(w, copy) && Possible(w, copy, e) && base != copy && RecordOf(w, base) != 0
    requires Unharmed(w, base) && At(w.records, RecordOf(w, base)) == BoundRecord(base, w.layout)
    ensures At(Next(w, copy, e).records, RecordOf(w, base)) == BoundRecord(base, w.layout) <==>
            Unharmed(Next(w, copy, e), base)
  {
    hide LookupOk, HandlerOk, BoundTable, BoundRecord, Request, CallStep, Agree;
    var w' := Next(w, copy, e);
    StepDone(w, copy, e);
    if e.Advance? {
      var t := w.tasks[e.i];
      assert TaskOk(w, copy, t) && !Harming(w, base, t);
      if t.Handling? && !t.f.pc.Finished? {
        HandlerHarms(w, base, copy, t.f);
        HarmingOnly(StepIn(w, copy, t.f).0, w', base, w'.tasks[e.i]);
        assert !Harming(w', base, w'.tasks[e.i]) ==> Unharmed(w', base);
      } else if t.Looking? && !t.f.pc.Finished? {
        LookupStep(w, copy, t.f);
      }
    }
    if At(w'.records, RecordOf(w, base)) == BoundRecord(base, w.layout) {
      forall j | 0 <= j < |w'.tasks| ensures !Harming(w', base, w'.tasks[j]) {
        if j < |w.tasks| {
          assert !Harming(w, base, w.tasks[j]);
        }
      }
    }
  }

  lemma HarmingOnly(w: World, w': World, base: Addr, t: Task)
    requires w'.layout == w.layout
    ensures Harming(w', base, t) <==> Harming(w, base, t)
  {
  }

  /** Harm is not undone. */
  lemma StepKeepsHarm(w: World, base: Addr, copy: Addr, e: Event)
    requires WorldOk(w, copy) && Possible(w, copy, e) && base != copy && RecordOf(w, base) != 0
    requires !Unharmed(w, base)
    ensures !Unharmed(Next(w, copy, e), base)
  {
    hide LookupOk, HandlerOk, BoundTable, BoundRecord, Request, CallStep, Agree;
    var w' := Next(w, copy, e);
    StepDone(w, copy, e);
    if op :| op in w.done && Harms(w, base, op) {
      assert op in w'.done && Harms(w', base, op);
    } else {
      var i :| 0 <= i < |w.tasks| && Harming(w, base, w.tasks[i]);
      var t := w.tasks[i];
      assert TaskOk(w, copy, t);
      if e.Begin? || i != e.i {
        assert Harming(w', base, w'.tasks[i]);
      } else if t.f.pc.Finished? {
        FinishedIsDone(w, base, copy, t.f);
      } else {
        HarmStays(w, base, copy, t.f);
        HarmingOnly(StepIn(w, copy, t.f).0, w', base, w'.tasks[i]);
      }
    }
  }

  lemma FinishedIsDone(w: World, base: Addr, copy: Addr, f: Frame)
    requires HandlerOk(w, copy, f) && f.pc.Finished? && base != copy && RecordOf(w, base) != 0
    requires Names(f.op, RecordOf(w, base))
    ensures f.op in w.done
  {
  }

  lemma {:induction false} RunKeepsHarm(w: World, base: Addr, copy: Addr, es: seq<Event>)
    requires WorldOk(w, copy) && IsRunOf(w, copy, es) && base != copy && RecordOf(w, base) != 0
    requires !Unharmed(w, base)
    ensures !Unharmed(Then(w, copy, es), base)
    decreases |es|
  {
    hide WorldOk, Unharmed, Possible;
    if es != [] {
      StepKeepsWorld(w, copy, es[0]);
      StepKeepsHarm(w, base, copy, es[0]);
      RunKeepsHarm(Next(w, copy, es[0]), base, copy, es[1..]);
    }
  }

  /** The globals of the image at `base` are `g` in every state of the run. */
  predicate Throughout(w: World, base: Addr, copy: Addr, g: Globals, es: seq<Event>)
    requires IsRunOf(w, copy, es)
    decreases |es|
  {
    GlobalsAt(w, base) == g && (es == [] || Throughout(Next(w, copy, es[0]), base, copy, g, es[1..]))
  }

  lemma {:induction false} KeptIff(w: World, base: Addr, copy: Addr, es: seq<Event>)
    requires WorldOk(w, copy) && IsRunOf(w, copy, es) && base != copy && RecordOf(w, base) != 0
    requires Unharmed(w, base) && Bound(base, w.layout, GlobalsAt(w, base))
    ensures Throughout(w, base, copy, GlobalsAt(w, base), es) <==> Unharmed(Then(w, copy, es), base)
    decreases |es|
  {
    hide WorldOk, Unharmed, Possible, LockAt;
    if es != [] {
      var w' := Next(w, copy, es[0]);
      StepKeepsWorld(w, copy, es[0]);
      StepKeepsRest(w, copy, es[0]);
      StepHarms(w, base, copy, es[0]);
      assert GlobalsAt(w', base) == GlobalsAt(w, base) <==> Unharmed(w', base);
      if Unharmed(w', base) {
        KeptIff(w', base, copy, es[1..]);
      } else {
        RunKeepsHarm(w', base, copy, es[1..]);
      }
    }
  }

  /** The whole of the original's globals, its lock and its descriptor included, is the same in
      every state of a run through the copy's factory, if and only if no operation of the run
      harms its record: none that is through does, and none under way has begun to. */
  lemma OriginalKeptIff(before: World, base: Addr, copy: Addr, h: Globals, w: World, es: seq<Event>)
    requires Start(before, base, copy, h, w) && IsRunOf(w, copy, es)
    ensures Throughout(w, base, copy, GlobalsAt(before, base), es) <==> Unharmed(Then(w, copy, es), base)
  {
    hide IsRunOf, Then, Throughout;
    StartOk(before, base, copy, h, w);
    KeptIff(w, base, copy, es);
  }

  // ----- Runs that do not name the original -----

  predicate Spares(e: Event, a: Addr) {
    e.Begin? ==> !Names(e.op, a)
  }

  predicate NoneNames(w: World, a: Addr) {
    && (forall op :: op in w.done ==> !Names(op, a))
    && (forall i :: 0 <= i < |w.tasks| ==> TaskSpares(w.tasks[i], a))
  }

  predicate TaskSpares(t: Task, a: Addr) {
    match t
    case Looking(_, f, op) => f.Call? && f.op.Invoke? && !Names(op, a)
    case Handling(_, f) => f.Call? && !Names(f.op, a)
    case Over => true
  }

  lemma OpIsKept(w: World, b: Addr, f: Frame)
    requires f.Call? && !f.pc.Finished?
    ensures StepIn(w, b, f).1.Call? && StepIn(w, b, f).1.op == f.op
  {
    hide CopyField;
  }

  lemma StepSpares(w: World, copy: Addr, a: Addr, e: Event)
    requires WorldOk(w, copy) && Possible(w, copy, e) && NoneNames(w, a) && Spares(e, a)
    ensures NoneNames(Next(w, copy, e), a)
  {
    hide LookupOk, HandlerOk, BoundTable, BoundRecord, Request, CallStep, LeadsTo, StepIn;
    var w' := Next(w, copy, e);
    StepDone(w, copy, e);
    if !e.Begin? {
      var t := w.tasks[e.i];
      assert TaskOk(w, copy, t) && TaskSpares(t, a);
      if e.Advance? && !t.f.pc.Finished? {
        OpIsKept(w, t.code, t.f);
      }
    }
    forall j | 0 <= j < |w'.tasks| ensures TaskSpares(w'.tasks[j], a) {
      if j < |w.tasks| {
        assert TaskSpares(w.tasks[j], a);
      }
    }
    forall op | op in w'.done ensures !Names(op, a) {
      if op !in w.done {
        assert op.Invoke? || !Names(op, a);
      }
    }
  }

  lemma {:induction false} RunSpares(w: World, copy: Addr, a: Addr, es: seq<Event>)
    requires WorldOk(w, copy) && IsRunOf(w, copy, es) && NoneNames(w, a)
    requires forall i :: 0 <= i < |es| ==> Spares(es[i], a)
    ensures NoneNames(Then(w, copy, es), a)
    decreases |es|
  {
    hide WorldOk, NoneNames, Possible, Spares;
    if es != [] {
      StepKeepsWorld(w, copy, es[0]);
      StepSpares(w, copy, a, es[0]);
      RunSpares(Next(w, copy, es[0]), copy, a, es[1..]);
    }
  }

  /** So a run in which no request names the original's factory changes nothing of it. */
  lemma OriginalIsKept(before: World, base: Addr, copy: Addr, h: Globals, w: World, es: seq<Event>)
    requires Start(before, base, copy, h, w) && IsRunOf(w, copy, es)
    requires forall i :: 0 <= i < |es| ==> Spares(es[i], RecordOf(w, base))
    ensures Throughout(w, base, copy, GlobalsAt(before, base), es)
  {
    hide IsRunOf, Then, Throughout, Spares, WorldOk;
    StartOk(before, base, copy, h, w);
    RunSpares(w, copy, RecordOf(w, base), es);
    RunKeepsRest(w, copy, es);
    OriginalKeptIff(before, base, copy, h, w, es);
    var e, a := Then(w, copy, es), RecordOf(w, base);
    forall i | 0 <= i < |e.tasks| ensures !Harming(e, base, e.tasks[i]) {
      assert TaskSpares(e.tasks[i], a);
    }
  }

  // ----- A call in the copy goes through -----

  function PcRank(pc: Pc): nat {
    match pc
    case Start => 14
    case Saved => 13
    case Spin => 12
    case Access(k) => if k < 8 then 11 - k else 3
    case Unlock => 2
    case Restore => 1
    case Finished => 0
  }

  function Rank(t: Task): nat {
    match t
    case Looking(_, f, _) => if f.Call? then 20 + PcRank(f.pc) else 0
    case Handling(_, f) => if f.Call? then 1 + PcRank(f.pc) else 0
    case Over => 0
  }

  function OpOf(t: Task): Op
    requires !t.Over? && t.f.Call?
  {
    if t.Looking? then t.request else t.f.op
  }

  /** One call is under way, and the copy's lock is held exactly if that call holds it. */
  predicate Solo(w: World, copy: Addr, op: Op) {
    && WorldOk(w, copy) && |w.tasks| == 1 && !w.tasks[0].Over?
    && OpOf(w.tasks[0]) == op
    && (LockAt(w, LockOf(w, copy)) <==> Holding(w.tasks[0].f))
  }

  predicate Ended(w: World, copy: Addr, op: Op) {
    && |w.tasks| == 1 && w.tasks[0].Over? && !LockAt(w, LockOf(w, copy))
    && (RefusedEarly(RecordOf(w, copy), op) || op in w.done)
  }

  /** A frame with the lock to itself always gets on. */
  lemma FrameGetsOn(w: World, b: Addr, f: Frame)
    requires f.Call? && !f.pc.Finished? && (f.pc.Access? ==> f.pc.k < Accesses(f.op))
    requires LockAt(w, LockOf(w, b)) <==> Holding(f)
    ensures var (w', f') := StepIn(w, b, f);
            f'.Call? && f'.op == f.op && PcRank(f'.pc) < PcRank(f.pc) && (LockAt(w', LockOf(w, b)) <==> Holding(f'))
  {
    hide AccessStep;
    if f.pc.Access? {
      AccessShape(View(w, b).g, f, f.pc.k);
    }
  }

  lemma SoloGetsOn(w: World, copy: Addr, op: Op)
    requires Solo(w, copy, op)
    ensures Possible(w, copy, Advance(0))
    ensures var w' := Next(w, copy, Advance(0));
            Ended(w', copy, op) || (Solo(w', copy, op) && Rank(w'.tasks[0]) < Rank(w.tasks[0]))
  {
    hide CallStep, BoundTable, BoundRecord, Request, LeadsTo, StepIn;
    var t := w.tasks[0];
    assert TaskOk(w, copy, t);
    StepKeepsWorld(w, copy, Advance(0));
    if !t.f.pc.Finished? {
      FrameGetsOn(w, copy, t.f);
    } else if t.Looking? {
      CopyLeadsToItself(w, copy, t.request);
    }
  }

  lemma {:induction false} SoloRunsThrough(w: World, copy: Addr, op: Op) returns (es: seq<Event>)
    requires Solo(w, copy, op)
    ensures IsRunOf(w, copy, es) && Ended(Then(w, copy, es), copy, op)
    decreases Rank(w.tasks[0])
  {
    hide Solo, Next, Possible, Ended;
    SoloGetsOn(w, copy, op);
    var w' := Next(w, copy, Advance(0));
    if Ended(w', copy, op) {
      es := [Advance(0)];
      assert es[1..] == [];
    } else {
      var rest := SoloRunsThrough(w', copy, op);
      es := [Advance(0)] + rest;
      assert es[1..] == rest;
    }
  }

  /** The first call in the copy goes through, also when the copy was made while the lock was
      held: the lock that it takes is the copy's, which the bootstrap has freed. */
  lemma CallGoesThrough(before: World, base: Addr, copy: Addr, h: Globals, w: World, op: Op) returns (es: seq<Event>)
    requires Start(before, base, copy, h, w) && Request(RecordOf(w, copy), op)
    ensures IsRunOf(w, copy, es) && Ended(Then(w, copy, es), copy, op)
  {
    hide Request, Ended, LeadsTo, Start;
    StartOk(before, base, copy, h, w);
    NoTasks(before, base, copy, h, w);
    StepKeepsWorld(w, copy, Begin(op));
    var rest := SoloRunsThrough(Next(w, copy, Begin(op)), copy, op);
    es := [Begin(op)] + rest;
    assert es[1..] == rest;
  }

  lemma NoTasks(before: World, base: Addr, copy: Addr, h: Globals, w: World)
    requires Start(before, base, copy, h, w)
    ensures w.tasks == [] && w.done == [] && base != copy && RecordOf(w, base) != 0
  {
  }

  /** From every start there is a run that changes the original: a DESTROY through the copy's
      factory that names the original's. The copy's handler refuses its own factory only. */
  lemma OriginalCanBeLost(before: World, base: Addr, copy: Addr, h: Globals, w: World) returns (es: seq<Event>)
    requires Start(before, base, copy, h, w)
    ensures IsRunOf(w, copy, es) && !Throughout(w, base, copy, GlobalsAt(before, base), es)
  {
    hide Start, IsRunOf, Then, Throughout, WorldOk;
    NoTasks(before, base, copy, h, w);
    StartOk(before, base, copy, h, w);
    var op := Destroy(RecordOf(w, base));
    es := CallGoesThrough(before, base, copy, h, w, op);
    RunKeepsRest(w, copy, es);
    assert Harms(Then(w, copy, es), base, op);
    OriginalKeptIff(before, base, copy, h, w, es);
  }
}
