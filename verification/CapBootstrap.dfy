/** `kernel_cap_bootstrap`. Code reaches its globals relative to where it runs, so in an image
    copied byte for byte to another address the globals are the copy's own; the pointers
    stored in them are not, until the bootstrap rebinds them. */
module CapBootstrap {
  import opened Wrappers
  import opened Capnp
  import opened CapMachine
  import opened CapInvariant
  import opened CapKernel

  // ----- Where things are in an image -----

  /** Offsets of the symbols from the image's base. */
  datatype Layout = Layout(record: nat, table: nat, lock: nat, structs: nat, pointers: nat,
                           methods: nat, objects: nat, handler: nat)

  /** The factory's table descriptor: four array addresses and their lengths. */
  datatype Descriptor = Descriptor(structs: Addr, structCount: nat, pointers: Addr, pointerCount: nat,
                                   methods: Addr, methodCount: nat, objects: Addr, objectCount: nat)

  /** The mutable globals of `cap.c`. */
  datatype Globals = Globals(record: Record, table: Descriptor, lock: bool)

  function BoundRecord(base: Addr, l: Layout): Record {
    Record(MAGIC, 1, base + l.handler, 0, base + l.table, 0)
  }

  function BoundTable(base: Addr, l: Layout): Descriptor {
    Descriptor(base + l.structs, 3, base + l.pointers, 0, base + l.methods, 2, base + l.objects, 1)
  }

  // ----- What a descriptor stands for -----

  /** The constant arrays of an image. The pointer array has an entry that is not counted. */
  const STRUCT_ARRAY: seq<StructSchema> :=
    [StructSchema(5, 0, IDX_NONE), StructSchema(1, 0, IDX_NONE), StructSchema(1, 0, IDX_NONE)]
  const POINTER_ARRAY: seq<PointerSchema> := [PointerSchema(AnyPtr, 0, 0)]
  const METHOD_ARRAY: seq<MethodSchema> :=
    [MethodSchema(METHOD_CREATE, 0, 1), MethodSchema(METHOD_DESTROY, 2, IDX_NONE)]
  const OBJECT_ARRAY: seq<ObjectSchema> := [ObjectSchema(0, 2)]

  /** The first `count` entries at address `a`, if the array that all images have at offset
      `off` is there in one of them, and has as many. */
  function EntriesAt<T>(images: set<Addr>, off: nat, a: Addr, entries: seq<T>, count: nat): Option<seq<T>> {
    if a >= off && (a - off) in images && count <= |entries| then Some(entries[..count]) else None
  }

  /** The schema table that a descriptor stands for: the arrays at its addresses, cut to its
      counts. */
  function Resolve(l: Layout, images: set<Addr>, d: Descriptor): Option<Table> {
    var structs := EntriesAt(images, l.structs, d.structs, STRUCT_ARRAY, d.structCount);
    var pointers := EntriesAt(images, l.pointers, d.pointers, POINTER_ARRAY, d.pointerCount);
    var methods := EntriesAt(images, l.methods, d.methods, METHOD_ARRAY, d.methodCount);
    var objects := EntriesAt(images, l.objects, d.objects, OBJECT_ARRAY, d.objectCount);
    if structs.None? || pointers.None? || methods.None? || objects.None? then None
    else Some(Table(structs.value, pointers.value, methods.value, objects.value))
  }

  /** The record is a factory: it is live, its handler is that of the image, and by its table
      and index CREATE and DESTROY are found, with their schemas. */
  predicate IsFactory(base: Addr, l: Layout, r: Record, table: Option<Table>) {
    && Live(r) && r.handler == base + l.handler && table == Some(FACTORY_TABLE)
    && MethodOf(table.value, r.index, METHOD_CREATE) == Some(MethodSchema(METHOD_CREATE, 0, 1))
    && MethodOf(table.value, r.index, METHOD_DESTROY) == Some(MethodSchema(METHOD_DESTROY, 2, IDX_NONE))
  }

  /** The globals belong to the image at `base`. */
  predicate Bound(base: Addr, l: Layout, g: Globals) {
    g.record == BoundRecord(base, l) && g.table == BoundTable(base, l)
  }

  /** Globals as they ever are when a bootstrap starts: never bootstrapped, or bootstrapped
      by the image at some base and perhaps copied since, lock and all. */
  ghost predicate Reachable(l: Layout, g: Globals) {
    g.record.magic != MAGIC || exists base :: Bound(base, l, g)
  }

  /** There is no live record, or a pointer on the way from it to the structs, methods and
      objects does not lead into the image at `base`. */
  predicate PointsElsewhere(base: Addr, l: Layout, g: Globals) {
    || !Live(g.record) || g.record.table != base + l.table || g.table.structs != base + l.structs
    || g.table.methods != base + l.methods || g.table.objects != base + l.objects
  }

  /** What a bootstrap leaves: an image that is bound stays as it is, its lock held or not;
      any other is bound, and its lock is free. */
  ghost predicate Bootstrapped(base: Addr, l: Layout, g: Globals, h: Globals) {
    && Bound(base, l, h)
    && (if Bound(base, l, g) then h.lock == g.lock else !h.lock)
  }

  /** Bound globals are a factory: the record's table is this image's descriptor, which stands
      for the factory's table. */
  lemma BoundIsFactory(base: Addr, l: Layout, images: set<Addr>, g: Globals)
    requires Bound(base, l, g) && base in images
    ensures g.record.table == base + l.table && IsFactory(base, l, g.record, Resolve(l, images, g.table))
  {
    hide MethodOf;
    var t := Resolve(l, images, g.table);
    assert POINTER_ARRAY[..0] == [];
    assert STRUCT_ARRAY[..3] == STRUCT_ARRAY && METHOD_ARRAY[..2] == METHOD_ARRAY && OBJECT_ARRAY[..1] == OBJECT_ARRAY;
    assert t == Some(FACTORY_TABLE);
    MethodsOfFactory(METHOD_CREATE);
    MethodsOfFactory(METHOD_DESTROY);
  }

  class Image {
    const base: Addr
    const layout: Layout
    var record: Record
    var table: Descriptor
    var lock: bool

    ghost function State(): Globals
      reads this
    {
      Globals(record, table, lock)
    }

    constructor (base: Addr, layout: Layout, g: Globals)
      ensures this.base == base && this.layout == layout && State() == g
    {
      this.base := base;
      this.layout := layout;
      this.record := g.record;
      this.table := g.table;
      this.lock := g.lock;
    }

    /** The six tests tell a shared image from a copy: whatever the image went through, its
        globals are its own afterwards, and were not touched if they already were. */
    method Bootstrap() returns (handle: Addr)
      modifies this
      ensures handle == base + layout.record
      ensures old(Reachable(layout, State())) ==> Bootstrapped(base, layout, old(State()), State())
      ensures State() == old(State()) || (Bound(base, layout, State()) && !lock)
      ensures Bound(base, layout, old(State())) ==> State() == old(State())
      ensures old(Reachable(layout, State())) ==>
                record.table == base + layout.table && IsFactory(base, layout, record, Resolve(layout, {base}, table))
      ensures PointsElsewhere(base, layout, old(State())) ==> Bound(base, layout, State()) && !lock
    {
      hide IsFactory, Resolve;
      if record.magic == MAGIC && record.valid != 0 && record.table == base + layout.table
         && table.structs == base + layout.structs && table.methods == base + layout.methods
         && table.objects == base + layout.objects {
        assert Reachable(layout, State()) ==> Bound(base, layout, State());
        if Bound(base, layout, State()) {
          BoundIsFactory(base, layout, {base}, State());
        }
        return base + layout.record;
      }
      lock := false;
      table := table.(structs := base + layout.structs, structCount := 3);
      table := table.(pointers := base + layout.pointers, pointerCount := 0);
      table := table.(methods := base + layout.methods, methodCount := 2);
      table := table.(objects := base + layout.objects, objectCount := 1);
      record := record.(magic := MAGIC, valid := 1, handler := base + layout.handler, data := 0);
      record := record.(table := base + layout.table, index := 0);
      handle := base + layout.record;
      assert Bound(base, layout, State());
      BoundIsFactory(base, layout, {base}, State());
    }
  }

  /** A shared image, in every state that any run of calls on any number of cores reaches, in
      the middle of a CREATE or DESTROY included: the globals are bound, so that a further
      bootstrap by any core leaves them, and a lock that is held, as they are. */
  lemma SharedStaysBound(s: State, ls: seq<Label>, base: Addr, l: Layout, h: Globals)
    requires Init(s) && IsRun(s, ls)
    requires s.factory == base + l.record && At(s.g.mem, s.factory) == BoundRecord(base, l)
    requires var e := After(s, ls);
             Bootstrapped(base, l, Globals(At(e.g.mem, e.factory), BoundTable(base, l), e.g.lock), h)
    ensures var e := After(s, ls); h == Globals(At(e.g.mem, e.factory), BoundTable(base, l), e.g.lock)
  {
    hide IsRun, After, Apply, Inv;
    InitInv(s);
    RunKeeps(s, ls);
    RunKeepsStart(s, ls);
    FactoryStaysLive(After(s, ls));
  }

  lemma {:induction false} RunKeepsStart(s: State, ls: seq<Label>)
    requires IsRun(s, ls)
    ensures After(s, ls).g.start == s.g.start && After(s, ls).factory == s.factory
    decreases |ls|
  {
    if ls != [] {
      RunKeepsStart(Apply(s, ls[0]), ls[1..]);
    }
  }
}
