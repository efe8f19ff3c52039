/** The kernel's one entry point, `kernel_invoke`, and the factory object behind it. */
module CapKernel {
  import opened Wrappers
  import opened Bytes
  import opened Capnp
  import V = CapnpValidate
  import opened CapMachine

  const METHOD_CREATE: nat := 0
  const METHOD_DESTROY: nat := 1
  const CREATE_REQUEST_WORDS: nat := 5

  /** CREATE takes five data words and answers with one; DESTROY takes one. */
  const FACTORY_TABLE: Table :=
    Table([StructSchema(CREATE_REQUEST_WORDS, 0, IDX_NONE), StructSchema(1, 0, IDX_NONE), StructSchema(1, 0, IDX_NONE)],
          [],
          [MethodSchema(METHOD_CREATE, 0, 1), MethodSchema(METHOD_DESTROY, 2, IDX_NONE)],
          [ObjectSchema(0, 2)])

  // ----- find_method -----

  /** Method `k` is the first of the object's run with this id, and the run up to it lies
      inside the table. */
  predicate IsFirstMethod(t: Table, o: ObjectSchema, id: nat, k: nat) {
    && o.firstMethod <= k < o.firstMethod + o.methodCount && k < |t.methods| && t.methods[k].id == id
    && forall j :: o.firstMethod <= j < k ==> t.methods[j].id != id
  }

  method FindMethod(t: Table, obj: nat, id: nat) returns (r: Option<MethodSchema>)
    ensures r.Some? ==> HasObject(t, obj)
    ensures r.Some? ==> exists k: nat :: IsFirstMethod(t, t.objects[obj], id, k) && r.value == t.methods[k]
    ensures r.None? && HasObject(t, obj) ==> forall k: nat :: !IsFirstMethod(t, t.objects[obj], id, k)
    ensures r == MethodOf(t, obj, id)
  {
    if !HasObject(t, obj) {
      return None;
    }
    var o := t.objects[obj];
    var i := 0;
    while i < o.methodCount
      invariant 0 <= i <= o.methodCount && (i > 0 ==> o.firstMethod + i <= |t.methods|)
      invariant forall j :: o.firstMethod <= j < o.firstMethod + i ==> t.methods[j].id != id
      invariant MethodFrom(t, o, id, 0) == MethodFrom(t, o, id, i)
    {
      var idx := o.firstMethod + i;
      if idx >= |t.methods| {
        return None;
      }
      if t.methods[idx].id == id {
        assert IsFirstMethod(t, o, id, idx);
        return Some(t.methods[idx]);
      }
      i := i + 1;
    }
    r := None;
  }

  function MethodFrom(t: Table, o: ObjectSchema, id: nat, i: nat): Option<MethodSchema>
    decreases o.methodCount - i
  {
    if i >= o.methodCount || o.firstMethod + i >= |t.methods| then None
    else if t.methods[o.firstMethod + i].id == id then Some(t.methods[o.firstMethod + i])
    else MethodFrom(t, o, id, i + 1)
  }

  function MethodOf(t: Table, obj: nat, id: nat): Option<MethodSchema> {
    if HasObject(t, obj) then MethodFrom(t, t.objects[obj], id, 0) else None
  }

  // ----- The factory's handler -----

  /** A request's `i`-th data word, where the handler looks for it: past the eight-byte
      header and the eight-byte root pointer. */
  function DataWord(msg: seq<byte>, i: nat): Word
    requires 16 + 8 * i + 8 <= |msg|
  {
    Le64(msg, 16 + 8 * i)
  }

  function CreateReply(handle: Word): seq<byte> {
    LeBytes(0, 4) + (LeBytes(2, 4) + (LeBytes(StructWord(0, 1, 0), 8) + LeBytes(handle, 8)))
  }

  /** How much of a message the handler reads without looking at its length. */
  function HandlerReads(methodId: nat): nat {
    if methodId == METHOD_CREATE then 56 else if methodId == METHOD_DESTROY then 24 else 0
  }

  /** The operation that a factory request asks for. */
  function RequestOp(methodId: nat, msg: seq<byte>): Op
    requires methodId == METHOD_CREATE || methodId == METHOD_DESTROY
    requires |msg| >= HandlerReads(methodId)
  {
    if methodId == METHOD_CREATE then
      Create(DataWord(msg, 4),
             NewRecord(DataWord(msg, 0), DataWord(msg, 1), DataWord(msg, 2), DataWord(msg, 3) % 0x1_0000))
    else Destroy(DataWord(msg, 0))
  }

  /** What the factory answers: a handle, when there is a slot and room for the answer. */
  function FactoryReply(methodId: nat, msg: seq<byte>, cap: nat): seq<byte>
    requires |msg| >= HandlerReads(methodId)
  {
    if methodId == METHOD_CREATE && DataWord(msg, 4) != 0 && cap >= 24 then CreateReply(DataWord(msg, 4)) else []
  }

  function FactoryEffect(factory: Addr, mem: map<Addr, Record>, methodId: nat, msg: seq<byte>): map<Addr, Record>
    requires |msg| >= HandlerReads(methodId)
  {
    if methodId != METHOD_CREATE && methodId != METHOD_DESTROY then mem
    else
      var op := RequestOp(methodId, msg);
      if RefusedEarly(factory, op) then mem else Alone(mem, op)
  }

  /** A factory request that passed validation is long enough for what the handler reads,
      and with the root at offset 0 what it reads is the request's data section. */
  lemma RequestIsLong(msg: seq<byte>, id: nat)
    requires MethodOf(FACTORY_TABLE, 0, id).Some?
    requires V.ValidMessage(msg, FACTORY_TABLE, MethodOf(FACTORY_TABLE, 0, id).value.param)
    requires V.Segment(msg) != [] && V.Pointers(V.Segment(msg))[0].offset == 0
    ensures (id == METHOD_CREATE || id == METHOD_DESTROY) && |msg| >= HandlerReads(id)
    ensures var words := if id == METHOD_CREATE then CREATE_REQUEST_WORDS else 1;
            && |msg| >= 16 + 8 * words
            && |V.Segment(msg)| >= 8 + 8 * words
            && forall i :: 0 <= i < words ==> DataWord(msg, i) == Le64(V.Segment(msg), 8 + 8 * i)
  {
    hide Le64, V.Segment, V.Pointers;
    MethodsOfFactory(id);
    var words := if id == METHOD_CREATE then CREATE_REQUEST_WORDS else 1;
    RootHasData(V.Pointers(V.Segment(msg)), if id == METHOD_CREATE then 0 else 2, words);
    V.SegmentFits(msg);
    forall i | 0 <= i < words ensures DataWord(msg, i) == Le64(V.Segment(msg), 8 + 8 * i) {
      V.SegmentWord(msg, 8 + 8 * i);
    }
  }

  lemma MethodsOfFactory(id: nat)
    ensures MethodOf(FACTORY_TABLE, 0, id) ==
            if id == METHOD_CREATE then Some(MethodSchema(METHOD_CREATE, 0, 1))
            else if id == METHOD_DESTROY then Some(MethodSchema(METHOD_DESTROY, 2, IDX_NONE))
            else None
  {
    var o := FACTORY_TABLE.objects[0];
    assert MethodFrom(FACTORY_TABLE, o, id, 2) == None;
    assert MethodFrom(FACTORY_TABLE, o, id, 1) == if id == 1 then Some(FACTORY_TABLE.methods[1]) else None;
  }

  lemma RootHasData(ps: seq<Pointer>, schema: nat, words: nat)
    requires V.ValidRoot(ps, FACTORY_TABLE, schema) && ps[0].offset == 0
    requires schema < 3 && FACTORY_TABLE.structs[schema].dataWords == words && words > 0
    ensures |ps| >= 1 + words
  {
  }

  lemma ReplyFits(id: nat, msg: seq<byte>, cap: nat)
    requires |msg| >= HandlerReads(id)
    ensures |FactoryReply(id, msg, cap)| <= cap
  {
    hide LeBytes, Le64;
  }

  /** CREATE's answer has its declared shape, whatever the handle. */
  lemma CreateReplyIsValid(handle: Word)
    ensures |CreateReply(handle)| == 24 && V.ValidMessage(CreateReply(handle), FACTORY_TABLE, 1)
  {
    hide LeBytes, Le, Decode;
    var msg := CreateReply(handle);
    var body := LeBytes(StructWord(0, 1, 0), 8) + LeBytes(handle, 8);
    Pow256Values();
    assert HasAt(msg, 0, LeBytes(0, 4) + (LeBytes(2, 4) + body));
    HasAtConcat(msg, 0, LeBytes(0, 4), LeBytes(2, 4) + body);
    LeRoundTrip(msg, 0, 0, 4);
    HasAtConcat(msg, 4, LeBytes(2, 4), body);
    LeRoundTrip(msg, 4, 2, 4);
    var seg := V.Segment(msg);
    assert seg == body;
    HasAtConcat(seg, 0, LeBytes(StructWord(0, 1, 0), 8), LeBytes(handle, 8));
    LeRoundTrip(seg, 0, StructWord(0, 1, 0), 8);
    DecodeStruct(0, 1, 0);
  }

  // ----- kernel_invoke -----

  /** The record, method and table that a call is dispatched on. */
  datatype Dispatch = Dispatch(record: Record, table: Table, m: MethodSchema)

  /** The tables that records point at; an address without one is a null table. */
  type Tables = map<nat, Table>

  ghost function DispatchOf(mem: map<Addr, Record>, tables: Tables, target: Addr, id: nat, msg: seq<byte>)
    : Option<Dispatch>
  {
    if Live(At(mem, target)) then DispatchOn(At(mem, target), tables, id, msg) else None
  }

  /** ...from the record on, which the call has its own copy of. */
  ghost function DispatchOn(r: Record, tables: Tables, id: nat, msg: seq<byte>): Option<Dispatch> {
    if r.table !in tables then None
    else
      var t := tables[r.table];
      var m := MethodOf(t, r.index, id);
      if m.None? || !V.ValidMessage(msg, t, m.value.param) then None
      else Some(Dispatch(r, t, m.value))
  }

  /** Only the factory's record runs the factory's handler, and by the factory's table. */
  ghost predicate FactoryAlone(mem: map<Addr, Record>, tables: Tables, factory: Addr, code: nat) {
    forall a :: Live(At(mem, a)) && At(mem, a).handler == code ==>
      && a == factory && At(mem, a).index == 0
      && At(mem, a).table in tables && tables[At(mem, a).table] == FACTORY_TABLE
  }

  /** That stays so unless a CREATE installs the factory's handler elsewhere... */
  lemma StaysAlone(mem: map<Addr, Record>, tables: Tables, factory: Addr, code: nat, op: Op)
    requires FactoryAlone(mem, tables, factory, code)
    requires op.Create? ==> op.record.handler != code
    ensures FactoryAlone(Alone(mem, op), tables, factory, code)
  {
    var after := Alone(mem, op);
    forall a ensures At(after, a) == At(mem, a) || !Live(At(after, a)) || At(after, a).handler != code {}
  }

  /** ...and then every call that reaches the handler, with its root at offset 0, brings all
      that the handler reads. */
  lemma DispatchedIsLong(mem: map<Addr, Record>, tables: Tables, factory: Addr, code: nat,
                         target: Addr, id: nat, msg: seq<byte>)
    requires FactoryAlone(mem, tables, factory, code)
    requires DispatchOf(mem, tables, target, id, msg).Some? && At(mem, target).handler == code
    requires V.Segment(msg) != [] && V.Pointers(V.Segment(msg))[0].offset == 0
    ensures |msg| >= HandlerReads(id)
  {
    hide V.ValidMessage, V.Segment, V.Pointers, Le64, MethodOf, HandlerReads;
    RequestIsLong(msg, id);
  }

  /** What a handler other than the factory's leaves in the response buffer, all of which is
      its to write, and how much of it it reports. */
  datatype Foreign = Foreign(written: seq<byte>, len: nat) {
    predicate Valid() { len <= |written| }
  }

  /** A kernel and the memory it manages. `code` is the address of the factory's handler. */
  class Kernel {
    var mem: map<Addr, Record>
    const tables: Tables
    const factory: Addr
    const code: nat

    constructor (mem: map<Addr, Record>, tables: Tables, factory: Addr, code: nat)
      ensures this.mem == mem && this.tables == tables && this.factory == factory && this.code == code
    {
      this.mem := mem;
      this.tables := tables;
      this.factory := factory;
      this.code := code;
    }

    /** The reply, before it is checked: the factory's, or as much of what a foreign handler
        wrote as it reports. */
    ghost function Reply(d: Dispatch, id: nat, msg: seq<byte>, foreign: Foreign): seq<byte>
      requires foreign.Valid()
    {
      if d.record.handler != code then foreign.written[..foreign.len]
      else if |msg| < HandlerReads(id) then []
      else FactoryReply(id, msg, |foreign.written|)
    }

    ghost function Effect(d: Dispatch, id: nat, msg: seq<byte>, before: map<Addr, Record>): map<Addr, Record> {
      if d.record.handler != code || |msg| < HandlerReads(id) then before
      else FactoryEffect(factory, before, id, msg)
    }

    /** The call succeeds exactly when the handle is live, the method is the first of its id
        in the object's run, and request and reply have their declared shapes. A call that
        fails before dispatch changes nothing; one that fails after it leaves the whole
        response zero. `foreign` is what a handler other than the factory's does. */
    method Invoke(target: Addr, id: nat, msg: seq<byte>, response: array<byte>, foreign: Foreign)
      returns (ok: bool, len: nat)
      requires foreign.Valid() && |foreign.written| == response.Length
      requires DispatchOf(mem, tables, target, id, msg).Some? && At(mem, target).handler == code ==>
                 |msg| >= HandlerReads(id)
      modifies this, response
      ensures DispatchOf(old(mem), tables, target, id, msg).None? ==>
                !ok && len == 0 && mem == old(mem) && response[..] == old(response[..])
      ensures var d := DispatchOf(old(mem), tables, target, id, msg); d.Some? ==>
                && mem == Effect(d.value, id, msg, old(mem))
                && var reply := Reply(d.value, id, msg, foreign);
                && |reply| <= response.Length
                && (ok <==> d.value.m.result == IDX_NONE || V.ValidMessage(reply, d.value.table, d.value.m.result))
                && (ok ==> len == |reply| && response[..len] == reply)
                && (ok && d.value.record.handler == code ==> response[len..] == old(response[..])[len..])
                && (!ok ==> len == 0 && response[..] == Zeros(response.Length))
    {
      hide V.ValidMessage, V.Segment, V.Pointers, FactoryReply, Le64, MethodOf, Alone;
      len := 0;
      var record := At(mem, target);
      if record.magic != MAGIC || record.valid == 0 {
        return false, 0;
      }
      if record.table !in tables {
        return false, 0;
      }
      var t := tables[record.table];
      var m := FindMethod(t, record.index, id);
      if m.None? {
        return false, 0;
      }
      var fine := V.ValidateMessage(msg, t, m.value.param);
      if !fine {
        return false, 0;
      }
      var reply := foreign.written[..foreign.len];
      if record.handler != code {
        CopyOut(response, foreign.written);
      } else {
        reply := FactoryReply(id, msg, response.Length);
        mem := FactoryEffect(factory, mem, id, msg);
        ReplyFits(id, msg, response.Length);
        CopyOut(response, reply);
      }
      len := |reply|;
      if m.value.result != IDX_NONE {
        fine := V.ValidateMessage(reply, t, m.value.result);
        if !fine {
          Wipe(response);
          return false, 0;
        }
      }
      ok := true;
    }
  }

  /** The handler writes its reply at the start of the response buffer. */
  method CopyOut(response: array<byte>, reply: seq<byte>)
    requires |reply| <= response.Length
    modifies response
    ensures response[..] == reply + old(response[..])[|reply|..]
  {
    forall k | 0 <= k < |reply| {
      response[k] := reply[k];
    }
  }

  method Wipe(response: array<byte>)
    modifies response
    ensures response[..] == Zeros(response.Length)
  {
    for i := 0 to response.Length
      invariant forall j :: 0 <= j < i ==> response[j] == 0
    {
      response[i] := 0;
    }
  }
}
