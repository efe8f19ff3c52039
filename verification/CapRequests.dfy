/** Factory requests as a caller writes them, and what a call with one of them does. */
module CapRequests {
  import opened Wrappers
  import opened Bytes
  import opened Capnp
  import V = CapnpValidate
  import R = CapnpReader
  import L = CapnpList
  import opened CapMachine
  import opened CapKernel

  /** A message of one struct of data words. */
  function FlatMessage(data: seq<Word>): seq<byte>
    requires |data| < 0x1_0000
  {
    R.Framed(L.WordsBytes([StructWord(0, |data|, 0)] + data))
  }

  /** CREATE: handler, its data, schema table, index of the object in it, storage. */
  function CreateRequest(handler: Word, data: Word, table: Word, index: Word, slot: Word): seq<byte> {
    FlatMessage([handler, data, table, index, slot])
  }

  /** DESTROY: the handle. */
  function DestroyRequest(target: Word): seq<byte> {
    FlatMessage([target])
  }

  // ----- The handler finds the words that were written -----

  lemma FlatSegment(data: seq<Word>)
    requires |data| < 0x1_0000
    ensures var ws := [StructWord(0, |data|, 0)] + data;
            && V.Segment(FlatMessage(data)) == L.WordsBytes(ws) && |L.WordsBytes(ws)| == 8 * |ws|
            && |FlatMessage(data)| == 8 + 8 * |ws|
  {
    hide L.WordsBytes, LeBytes, V.Segment;
    var seg := L.WordsBytes([StructWord(0, |data|, 0)] + data);
    WordsLength([StructWord(0, |data|, 0)] + data);
    R.SegmentOfFramed(seg);
    FramedLength(seg);
  }

  lemma WordsLength(ws: seq<Word>)
    ensures |L.WordsBytes(ws)| == 8 * |ws|
  {
  }

  lemma FramedLength(seg: seq<byte>)
    ensures |R.Framed(seg)| == 8 + |seg|
  {
  }

  lemma FlatWord(data: seq<Word>, i: nat)
    requires |data| < 0x1_0000 && i < |data|
    ensures 16 + 8 * i + 8 <= |FlatMessage(data)| && DataWord(FlatMessage(data), i) == data[i]
  {
    hide L.WordsBytes, V.Segment, Le64, FlatMessage;
    var ws := [StructWord(0, |data|, 0)] + data;
    FlatSegment(data);
    var seg := L.WordsBytes(ws);
    L.WordOf(seg, 0, ws, 1 + i);
    V.SegmentWord(FlatMessage(data), 8 * (1 + i));
  }

  /** The message is accepted wherever its data words are all that the schema asks for. */
  lemma FlatIsValid(data: seq<Word>, t: Table, schema: nat)
    requires 0 < |data| < 0x1_0000 && HasStruct(t, schema)
    requires t.structs[schema].dataWords <= |data|
    ensures V.ValidMessage(FlatMessage(data), t, schema)
  {
    hide L.WordsBytes, V.Segment, Le64, FlatMessage, Decode, StructWord;
    var ws := [StructWord(0, |data|, 0)] + data;
    FlatSegment(data);
    L.WordOf(L.WordsBytes(ws), 0, ws, 0);
    DecodeStruct(0, |data|, 0);
    var ps := V.Pointers(V.Segment(FlatMessage(data)));
    assert ps[0] == Pointer(Struct, 0, |data|, 0, 0, 0);
    RootWithoutSlots(ps, t, schema, |data|);
  }

  lemma RootWithoutSlots(ps: seq<Pointer>, t: Table, schema: nat, n: nat)
    requires |ps| == 1 + n && ps[0] == Pointer(Struct, 0, n, 0, 0, 0)
    requires HasStruct(t, schema) && t.structs[schema].dataWords <= n
    ensures V.ValidRoot(ps, t, schema)
  {
    assert V.Slots(t.structs[schema], 0) == 0;
  }

  // ----- What the requests do -----

  /** The factory as the bootstrap leaves it. */
  ghost predicate FactoryAt(mem: map<Addr, Record>, tables: Tables, factory: Addr, code: nat) {
    var r := At(mem, factory);
    Live(r) && r.handler == code && r.index == 0 && r.table in tables && tables[r.table] == FACTORY_TABLE
  }

  /** A CREATE is dispatched, and leaves the given fields in the given slot and all else as it
      was; only a null slot leaves memory alone. */
  lemma CreateCreates(mem: map<Addr, Record>, tables: Tables, factory: Addr, code: nat,
                      handler: Word, data: Word, table: Word, index: Word, slot: Word)
    requires FactoryAt(mem, tables, factory, code) && index < 0x1_0000
    ensures var msg := CreateRequest(handler, data, table, index, slot);
            && |msg| >= HandlerReads(METHOD_CREATE)
            && DispatchOf(mem, tables, factory, METHOD_CREATE, msg).Some?
            && FactoryEffect(factory, mem, METHOD_CREATE, msg) ==
               if slot == 0 then mem else mem[slot := Record(MAGIC, 1, handler, data, table, index)]
  {
    hide FlatMessage, V.ValidMessage, Le64, MethodOf;
    var words: seq<Word> := [handler, data, table, index, slot];
    FlatSegment(words);
    FlatIsValid(words, FACTORY_TABLE, 0);
    MethodsOfFactory(METHOD_CREATE);
    FlatWord(words, 0);
    FlatWord(words, 1);
    FlatWord(words, 2);
    FlatWord(words, 3);
    FlatWord(words, 4);
  }

  /** A DESTROY is dispatched, and clears its target if that is live and not the factory. */
  lemma DestroyDestroys(mem: map<Addr, Record>, tables: Tables, factory: Addr, code: nat, target: Word)
    requires FactoryAt(mem, tables, factory, code)
    ensures var msg := DestroyRequest(target);
            && |msg| >= HandlerReads(METHOD_DESTROY)
            && DispatchOf(mem, tables, factory, METHOD_DESTROY, msg).Some?
            && var after := FactoryEffect(factory, mem, METHOD_DESTROY, msg);
            && (target == factory || !Live(At(mem, target)) ==> after == mem)
            && (target != factory ==> !Live(At(after, target)))
            && (target != factory && Live(At(mem, target)) ==> after == mem[target := Record(0, 0, 0, 0, 0, 0xFFFF)])
            && forall a :: a != target ==> At(after, a) == At(mem, a)
  {
    hide FlatMessage, V.ValidMessage, Le64, MethodOf;
    var words: seq<Word> := [target];
    FlatSegment(words);
    FlatIsValid(words, FACTORY_TABLE, 2);
    MethodsOfFactory(METHOD_DESTROY);
    FlatWord(words, 0);
  }

  /** The reply to a CREATE is a message whose one data word is the slot, and is no reply at all
      without a slot or without room. */
  lemma ReplyHasHandle(handler: Word, data: Word, table: Word, index: Word, slot: Word, cap: nat)
    requires |CreateRequest(handler, data, table, index, slot)| >= HandlerReads(METHOD_CREATE)
    ensures FactoryReply(METHOD_CREATE, CreateRequest(handler, data, table, index, slot), cap) ==
            if slot != 0 && cap >= 24 then FlatMessage([slot]) else []
  {
    hide Le64, V.Segment, LeBytes;
    var words: seq<Word> := [handler, data, table, index, slot];
    FlatWord(words, 4);
    ReplyIsFlat(slot);
  }

  lemma ReplyIsFlat(handle: Word)
    ensures CreateReply(handle) == FlatMessage([handle])
  {
    hide LeBytes;
    var ws := [StructWord(0, 1, 0)] + [handle];
    assert ws[1..] == [handle] && [handle][1..] == [];
    assert L.WordsBytes([handle]) == LeBytes(handle, 8) + [];
    assert L.WordsBytes(ws) == LeBytes(StructWord(0, 1, 0), 8) + LeBytes(handle, 8);
    assert |L.WordsBytes(ws)| / 8 == 2;
  }

  // ----- The calls -----

  /** A caller creates an object: the record is in its slot, whole, and every other one is as it
      was; with room for the reply the call succeeds and the reply carries the slot. Without
      room the object is there all the same, and the call reports failure. */
  method CreateObject(k: Kernel, handler: Word, data: Word, table: Word, index: Word, slot: Word, response: array<byte>)
    returns (ok: bool, len: nat)
    requires FactoryAt(k.mem, k.tables, k.factory, k.code) && index < 0x1_0000
    modifies k, response
    ensures k.mem == if slot == 0 then old(k.mem) else old(k.mem)[slot := Record(MAGIC, 1, handler, data, table, index)]
    ensures ok <==> slot != 0 && response.Length >= 24
    ensures ok ==> len == 24 && response[..24] == FlatMessage([slot]) && DataWord(response[..24], 0) == slot
    ensures !ok ==> len == 0 && response[..] == Zeros(response.Length)
  {
    hide FlatMessage, V.ValidMessage, Le64, MethodOf, FactoryEffect, FactoryReply, LeBytes;
    CreateCreates(k.mem, k.tables, k.factory, k.code, handler, data, table, index, slot);
    ReplyHasHandle(handler, data, table, index, slot, response.Length);
    FlatSegment([slot]);
    FlatWord([slot], 0);
    FlatIsValid([slot], FACTORY_TABLE, 1);
    EmptyIsInvalid(FACTORY_TABLE, 1);
    MethodsOfFactory(METHOD_CREATE);
    ok, len := k.Invoke(k.factory, METHOD_CREATE, CreateRequest(handler, data, table, index, slot), response,
                        Foreign(seq(response.Length, _ => 0), 0));
    if ok {
      assert response[..24] == response[..len];
    }
  }

  lemma EmptyIsInvalid(t: Table, schema: nat)
    requires schema != IDX_NONE
    ensures !V.ValidMessage([], t, schema)
  {
  }

  /** A caller destroys an object: it is dead afterwards, unless it is the factory, and every
      other record is as it was. */
  method DestroyObject(k: Kernel, target: Word, response: array<byte>) returns (ok: bool)
    requires FactoryAt(k.mem, k.tables, k.factory, k.code)
    modifies k, response
    ensures ok && response[..] == old(response[..])
    ensures target != k.factory ==> !Live(At(k.mem, target))
    ensures target == k.factory || !old(Live(At(k.mem, target))) ==> k.mem == old(k.mem)
    ensures forall a :: a != target ==> At(k.mem, a) == old(At(k.mem, a))
  {
    hide FlatMessage, V.ValidMessage, Le64, MethodOf, FactoryEffect;
    DestroyDestroys(k.mem, k.tables, k.factory, k.code, target);
    MethodsOfFactory(METHOD_DESTROY);
    var len;
    ok, len := k.Invoke(k.factory, METHOD_DESTROY, DestroyRequest(target), response,
                        Foreign(seq(response.Length, _ => 0), 0));
    assert response[0..] == response[..];
  }
}
