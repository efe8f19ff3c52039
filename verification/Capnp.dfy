/** Cap'n Proto words and pointers (the encoding specification's sections "Structs",
    "Lists" and "Serialization Over a Stream"), and the schema tables a message is
    checked against. */
module Capnp {
  import opened Bytes

  const TWO29: int := 0x2000_0000
  const TWO30: int := 0x4000_0000
  const TWO35: nat := 0x8_0000_0000
  const TWO48: nat := 0x1_0000_0000_0000

  // ----- Pointers -----

  datatype Tag = Null | Struct | List | Far | Capability

  datatype Pointer = Pointer(tag: Tag, offset: int, dataWords: nat, ptrWords: nat, elementSize: nat, elementCount: nat)

  /** The value of a 30-bit two's complement field. */
  function Signed30(v: nat): (r: int)
    requires v < TWO30
    ensures -TWO29 <= r < TWO29
  {
    if v >= TWO29 then v - TWO30 else v
  }

  function Decode(w: Word): (p: Pointer)
    ensures p.dataWords < 0x1_0000 && p.ptrWords < 0x1_0000 && p.elementSize < 8 && p.elementCount < TWO29
    ensures -TWO29 <= p.offset < TWO29
  {
    if w == 0 then Pointer(Null, 0, 0, 0, 0, 0)
    else
      match w % 4
      case 0 => Pointer(Struct, Signed30(w / 4 % TWO30), w / TWO32 % 0x1_0000, w / TWO48 % 0x1_0000, 0, 0)
      case 1 => Pointer(List, Signed30(w / 4 % TWO30), 0, 0, w / TWO32 % 8, w / TWO35 % TWO29)
      case 2 => Pointer(Far, w / 8 % TWO29, 0, 0, 0, 0)
      case _ => Pointer(Capability, 0, 0, 0, 0, 0)
  }

  function Field30(offset: int): (v: nat)
    requires -TWO29 <= offset < TWO29
    ensures v < TWO30 && Signed30(v) == offset
  {
    if offset < 0 then offset + TWO30 else offset
  }

  function StructWord(offset: int, data: nat, ptrs: nat): (w: Word)
    requires -TWO29 <= offset < TWO29 && data < 0x1_0000 && ptrs < 0x1_0000
  {
    4 * Field30(offset) + TWO32 * data + TWO48 * ptrs
  }

  function ListWord(offset: int, elementSize: nat, count: nat): (w: Word)
    requires -TWO29 <= offset < TWO29 && elementSize < 8 && count < TWO29
  {
    1 + 4 * Field30(offset) + TWO32 * elementSize + TWO35 * count
  }

  lemma StructFields(offset: int, data: nat, ptrs: nat)
    requires -TWO29 <= offset < TWO29 && data < 0x1_0000 && ptrs < 0x1_0000
    ensures var w := StructWord(offset, data, ptrs);
            && w % 4 == 0 && w / 4 % TWO30 == Field30(offset)
            && w / TWO32 % 0x1_0000 == data && w / TWO48 % 0x1_0000 == ptrs
  {
    var f, w, high := Field30(offset), StructWord(offset, data, ptrs), data + 0x1_0000 * ptrs;
    hide Field30;
    Split4(0, f + TWO30 * high);
    Split30(f, high);
    Split16(data, ptrs);
    Split32(4 * f, high);
    Split48(4 * f + TWO32 * data, ptrs);
    assert w == 4 * (f + TWO30 * high) == 4 * f + TWO32 * high == (4 * f + TWO32 * data) + TWO48 * ptrs;
  }

  lemma Split4(low: nat, high: nat)
    requires low < 4
    ensures (low + 4 * high) / 4 == high && (low + 4 * high) % 4 == low
  {
  }

  lemma Split16(low: nat, high: nat)
    requires low < 0x1_0000
    ensures (low + 0x1_0000 * high) % 0x1_0000 == low
  {
  }

  lemma Split30(low: nat, high: nat)
    requires low < TWO30
    ensures (low + TWO30 * high) % TWO30 == low
  {
  }

  lemma Split32(low: nat, high: nat)
    requires low < TWO32
    ensures (low + TWO32 * high) / TWO32 == high
  {
  }

  lemma Split48(low: nat, high: nat)
    requires low < TWO48
    ensures (low + TWO48 * high) / TWO48 == high
  {
  }

  /** Decoding undoes encoding; only the empty struct at offset 0 is read as null. */
  lemma DecodeStruct(offset: int, data: nat, ptrs: nat)
    requires -TWO29 <= offset < TWO29 && data < 0x1_0000 && ptrs < 0x1_0000
    ensures Decode(StructWord(offset, data, ptrs)) ==
            if offset == 0 && data == 0 && ptrs == 0 then Pointer(Null, 0, 0, 0, 0, 0)
            else Pointer(Struct, offset, data, ptrs, 0, 0)
  {
    StructFields(offset, data, ptrs);
  }

  lemma DecodeList(offset: int, elementSize: nat, count: nat)
    requires -TWO29 <= offset < TWO29 && elementSize < 8 && count < TWO29
    ensures Decode(ListWord(offset, elementSize, count)) == Pointer(List, offset, 0, 0, elementSize, count)
  {
    var f, w := Field30(offset), ListWord(offset, elementSize, count);
    assert w % 4 == 1 && w / 4 == f + TWO30 * (elementSize + 8 * count);
    assert w / TWO32 == elementSize + 8 * count;
    assert w / TWO35 == count;
  }

  /** The two low bits say what a word is, unless all of it is zero. */
  lemma TagOfWord(w: Word)
    ensures Decode(w).tag == if w == 0 then Null else [Struct, List, Far, Capability][w % 4]
  {
  }

  // ----- Schema tables -----

  const IDX_NONE: nat := 0xFFFF
  const ANY_SIZE: nat := 0xFF
  const COMPOSITE: nat := 7

  datatype Kind = AnyPtr | StructPtr | ListPtr | TextPtr | DataPtr | CapPtr | UnknownPtr

  datatype PointerSchema = PointerSchema(kind: Kind, elementStruct: nat, listElementSize: nat)
  datatype StructSchema = StructSchema(dataWords: nat, pointerCount: nat, firstPointer: nat)
  datatype MethodSchema = MethodSchema(id: nat, param: nat, result: nat)
  datatype ObjectSchema = ObjectSchema(firstMethod: nat, methodCount: nat)

  datatype Table = Table(structs: seq<StructSchema>, pointers: seq<PointerSchema>,
                         methods: seq<MethodSchema>, objects: seq<ObjectSchema>)

  predicate HasStruct(t: Table, i: nat) {
    i != IDX_NONE && i < |t.structs|
  }

  predicate HasObject(t: Table, i: nat) {
    i != IDX_NONE && i < |t.objects|
  }
}
