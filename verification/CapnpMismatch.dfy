/** The list builder and the validator disagree on one field. The builder counts the tag
    word into the list pointer's word count; the validator, like the encoding
    specification's section "Lists", takes the count as the elements alone and wants one
    word more. So, as soon as the schema looks at the list at all, the validator refuses
    what the builder writes, except where the element count does not fit its field. */
module CapnpMismatch {
  import opened Bytes
  import opened Capnp
  import V = CapnpValidate
  import L = CapnpList

  // ----- The words of a built message, as the validator reads them -----

  /** The number of words that the header can say. */
  function Announced(data: seq<Word>, items: L.Items): nat {
    (|data| + |items.words| + 3) % TWO32
  }

  lemma SegmentOfBuilt(data: seq<Word>, items: L.Items)
    requires |data| < 0x1_0000 && items.Valid()
    ensures |V.Segment(L.Message(data, items))| == 8 * Announced(data, items)
  {
    hide L.WordsBytes, L.MessageWords, LeBytes, Le;
    var msg, head, body := L.Message(data, items), L.Header(|data| + |items.words| + 3),
                           L.WordsBytes(L.MessageWords(data, items));
    Pow256Values();
    BuiltSize(data, items);
    assert HasAt(msg, 0, head + body);
    HasAtConcat(msg, 0, head, body);
    HasAtConcat(msg, 0, LeBytes(0, 4), LeBytes(Announced(data, items), 4));
    LeRoundTrip(msg, 0, 0, 4);
    LeRoundTrip(msg, 4, Announced(data, items), 4);
  }

  lemma BuiltSize(data: seq<Word>, items: L.Items)
    requires |data| < 0x1_0000 && items.Valid()
    ensures |L.WordsBytes(L.MessageWords(data, items))| == 8 * (|data| + |items.words| + 3)
  {
  }

  lemma PointerOfBuilt(data: seq<Word>, items: L.Items, i: nat)
    requires |data| < 0x1_0000 && items.Valid() && i < Announced(data, items)
    ensures |V.Pointers(V.Segment(L.Message(data, items)))| == Announced(data, items)
    ensures V.Pointers(V.Segment(L.Message(data, items)))[i] == Decode(L.MessageWords(data, items)[i])
  {
    hide L.Message, L.MessageWords, Le64, V.Segment, Decode;
    SegmentOfBuilt(data, items);
    V.SegmentWord(L.Message(data, items), 8 * i);
    L.WordOfMessage(data, items, i);
  }

  lemma RootIsStruct(dataWords: nat)
    requires dataWords < 0x1_0000
    ensures Decode(L.RootWord(dataWords)) == Pointer(Struct, 0, dataWords, 1, 0, 0)
  {
    DecodeStruct(0, dataWords, 1);
  }

  lemma ListIsComposite(bodyWords: nat)
    ensures Decode(L.ListPtrWord(bodyWords)) == Pointer(List, 0, 0, 0, COMPOSITE, bodyWords % TWO29)
  {
    DecodeList(0, 7, bodyWords % TWO29);
  }

  /** The tag word as the validator reads it: the count as 30 signed bits made 32 unsigned
      ones, and a width that has the top bits of the count in it. */
  function ReadCount(items: L.Items): nat {
    Signed30(items.count % TWO30) % TWO32
  }

  function ReadWidth(items: L.Items): nat
    requires items.count < TWO32 && items.width < 0x1_0000
  {
    L.OrLow2(items.width, items.count / TWO30)
  }

  lemma TagIsRead(items: L.Items)
    requires items.count < TWO32 && items.width < 0x1_0000
    ensures var tag := Decode(L.TagWord(items.count, items.width));
            V.TagCount(tag) == ReadCount(items) && tag.dataWords == ReadWidth(items) && tag.ptrWords == 0
  {
    hide L.OrLow2, L.TagWord;
    L.TagFields(items.count, items.width);
  }

  // ----- What the validator accepts of it -----

  /** The list as the validator reads it fits: its words after the tag are announced, and its
      elements, by the tag, take no more. */
  predicate LooksShorter(data: seq<Word>, items: L.Items)
    requires items.count < TWO32 && items.width < 0x1_0000
  {
    var total := (1 + |items.words|) % TWO29;
    |data| + 3 + total <= Announced(data, items) && ReadWidth(items) * ReadCount(items) <= total
  }

  /** The schema of the elements, if there are any to check. */
  predicate ElementsPass(items: L.Items, t: Table, schema: nat)
    requires items.count < TWO32 && items.width < 0x1_0000
  {
    ReadCount(items) == 0 || schema == IDX_NONE ||
    (HasStruct(t, schema) && t.structs[schema].dataWords <= ReadWidth(items))
  }

  /** Whole elements of data words, whatever is in them. */
  lemma ElementsOfBuilt(ps: seq<Pointer>, items: L.Items, t: Table, target: nat, total: nat, schema: nat)
    requires items.count < TWO32 && items.width < 0x1_0000 && target < |ps|
    requires V.TagCount(ps[target]) == ReadCount(items)
    requires ps[target].dataWords == ReadWidth(items) && ps[target].ptrWords == 0
    ensures V.ValidElements(ps, t, target, total, schema, 1) <==>
            ReadWidth(items) * ReadCount(items) <= total && ElementsPass(items, t, schema)
  {
    hide ReadWidth, ReadCount;
    forall i | 0 <= i < ReadCount(items)
      ensures V.ValidElement(ps, t, target, i, schema, 1) <==>
              schema == IDX_NONE || (HasStruct(t, schema) && t.structs[schema].dataWords <= ReadWidth(items))
    {
      NoSlots(ps, t, V.ElementAt(target, i, V.ElementWords(ps[target])), ReadWidth(items), schema);
    }
    if ReadCount(items) > 0 {
      assert V.ValidElements(ps, t, target, total, schema, 1) ==> V.ValidElement(ps, t, target, 0, schema, 1);
    }
  }

  lemma NoSlots(ps: seq<Pointer>, t: Table, off: int, data: nat, schema: nat)
    ensures V.ValidStruct(ps, t, off, data, 0, schema, 1) <==>
            schema == IDX_NONE || (HasStruct(t, schema) && t.structs[schema].dataWords <= data)
  {
    if HasStruct(t, schema) {
      var ss := t.structs[schema];
      assert V.ValidRun(ps, t, off + data, ss.firstPointer, V.Slots(ss, 0), 1);
    }
  }

  /** A schema that looks at the list: its struct's first pointer, if the table has it, is a
      list of whatever elements. */
  predicate LooksAtList(t: Table, schema: nat) {
    && HasStruct(t, schema) && t.structs[schema].pointerCount >= 1
    && var first := t.structs[schema].firstPointer;
    first < |t.pointers| ==> t.pointers[first].kind == ListPtr
  }

  /** For every message the builder writes: when the validator accepts it. */
  lemma BuiltIsValidIff(data: seq<Word>, items: L.Items, t: Table, schema: nat)
    requires |data| < 0x1_0000 && items.Valid() && LooksAtList(t, schema)
    ensures V.ValidMessage(L.Message(data, items), t, schema) <==>
            var ss := t.structs[schema];
            && ss.dataWords <= |data| && ss.firstPointer != IDX_NONE && ss.firstPointer < |t.pointers|
            && t.pointers[ss.firstPointer].listElementSize in {ANY_SIZE, COMPOSITE}
            && LooksShorter(data, items) && ElementsPass(items, t, t.pointers[ss.firstPointer].elementStruct)
  {
    hide L.Message, V.Segment, V.Pointers, L.MessageWords, Decode, L.RootWord, L.ListPtrWord, L.TagWord,
         ElementsPass, ReadWidth, ReadCount, V.ValidElements;
    var ps, n, ss := V.Pointers(V.Segment(L.Message(data, items))), Announced(data, items), t.structs[schema];
    SegmentOfBuilt(data, items);
    L.MessageWordsAt(data, items);
    RootIsStruct(|data|);
    ListIsComposite(1 + |items.words|);
    TagIsRead(items);
    if n > 0 {
      PointerOfBuilt(data, items, 0);
    }
    if n > 1 + |data| {
      PointerOfBuilt(data, items, 1 + |data|);
    }
    if n > 2 + |data| {
      PointerOfBuilt(data, items, 2 + |data|);
    }
    OneSlot(ps, t, 1 + |data|, ss);
    if ss.firstPointer < |t.pointers| && n > 2 + |data| {
      ElementsOfBuilt(ps, items, t, 2 + |data|, (1 + |items.words|) % TWO29, t.pointers[ss.firstPointer].elementStruct);
    }
  }

  lemma OneSlot(ps: seq<Pointer>, t: Table, start: int, ss: StructSchema)
    requires ss.pointerCount >= 1
    ensures V.ValidRun(ps, t, start, ss.firstPointer, V.Slots(ss, 1), 0) <==>
            ss.firstPointer != IDX_NONE && ss.firstPointer < |t.pointers|
            && V.ValidSlot(ps, t, start, t.pointers[ss.firstPointer], 0)
  {
    hide V.ValidSlot;
    assert V.Slots(ss, 1) == 1;
    assert V.ValidRun(ps, t, start, ss.firstPointer, 1, 0) ==> V.ValidNth(ps, t, start, ss.firstPointer, 0, 0);
  }

  /** What fits its fields does not look shorter than it is: in particular everything that
      the builder's own reader reads back. */
  lemma FittingIsNotShorter(data: seq<Word>, items: L.Items)
    requires |data| < 0x1_0000 && items.Valid() && (items.count < TWO30 || 1 + |items.words| < TWO29)
    ensures !LooksShorter(data, items)
  {
    hide ReadCount, ReadWidth;
    assert Announced(data, items) <= |data| + |items.words| + 3;
    if 1 + |items.words| >= TWO29 {
      FittingTag(items);
      Grows(items.count, ReadCount(items), items.width);
    }
  }

  lemma FittingTag(items: L.Items)
    requires items.count < TWO30 && items.width < 0x1_0000
    ensures items.count <= ReadCount(items) && ReadWidth(items) == items.width
  {
    assert items.count % TWO30 == items.count && items.count / TWO30 == 0;
    assert Signed30(items.count) < 0 ==> ReadCount(items) == Signed30(items.count) + TWO32;
  }

  lemma Grows(a: nat, b: nat, c: nat)
    requires a <= b
    ensures a * c <= c * b
  {
  }

  /** The validator refuses every message of the builder whose element count fits its field,
      for every schema that looks at the list. */
  lemma BuilderIsRefused(data: seq<Word>, items: L.Items, t: Table, schema: nat)
    requires |data| < 0x1_0000 && items.Valid() && (items.count < TWO30 || 1 + |items.words| < TWO29)
    requires LooksAtList(t, schema)
    ensures !V.ValidMessage(L.Message(data, items), t, schema)
  {
    hide V.ValidMessage, LooksShorter;
    FittingIsNotShorter(data, items);
    BuiltIsValidIff(data, items, t, schema);
  }

  const LIST_TABLE: Table := Table([StructSchema(0, 1, 0)], [PointerSchema(ListPtr, IDX_NONE, ANY_SIZE)], [], [])

  lemma HugeLooksShorter(items: L.Items)
    requires items.count == TWO30 && items.width == 1 && |items.words| == TWO30
    ensures LooksShorter([], items) && ReadCount(items) == 0
  {
    hide ReadWidth;
    assert items.count % TWO30 == 0;
    assert 1 + |items.words| == 1 + 2 * TWO29;
    assert Announced([], items) == TWO30 + 3;
    assert ReadWidth(items) * 0 == 0;
  }

  /** A count that does not: 2^30 elements of one word are read as none, and accepted. */
  lemma HugeListIsAccepted(items: L.Items)
    requires items.count == TWO30 && items.width == 1 && |items.words| == TWO30
    ensures V.ValidMessage(L.Message([], items), LIST_TABLE, 0)
  {
    hide V.ValidMessage, L.Message, LooksShorter;
    HugeLooksShorter(items);
    BuiltIsValidIff([], items, LIST_TABLE, 0);
  }
}
