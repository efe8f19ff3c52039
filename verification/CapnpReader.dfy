/** What acceptance is good for: whoever reads an accepted message the way its schema says
    stays inside the segment, on paths of bounded length. And acceptance is monotone. */
module CapnpReader {
  import opened Bytes
  import opened Capnp
  import opened CapnpValidate

  /** A place in a message: a struct of known section sizes, or a pointer slot; each with the
      schema it is read by. */
  datatype Place =
    | StructAt(off: int, data: nat, ptrs: nat, schema: nat)
    | SlotAt(off: int, s: PointerSchema)

  // ----- The reader, from schema and message alone -----

  /** The reader's moves: from a struct to each slot that its schema declares and the message
      has, and from a slot to the struct, or to each element of the composite list, that it
      points to. A null, far, capability or untyped pointer leads nowhere. */
  ghost predicate Follows(ps: seq<Pointer>, t: Table, x: Place, y: Place) {
    match x
    case StructAt(off, data, ptrs, schema) =>
      HasStruct(t, schema) && exists i: nat :: IsNthSlot(t, t.structs[schema], off, data, ptrs, i, y)
    case SlotAt(p, s) =>
      0 <= p < |ps| &&
      var ptr := ps[p];
      var target := p + 1 + ptr.offset;
      match s.kind
      case StructPtr => ptr.tag.Struct? && y == StructAt(target, ptr.dataWords, ptr.ptrWords, s.elementStruct)
      case ListPtr =>
        && ptr.tag.List? && ptr.elementSize == 7 && 0 <= target < |ps|
        && exists i: nat :: IsNthElement(ps[target], target, i, s.elementStruct, y)
      case _ => false
  }

  /** Slot `i` of a struct: its pointer section comes after its data. */
  predicate IsNthSlot(t: Table, ss: StructSchema, off: int, data: nat, ptrs: nat, i: nat, y: Place) {
    && i < ss.pointerCount && i < ptrs && ss.firstPointer + i < |t.pointers|
    && y == SlotAt(off + data + i, t.pointers[ss.firstPointer + i])
  }

  /** Element `i` of the list whose tag word, at `target`, has the count in its offset field
      and every element's section sizes in its own. */
  predicate IsNthElement(tag: Pointer, target: int, i: nat, schema: nat, y: Place) {
    && i < tag.offset % TWO32
    && y == StructAt(target + 1 + i * (tag.dataWords + tag.ptrWords), tag.dataWords, tag.ptrWords, schema)
  }

  /** Bits of an element of a list, by the code for its size. */
  const ELEMENT_BITS: seq<nat> := [0, 1, 8, 16, 32, 64, 64, 0]

  /** The words that the reader touches at a place, as runs `[off, off + count)`: both
      sections of a struct; the slot's word; every byte of a text or blob; every element of a
      list, and the tag word before structs. */
  ghost predicate Touches(ps: seq<Pointer>, x: Place, off: int, count: nat) {
    match x
    case StructAt(o, data, ptrs, _) => off == o && count == data + ptrs
    case SlotAt(p, s) =>
      || (off == p && count == 1)
      || (&& 0 <= p < |ps| && ps[p].tag.List? && count == 1
          && var start := p + 1 + ps[p].offset;
          match s.kind
          case TextPtr => TouchesElement(8, ps[p].elementCount, off - start)
          case DataPtr => TouchesElement(8, ps[p].elementCount, off - start)
          case ListPtr =>
            if ps[p].elementSize == 7 then off == start
            else
              && ps[p].elementSize < 7
              && TouchesElement(ELEMENT_BITS[ps[p].elementSize], ps[p].elementCount, off - start)
          case _ => false)
  }

  /** The word, from the start of a list, that element `j` is in. */
  function WordOfElement(j: nat, bits: nat): nat {
    j * bits / 64
  }

  ghost predicate TouchesElement(bits: nat, count: nat, word: int) {
    bits > 0 && exists j: nat :: j < count && word == WordOfElement(j, bits)
  }

  /** A way from `x` along the reader's moves. */
  ghost predicate IsPath(ps: seq<Pointer>, t: Table, x: Place, path: seq<Place>) {
    && path != [] && path[0] == x
    && forall i :: 0 <= i < |path| - 1 ==> Follows(ps, t, path[i], path[i + 1])
  }

  function Root(ps: seq<Pointer>, schema: nat): Place
    requires ps != []
  {
    if ps[0].tag.Null? then StructAt(0, 0, 0, schema)
    else StructAt(1 + ps[0].offset, ps[0].dataWords, ps[0].ptrWords, schema)
  }

  // ----- What is in order at one place -----

  /** `words` words from `off` on are in a segment of `n`. */
  predicate Room(n: nat, off: int, words: nat) {
    0 <= off && off + words <= n
  }

  predicate RoomForBits(n: nat, off: int, bits: nat) {
    0 <= off <= n && bits <= 64 * (n - off)
  }

  /** A struct has the data its schema asks for, and the schema an entry for each of its slots. */
  predicate StructInOrder(t: Table, data: nat, ptrs: nat, schema: nat) {
    schema == IDX_NONE ||
    (&& HasStruct(t, schema)
     && var ss := t.structs[schema];
     && ss.dataWords <= data
     && forall i: nat :: i < ptrs && i < ss.pointerCount ==> HasEntry(t, ss, i))
  }

  predicate HasEntry(t: Table, ss: StructSchema, i: nat) {
    ss.firstPointer != IDX_NONE && ss.firstPointer + i < |t.pointers|
  }

  /** A slot is in the segment, and what it holds is null or of its schema's kind, with all that
      it points to in the segment. */
  predicate SlotInOrder(ps: seq<Pointer>, p: int, s: PointerSchema) {
    0 <= p < |ps| &&
    var ptr, start := ps[p], p + 1 + ps[p].offset;
    ptr.tag.Null? ||
    match s.kind
    case AnyPtr => !ptr.tag.Far?
    case CapPtr => ptr.tag.Capability?
    case StructPtr => ptr.tag.Struct? && Room(|ps|, start, ptr.dataWords + ptr.ptrWords)
    case TextPtr => ptr.tag.List? && ptr.elementSize == 2 && RoomForBits(|ps|, start, 8 * ptr.elementCount)
    case DataPtr => ptr.tag.List? && ptr.elementSize == 2 && RoomForBits(|ps|, start, 8 * ptr.elementCount)
    case ListPtr =>
      && ptr.tag.List? && (s.listElementSize == ANY_SIZE || s.listElementSize == ptr.elementSize)
      && ptr.elementSize < 8
      && if ptr.elementSize < 7 then RoomForBits(|ps|, start, ELEMENT_BITS[ptr.elementSize] * ptr.elementCount)
         else
           && Room(|ps|, start, 1 + ptr.elementCount)
           && (ps[start].offset % TWO32) * (ps[start].dataWords + ps[start].ptrWords) <= ptr.elementCount
    case UnknownPtr => false
  }

  predicate InOrder(ps: seq<Pointer>, t: Table, x: Place) {
    match x
    case StructAt(_, data, ptrs, schema) => StructInOrder(t, data, ptrs, schema)
    case SlotAt(p, s) => SlotInOrder(ps, p, s)
  }

  // ----- The validator's steps are the reader's -----

  /** The validator accepts a struct if and only if it is in order and every slot that the
      reader goes to from it is accepted. */
  lemma StructValidIff(ps: seq<Pointer>, t: Table, x: Place, depth: nat)
    requires x.StructAt?
    ensures ValidStruct(ps, t, x.off, x.data, x.ptrs, x.schema, depth) <==>
            && StructInOrder(t, x.data, x.ptrs, x.schema)
            && forall y :: Follows(ps, t, x, y) ==> y.SlotAt? && ValidSlot(ps, t, y.off, y.s, depth)
  {
    hide ValidSlot;
    if HasStruct(t, x.schema) {
      var ss, start := t.structs[x.schema], x.off + x.data;
      if ValidStruct(ps, t, x.off, x.data, x.ptrs, x.schema, depth) {
        assert ValidRun(ps, t, start, ss.firstPointer, Slots(ss, x.ptrs), depth);
        forall i: nat | i < x.ptrs && i < ss.pointerCount ensures HasEntry(t, ss, i) {
          assert ValidNth(ps, t, start, ss.firstPointer, i, depth);
        }
        forall y | Follows(ps, t, x, y) ensures y.SlotAt? && ValidSlot(ps, t, y.off, y.s, depth) {
          var i: nat :| IsNthSlot(t, ss, x.off, x.data, x.ptrs, i, y);
          assert ValidNth(ps, t, start, ss.firstPointer, i, depth);
        }
      }
      if StructInOrder(t, x.data, x.ptrs, x.schema)
         && (forall y :: Follows(ps, t, x, y) ==> y.SlotAt? && ValidSlot(ps, t, y.off, y.s, depth)) {
        forall i | 0 <= i < Slots(ss, x.ptrs) ensures ValidNth(ps, t, start, ss.firstPointer, i, depth) {
          assert HasEntry(t, ss, i);
          var y := SlotAt(start + i, t.pointers[ss.firstPointer + i]);
          assert IsNthSlot(t, ss, x.off, x.data, x.ptrs, i, y);
          assert Follows(ps, t, x, y);
        }
        assert ValidRun(ps, t, start, ss.firstPointer, Slots(ss, x.ptrs), depth);
      }
    }
  }

  lemma WordsAreBits(n: nat, off: int, bits: nat)
    ensures InBounds(n, off, (bits + 63) / 64) <==> RoomForBits(n, off, bits)
  {
  }

  lemma BytesAreBits(bytes: nat)
    ensures (bytes + 7) / 8 == (8 * bytes + 63) / 64
  {
  }

  /** What the validator tests of a pointer to something without pointers of its own. */
  lemma FlatIff(ps: seq<Pointer>, p: int, s: PointerSchema)
    requires 0 <= p < |ps| && ps[p].tag.List? && ps[p].elementSize < 7
    ensures InBounds(|ps|, Target(p, ps[p]), TextWords(ps[p])) <==>
            RoomForBits(|ps|, p + 1 + ps[p].offset, 8 * ps[p].elementCount)
    ensures InBounds(|ps|, Target(p, ps[p]), ListWords(ps[p])) <==>
            RoomForBits(|ps|, p + 1 + ps[p].offset, ELEMENT_BITS[ps[p].elementSize] * ps[p].elementCount)
  {
    hide RoomForBits, InBounds;
    BytesAreBits(ps[p].elementCount);
    WordsAreBits(|ps|, p + 1 + ps[p].offset, 8 * ps[p].elementCount);
    assert BitsPerElement(ps[p].elementSize) == ELEMENT_BITS[ps[p].elementSize];
    WordsAreBits(|ps|, p + 1 + ps[p].offset, ELEMENT_BITS[ps[p].elementSize] * ps[p].elementCount);
  }

  /** The elements that the validator visits are those that the reader goes to. */
  lemma ElementsIff(ps: seq<Pointer>, t: Table, target: nat, total: nat, schema: nat, depth: nat)
    requires target < |ps|
    ensures ValidElements(ps, t, target, total, schema, depth) <==>
            && (ps[target].offset % TWO32) * (ps[target].dataWords + ps[target].ptrWords) <= total
            && forall i: nat, y :: IsNthElement(ps[target], target, i, schema, y) ==>
                 y.StructAt? && ValidStruct(ps, t, y.off, y.data, y.ptrs, y.schema, depth)
  {
    hide ValidStruct;
    var tag := ps[target];
    assert ElementWords(tag) * TagCount(tag) == (tag.offset % TWO32) * (tag.dataWords + tag.ptrWords);
    if ValidElements(ps, t, target, total, schema, depth) {
      forall i: nat, y | IsNthElement(tag, target, i, schema, y)
        ensures y.StructAt? && ValidStruct(ps, t, y.off, y.data, y.ptrs, y.schema, depth)
      {
        assert ValidElement(ps, t, target, i, schema, depth);
      }
    } else if forall i :: 0 <= i < TagCount(tag) ==> ValidElement(ps, t, target, i, schema, depth) {
    } else {
      var i :| 0 <= i < TagCount(tag) && !ValidElement(ps, t, target, i, schema, depth);
      var y := StructAt(target + 1 + i * (tag.dataWords + tag.ptrWords), tag.dataWords, tag.ptrWords, schema);
      assert IsNthElement(tag, target, i, schema, y);
    }
  }

  ghost predicate NextStructsValid(ps: seq<Pointer>, t: Table, x: Place, depth: nat) {
    forall y :: Follows(ps, t, x, y) ==> y.StructAt? && ValidStruct(ps, t, y.off, y.data, y.ptrs, y.schema, depth)
  }

  /** The validator accepts a slot if and only if it is not too deep, is in order, and every
      struct that the reader goes to from it is accepted. */
  lemma SlotValidIff(ps: seq<Pointer>, t: Table, x: Place, depth: nat)
    requires x.SlotAt? && forall i :: 0 <= i < |ps| ==> ps[i].elementSize < 8
    ensures ValidSlot(ps, t, x.off, x.s, depth) <==>
            depth <= MAX_DEPTH && SlotInOrder(ps, x.off, x.s) && NextStructsValid(ps, t, x, depth + 1)
  {
    hide ValidStruct, TextWords, ListWords, ValidElements;
    var p, s := x.off, x.s;
    if 0 <= p < |ps| && !ps[p].tag.Null? {
      var ptr, target := ps[p], p + 1 + ps[p].offset;
      if s.kind.StructPtr? && ptr.tag.Struct? {
        var y := StructAt(target, ptr.dataWords, ptr.ptrWords, s.elementStruct);
        assert Follows(ps, t, x, y);
      } else if ptr.tag.List? && ptr.elementSize < 7 {
        FlatIff(ps, p, s);
      } else if s.kind.ListPtr? && ptr.tag.List? && 0 <= target < |ps| {
        ElementsIff(ps, t, target, ptr.elementCount, s.elementStruct, depth + 1);
        assert NextStructsValid(ps, t, x, depth + 1) <==>
               forall i: nat, y :: IsNthElement(ps[target], target, i, s.elementStruct, y) ==>
                 y.StructAt? && ValidStruct(ps, t, y.off, y.data, y.ptrs, y.schema, depth + 1) by
        {
          forall i: nat, y | IsNthElement(ps[target], target, i, s.elementStruct, y) ensures Follows(ps, t, x, y) {}
        }
      }
    }
  }

  // ----- Acceptance, by the reader's paths -----

  predicate Sized(ps: seq<Pointer>) {
    forall i :: 0 <= i < |ps| ==> ps[i].elementSize < 8
  }

  lemma PointersAreSized(seg: seq<byte>)
    ensures Sized(Pointers(seg))
  {
    hide Le64;
  }

  /** From `x`, the reader makes at most `n` stops, and everything is in order at each. */
  ghost predicate AllInOrder(ps: seq<Pointer>, t: Table, x: Place, n: nat) {
    forall path :: IsPath(ps, t, x, path) ==> |path| <= n && InOrder(ps, t, path[|path| - 1])
  }

  ghost predicate NextInOrder(ps: seq<Pointer>, t: Table, x: Place, n: nat) {
    forall y :: Follows(ps, t, x, y) ==> AllInOrder(ps, t, y, n)
  }

  lemma OneStop(ps: seq<Pointer>, t: Table, x: Place, n: nat)
    ensures AllInOrder(ps, t, x, n) <==> n >= 1 && InOrder(ps, t, x) && NextInOrder(ps, t, x, n - 1)
  {
    hide Follows, InOrder;
    if AllInOrder(ps, t, x, n) {
      assert IsPath(ps, t, x, [x]);
      forall y, path | Follows(ps, t, x, y) && IsPath(ps, t, y, path)
        ensures |path| <= n - 1 && InOrder(ps, t, path[|path| - 1])
      {
        var long := [x] + path;
        forall i | 0 <= i < |long| - 1 ensures Follows(ps, t, long[i], long[i + 1]) {
          if i > 0 {
            assert Follows(ps, t, path[i - 1], path[i]);
          }
        }
        assert IsPath(ps, t, x, long);
      }
    }
    if n >= 1 && InOrder(ps, t, x) && NextInOrder(ps, t, x, n - 1) {
      forall path | IsPath(ps, t, x, path) ensures |path| <= n && InOrder(ps, t, path[|path| - 1]) {
        if |path| > 1 {
          assert Follows(ps, t, x, path[1]);
          TailIsPath(ps, t, x, path);
          assert AllInOrder(ps, t, path[1], n - 1);
        }
      }
    }
  }

  lemma TailIsPath(ps: seq<Pointer>, t: Table, x: Place, path: seq<Place>)
    requires IsPath(ps, t, x, path) && |path| > 1
    ensures IsPath(ps, t, path[1], path[1..])
  {
    hide Follows;
    forall i | 0 <= i < |path[1..]| - 1 ensures Follows(ps, t, path[1..][i], path[1..][i + 1]) {
      assert Follows(ps, t, path[i + 1], path[i + 2]);
    }
  }

  /** How many stops the validator's depth limit leaves. */
  function StopsLeft(x: Place, depth: nat): nat {
    if depth > MAX_DEPTH then (if x.StructAt? then 1 else 0)
    else 2 * (MAX_DEPTH + 1 - depth) + if x.StructAt? then 1 else 0
  }

  ghost predicate Accepts(ps: seq<Pointer>, t: Table, x: Place, depth: nat) {
    match x
    case StructAt(off, data, ptrs, schema) => ValidStruct(ps, t, off, data, ptrs, schema, depth)
    case SlotAt(p, s) => ValidSlot(ps, t, p, s, depth)
  }

  lemma {:induction false} AcceptsIff(ps: seq<Pointer>, t: Table, x: Place, depth: nat)
    requires Sized(ps)
    ensures Accepts(ps, t, x, depth) <==> AllInOrder(ps, t, x, StopsLeft(x, depth))
    decreases StopsLeft(x, depth)
  {
    hide ValidStruct, ValidSlot, Follows, AllInOrder, StructInOrder, SlotInOrder;
    var n := StopsLeft(x, depth);
    OneStop(ps, t, x, n);
    if x.StructAt? {
      StructValidIff(ps, t, x, depth);
      StructGoesToSlots(ps, t, x);
      forall y | Follows(ps, t, x, y)
        ensures ValidSlot(ps, t, y.off, y.s, depth) <==> AllInOrder(ps, t, y, n - 1)
      {
        AcceptsIff(ps, t, y, depth);
      }
    } else {
      SlotValidIff(ps, t, x, depth);
      if depth <= MAX_DEPTH {
        SlotGoesToStructs(ps, t, x);
        forall y | Follows(ps, t, x, y)
          ensures ValidStruct(ps, t, y.off, y.data, y.ptrs, y.schema, depth + 1) <==> AllInOrder(ps, t, y, n - 1)
        {
          AcceptsIff(ps, t, y, depth + 1);
        }
      }
    }
  }

  lemma StructGoesToSlots(ps: seq<Pointer>, t: Table, x: Place)
    requires x.StructAt?
    ensures forall y :: Follows(ps, t, x, y) ==> y.SlotAt?
  {
  }

  lemma SlotGoesToStructs(ps: seq<Pointer>, t: Table, x: Place)
    requires x.SlotAt?
    ensures forall y :: Follows(ps, t, x, y) ==> y.StructAt?
  {
  }

  /** The root word is null, or a struct with room for it. */
  predicate RootInOrder(ps: seq<Pointer>) {
    ps != [] &&
    (ps[0].tag.Null? || (ps[0].tag.Struct? && Room(|ps|, 1 + ps[0].offset, ps[0].dataWords + ps[0].ptrWords)))
  }

  const MOST_STOPS: nat := 35

  /** A segment is accepted if and only if its root is in order and every way of the reader from
      there is at most seventeen slots long and in order at every stop. */
  lemma AcceptedIff(ps: seq<Pointer>, t: Table, schema: nat)
    requires Sized(ps)
    ensures ValidRoot(ps, t, schema) <==> RootInOrder(ps) && AllInOrder(ps, t, Root(ps, schema), MOST_STOPS)
  {
    hide ValidStruct, AllInOrder;
    if ps != [] {
      AcceptsIff(ps, t, Root(ps, schema), 0);
    }
  }

  // ----- What the reader touches -----

  lemma StopInOrder(ps: seq<Pointer>, t: Table, x: Place, path: seq<Place>, n: nat, most: nat)
    requires AllInOrder(ps, t, x, most) && IsPath(ps, t, x, path) && n < |path|
    ensures InOrder(ps, t, path[n])
  {
    hide Follows, InOrder;
    var start := path[..n + 1];
    forall i | 0 <= i < n ensures Follows(ps, t, start[i], start[i + 1]) {
      assert Follows(ps, t, path[i], path[i + 1]);
    }
    assert IsPath(ps, t, x, start);
  }

  lemma ElementInside(n: nat, target: int, total: nat, words: nat, count: nat, i: nat)
    requires Room(n, target, 1 + total) && count * words <= total && i < count
    ensures Room(n, target + 1 + i * words, words)
  {
    assert (i + 1) * words <= count * words;
    assert (i + 1) * words == i * words + words;
  }

  /** A struct that a slot in order leads to is in the segment. */
  lemma StructHasRoom(ps: seq<Pointer>, t: Table, x: Place, y: Place)
    requires x.SlotAt? && SlotInOrder(ps, x.off, x.s) && Follows(ps, t, x, y)
    ensures y.StructAt? && Room(|ps|, y.off, y.data + y.ptrs)
  {
    if x.s.kind.ListPtr? {
      var p := x.off;
      var target := p + 1 + ps[p].offset;
      var tag := ps[target];
      var i: nat :| IsNthElement(tag, target, i, x.s.elementStruct, y);
      ElementInside(|ps|, target, ps[p].elementCount, tag.dataWords + tag.ptrWords, tag.offset % TWO32, i);
    }
  }

  lemma ElementTouched(n: nat, start: int, bits: nat, count: nat, word: int)
    requires RoomForBits(n, start, bits * count) && TouchesElement(bits, count, word)
    ensures Room(n, start + word, 1)
  {
    var j: nat :| j < count && word == WordOfElement(j, bits);
    EndOfElement(j, bits, count);
    WordBefore(j * bits, n - start);
  }

  lemma EndOfElement(j: nat, bits: nat, count: nat)
    requires j < count && bits > 0
    ensures j * bits < bits * count
  {
    assert (j + 1) * bits <= count * bits;
  }

  lemma WordBefore(bit: nat, words: nat)
    requires bit < 64 * words
    ensures bit / 64 < words
  {
  }

  lemma SlotTouches(ps: seq<Pointer>, x: Place, off: int, count: nat)
    requires x.SlotAt? && SlotInOrder(ps, x.off, x.s) && Touches(ps, x, off, count)
    ensures Room(|ps|, off, count)
  {
    hide TouchesElement;
    var p := x.off;
    var start := p + 1 + ps[p].offset;
    if off == p && count == 1 {
    } else if x.s.kind.ListPtr? {
      if ps[p].elementSize < 7 {
        ElementTouched(|ps|, start, ELEMENT_BITS[ps[p].elementSize], ps[p].elementCount, off - start);
      }
    } else {
      ElementTouched(|ps|, start, 8, ps[p].elementCount, off - start);
    }
  }

  /** Every word that a schema-directed reader of an accepted message touches, on a path of
      whatever length, lies inside the segment. */
  lemma ReaderStaysInside(msg: seq<byte>, t: Table, schema: nat, path: seq<Place>, n: nat, off: int, count: nat)
    requires schema != IDX_NONE && ValidMessage(msg, t, schema)
    requires var ps := Pointers(Segment(msg));
             IsPath(ps, t, Root(ps, schema), path) && n < |path| && Touches(ps, path[n], off, count)
    ensures 0 <= off && off + count <= |Segment(msg)| / 8
  {
    hide Touches, Pointers, Follows, AllInOrder, StructInOrder, SlotInOrder, ValidStruct, Segment;
    var ps := Pointers(Segment(msg));
    PointersAreSized(Segment(msg));
    AcceptedIff(ps, t, schema);
    StopInOrder(ps, t, Root(ps, schema), path, n, MOST_STOPS);
    if path[n].SlotAt? {
      SlotTouches(ps, path[n], off, count);
    } else {
      StructTouches(ps, path[n], off, count);
      if n > 0 {
        assert Follows(ps, t, path[n - 1], path[n]);
        StopInOrder(ps, t, Root(ps, schema), path, n - 1, MOST_STOPS);
        if path[n - 1].SlotAt? {
          StructHasRoom(ps, t, path[n - 1], path[n]);
        } else {
          StructGoesToSlots(ps, t, path[n - 1]);
        }
      }
    }
  }

  lemma StructTouches(ps: seq<Pointer>, x: Place, off: int, count: nat)
    requires x.StructAt? && Touches(ps, x, off, count)
    ensures off == x.off && count == x.data + x.ptrs
  {
  }

  /** No path from the root of an accepted message passes more than seventeen slots. */
  lemma PathsAreShort(seg: seq<byte>, t: Table, schema: nat, path: seq<Place>)
    requires ValidRoot(Pointers(seg), t, schema) && IsPath(Pointers(seg), t, Root(Pointers(seg), schema), path)
    ensures |path| <= MOST_STOPS
  {
    hide Follows, ValidStruct, IsPath, InOrder, Pointers;
    PointersAreSized(seg);
    AcceptedIff(Pointers(seg), t, schema);
  }

  lemma {:induction false} Pump(ps: seq<Pointer>, t: Table, x: Place, path: seq<Place>, i: nat, j: nat, n: nat)
    returns (long: seq<Place>)
    requires IsPath(ps, t, x, path) && i < j < |path| && path[i] == path[j]
    ensures IsPath(ps, t, x, long) && long[|long| - 1] == path[j] && |long| > n
    decreases n
  {
    hide Follows;
    if n == 0 {
      long := path[..j + 1];
    } else {
      var shorter := Pump(ps, t, x, path, i, j, n - 1);
      long := shorter + path[i + 1..j + 1];
      forall k | 0 <= k < |long| - 1 ensures Follows(ps, t, long[k], long[k + 1]) {
        if k < |shorter| - 1 {
          assert Follows(ps, t, shorter[k], shorter[k + 1]);
        } else if k == |shorter| - 1 {
          assert Follows(ps, t, path[i], path[i + 1]);
        } else {
          var m := i + 1 + (k - |shorter|);
          assert Follows(ps, t, path[m], path[m + 1]);
        }
      }
    }
  }

  /** So no reader of an accepted message can go round in a circle. */
  lemma NoCycle(seg: seq<byte>, t: Table, schema: nat, path: seq<Place>, i: nat, j: nat)
    requires ValidRoot(Pointers(seg), t, schema) && IsPath(Pointers(seg), t, Root(Pointers(seg), schema), path)
    requires i < j < |path|
    ensures path[i] != path[j]
  {
    hide Follows, IsPath, ValidStruct, Pointers;
    var ps := Pointers(seg);
    if path[i] == path[j] {
      var long := Pump(ps, t, Root(ps, schema), path, i, j, MOST_STOPS);
      PathsAreShort(seg, t, schema, long);
      assert false;
    }
  }

  // ----- Acceptance is monotone -----

  /** The words of `ps`, and perhaps more after them. */
  predicate Longer(ps: seq<Pointer>, qs: seq<Pointer>) {
    ps <= qs
  }

  /** Each struct schema of `u` asks for no more data words and no more pointer slots. */
  predicate Weaker(t: Table, u: Table) {
    && u.pointers == t.pointers && |u.structs| == |t.structs|
    && forall i :: 0 <= i < |t.structs| ==>
         && u.structs[i].dataWords <= t.structs[i].dataWords
         && u.structs[i].pointerCount <= t.structs[i].pointerCount
         && u.structs[i].firstPointer == t.structs[i].firstPointer
  }

  lemma {:induction false} SlotMonotone(ps: seq<Pointer>, qs: seq<Pointer>, t: Table, u: Table,
                                        p: int, s: PointerSchema, depth: nat)
    requires Longer(ps, qs) && Weaker(t, u) && ValidSlot(ps, t, p, s, depth)
    ensures ValidSlot(qs, u, p, s, depth)
    decreases DepthLeft(depth), 0
  {
    hide Weaker, ValidStruct, TextWords, ListWords;
    var ptr, target := ps[p], Target(p, ps[p]);
    if !ptr.tag.Null? {
      if s.kind.StructPtr? {
        StructMonotone(ps, qs, t, u, target, ptr.dataWords, ptr.ptrWords, s.elementStruct, depth + 1);
      } else if s.kind.ListPtr? && ptr.elementSize == COMPOSITE {
        ElementsMonotone(ps, qs, t, u, target, ptr.elementCount, s.elementStruct, depth + 1);
      }
    }
  }

  lemma {:induction false} ElementsMonotone(ps: seq<Pointer>, qs: seq<Pointer>, t: Table, u: Table,
                                            target: nat, total: nat, schema: nat, depth: nat)
    requires Longer(ps, qs) && Weaker(t, u) && target < |ps| && ValidElements(ps, t, target, total, schema, depth)
    ensures ValidElements(qs, u, target, total, schema, depth)
    decreases DepthLeft(depth), 2
  {
    hide Weaker, ValidStruct;
    var tag := ps[target];
    forall i | 0 <= i < TagCount(tag) ensures ValidElement(qs, u, target, i, schema, depth) {
      assert ValidElement(ps, t, target, i, schema, depth);
      StructMonotone(ps, qs, t, u, ElementAt(target, i, ElementWords(tag)), tag.dataWords, tag.ptrWords, schema, depth);
    }
  }

  lemma {:induction false} StructMonotone(ps: seq<Pointer>, qs: seq<Pointer>, t: Table, u: Table,
                                          off: int, data: nat, ptrs: nat, schema: nat, depth: nat)
    requires Longer(ps, qs) && Weaker(t, u) && ValidStruct(ps, t, off, data, ptrs, schema, depth)
    ensures ValidStruct(qs, u, off, data, ptrs, schema, depth)
    decreases DepthLeft(depth), 1
  {
    hide ValidSlot, Longer;
    if schema != IDX_NONE {
      var ss, uu, start := t.structs[schema], u.structs[schema], off + data;
      assert ValidRun(ps, t, start, ss.firstPointer, Slots(ss, ptrs), depth);
      forall i | 0 <= i < Slots(uu, ptrs) ensures ValidNth(qs, u, start, uu.firstPointer, i, depth) {
        assert ValidNth(ps, t, start, ss.firstPointer, i, depth);
        SlotMonotone(ps, qs, t, u, start + i, t.pointers[ss.firstPointer + i], depth);
      }
      assert ValidRun(qs, u, start, uu.firstPointer, Slots(uu, ptrs), depth);
    }
  }

  /** A message with the one segment `seg`. */
  function Framed(seg: seq<byte>): seq<byte> {
    LeBytes(0, 4) + (LeBytes(|seg| / 8, 4) + seg)
  }

  lemma SegmentOfFramed(seg: seq<byte>)
    requires |seg| % 8 == 0 && |seg| / 8 < TWO32
    ensures Segment(Framed(seg)) == seg
  {
    FramedIsFound(Framed(seg), seg);
  }

  /** The message consists of this one segment, framed, and perhaps more bytes after it. */
  ghost predicate IsFramed(msg: seq<byte>, seg: seq<byte>) {
    |seg| % 8 == 0 && |seg| / 8 < TWO32 && Framed(seg) <= msg
  }

  lemma FoundIsFramed(msg: seq<byte>)
    requires Segment(msg) != []
    ensures IsFramed(msg, Segment(msg))
  {
    hide Le, LeBytes;
    var seg := Segment(msg);
    LeBytesOf(msg, 0, 4);
    LeBytesOf(msg, 4, 4);
    assert |seg| == 8 * Le32(msg, 4);
    var head := msg[..8 + |seg|];
    assert head == msg[0..4] + (msg[4..8] + msg[8..8 + |seg|]);
    assert Framed(seg) == head;
  }

  lemma FramedIsFound(msg: seq<byte>, seg: seq<byte>)
    requires IsFramed(msg, seg)
    ensures Segment(msg) == seg
  {
    hide Le, LeBytes;
    Pow256Values();
    assert HasAt(msg, 0, LeBytes(0, 4) + (LeBytes(|seg| / 8, 4) + seg));
    HasAtConcat(msg, 0, LeBytes(0, 4), LeBytes(|seg| / 8, 4) + seg);
    LeRoundTrip(msg, 0, 0, 4);
    HasAtConcat(msg, 4, LeBytes(|seg| / 8, 4), seg);
    LeRoundTrip(msg, 4, |seg| / 8, 4);
    assert msg[8..8 + |seg|] == seg;
  }

  /** The validator finds a segment exactly where one is framed. */
  lemma SegmentIff(msg: seq<byte>, seg: seq<byte>)
    requires seg != []
    ensures Segment(msg) == seg <==> IsFramed(msg, seg)
  {
    hide Segment, IsFramed;
    if Segment(msg) == seg {
      FoundIsFramed(msg);
    } else if IsFramed(msg, seg) {
      FramedIsFound(msg, seg);
    }
  }

  /** A message is accepted if and only if it frames a segment that is in order wherever the
      reader goes. */
  lemma MessageAcceptedIff(msg: seq<byte>, t: Table, schema: nat)
    ensures ValidMessage(msg, t, schema) <==>
            schema == IDX_NONE ||
            (HasStruct(t, schema) && exists seg :: seg != [] && IsFramed(msg, seg) && SegmentInOrder(seg, t, schema))
  {
    hide Segment, ValidRoot, IsFramed, RootInOrder, AllInOrder, Pointers;
    var seg := Segment(msg);
    if seg != [] {
      SegmentIff(msg, seg);
      PointersAreSized(seg);
      AcceptedIff(Pointers(seg), t, schema);
      InOrderIsNotEmpty(seg, t, schema);
    } else {
      EmptyIsRefused(t, schema);
    }
    forall other | other != [] && IsFramed(msg, other) ensures other == seg {
      SegmentIff(msg, other);
    }
  }

  ghost predicate SegmentInOrder(seg: seq<byte>, t: Table, schema: nat) {
    RootInOrder(Pointers(seg)) && AllInOrder(Pointers(seg), t, Root(Pointers(seg), schema), MOST_STOPS)
  }

  lemma InOrderIsNotEmpty(seg: seq<byte>, t: Table, schema: nat)
    ensures RootInOrder(Pointers(seg)) ==> Pointers(seg) != []
  {
    hide Pointers;
  }

  lemma EmptyIsRefused(t: Table, schema: nat)
    ensures !ValidRoot(Pointers([]), t, schema)
  {
  }

  lemma PointersOfLonger(seg: seq<byte>, more: seq<byte>)
    requires |seg| % 8 == 0 && |more| % 8 == 0
    ensures Longer(Pointers(seg), Pointers(seg + more))
  {
    hide Decode;
    var ps, qs := Pointers(seg), Pointers(seg + more);
    forall i | 0 <= i < |ps| ensures ps[i] == qs[i] {
      LePrefix(seg, more, 8 * i, 8);
    }
  }

  lemma {:induction false} LePrefix(seg: seq<byte>, more: seq<byte>, p: nat, n: nat)
    requires p + n <= |seg|
    ensures Le(seg, p, n) == Le(seg + more, p, n)
    decreases n
  {
    if n > 0 {
      LePrefix(seg, more, p + 1, n - 1);
    }
  }

  /** Words appended to the segment, and a less demanding schema table, keep a message
      accepted. */
  lemma AcceptanceMonotone(seg: seq<byte>, more: seq<byte>, t: Table, u: Table, schema: nat)
    requires |seg| % 8 == 0 && |more| % 8 == 0 && (|seg| + |more|) / 8 < TWO32 && Weaker(t, u)
    requires ValidMessage(Framed(seg), t, schema)
    ensures ValidMessage(Framed(seg + more), u, schema)
  {
    hide Framed, Segment, Pointers, ValidStruct;
    SegmentOfFramed(seg);
    SegmentOfFramed(seg + more);
    if schema != IDX_NONE {
      var ps, qs := Pointers(seg), Pointers(seg + more);
      PointersOfLonger(seg, more);
      assert ValidRoot(ps, t, schema);
      if ps[0].tag.Null? {
        StructMonotone(ps, qs, t, u, 0, 0, 0, schema, 0);
      } else {
        StructMonotone(ps, qs, t, u, Target(0, ps[0]), ps[0].dataWords, ps[0].ptrWords, schema, 0);
      }
    }
  }
}
