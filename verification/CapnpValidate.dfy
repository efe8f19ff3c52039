/** The message validator: a depth-limited, schema-directed check over untrusted words.

    `ValidSlot` and `ValidStruct` say which pointer slots and structs are accepted, on the
    words of a segment read as pointers; the methods are the recursive checker with its
    loops, proved to decide exactly that, on every message and every table. */
module CapnpValidate {
  import opened Bytes
  import opened Capnp

  const MAX_DEPTH: nat := 16

  predicate InBounds(n: nat, off: int, count: nat) {
    0 <= off <= n && count <= n - off
  }

  /** The words of a segment, each read as a pointer. */
  function Pointers(seg: seq<byte>): (ps: seq<Pointer>)
    ensures |ps| == |seg| / 8
  {
    seq(|seg| / 8, i requires 0 <= i < |seg| / 8 => Decode(Le64(seg, 8 * i)))
  }

  /** `w |= byte << 8 * i`, for the eight bytes of a word. */
  method ReadWord(seg: seq<byte>, p: nat) returns (w: Word)
    requires p < |seg| / 8
    ensures w == Le64(seg, 8 * p)
  {
    hide Le, Pow256;
    var acc := 0;
    NothingRead(seg, 8 * p);
    for i := 0 to 8
      invariant acc >= 0 && Partial(seg, 8 * p, i, acc)
    {
      ReadStep(seg, 8 * p, i, acc);
      var b: int := seg[8 * p + i];
      acc := acc + b * Pow256(i);
    }
    AllRead(seg, 8 * p, acc);
    w := acc;
  }

  /** The first `i` bytes of a word have been added up. */
  ghost predicate Partial(seg: seq<byte>, at: nat, i: nat, acc: int)
    requires at + 8 <= |seg| && i <= 8
  {
    acc + Pow256(i) * Le(seg, at + i, 8 - i) == Le(seg, at, 8)
  }

  lemma NothingRead(seg: seq<byte>, at: nat)
    requires at + 8 <= |seg|
    ensures Partial(seg, at, 0, 0)
  {
    hide Le;
  }

  lemma ReadStep(seg: seq<byte>, at: nat, i: nat, acc: int)
    requires at + 8 <= |seg| && i < 8 && Partial(seg, at, i, acc)
    ensures var b: int := seg[at + i]; b * Pow256(i) >= 0 && Partial(seg, at, i + 1, acc + b * Pow256(i))
  {
    var b: int, x, rest := seg[at + i], Pow256(i), Le(seg, at + i + 1, 8 - i - 1);
    assert Le(seg, at + i, 8 - i) == b + 0x100 * rest;
    assert Pow256(i + 1) == 0x100 * x;
    Distribute(x, b, rest);
  }

  lemma AllRead(seg: seq<byte>, at: nat, acc: int)
    requires at + 8 <= |seg| && Partial(seg, at, 8, acc)
    ensures acc == Le64(seg, at)
  {
    assert Le(seg, at + 8, 0) == 0;
    assert Pow256(8) * 0 == 0;
  }

  lemma Distribute(x: nat, b: int, rest: nat)
    ensures x * (b + 0x100 * rest) == b * x + (0x100 * x) * rest
    ensures b >= 0 ==> b * x >= 0
  {
  }

  // ----- What is accepted -----

  /** How many bits an element of a non-composite list takes. */
  function BitsPerElement(size: nat): nat {
    match size
    case 1 => 1
    case 2 => 8
    case 3 => 16
    case 4 => 32
    case 5 => 64
    case 6 => 64
    case _ => 0
  }

  function ListWords(ptr: Pointer): nat {
    (BitsPerElement(ptr.elementSize) * ptr.elementCount + 63) / 64
  }

  function TextWords(ptr: Pointer): nat {
    (ptr.elementCount + 7) / 8
  }

  /** Where the pointer at word `p` points. */
  function Target(p: int, ptr: Pointer): int {
    p + 1 + ptr.offset
  }

  /** The element count of a composite list is its tag word's offset, as 32 unsigned bits. */
  function TagCount(tag: Pointer): nat {
    tag.offset % TWO32
  }

  function ElementWords(tag: Pointer): nat {
    tag.dataWords + tag.ptrWords
  }

  function ElementAt(target: int, i: nat, words: nat): int {
    target + 1 + i * words
  }

  predicate SizeMatches(s: PointerSchema, ptr: Pointer) {
    s.listElementSize == ANY_SIZE || ptr.elementSize == s.listElementSize
  }

  /** How many of a struct's pointer slots the schema and the message both have. */
  function Slots(ss: StructSchema, ptrs: nat): nat {
    if ss.pointerCount > ptrs then ptrs else ss.pointerCount
  }

  function DepthLeft(depth: nat): nat {
    if depth <= MAX_DEPTH then MAX_DEPTH + 1 - depth else 0
  }

  ghost predicate ValidSlot(ps: seq<Pointer>, t: Table, p: int, s: PointerSchema, depth: nat)
    decreases DepthLeft(depth), 0
  {
    depth <= MAX_DEPTH && InBounds(|ps|, p, 1) &&
    var ptr := ps[p];
    var target := Target(p, ptr);
    ptr.tag.Null? ||
    (!ptr.tag.Far? &&
     match s.kind
     case AnyPtr => true
     case CapPtr => ptr.tag.Capability?
     case StructPtr =>
       && ptr.tag.Struct?
       && InBounds(|ps|, target, ptr.dataWords + ptr.ptrWords)
       && ValidStruct(ps, t, target, ptr.dataWords, ptr.ptrWords, s.elementStruct, depth + 1)
     case TextPtr => ptr.tag.List? && ptr.elementSize == 2 && InBounds(|ps|, target, TextWords(ptr))
     case DataPtr => ptr.tag.List? && ptr.elementSize == 2 && InBounds(|ps|, target, TextWords(ptr))
     case ListPtr =>
       ptr.tag.List? && SizeMatches(s, ptr) &&
       if ptr.elementSize != COMPOSITE then InBounds(|ps|, target, ListWords(ptr))
       else
         && InBounds(|ps|, target, ptr.elementCount + 1)
         && ValidElements(ps, t, target, ptr.elementCount, s.elementStruct, depth + 1)
     case UnknownPtr => false)
  }

  /** The composite list whose tag word is at `target` and whose elements take at most
      `total` words. */
  ghost predicate ValidElements(ps: seq<Pointer>, t: Table, target: int, total: nat, schema: nat, depth: nat)
    requires 0 <= target < |ps|
    decreases DepthLeft(depth), 4
  {
    && ElementWords(ps[target]) * TagCount(ps[target]) <= total
    && (forall i :: 0 <= i < TagCount(ps[target]) ==> ValidElement(ps, t, target, i, schema, depth))
  }

  ghost predicate ValidElement(ps: seq<Pointer>, t: Table, target: int, i: nat, schema: nat, depth: nat)
    requires 0 <= target < |ps|
    decreases DepthLeft(depth), 3
  {
    var tag := ps[target];
    ValidStruct(ps, t, ElementAt(target, i, ElementWords(tag)), tag.dataWords, tag.ptrWords, schema, depth)
  }

  ghost predicate ValidStruct(ps: seq<Pointer>, t: Table, off: int, data: nat, ptrs: nat, schema: nat, depth: nat)
    decreases DepthLeft(depth), 2
  {
    schema == IDX_NONE ||
    (&& HasStruct(t, schema)
     && data >= t.structs[schema].dataWords
     && ValidRun(ps, t, off + data, t.structs[schema].firstPointer, Slots(t.structs[schema], ptrs), depth))
  }

  /** `n` consecutive pointer slots, each against its entry of the run from `first`. */
  ghost predicate ValidRun(ps: seq<Pointer>, t: Table, start: int, first: nat, n: nat, depth: nat)
    decreases DepthLeft(depth), 1, 1
  {
    forall i :: 0 <= i < n ==> ValidNth(ps, t, start, first, i, depth)
  }

  ghost predicate ValidNth(ps: seq<Pointer>, t: Table, start: int, first: nat, i: nat, depth: nat)
    decreases DepthLeft(depth), 1, 0
  {
    first != IDX_NONE && first + i < |t.pointers| && ValidSlot(ps, t, start + i, t.pointers[first + i], depth)
  }

  // ----- The checker -----

  method ValidatePointerSlot(seg: seq<byte>, t: Table, p: int, s: PointerSchema, depth: nat) returns (ok: bool)
    ensures ok <==> ValidSlot(Pointers(seg), t, p, s, depth)
    decreases DepthLeft(depth), 0
  {
    hide Decode, Le64, ValidStruct, Pointers, ValidElements;
    if depth > MAX_DEPTH {
      return false;
    }
    if !InBounds(|seg| / 8, p, 1) {
      return false;
    }
    var ptr := PointerAt(seg, p);
    if ptr.tag.Null? {
      return true;
    }
    if s.kind.AnyPtr? {
      return !ptr.tag.Far?;
    }
    if ptr.tag.Far? {
      return false;
    }
    var target := p + 1 + ptr.offset;
    match s.kind
    case CapPtr =>
      return ptr.tag.Capability?;
    case StructPtr =>
      if !ptr.tag.Struct? {
        return false;
      }
      if !InBounds(|seg| / 8, target, ptr.dataWords + ptr.ptrWords) {
        return false;
      }
      ok := ValidateStructAt(seg, t, target, ptr.dataWords, ptr.ptrWords, s.elementStruct, depth + 1);
    case TextPtr =>
      return ptr.tag.List? && ptr.elementSize == 2 && InBounds(|seg| / 8, target, (ptr.elementCount + 7) / 8);
    case DataPtr =>
      return ptr.tag.List? && ptr.elementSize == 2 && InBounds(|seg| / 8, target, (ptr.elementCount + 7) / 8);
    case ListPtr =>
      if !ptr.tag.List? {
        return false;
      }
      if s.listElementSize != ANY_SIZE && ptr.elementSize != s.listElementSize {
        return false;
      }
      if ptr.elementSize == COMPOSITE {
        if !InBounds(|seg| / 8, target, ptr.elementCount + 1) {
          return false;
        }
        ok := ValidateElements(seg, t, target, ptr.elementCount, s.elementStruct, depth + 1);
        return;
      }
      var bits := BitsPerElement(ptr.elementSize) * ptr.elementCount;
      return InBounds(|seg| / 8, target, (bits + 63) / 64);
    case _ =>
      return false;
  }

  method PointerAt(seg: seq<byte>, p: int) returns (ptr: Pointer)
    requires 0 <= p < |seg| / 8
    ensures ptr == Pointers(seg)[p]
  {
    hide Decode, Le64;
    var w := ReadWord(seg, p);
    ptr := Decode(w);
  }

  /** The elements of a composite list whose tag word is at `target`. */
  method ValidateElements(seg: seq<byte>, t: Table, target: int, total: nat, schema: nat, depth: nat) returns (ok: bool)
    requires 0 <= target < |seg| / 8
    ensures ok <==> ValidElements(Pointers(seg), t, target, total, schema, depth)
    decreases DepthLeft(depth), 2
  {
    hide Decode, Le64, Pointers, ValidStruct;
    ghost var ps := Pointers(seg);
    var tag := PointerAt(seg, target);
    var count, words := tag.offset % TWO32, tag.dataWords + tag.ptrWords;
    ProductFits(seg, target);
    if words != 0 && count > total / words {
      TooMany(count, words, total);
      return false;
    }
    assert words * count < TWO64;
    if words * count > total {
      return false;
    }
    var i := 0;
    while i < count
      invariant 0 <= i <= count
      invariant forall j :: 0 <= j < i ==> ValidElement(ps, t, target, j, schema, depth)
    {
      var at := target + 1 + i * words;
      var fine := ValidateStructAt(seg, t, at, tag.dataWords, tag.ptrWords, schema, depth);
      assert fine <==> ValidElement(ps, t, target, i, schema, depth);
      if !fine {
        return false;
      }
      i := i + 1;
    }
    ok := true;
  }

  /** The product of the second test is computed in 64 bits, and fits them for every tag word. */
  lemma ProductFits(seg: seq<byte>, p: nat)
    requires p < |seg| / 8
    ensures var tag := Pointers(seg)[p]; ElementWords(tag) * TagCount(tag) < TWO64
  {
    hide Le64;
    var tag := Pointers(seg)[p];
    ProductBound(ElementWords(tag), TagCount(tag));
  }

  lemma ProductBound(x: nat, y: nat)
    requires x < 0x2_0000 && y < TWO32
    ensures x * y < TWO64
  {
    assert x * y <= 0x2_0000 * y;
  }

  lemma TooMany(count: nat, words: nat, total: nat)
    requires words != 0 && count > total / words
    ensures words * count > total
  {
    var q := total / words;
    assert total < words * (q + 1);
    assert words * (q + 1) <= words * count;
  }

  method ValidateStructAt(seg: seq<byte>, t: Table, off: int, data: nat, ptrs: nat, schema: nat, depth: nat)
    returns (ok: bool)
    ensures ok <==> ValidStruct(Pointers(seg), t, off, data, ptrs, schema, depth)
    decreases DepthLeft(depth), 1
  {
    hide Decode, Le64, Pointers, ValidSlot;
    if schema == IDX_NONE {
      return true;
    }
    if !HasStruct(t, schema) {
      return false;
    }
    var ss := t.structs[schema];
    if data < ss.dataWords {
      return false;
    }
    var slots := ss.pointerCount;
    if slots > ptrs {
      slots := ptrs;
    }
    var start := off + data;
    var i := 0;
    while i < slots
      invariant 0 <= i <= slots
      invariant forall j :: 0 <= j < i ==> ValidNth(Pointers(seg), t, start, ss.firstPointer, j, depth)
    {
      if ss.firstPointer == IDX_NONE {
        assert !ValidNth(Pointers(seg), t, start, ss.firstPointer, i, depth);
        return false;
      }
      var pi := ss.firstPointer + i;
      if pi >= |t.pointers| {
        assert !ValidNth(Pointers(seg), t, start, ss.firstPointer, i, depth);
        return false;
      }
      var fine := ValidatePointerSlot(seg, t, start + i, t.pointers[pi], depth);
      assert fine <==> ValidNth(Pointers(seg), t, start, ss.firstPointer, i, depth);
      if !fine {
        return false;
      }
      i := i + 1;
    }
    assert ValidRun(Pointers(seg), t, start, ss.firstPointer, Slots(ss, ptrs), depth);
    ok := true;
  }

  // ----- Whole messages -----

  const HEADER_BYTES: nat := 8

  /** The one segment of a message, if its framing is in order and it has a root word. */
  function Segment(msg: seq<byte>): (r: seq<byte>)
    ensures |r| <= |msg|
  {
    if |msg| < HEADER_BYTES || Le32(msg, 0) != 0 || |msg| - HEADER_BYTES < 8 * Le32(msg, 4) then []
    else msg[HEADER_BYTES..HEADER_BYTES + 8 * Le32(msg, 4)]
  }

  lemma SegmentFits(msg: seq<byte>)
    ensures Segment(msg) != [] ==> |msg| >= 8 + |Segment(msg)|
  {
  }

  /** The words of a segment are words of the message. */
  lemma SegmentWord(msg: seq<byte>, p: nat)
    requires p + 8 <= |Segment(msg)|
    ensures p + 16 <= |msg| && Le64(msg, 8 + p) == Le64(Segment(msg), p)
  {
    hide Le;
    LeSlice(msg, 8, Segment(msg), p, 8);
  }

  /** The struct that the root word stands for: null is the empty struct. */
  ghost predicate ValidRoot(ps: seq<Pointer>, t: Table, schema: nat) {
    |ps| >= 1 &&
    var root := ps[0];
    if root.tag.Null? then ValidStruct(ps, t, 0, 0, 0, schema, 0)
    else
      && root.tag.Struct?
      && InBounds(|ps|, Target(0, root), root.dataWords + root.ptrWords)
      && ValidStruct(ps, t, Target(0, root), root.dataWords, root.ptrWords, schema, 0)
  }

  ghost predicate ValidMessage(msg: seq<byte>, t: Table, schema: nat) {
    schema == IDX_NONE || (HasStruct(t, schema) && ValidRoot(Pointers(Segment(msg)), t, schema))
  }

  method ValidateMessage(msg: seq<byte>, t: Table, schema: nat) returns (ok: bool)
    ensures ok <==> ValidMessage(msg, t, schema)
  {
    hide Decode, Le64, Le32, Pointers, ValidStruct;
    if schema == IDX_NONE {
      return true;
    }
    if !HasStruct(t, schema) {
      return false;
    }
    if |msg| < 8 {
      return false;
    }
    var segmentCount := (Le32(msg, 0) + 1) % TWO32;
    if segmentCount != 1 {
      return false;
    }
    var segWords := Le32(msg, 4);
    if |msg| - HEADER_BYTES < 8 * segWords {
      return false;
    }
    var seg := msg[HEADER_BYTES..HEADER_BYTES + 8 * segWords];
    if segWords < 1 {
      return false;
    }
    var root := PointerAt(seg, 0);
    if root.tag.Null? {
      ok := ValidateStructAt(seg, t, 0, 0, 0, schema, 0);
      return;
    }
    if !root.tag.Struct? {
      return false;
    }
    var target := 1 + root.offset;
    if !InBounds(segWords, target, root.dataWords + root.ptrWords) {
      return false;
    }
    ok := ValidateStructAt(seg, t, target, root.dataWords, root.ptrWords, schema, 0);
  }
}
