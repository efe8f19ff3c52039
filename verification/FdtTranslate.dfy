/** `fdt_reg_to_cpu_addr`: a register window, translated bus by bus to the root. */
module FdtTranslate {
  import opened Wrappers
  import opened Bytes
  import opened FdtTree
  import opened FdtLexer
  import opened FdtWalk
  import opened FdtProps
  import opened FdtCells

  /** "reg" */
  const REG: seq<byte> := [0x72, 0x65, 0x67]
  /** "ranges" */
  const RANGES: seq<byte> := [0x72, 0x61, 0x6e, 0x67, 0x65, 0x73]

  /** Below this, no product of a cell count leaves 32 bits. */
  const CELL_LIMIT: nat := 0x1000_0000

  datatype Range = Range(base: nat, size: nat)

  /** How many bytes a number of `cells` cells takes at least. */
  function Width(cells: nat): nat {
    if cells == 1 then 4 else 8
  }

  /** One cell is a 32-bit number; any other count reads the first two cells. */
  function ReadCells(v: seq<byte>, p: nat, cells: nat): (r: nat)
    requires p + Width(cells) <= |v|
    ensures r < TWO64
  {
    if cells == 1 then Be32(v, p) else Be64(v, p)
  }

  // ----- Windows -----

  datatype Window = Window(child: nat, parent: nat, size: nat)

  /** The code's test, in 64-bit arithmetic. */
  predicate Contains(w: Window, b: nat) {
    w.child <= b < (w.child + w.size) % TWO64
  }

  function Through(w: Window, b: nat): (r: nat)
    requires w.child <= b
    ensures r < TWO64
  {
    (w.parent + (b - w.child)) % TWO64
  }

  /** An entry of `ranges`: child address, parent address, length. */
  function WindowAt(v: seq<byte>, p: nat, a: nat, b: nat, s: nat): Window
    requires 1 <= a && 1 <= b && 1 <= s && p + 4 * (a + b + s) <= |v|
  {
    Window(ReadCells(v, p, a), ReadCells(v, p + 4 * a, b), ReadCells(v, p + 4 * (a + b), s))
  }

  /** The entries from position `p` on; a rest too short for an entry is ignored. */
  function WindowsFrom(v: seq<byte>, p: nat, a: nat, b: nat, s: nat): (ws: seq<Window>)
    requires 1 <= a && 1 <= b && 1 <= s
    decreases |v| - p
  {
    if p + 4 * (a + b + s) > |v| then []
    else [WindowAt(v, p, a, b, s)] + WindowsFrom(v, p + 4 * (a + b + s), a, b, s)
  }

  /** The map of one bus: through the first window that contains the address. */
  function MapThrough(ws: seq<Window>, b: nat): Option<nat> {
    if ws == [] then None
    else if Contains(ws[0], b) then Some(Through(ws[0], b))
    else MapThrough(ws[1..], b)
  }

  // ----- The translation on a tree -----

  function OrTwo(v: Option<nat>): nat {
    if v.None? || v.value == 0 then DEFAULT_CELLS else v.value
  }

  /** The windows of the bus at `q`: child addresses and lengths by the bus's own counts,
      parent addresses by the counts that size the bus's own entries. */
  function BusWindows(str: seq<byte>, t: Tree, q: Path, ranges: seq<byte>): seq<Window>
    requires IsNode(t, q)
  {
    WindowsFrom(ranges, 0,
                OrTwo(OwnCellsIn(str, Sub(t, q), ADDRESS_CELLS)),
                OrTwo(Some(SizingCells(str, t, q, ADDRESS_CELLS))),
                OrTwo(OwnCellsIn(str, Sub(t, q), SIZE_CELLS)))
  }

  /** A bus without `ranges`, or with an empty one, passes addresses unchanged. */
  function BusMap(str: seq<byte>, t: Tree, q: Path, b: nat): Option<nat>
    requires IsNode(t, q)
  {
    match PropIn(str, Sub(t, q).props, RANGES)
    case None => Some(b)
    case Some(ranges) => if ranges == [] then Some(b) else MapThrough(BusWindows(str, t, q, ranges), b)
  }

  /** The bus maps from `q` up to the child of the root, composed. Past depth sixteen the
      parent is not found and the address stays as it is. */
  function Upward(str: seq<byte>, t: Tree, q: Path, b: nat): Option<nat>
    requires IsNode(t, q)
    decreases |q|
  {
    if q == [] || |q| > MAX_DEPTH then Some(b)
    else
      match BusMap(str, t, q, b)
      case None => None
      case Some(up) => ParentPath(t, q); Upward(str, t, Parent(q), up)
  }

  function RegEntry(str: seq<byte>, t: Tree, q: Path, index: nat): Option<Range>
    requires IsNode(t, q)
  {
    var ac, sc := SizingCells(str, t, q, ADDRESS_CELLS), SizingCells(str, t, q, SIZE_CELLS);
    var reg := PropIn(str, Sub(t, q).props, REG);
    if reg.None? || ac == 0 then None else RangeIn(reg.value, index, ac, sc)
  }

  /** Entry `index` starts after as many entries of `size` bytes. */
  function EntryPos(index: nat, size: nat): nat {
    index * size
  }

  function EntryCount(len: nat, size: nat): nat
    requires size > 0
  {
    len / size
  }

  function RangeIn(v: seq<byte>, index: nat, ac: nat, sc: nat): Option<Range>
    requires 1 <= ac
  {
    var entry := 4 * (ac + sc);
    var p := EntryPos(index, entry);
    if p + entry > |v| then None else Some(RangeAt(v, p, ac, sc))
  }

  /** An entry of `reg`: address, length. */
  function RangeAt(v: seq<byte>, p: nat, ac: nat, sc: nat): Range
    requires 1 <= ac && p + 4 * (ac + sc) <= |v|
  {
    Range(ReadCells(v, p, ac), if sc == 0 then 0 else ReadCells(v, p + 4 * ac, sc))
  }

  function CpuRange(str: seq<byte>, t: Tree, q: Path, index: nat): Option<Range>
    requires IsNode(t, q)
  {
    var e := RegEntry(str, t, q, index);
    if e.None? then None
    else
      var base := Upward(str, t, q, e.value.base);
      if base.None? then None else Some(Range(base.value, e.value.size))
  }

  /** No node declares a cell count so large that 32-bit arithmetic on it would wrap. */
  ghost predicate SaneCells(str: seq<byte>, t: Tree) {
    forall q, name :: IsNode(t, q) && IsCount(name) && OwnCellsIn(str, Sub(t, q), name).Some? ==>
      OwnCellsIn(str, Sub(t, q), name).value < CELL_LIMIT
  }

  predicate IsCount(name: seq<byte>) {
    name == ADDRESS_CELLS || name == SIZE_CELLS
  }

  lemma {:induction false} SaneNearest(str: seq<byte>, t: Tree, q: Path, name: seq<byte>)
    requires SaneCells(str, t) && IsNode(t, q) && IsCount(name)
    ensures Nearest(str, t, q, name) < CELL_LIMIT
    decreases |q|
  {
    hide OwnCellsIn;
    if OwnCellsIn(str, Sub(t, q), name) == None && q != [] {
      ParentPath(t, q);
      SaneNearest(str, t, Parent(q), name);
    }
  }

  lemma SaneSizing(str: seq<byte>, t: Tree, q: Path, name: seq<byte>)
    requires SaneCells(str, t) && IsNode(t, q) && IsCount(name)
    ensures SizingCells(str, t, q, name) < CELL_LIMIT
  {
    hide SaneCells, Nearest;
    if 0 < |q| <= MAX_DEPTH {
      ParentPath(t, q);
      SaneNearest(str, t, Parent(q), name);
    }
  }

  // ----- The code -----

  /** The counts by which the code reads the `ranges` of the bus at `q`. */
  method BusCells(c: Ctx, cur: int, ghost t: Tree, ghost q: Path) returns (a: nat, b: nat, s: nat)
    requires Encodes(c, t) && IsNode(t, q) && cur == NodeOff(c, t, q)
    requires Terminated(c.str) && SaneCells(c.str, t)
    ensures a == OrTwo(OwnCellsIn(c.str, Sub(t, q), ADDRESS_CELLS)) && 1 <= a < CELL_LIMIT
    ensures b == OrTwo(Some(SizingCells(c.str, t, q, ADDRESS_CELLS))) && 1 <= b < CELL_LIMIT
    ensures s == OrTwo(OwnCellsIn(c.str, Sub(t, q), SIZE_CELLS)) && 1 <= s < CELL_LIMIT
  {
    hide Encodes, CellsFrom, PropOf, PropIn, ParentOf, SizingCells, Pos;
    assert IsCount(ADDRESS_CELLS) && IsCount(SIZE_CELLS);
    var busAc, _ := ParentCells(c, cur);
    ParentCellsOnTree(c, t, q, ADDRESS_CELLS);
    SaneSizing(c.str, t, q, ADDRESS_CELLS);
    var ownAc := OwnCells(c, cur, ADDRESS_CELLS);
    GetPropOnTree(c, t, q, ADDRESS_CELLS);
    var ownSc := OwnCells(c, cur, SIZE_CELLS);
    GetPropOnTree(c, t, q, SIZE_CELLS);
    a := if ownAc.Some? then ownAc.value else 2;
    if a == 0 {
      a := 2;
    }
    b := if busAc != 0 then busAc else 2;
    s := if ownSc.Some? then ownSc.value else 2;
    s := if s != 0 then s else 2;
  }

  lemma EntryFits(len: nat, size: nat, i: nat)
    requires size > 0
    ensures i < EntryCount(len, size) <==> EntryPos(i, size) + size <= len
    ensures EntryPos(i + 1, size) == EntryPos(i, size) + size
  {
    var n := len / size;
    assert len == n * size + len % size;
    if i < n {
      assert (i + 1) * size <= n * size;
    } else {
      assert n * size <= i * size;
    }
  }

  /** The loop over the entries of one `ranges`, in the code's 32- and 64-bit arithmetic. */
  method MapAddress(ranges: seq<byte>, a: nat, b: nat, s: nat, base: nat) returns (r: Option<nat>)
    requires 1 <= a < CELL_LIMIT && 1 <= b < CELL_LIMIT && 1 <= s < CELL_LIMIT
    ensures r == MapThrough(WindowsFrom(ranges, 0, a, b, s), base)
  {
    hide EntryPos, EntryCount, ReadCells, Through;
    var entry := (a + b + s) * 4 % TWO32;
    assert entry == 4 * (a + b + s);
    var n := EntryCount(|ranges|, entry);
    var i := 0;
    FirstEntry(entry);
    while i < n
      invariant 0 <= i <= n
      invariant MapThrough(WindowsFrom(ranges, 0, a, b, s), base) ==
                MapThrough(WindowsFrom(ranges, EntryPos(i, entry), a, b, s), base)
    {
      EntryFits(|ranges|, entry, i);
      var e := EntryPos(i, entry);
      var cbase := ReadCells(ranges, e, a);
      var pbase := ReadCells(ranges, e + a * 4, b);
      var rsize := ReadCells(ranges, e + (a + b) * 4, s);
      var w := Window(cbase, pbase, rsize);
      if Contains(w, base) {
        return Some(Through(w, base));
      }
      i := i + 1;
    }
    EntryFits(|ranges|, entry, n);
    r := None;
  }

  lemma FirstEntry(size: nat)
    ensures EntryPos(0, size) == 0
  {
  }

  method RegToCpuAddr(c: Ctx, node: int, index: nat, ghost t: Tree, ghost path: Path) returns (r: Option<Range>)
    requires Encodes(c, t) && IsNode(t, path) && node == NodeOff(c, t, path)
    requires Terminated(c.str) && SaneCells(c.str, t)
    requires index < TWO32 - 1
    ensures r == CpuRange(c.str, t, path, index)
  {
    hide Encodes, CellsFrom, PropOf, PropIn, ParentOf, SizingCells, Pos, SaneCells, IsNode, Sub, Upward,
         ReadCells, EntryPos;
    var ac, sc := ParentCells(c, node);
    ParentCellsOnTree(c, t, path, ADDRESS_CELLS);
    ParentCellsOnTree(c, t, path, SIZE_CELLS);
    SaneSizing(c.str, t, path, ADDRESS_CELLS);
    SaneSizing(c.str, t, path, SIZE_CELLS);
    var reg := GetProp(c, node, REG);
    GetPropOnTree(c, t, path, REG);
    if reg.None? || ac == 0 {
      return None;
    }
    var entry := (ac + sc) * 4 % TWO32;
    assert entry == 4 * (ac + sc);
    EntryFits(|reg.value|, entry, index);
    if EntryPos((index + 1) % TWO32, entry) > |reg.value| {
      return None;
    }
    var e := EntryPos(index, entry);
    var base := ReadCells(reg.value, e, ac);
    var size := if sc != 0 then ReadCells(reg.value, e + ac * 4, sc) else 0;
    var up := WalkUp(c, node, base, t, path);
    r := if up.None? then None else Some(Range(up.value, size));
  }

  lemma OnlyRootAtZero(t: Tree, q: Path)
    requires IsNode(t, q) && Pos(t, q) == 0
    ensures q == []
  {
  }

  /** Up through the buses; the walk starts at the device itself. */
  method WalkUp(c: Ctx, node: int, start: nat, ghost t: Tree, ghost path: Path) returns (r: Option<nat>)
    requires Encodes(c, t) && IsNode(t, path) && node == NodeOff(c, t, path)
    requires Terminated(c.str) && SaneCells(c.str, t)
    ensures r == Upward(c.str, t, path, start)
  {
    hide Encodes, PropOf, PropIn, ParentOf, SizingCells, Pos, SaneCells, IsNode, Sub, MapThrough,
         WindowsFrom, OwnCellsIn, OrTwo;
    var cur, base := node, start;
    ghost var q := path;
    while true
      invariant IsNode(t, q) && cur == NodeOff(c, t, q)
      invariant Upward(c.str, t, path, start) == Upward(c.str, t, q, base)
      decreases |q|
    {
      ParentOnTree(c, t, q);
      var parent := ParentOffset(c, cur);
      if parent < 0 {
        break;
      }
      ParentPath(t, q);
      var ranges := GetProp(c, cur, RANGES);
      GetPropOnTree(c, t, q, RANGES);
      if ranges.None? || |ranges.value| == 0 {
        cur, q := parent, Parent(q);
        continue;
      }
      var a, b, s := BusCells(c, cur, t, q);
      var mapped := MapAddress(ranges.value, a, b, s, base);
      if mapped.None? {
        return None;
      }
      base := mapped.value;
      cur, q := parent, Parent(q);
      if cur == 0 {
        OnlyRootAtZero(t, q);
        break;
      }
    }
    r := Some(base);
  }

  // ----- What the translation promises -----

  /** The window neither wraps on the child's side nor on the parent's. */
  predicate NoWrap(w: Window) {
    w.child + w.size < TWO64 && w.parent + w.size < TWO64
  }

  predicate Apart(w: Window, v: Window) {
    w.parent + w.size <= v.parent || v.parent + v.size <= w.parent
  }

  predicate GoodWindows(ws: seq<Window>) {
    && (forall i :: 0 <= i < |ws| ==> NoWrap(ws[i]))
    && (forall i, j :: 0 <= i < j < |ws| ==> Apart(ws[i], ws[j]))
  }

  /** Which window an address goes through. */
  lemma {:induction false} MappedBy(ws: seq<Window>, b: nat) returns (k: nat)
    requires MapThrough(ws, b).Some?
    ensures k < |ws| && Contains(ws[k], b) && MapThrough(ws, b) == Some(Through(ws[k], b))
    ensures forall j :: 0 <= j < k ==> !Contains(ws[j], b)
  {
    hide Contains, Through;
    if Contains(ws[0], b) {
      k := 0;
    } else {
      k := MappedBy(ws[1..], b);
      assert forall j :: 1 <= j < k + 1 ==> ws[j] == ws[1..][j - 1];
      k := k + 1;
    }
  }

  /** Without wrap-around the window is an interval, moved. */
  lemma ThroughMoves(w: Window, b: nat)
    requires NoWrap(w) && Contains(w, b)
    ensures w.child <= b < w.child + w.size && Through(w, b) == w.parent + (b - w.child)
  {
  }

  lemma ThroughInjective(w: Window, v: Window, b1: nat, b2: nat)
    requires NoWrap(w) && NoWrap(v) && Contains(w, b1) && Contains(v, b2)
    requires Through(w, b1) == Through(v, b2)
    ensures !Apart(w, v) && !Apart(v, w) && (w == v ==> b1 == b2)
  {
    ThroughMoves(w, b1);
    ThroughMoves(v, b2);
    hide Through, Contains, NoWrap;
  }

  /** Two addresses that a bus maps to one were one. */
  lemma MapInjective(ws: seq<Window>, b1: nat, b2: nat)
    requires GoodWindows(ws) && MapThrough(ws, b1).Some? && MapThrough(ws, b1) == MapThrough(ws, b2)
    ensures b1 == b2
  {
    hide MapThrough, Through, Apart, NoWrap;
    var k1 := MappedBy(ws, b1);
    var k2 := MappedBy(ws, b2);
    ThroughInjective(ws[k1], ws[k2], b1, b2);
  }

  /** The windows that the bus at `q` maps through, if it maps at all. */
  function WindowsOf(str: seq<byte>, t: Tree, q: Path): Option<seq<Window>>
    requires IsNode(t, q)
  {
    match PropIn(str, Sub(t, q).props, RANGES)
    case None => None
    case Some(ranges) => if ranges == [] then None else Some(BusWindows(str, t, q, ranges))
  }

  /** Every bus from `q` up to the root has good windows. */
  ghost predicate GoodChain(str: seq<byte>, t: Tree, q: Path)
    requires IsNode(t, q)
    decreases |q|
  {
    q == [] ||
    (&& (var ws := WindowsOf(str, t, q); ws.Some? ==> GoodWindows(ws.value))
     && (ParentPath(t, q); GoodChain(str, t, Parent(q))))
  }

  /** Different addresses on one bus stay different all the way up. */
  lemma {:induction false} TranslationInjective(str: seq<byte>, t: Tree, q: Path, b1: nat, b2: nat)
    requires IsNode(t, q) && GoodChain(str, t, q)
    requires Upward(str, t, q, b1).Some? && Upward(str, t, q, b1) == Upward(str, t, q, b2)
    ensures b1 == b2
    decreases |q|
  {
    hide GoodWindows, MapThrough, BusWindows, PropIn;
    if q != [] && |q| <= MAX_DEPTH {
      ParentPath(t, q);
      TranslationInjective(str, t, Parent(q), BusMap(str, t, q, b1).value, BusMap(str, t, q, b2).value);
      var ws := WindowsOf(str, t, q);
      if ws.Some? {
        MapInjective(ws.value, b1, b2);
      }
    }
  }

  /** Two devices on one bus, with no windows of their own, whose registers the CPU sees at one
      address have them at one address on the bus. */
  lemma DevicesStayApart(str: seq<byte>, t: Tree, q1: Path, q2: Path, i1: nat, i2: nat)
    requires IsNode(t, q1) && IsNode(t, q2) && q1 != [] && q2 != [] && Parent(q1) == Parent(q2)
    requires GoodChain(str, t, q1) && WindowsOf(str, t, q1).None? && WindowsOf(str, t, q2).None?
    requires CpuRange(str, t, q1, i1).Some? && CpuRange(str, t, q2, i2).Some?
    requires CpuRange(str, t, q1, i1).value.base == CpuRange(str, t, q2, i2).value.base
    ensures RegEntry(str, t, q1, i1).value.base == RegEntry(str, t, q2, i2).value.base
  {
    hide RegEntry, GoodWindows, MapThrough, PropIn;
    ParentPath(t, q1);
    ParentPath(t, q2);
    var b1, b2 := RegEntry(str, t, q1, i1).value.base, RegEntry(str, t, q2, i2).value.base;
    if |q1| <= MAX_DEPTH {
      TranslationInjective(str, t, Parent(q1), b1, b2);
    }
  }

  ghost predicate HoldsAll(w: Window, b: nat, size: nat) {
    forall x :: b <= x < b + size ==> Contains(w, x)
  }

  ghost predicate HoldsNone(w: Window, b: nat, size: nat) {
    forall x :: b <= x < b + size ==> !Contains(w, x)
  }

  /** Some window holds all of `b .. b + size`, and no earlier one holds any of it. */
  ghost predicate Covered(ws: seq<Window>, b: nat, size: nat) {
    exists k :: 0 <= k < |ws| && HoldsAll(ws[k], b, size) && forall j :: 0 <= j < k ==> HoldsNone(ws[j], b, size)
  }

  ghost predicate CoveredChain(str: seq<byte>, t: Tree, q: Path, b: nat, size: nat)
    requires IsNode(t, q)
    decreases |q|
  {
    q == [] || |q| > MAX_DEPTH ||
    (&& (var ws := WindowsOf(str, t, q); ws.Some? ==> GoodWindows(ws.value) && Covered(ws.value, b, size))
     && BusMap(str, t, q, b).Some?
     && (ParentPath(t, q); CoveredChain(str, t, Parent(q), BusMap(str, t, q, b).value, size)))
  }

  lemma MapCovered(ws: seq<Window>, b: nat, size: nat, d: nat)
    requires GoodWindows(ws) && Covered(ws, b, size) && d < size
    ensures MapThrough(ws, b).Some? && MapThrough(ws, b + d) == Some(MapThrough(ws, b).value + d)
  {
    hide MapThrough, Contains;
    var k :| 0 <= k < |ws| && HoldsAll(ws[k], b, size) && forall j :: 0 <= j < k ==> HoldsNone(ws[j], b, size);
    forall j | 0 <= j < k ensures !Contains(ws[j], b) && !Contains(ws[j], b + d) {
      assert HoldsNone(ws[j], b, size);
    }
    ThroughKeepsOffset(ws[k], b, d);
    MapsFirst(ws, b, k);
    MapsFirst(ws, b + d, k);
  }

  lemma ThroughKeepsOffset(w: Window, b: nat, d: nat)
    requires NoWrap(w) && Contains(w, b) && Contains(w, b + d)
    ensures Through(w, b + d) == Through(w, b) + d
  {
    ThroughMoves(w, b);
    ThroughMoves(w, b + d);
    hide Through, Contains, NoWrap;
  }

  lemma {:induction false} MapsFirst(ws: seq<Window>, b: nat, k: nat)
    requires k < |ws| && Contains(ws[k], b) && forall j :: 0 <= j < k ==> !Contains(ws[j], b)
    ensures MapThrough(ws, b) == Some(Through(ws[k], b))
    decreases k
  {
    if k > 0 {
      assert !Contains(ws[0], b);
      MapsFirst(ws[1..], b, k - 1);
    }
  }

  /** A block of registers that every bus covers stays one block: offsets are preserved. */
  lemma {:induction false} TranslationKeepsOffsets(str: seq<byte>, t: Tree, q: Path, b: nat, size: nat, d: nat)
    requires IsNode(t, q) && CoveredChain(str, t, q, b, size) && d < size
    ensures Upward(str, t, q, b).Some? && Upward(str, t, q, b + d) == Some(Upward(str, t, q, b).value + d)
    decreases |q|
  {
    hide GoodWindows, MapThrough, BusWindows, PropIn, Covered;
    if q != [] && |q| <= MAX_DEPTH {
      ParentPath(t, q);
      var ws := WindowsOf(str, t, q);
      if ws.Some? {
        MapCovered(ws.value, b, size, d);
      }
      TranslationKeepsOffsets(str, t, Parent(q), BusMap(str, t, q, b).value, size, d);
    }
  }
}
