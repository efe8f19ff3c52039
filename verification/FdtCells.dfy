/** `fdt_parent_cells`: how wide the numbers in a node's "reg" are. The rule is the code's:
    each count comes from the nearest proper ancestor that declares it, and is 2 when none
    does. (Section 2.3.5 of the Devicetree Specification has no inheritance.) */
module FdtCells {
  import opened Wrappers
  import opened Bytes
  import opened FdtTree
  import opened FdtLexer
  import opened FdtWalk
  import opened FdtProps

  /** "#address-cells" */
  const ADDRESS_CELLS: seq<byte> :=
    [0x23, 0x61, 0x64, 0x64, 0x72, 0x65, 0x73, 0x73, 0x2d, 0x63, 0x65, 0x6c, 0x6c, 0x73]
  /** "#size-cells" */
  const SIZE_CELLS: seq<byte> := [0x23, 0x73, 0x69, 0x7a, 0x65, 0x2d, 0x63, 0x65, 0x6c, 0x6c, 0x73]

  const DEFAULT_CELLS: nat := 2

  function CellValue(v: Option<seq<byte>>): (r: Option<nat>)
    ensures r.Some? ==> r.value < TWO32
  {
    if v.None? || |v.value| < 4 then None else Some(Be32(v.value, 0))
  }

  /** A count is the first cell of its property's value; a shorter value is no count. */
  lemma CountIsRead(n: nat, rest: seq<byte>)
    requires n < TWO32
    ensures CellValue(Some(Be32Bytes(n) + rest)) == Some(n)
    ensures |rest| < 4 ==> CellValue(Some(rest)) == None
  {
    hide Be32Bytes, Be32;
    var v := Be32Bytes(n) + rest;
    HasAtConcat(v, 0, Be32Bytes(n), rest);
    Be32At(v, 0, n);
  }

  function OwnCellsOf(c: Ctx, off: int, name: seq<byte>): Option<nat> {
    CellValue(PropOf(c, off, name))
  }

  method OwnCells(c: Ctx, node: int, name: seq<byte>) returns (r: Option<nat>)
    requires IsCString(name) && Terminated(c.str)
    ensures r == OwnCellsOf(c, node, name)
  {
    var v := GetProp(c, node, name);
    if v.None? || |v.value| < 4 {
      return None;
    }
    r := Some(Be32(v.value, 0));
  }

  /** The nearest declaration from `cur` upward. */
  function CellsFrom(c: Ctx, cur: int, name: seq<byte>): nat
    decreases if cur < 0 then 0 else cur + 1
  {
    if cur < 0 then DEFAULT_CELLS
    else
      match OwnCellsOf(c, cur, name)
      case Some(v) => v
      case None => ParentIsSmaller(c, cur); CellsFrom(c, ParentOf(c, cur), name)
  }

  /** One walk up finds both counts, each at its own nearest ancestor. */
  method ParentCells(c: Ctx, node: int) returns (ac: nat, sc: nat)
    requires Terminated(c.str)
    ensures ac == CellsFrom(c, ParentOf(c, node), ADDRESS_CELLS)
    ensures sc == CellsFrom(c, ParentOf(c, node), SIZE_CELLS)
  {
    hide ParentOf, PropOf;
    ac, sc := 2, 2;
    var foundAc, foundSc := false, false;
    var cur := ParentOffset(c, node);
    ghost var start := cur;
    while cur >= 0
      invariant if foundAc then ac == CellsFrom(c, start, ADDRESS_CELLS)
                else ac == 2 && CellsFrom(c, start, ADDRESS_CELLS) == CellsFrom(c, cur, ADDRESS_CELLS)
      invariant if foundSc then sc == CellsFrom(c, start, SIZE_CELLS)
                else sc == 2 && CellsFrom(c, start, SIZE_CELLS) == CellsFrom(c, cur, SIZE_CELLS)
      decreases if cur < 0 then 0 else cur + 1
    {
      if !foundAc {
        var v := OwnCells(c, cur, ADDRESS_CELLS);
        if v.Some? {
          ac, foundAc := v.value, true;
        }
      }
      if !foundSc {
        var v := OwnCells(c, cur, SIZE_CELLS);
        if v.Some? {
          sc, foundSc := v.value, true;
        }
      }
      if foundAc && foundSc {
        break;
      }
      ParentIsSmaller(c, cur);
      cur := ParentOffset(c, cur);
    }
  }

  // ----- On a tree -----

  function OwnCellsIn(str: seq<byte>, u: Tree, name: seq<byte>): Option<nat> {
    CellValue(PropIn(str, u.props, name))
  }

  /** The nearest node, from `q` up to the root, that declares the count. */
  function Nearest(str: seq<byte>, t: Tree, q: Path, name: seq<byte>): nat
    requires IsNode(t, q)
    decreases |q|
  {
    match OwnCellsIn(str, Sub(t, q), name)
    case Some(v) => v
    case None => if q == [] then DEFAULT_CELLS else ParentPath(t, q); Nearest(str, t, Parent(q), name)
  }

  /** What `Nearest` is: the value at the longest prefix of `q` that declares one. */
  lemma {:induction false} NearestIsNearest(str: seq<byte>, t: Tree, q: Path, name: seq<byte>, k: int)
    requires IsNode(t, q) && -1 <= k <= |q|
    requires forall j :: k < j <= |q| ==> IsNode(t, q[..j]) && OwnCellsIn(str, Sub(t, q[..j]), name) == None
    requires k >= 0 ==> IsNode(t, q[..k]) && OwnCellsIn(str, Sub(t, q[..k]), name).Some?
    ensures Nearest(str, t, q, name) ==
            if k < 0 then 2 else OwnCellsIn(str, Sub(t, q[..k]), name).value
    decreases |q|
  {
    hide OwnCellsIn, IsNode, Sub;
    assert q[..|q|] == q;
    if k < |q| && q != [] {
      ParentPath(t, q);
      forall j | 0 <= j < |q| ensures Parent(q)[..j] == q[..j] {}
      NearestIsNearest(str, t, Parent(q), name, k);
    }
  }

  /** The count that sizes the entries of the node at `q`. */
  function SizingCells(str: seq<byte>, t: Tree, q: Path, name: seq<byte>): nat
    requires IsNode(t, q)
  {
    if 0 < |q| <= MAX_DEPTH then ParentPath(t, q); Nearest(str, t, Parent(q), name) else DEFAULT_CELLS
  }

  lemma {:induction false} CellsFromOnTree(c: Ctx, t: Tree, q: Path, name: seq<byte>)
    requires Encodes(c, t) && IsNode(t, q) && |q| <= MAX_DEPTH
    ensures CellsFrom(c, NodeOff(c, t, q), name) == Nearest(c.str, t, q, name)
    decreases |q|
  {
    hide Encodes, PropOf, PropIn, ParentOf, Pos;
    GetPropOnTree(c, t, q, name);
    ParentOnTree(c, t, q);
    if q != [] {
      ParentPath(t, q);
      CellsFromOnTree(c, t, Parent(q), name);
    }
  }

  lemma ParentCellsOnTree(c: Ctx, t: Tree, q: Path, name: seq<byte>)
    requires Encodes(c, t) && IsNode(t, q)
    ensures CellsFrom(c, ParentOf(c, NodeOff(c, t, q)), name) == SizingCells(c.str, t, q, name)
  {
    hide Encodes, ParentOf, Pos, Nearest;
    ParentOnTree(c, t, q);
    if 0 < |q| <= MAX_DEPTH {
      ParentPath(t, q);
      CellsFromOnTree(c, t, Parent(q), name);
    }
  }
}
