/** Document order on the nodes of a tree: a node comes before its descendants, and a
    child and all its descendants before every later child. */
module FdtOrder {
  import opened FdtTree

  predicate Earlier(a: Path, b: Path)
    decreases |a|
  {
    b != [] && (a == [] || a[0] < b[0] || (a[0] == b[0] && Earlier(a[1..], b[1..])))
  }

  predicate NotLater(a: Path, b: Path) {
    a == b || Earlier(a, b)
  }

  /** `x` is the node `a` or one of its descendants. */
  predicate Under(a: Path, x: Path)
    decreases |a|
  {
    a == [] || (x != [] && a[0] == x[0] && Under(a[1..], x[1..]))
  }

  /** The node that follows the whole subtree at `path`: the next sibling of the nearest
      node, going up, that has one. Empty when there is none. */
  function NextAfter(t: Tree, path: Path): (r: seq<Path>)
    requires IsNode(t, path)
    ensures |r| <= 1 && (r != [] ==> IsNode(t, r[0]) && |r[0]| <= |path|)
    decreases |path|
  {
    if path == [] then []
    else
      ParentPath(t, path);
      var up, i := Parent(path), Last(path);
      if i + 1 < |Sub(t, up).kids| then ChildPath(t, up, i + 1); [up + [i + 1]]
      else NextAfter(t, up)
  }

  lemma {:induction false} Trichotomy(a: Path, b: Path)
    ensures Earlier(a, b) || a == b || Earlier(b, a)
    ensures !(Earlier(a, b) && Earlier(b, a)) && !Earlier(a, a)
    decreases |a|
  {
    if a != [] && b != [] && a[0] == b[0] {
      Trichotomy(a[1..], b[1..]);
      assert a == [a[0]] + a[1..] && b == [b[0]] + b[1..];
    }
    if a != [] {
      Trichotomy(a[1..], a[1..]);
    }
  }

  lemma {:induction false} EarlierTransitive(a: Path, b: Path, c: Path)
    requires Earlier(a, b) && Earlier(b, c)
    ensures Earlier(a, c)
    decreases |a|
  {
    if a != [] && a[0] == b[0] && b[0] == c[0] {
      EarlierTransitive(a[1..], b[1..], c[1..]);
    }
  }

  /** Nothing lies between a node and its first child. */
  lemma {:induction false} BeforeFirstChild(q: Path, x: Path)
    ensures Earlier(x, q + [0]) <==> NotLater(x, q)
    decreases |q|
  {
    if q == [] {
      assert q + [0] == [0];
    } else {
      assert (q + [0])[1..] == q[1..] + [0];
      if x != [] && x[0] == q[0] {
        BeforeFirstChild(q[1..], x[1..]);
        assert x == [x[0]] + x[1..] && q == [q[0]] + q[1..];
      }
    }
  }

  /** What comes before a sibling comes before the node itself, or is under it. */
  lemma {:induction false} BeforeSibling(up: Path, i: nat, x: Path)
    ensures Earlier(x, up + [i + 1]) <==> Earlier(x, up + [i]) || Under(up + [i], x)
    decreases |up|
  {
    if up == [] {
      assert up + [i] == [i] && up + [i + 1] == [i + 1];
      assert [i][1..] == [];
    } else {
      assert (up + [i])[1..] == up[1..] + [i] && (up + [i + 1])[1..] == up[1..] + [i + 1];
      if x != [] && x[0] == up[0] {
        BeforeSibling(up[1..], i, x[1..]);
      }
    }
  }

  /** Under the last child, or before it, is all there is under or before the parent. */
  lemma {:induction false} LastChildCloses(t: Tree, up: Path, i: nat, x: Path)
    requires IsNode(t, up) && i + 1 == |Sub(t, up).kids| && IsNode(t, x)
    ensures Earlier(x, up) || Under(up, x) <==> Earlier(x, up + [i]) || Under(up + [i], x)
    decreases |up|
  {
    if up == [] {
      assert up + [i] == [i] && [i][1..] == [];
    } else {
      assert (up + [i])[1..] == up[1..] + [i];
      if x != [] && x[0] == up[0] {
        LastChildCloses(t.kids[up[0]], up[1..], i, x[1..]);
      }
    }
  }

  /** `NextAfter` is the very next node that is not under `path`. */
  lemma {:induction false} NextAfterIsNext(t: Tree, path: Path, x: Path)
    requires IsNode(t, path) && IsNode(t, x)
    ensures NextAfter(t, path) == [] ==> Earlier(x, path) || Under(path, x)
    ensures NextAfter(t, path) != [] ==> (Earlier(x, NextAfter(t, path)[0]) <==> Earlier(x, path) || Under(path, x))
    decreases |path|
  {
    if path != [] {
      ParentPath(t, path);
      var up, i := Parent(path), Last(path);
      if i + 1 < |Sub(t, up).kids| {
        BeforeSibling(up, i, x);
      } else {
        NextAfterIsNext(t, up, x);
        LastChildCloses(t, up, i, x);
      }
    }
  }

  lemma {:induction false} UnderLeaf(t: Tree, path: Path, x: Path)
    requires IsNode(t, path) && IsNode(t, x) && Sub(t, path).kids == [] && Under(path, x)
    ensures x == path
    decreases |path|
  {
    if path != [] {
      UnderLeaf(t.kids[path[0]], path[1..], x[1..]);
      assert x == [x[0]] + x[1..] && path == [path[0]] + path[1..];
    }
  }

  // ----- Document order is the order of offsets -----

  lemma {:induction false} KidsSizeMonotone(ks: seq<Tree>, i: nat, j: nat)
    requires i <= j <= |ks|
    ensures KidsSize(ks[..i]) <= KidsSize(ks[..j])
    decreases j - i
  {
    if i < j {
      KidsSizeMonotone(ks, i, j - 1);
      KidsSizeSplit(ks, j - 1);
    }
  }

  lemma {:induction false} InsideTree(t: Tree, path: Path)
    requires IsNode(t, path)
    ensures Pos(t, path) < TreeSize(t)
    decreases |path|
  {
    if path != [] {
      InsideTree(t.kids[path[0]], path[1..]);
      KidsSizeSplit(t.kids, path[0]);
    }
  }

  lemma {:induction false} OrderIsPosition(t: Tree, a: Path, b: Path)
    requires IsNode(t, a) && IsNode(t, b) && Earlier(a, b)
    ensures Pos(t, a) < Pos(t, b)
    decreases |a|
  {
    if a != [] {
      if a[0] == b[0] {
        OrderIsPosition(t.kids[a[0]], a[1..], b[1..]);
      } else {
        InsideTree(t.kids[a[0]], a[1..]);
        KidsSizeSplit(t.kids, a[0]);
        KidsSizeMonotone(t.kids, a[0] + 1, b[0]);
      }
    }
  }
}
