/** The structural walks: skipping a node, its first child, its next sibling, its parent.

    Each walk is a loop over byte positions, proved equal to a recursive function over
    `Lex`; on a block that encodes a tree that function is then shown to give the tree's
    own answer, for every node of the tree. */
module FdtWalk {
  import opened Bytes
  import opened FdtTree
  import opened FdtLexer

  const MAX_DEPTH: nat := 16

  function OffOf(c: Ctx, p: int): int {
    if p < 0 then ERR_NODE else c.off + p
  }

  ghost function NodeOff(c: Ctx, t: Tree, path: Path): nat
    requires IsNode(t, path)
  {
    c.off + Pos(t, path)
  }

  // ----- skip_node -----

  function SkipFrom(s: seq<byte>, p: int, depth: int): (r: int)
    ensures r == -1 || p < r <= |s|
    decreases |s| - p
  {
    match Lex(s, p)
    case Bad => -1
    case LBegin(_, next) => SkipFrom(s, next, depth + 1)
    case LEnd(next) => if depth - 1 <= 0 then next else SkipFrom(s, next, depth - 1)
    case LProp(_, _, next) => SkipFrom(s, next, depth)
    case LNop(next) => SkipFrom(s, next, depth)
  }

  lemma SkipOnce(s: seq<byte>, p: int, depth: int)
    ensures SkipFrom(s, p, depth) ==
            match LexOnce(s, p)
            case Bad => -1
            case LBegin(_, next) => SkipFrom(s, next, depth + 1)
            case LEnd(next) => if depth - 1 <= 0 then next else SkipFrom(s, next, depth - 1)
            case LProp(_, _, next) => SkipFrom(s, next, depth)
            case LNop(next) => SkipFrom(s, next, depth)
    ensures SkipFrom(s, p, depth) == -1 || p < SkipFrom(s, p, depth) <= |s|
  {
    hide LexOnce;
    LexAt(s, p);
  }

  /** The same, by the bytes at `p`. */
  lemma SkipAt(s: seq<byte>, p: int, depth: int)
    ensures !Ok(s, p, 4) ==> SkipFrom(s, p, depth) == -1
    ensures Ok(s, p, 4) && Be32(s, p) == BEGIN_NODE ==>
              SkipFrom(s, p, depth) ==
              match NulAt(s, p + 4)
              case None => -1
              case Some(q) => SkipFrom(s, p + 4 + Align4(q - (p + 4) + 1), depth + 1)
    ensures Ok(s, p, 4) && Be32(s, p) == END_NODE ==>
              SkipFrom(s, p, depth) == if depth - 1 <= 0 then p + 4 else SkipFrom(s, p + 4, depth - 1)
    ensures Ok(s, p, 4) && Be32(s, p) == PROP ==>
              SkipFrom(s, p, depth) ==
              if Ok(s, p + 4, 8) && Ok(s, p + 12, Be32(s, p + 4))
              then SkipFrom(s, p + 12 + Align4(Be32(s, p + 4)), depth) else -1
    ensures Ok(s, p, 4) && Be32(s, p) == NOP ==> SkipFrom(s, p, depth) == SkipFrom(s, p + 4, depth)
    ensures Ok(s, p, 4) && Be32(s, p) !in {BEGIN_NODE, END_NODE, PROP, NOP} ==> SkipFrom(s, p, depth) == -1
    ensures SkipFrom(s, p, depth) == -1 || p < SkipFrom(s, p, depth) <= |s|
  {
    hide SkipFrom, Be32, Align4;
    SkipOnce(s, p, depth);
  }

  /** On every block this ends, and indexes nothing outside the block. */
  method SkipNode(c: Ctx, off: int) returns (r: int)
    ensures r == OffOf(c, SkipFrom(c.s, off - c.off, 0))
    ensures r == ERR_NODE || off < r <= c.off + |c.s|
  {
    hide SkipFrom, Be32, Align4, NulAt;
    var p, depth := off - c.off, 0;
    SkipAt(c.s, p, depth);
    while true
      invariant SkipFrom(c.s, off - c.off, 0) == SkipFrom(c.s, p, depth)
      decreases |c.s| - p
    {
      SkipAt(c.s, p, depth);
      if !Ok(c.s, p, 4) {
        return -1;
      }
      var token := Be32(c.s, p);
      p := p + 4;
      if token == BEGIN_NODE {
        var nameLen := NodeName(c.s, p);
        if nameLen < 0 {
          return -1;
        }
        p := p + Align4(nameLen + 1);
        depth := depth + 1;
      } else if token == END_NODE {
        depth := depth - 1;
        if depth <= 0 {
          return c.off + p;
        }
      } else if token == PROP {
        if !Ok(c.s, p, 8) {
          return -1;
        }
        var len := Be32(c.s, p);
        if !Ok(c.s, p + 8, len) {
          return -1;
        }
        p := p + 8 + Align4(len);
      } else if token == NOP {
      } else {
        return -1;
      }
    }
  }

  lemma {:induction false} SkipNops(s: seq<byte>, p: nat, n: nat, d: int)
    requires NopsAt(s, p, n)
    ensures SkipFrom(s, p, d) == SkipFrom(s, p + 4 * n, d)
    decreases n
  {
    hide Lex;
    if n > 0 {
      SkipNops(s, p + 4, n - 1, d);
    }
  }

  lemma {:induction false} SkipProps(s: seq<byte>, p: nat, ps: seq<Property>, d: int)
    requires PropsAt(s, p, ps)
    ensures SkipFrom(s, p, d) == SkipFrom(s, p + PropsSize(ps), d)
    decreases |ps|
  {
    hide Lex, Align4;
    if ps != [] {
      SkipNops(s, p, ps[0].lead, d);
      SkipProps(s, p + PropSize(ps[0]), ps[1..], d);
    }
  }

  /** Over a whole node at depth `d >= 1` the walk is back at depth `d`; at depth 0 it stops. */
  lemma {:induction false} SkipOwn(s: seq<byte>, p: nat, t: Tree, d: nat)
    requires OwnAt(s, p, t)
    ensures SkipFrom(s, p, d) == if d == 0 then p + OwnSize(t) else SkipFrom(s, p + OwnSize(t), d)
    decreases t, 1
  {
    hide Lex, BeginSize, PropsSize, PropsAt, KidsAt, NopsAt;
    SkipProps(s, p + BeginSize(t.name), t.props, d + 1);
    SkipKids(s, p + HeadSize(t), t.kids, d + 1);
    SkipNops(s, p + HeadSize(t) + KidsSize(t.kids), t.trail, d + 1);
  }

  lemma {:induction false} SkipKids(s: seq<byte>, p: nat, ks: seq<Tree>, d: nat)
    requires d >= 1 && KidsAt(s, p, ks)
    ensures SkipFrom(s, p, d) == SkipFrom(s, p + KidsSize(ks), d)
    decreases ks, 0
  {
    hide Lex, Align4;
    if ks != [] {
      SkipNops(s, p, ks[0].lead, d);
      SkipOwn(s, p + 4 * ks[0].lead, ks[0], d);
      SkipKids(s, p + TreeSize(ks[0]), ks[1..], d);
    }
  }

  /** From any node of an encoded tree, `skip_node` lands just past its END_NODE. */
  lemma SkipNodeOnTree(c: Ctx, t: Tree, path: Path)
    requires Encodes(c, t) && IsNode(t, path)
    ensures SkipFrom(c.s, Pos(t, path), 0) == EndPos(t, path)
  {
    hide Lex, OwnAt, Encodes;
    Locate(c, t, path);
    SkipOwn(c.s, Pos(t, path), Sub(t, path), 0);
  }

  // ----- after_name, fdt_first_child -----

  function AfterName(s: seq<byte>, p: int): int {
    if IsBegin(s, p) && Lex(s, p).LBegin? then Lex(s, p).next else -1
  }

  method AfterNameAt(s: seq<byte>, p: int) returns (r: int)
    ensures r == AfterName(s, p)
    ensures r >= 0 ==> p + 4 <= r
  {
    if !Ok(s, p, 4) || Be32(s, p) != BEGIN_NODE {
      return -1;
    }
    var nameLen := NodeName(s, p + 4);
    if nameLen < 0 {
      return -1;
    }
    r := p + 4 + Align4(nameLen + 1);
  }

  function FirstChildFrom(s: seq<byte>, p: int): int
    decreases |s| - p
  {
    if IsBegin(s, p) then p
    else
      match Lex(s, p)
      case LProp(_, _, next) => FirstChildFrom(s, next)
      case LNop(next) => FirstChildFrom(s, next)
      case _ => -1
  }

  function FirstChildOf(c: Ctx, off: int): int {
    var p := AfterName(c.s, off - c.off);
    if p < 0 then ERR_NODE else OffOf(c, FirstChildFrom(c.s, p))
  }

  method FirstChild(c: Ctx, parent: int) returns (r: int)
    ensures r == FirstChildOf(c, parent)
  {
    hide Lex;
    var p := AfterNameAt(c.s, parent - c.off);
    if p < 0 {
      return ERR_NODE;
    }
    while true
      invariant p >= 0 && FirstChildOf(c, parent) == OffOf(c, FirstChildFrom(c.s, p))
      decreases |c.s| - p
    {
      LexAt(c.s, p);
      if !Ok(c.s, p, 4) {
        return ERR_NODE;
      }
      var token := Be32(c.s, p);
      if token == BEGIN_NODE {
        return c.off + p;
      }
      if token == END_NODE {
        return ERR_NODE;
      }
      if token == PROP {
        var len := PeekBe32(c.s, p + 4);
        if !Ok(c.s, p + 12, len) {
          return ERR_NODE;
        }
        p := p + 12 + Align4(len);
        continue;
      }
      if token == NOP {
        p := p + 4;
        continue;
      }
      return ERR_NODE;
    }
  }

  lemma {:induction false} FirstChildNops(s: seq<byte>, p: nat, n: nat)
    requires NopsAt(s, p, n)
    ensures FirstChildFrom(s, p) == FirstChildFrom(s, p + 4 * n)
    decreases n
  {
    hide Lex, LexOnce;
    if n > 0 {
      LexAt(s, p);
      FirstChildNops(s, p + 4, n - 1);
    }
  }

  lemma {:induction false} FirstChildProps(s: seq<byte>, p: nat, ps: seq<Property>)
    requires PropsAt(s, p, ps)
    ensures FirstChildFrom(s, p) == FirstChildFrom(s, p + PropsSize(ps))
    decreases |ps|
  {
    hide Lex, LexOnce, Align4;
    if ps != [] {
      FirstChildNops(s, p, ps[0].lead);
      LexAt(s, p + 4 * ps[0].lead);
      FirstChildProps(s, p + PropSize(ps[0]), ps[1..]);
    }
  }

  lemma FirstChildOwn(s: seq<byte>, p: nat, u: Tree)
    requires OwnAt(s, p, u)
    ensures AfterName(s, p) == p + BeginSize(u.name)
    ensures FirstChildFrom(s, p + BeginSize(u.name)) ==
            if u.kids == [] then -1 else p + HeadSize(u) + 4 * u.kids[0].lead
  {
    hide Lex, LexOnce, IsBegin, Align4, PropsAt, BeginSize, PropsSize;
    FirstChildProps(s, p + BeginSize(u.name), u.props);
    if u.kids == [] {
      assert OwnSize(u) == HeadSize(u) + KidsSize([]) + 4 * u.trail + 4;
      FirstChildNops(s, p + HeadSize(u), u.trail);
      LexAt(s, p + OwnSize(u) - 4);
    } else {
      FirstKidAt(s, p, u);
      FirstChildNops(s, p + HeadSize(u), u.kids[0].lead);
    }
  }

  /** The first child of a node, at any depth. */
  lemma FirstChildOnTree(c: Ctx, t: Tree, path: Path)
    requires Encodes(c, t) && IsNode(t, path)
    ensures Sub(t, path).kids == [] ==> FirstChildOf(c, NodeOff(c, t, path)) == ERR_NODE
    ensures Sub(t, path).kids != [] ==>
              IsNode(t, path + [0]) && FirstChildOf(c, NodeOff(c, t, path)) == NodeOff(c, t, path + [0])
  {
    hide Encodes, OwnAt, FirstChildFrom, AfterName, HeadSize, BeginSize;
    Locate(c, t, path);
    FirstChildOwn(c.s, Pos(t, path), Sub(t, path));
    if Sub(t, path).kids != [] {
      ChildPath(t, path, 0);
      assert Sub(t, path).kids[..0] == [];
    }
  }

  // ----- fdt_parent_offset -----

  /** The walk with the list of open nodes in place of the bounded array. */
  function ParentFrom(s: seq<byte>, p: int, target: int, open: seq<int>): (r: int)
    decreases |s| - p
  {
    match Lex(s, p)
    case Bad => -1
    case LBegin(_, next) =>
      if p == target then
        if |open| == 0 || |open| - 1 >= MAX_DEPTH then -1 else open[|open| - 1]
      else ParentFrom(s, next, target, open + [p])
    case LEnd(next) => if |open| <= 1 then -1 else ParentFrom(s, next, target, open[..|open| - 1])
    case LProp(_, _, next) => ParentFrom(s, next, target, open)
    case LNop(next) => ParentFrom(s, next, target, open)
  }

  function ParentOf(c: Ctx, off: int): int {
    OffOf(c, ParentFrom(c.s, 0, off - c.off, []))
  }

  /** The sixteen-entry array holds the open nodes down to depth fifteen, and that is
      all the walk ever asks of it. */
  method ParentOffset(c: Ctx, node: int) returns (r: int)
    ensures r == ParentOf(c, node)
  {
    hide Lex;
    var stack := new int[MAX_DEPTH];
    var p, depth := 0, -1;
    ghost var open: seq<int> := [];
    while true
      invariant p >= 0 && depth == |open| - 1
      invariant forall i :: 0 <= i < |open| && i < MAX_DEPTH ==> stack[i] == c.off + open[i]
      invariant forall i :: 0 <= i < |open| ==> open[i] >= 0
      invariant ParentFrom(c.s, 0, node - c.off, []) == ParentFrom(c.s, p, node - c.off, open)
      decreases |c.s| - p
    {
      LexAt(c.s, p);
      if !Ok(c.s, p, 4) {
        return ERR_NODE;
      }
      var here := c.off + p;
      var token := Be32(c.s, p);
      p := p + 4;
      if token == BEGIN_NODE {
        var nameLen := NodeName(c.s, p);
        if nameLen < 0 {
          return ERR_NODE;
        }
        p := p + Align4(nameLen + 1);
        depth := depth + 1;
        if depth < MAX_DEPTH {
          stack[depth] := here;
        }
        if here == node {
          if depth <= 0 || depth - 1 >= MAX_DEPTH {
            return ERR_NODE;
          }
          return stack[depth - 1];
        }
        open := open + [here - c.off];
      } else if token == END_NODE {
        depth := depth - 1;
        if depth < 0 {
          return ERR_NODE;
        }
        open := open[..|open| - 1];
      } else if token == PROP {
        var len := PeekBe32(c.s, p);
        if !Ok(c.s, p + 8, len) {
          return ERR_NODE;
        }
        p := p + 8 + Align4(len);
      } else if token == NOP {
      } else {
        return ERR_NODE;
      }
    }
  }

  lemma {:induction false} ParentFromSmaller(s: seq<byte>, p: int, target: int, open: seq<int>)
    requires forall i :: 0 <= i < |open| ==> 0 <= open[i] < p
    ensures ParentFrom(s, p, target, open) == -1 || 0 <= ParentFrom(s, p, target, open) < target
    decreases |s| - p
  {
    hide Lex;
    match Lex(s, p)
    case Bad =>
    case LBegin(_, next) => if p != target { ParentFromSmaller(s, next, target, open + [p]); }
    case LEnd(next) => if |open| > 1 { ParentFromSmaller(s, next, target, open[..|open| - 1]); }
    case LProp(_, _, next) => ParentFromSmaller(s, next, target, open);
    case LNop(next) => ParentFromSmaller(s, next, target, open);
  }

  /** Whatever the block holds, a parent lies strictly before its child, so upward walks end. */
  lemma ParentIsSmaller(c: Ctx, off: int)
    ensures ParentOf(c, off) == ERR_NODE || c.off <= ParentOf(c, off) < off
  {
    ParentFromSmaller(c.s, 0, off - c.off, []);
  }

  lemma {:induction false} ParentNops(s: seq<byte>, p: nat, n: nat, target: int, open: seq<int>)
    requires NopsAt(s, p, n)
    ensures ParentFrom(s, p, target, open) == ParentFrom(s, p + 4 * n, target, open)
    decreases n
  {
    hide Lex;
    if n > 0 {
      ParentNops(s, p + 4, n - 1, target, open);
    }
  }

  lemma {:induction false} ParentProps(s: seq<byte>, p: nat, ps: seq<Property>, target: int, open: seq<int>)
    requires PropsAt(s, p, ps)
    ensures ParentFrom(s, p, target, open) == ParentFrom(s, p + PropsSize(ps), target, open)
    decreases |ps|
  {
    hide Lex, Align4;
    if ps != [] {
      ParentNops(s, p, ps[0].lead, target, open);
      ParentProps(s, p + PropSize(ps[0]), ps[1..], target, open);
    }
  }

  /** A subtree that ends before the target leaves the list of open nodes as it was. */
  lemma {:induction false} ParentOwn(s: seq<byte>, p: nat, t: Tree, target: int, open: seq<int>)
    requires OwnAt(s, p, t) && p + OwnSize(t) <= target && open != []
    ensures ParentFrom(s, p, target, open) == ParentFrom(s, p + OwnSize(t), target, open)
    decreases t, 1
  {
    hide Lex, BeginSize, PropsSize, PropsAt, KidsAt, NopsAt;
    ParentProps(s, p + BeginSize(t.name), t.props, target, open + [p]);
    ParentKids(s, p + HeadSize(t), t.kids, target, open + [p]);
    ParentNops(s, p + HeadSize(t) + KidsSize(t.kids), t.trail, target, open + [p]);
    assert (open + [p])[..|open|] == open;
  }

  lemma {:induction false} ParentKids(s: seq<byte>, p: nat, ks: seq<Tree>, target: int, open: seq<int>)
    requires KidsAt(s, p, ks) && p + KidsSize(ks) <= target && open != []
    ensures ParentFrom(s, p, target, open) == ParentFrom(s, p + KidsSize(ks), target, open)
    decreases ks, 0
  {
    hide Lex, Align4, OwnAt;
    if ks != [] {
      ParentNops(s, p, ks[0].lead, target, open);
      ParentOwn(s, p + 4 * ks[0].lead, ks[0], target, open);
      ParentKids(s, p + TreeSize(ks[0]), ks[1..], target, open);
    }
  }

  lemma {:induction false} KidsPrefix(s: seq<byte>, p: nat, ks: seq<Tree>, i: nat)
    requires KidsAt(s, p, ks) && i <= |ks|
    ensures KidsAt(s, p, ks[..i])
    decreases i
  {
    hide TreeAt;
    if i > 0 {
      KidsPrefix(s, p + TreeSize(ks[0]), ks[1..], i - 1);
      assert ks[..i][1..] == ks[1..][..i - 1];
    }
  }

  /** Down one level: the head of a node and the children before the `i`-th are walked over. */
  lemma ParentEnter(s: seq<byte>, p: nat, t: Tree, i: nat, target: int, open: seq<int>)
    requires TreeAt(s, p, t) && i < |t.kids|
    requires p + 4 * t.lead + HeadSize(t) + KidsSize(t.kids[..i]) <= target
    ensures ParentFrom(s, p, target, open) ==
            ParentFrom(s, p + 4 * t.lead + HeadSize(t) + KidsSize(t.kids[..i]), target, open + [p + 4 * t.lead])
  {
    hide Lex, Align4, IsBegin;
    var q := p + 4 * t.lead;
    ParentNops(s, p, t.lead, target, open);
    ParentProps(s, q + BeginSize(t.name), t.props, target, open + [q]);
    KidsPrefix(s, q + HeadSize(t), t.kids, i);
    ParentKids(s, q + HeadSize(t), t.kids[..i], target, open + [q]);
  }

  lemma {:induction false} ParentDescend(s: seq<byte>, p: nat, t: Tree, path: Path, open: seq<int>)
    requires TreeAt(s, p, t) && IsNode(t, path)
    ensures path == [] ==>
              ParentFrom(s, p, p + Pos(t, path), open) ==
              if |open| == 0 || |open| - 1 >= MAX_DEPTH then -1 else open[|open| - 1]
    ensures path != [] ==> IsNode(t, Parent(path))
    ensures path != [] ==>
              ParentFrom(s, p, p + Pos(t, path), open) ==
              if |open| + |path| - 1 >= MAX_DEPTH then -1 else p + Pos(t, Parent(path))
    decreases |path|
  {
    hide Lex, HeadSize, KidsSize, PropsAt, KidsAt;
    var target := p + Pos(t, path);
    if path == [] {
      ParentNops(s, p, t.lead, target, open);
    } else {
      var i := path[0];
      ParentPath(t, path);
      ParentEnter(s, p, t, i, target, open);
      var q := p + 4 * t.lead + HeadSize(t) + KidsSize(t.kids[..i]);
      KidOfTree(s, p, t, i);
      ParentDescend(s, q, t.kids[i], path[1..], open + [p + 4 * t.lead]);
      if |path| > 1 {
        assert Parent(path)[1..] == Parent(path[1..]) && Parent(path)[0] == i;
      }
    }
  }

  lemma KidOfTree(s: seq<byte>, p: nat, t: Tree, i: nat)
    requires TreeAt(s, p, t) && i < |t.kids|
    ensures TreeAt(s, p + 4 * t.lead + HeadSize(t) + KidsSize(t.kids[..i]), t.kids[i])
  {
    hide Lex, HeadSize;
    KidAt(s, p + 4 * t.lead + HeadSize(t), t.kids, i);
  }

  /** The true parent, exactly for the nodes that are neither the root nor deeper than sixteen. */
  lemma ParentOnTree(c: Ctx, t: Tree, path: Path)
    requires Encodes(c, t) && IsNode(t, path)
    ensures 0 < |path| ==> IsNode(t, Parent(path))
    ensures ParentOf(c, NodeOff(c, t, path)) ==
            if 0 < |path| <= MAX_DEPTH then NodeOff(c, t, Parent(path)) else ERR_NODE
  {
    hide Lex, TreeAt, ParentFrom, Encodes, Pos, IsNode;
    EncodedTreeAt(c, t);
    ParentDescend(c.s, 0, t, path, []);
  }

  // ----- fdt_next_sibling -----

  function NextFrom(s: seq<byte>, p: int): (r: int)
    ensures r == -1 || p <= r < |s|
    decreases |s| - p
  {
    if IsBegin(s, p) then p
    else if Lex(s, p).LNop? then NextFrom(s, Lex(s, p).next)
    else -1
  }

  function NextSiblingOf(c: Ctx, parent: int, prev: int): (r: int)
    ensures r == ERR_NODE || prev < r < c.off + |c.s|
  {
    if ParentOf(c, prev) != parent then ERR_NODE
    else
      var q := SkipFrom(c.s, prev - c.off, 0);
      if q < 0 then ERR_NODE else OffOf(c, NextFrom(c.s, q))
  }

  method NextSibling(c: Ctx, parent: int, prev: int) returns (r: int)
    ensures r == NextSiblingOf(c, parent, prev)
    ensures r == ERR_NODE || prev < r < c.off + |c.s|
  {
    hide Lex, SkipFrom, ParentFrom;
    var actual := ParentOffset(c, prev);
    if actual != parent {
      return ERR_NODE;
    }
    var next := SkipNode(c, prev);
    if next < 0 {
      return ERR_NODE;
    }
    var p := next - c.off;
    while true
      invariant p >= 0 && NextSiblingOf(c, parent, prev) == OffOf(c, NextFrom(c.s, p))
      decreases |c.s| - p
    {
      LexAt(c.s, p);
      if !Ok(c.s, p, 4) {
        return ERR_NODE;
      }
      var token := Be32(c.s, p);
      if token == BEGIN_NODE {
        return c.off + p;
      }
      if token == END_NODE {
        return ERR_NODE;
      }
      if token == NOP {
        p := p + 4;
        continue;
      }
      return ERR_NODE;
    }
  }

  lemma {:induction false} NextNops(s: seq<byte>, p: nat, n: nat)
    requires NopsAt(s, p, n)
    ensures NextFrom(s, p) == NextFrom(s, p + 4 * n)
    decreases n
  {
    hide Lex, LexOnce;
    if n > 0 {
      LexAt(s, p);
      NextNops(s, p + 4, n - 1);
    }
  }

  /** After the `i`-th child of a node comes the next child, or the end of the node. */
  lemma NextKid(s: seq<byte>, p: nat, u: Tree, i: nat)
    requires OwnAt(s, p, u) && i < |u.kids|
    ensures NextFrom(s, p + HeadSize(u) + KidsSize(u.kids[..i + 1])) ==
            if i + 1 < |u.kids| then p + HeadSize(u) + KidsSize(u.kids[..i + 1]) + 4 * u.kids[i + 1].lead else -1
  {
    hide Lex, LexOnce, HeadSize, PropsAt, IsBegin;
    var q := p + HeadSize(u) + KidsSize(u.kids[..i + 1]);
    if i + 1 < |u.kids| {
      KidAt(s, p + HeadSize(u), u.kids, i + 1);
      NextNops(s, q, u.kids[i + 1].lead);
    } else {
      assert u.kids[..i + 1] == u.kids;
      NextNops(s, q, u.trail);
      LexAt(s, q + 4 * u.trail);
    }
  }

  /** The next sibling when the caller names the parent, and nothing when it names another
      node. Past depth sixteen the parent is not found, so no node passes for it. */
  lemma NextSiblingOnTree(c: Ctx, t: Tree, path: Path, parent: int)
    requires Encodes(c, t) && IsNode(t, path) && path != []
    ensures IsNode(t, Parent(path)) && Last(path) < |Sub(t, Parent(path)).kids|
    ensures NextSiblingOf(c, parent, NodeOff(c, t, path)) ==
            if parent == (if |path| <= MAX_DEPTH then NodeOff(c, t, Parent(path)) else ERR_NODE)
               && Last(path) + 1 < |Sub(t, Parent(path)).kids|
            then ChildOff(c, t, Parent(path), Last(path) + 1)
            else ERR_NODE
  {
    hide ParentFrom, SkipFrom, Encodes, NextFrom, Pos, EndPos, IsNode, Sub;
    ParentPath(t, path);
    ParentOnTree(c, t, path);
    SkipNodeOnTree(c, t, path);
    AfterKid(c, t, Parent(path), Last(path));
  }

  /** What follows the `i`-th child of the node at `up`. */
  lemma AfterKid(c: Ctx, t: Tree, up: Path, i: nat)
    requires Encodes(c, t) && IsNode(t, up) && i < |Sub(t, up).kids|
    ensures IsNode(t, up + [i])
    ensures OffOf(c, NextFrom(c.s, EndPos(t, up + [i]))) ==
            if i + 1 < |Sub(t, up).kids| then ChildOff(c, t, up, i + 1) else ERR_NODE
  {
    hide OwnAt, Encodes, HeadSize, NextFrom, Pos, IsNode, Sub;
    var u := Sub(t, up);
    ChildPath(t, up, i);
    Locate(c, t, up);
    NextKid(c.s, Pos(t, up), u, i);
    KidsSizeSplit(u.kids, i);
    assert EndPos(t, up + [i]) == Pos(t, up) + HeadSize(u) + KidsSize(u.kids[..i + 1]);
    if i + 1 < |u.kids| {
      ChildPath(t, up, i + 1);
    }
  }

  /** The offset of the `i`-th child of the node at `path`. */
  ghost function ChildOff(c: Ctx, t: Tree, path: Path, i: nat): nat
    requires IsNode(t, path) && i < |Sub(t, path).kids|
  {
    ChildPath(t, path, i);
    NodeOff(c, t, path + [i])
  }

  // ----- fdt_next_child -----

  /** A cursor of 0 asks for the first child; the result 0 says there are no more. */
  function NextChildOf(c: Ctx, parent: int, cursor: int): int {
    var r := if cursor == 0 then FirstChildOf(c, parent) else NextSiblingOf(c, parent, cursor);
    if r == ERR_NODE then 0 else r
  }

  /** What a caller collects that asks until the cursor is back at 0. */
  ghost function ChildrenAfter(c: Ctx, parent: int, cursor: int): seq<int>
    decreases cursor == 0, if cursor == 0 then 0 else c.off + |c.s| - cursor
  {
    var r := NextChildOf(c, parent, cursor);
    if r <= 0 then [] else [r] + ChildrenAfter(c, parent, r)
  }

  lemma {:induction false} ChildrenFromKid(c: Ctx, t: Tree, path: Path, i: nat)
    requires Encodes(c, t) && IsNode(t, path) && |path| < MAX_DEPTH && i < |Sub(t, path).kids|
    ensures ChildrenAfter(c, NodeOff(c, t, path), ChildOff(c, t, path, i)) ==
            ChildOffs(c, t, path)[i + 1..]
    decreases |Sub(t, path).kids| - i
  {
    hide Encodes, NextSiblingOf;
    ChildPath(t, path, i);
    assert Parent(path + [i]) == path;
    NextSiblingOnTree(c, t, path + [i], NodeOff(c, t, path));
    ChildOffPositive(c, t, path, i);
    if i + 1 < |Sub(t, path).kids| {
      ChildOffPositive(c, t, path, i + 1);
      ChildrenFromKid(c, t, path, i + 1);
    }
  }

  lemma ChildOffPositive(c: Ctx, t: Tree, path: Path, i: nat)
    requires IsNode(t, path) && i < |Sub(t, path).kids|
    ensures ChildOff(c, t, path, i) > 0
  {
    ChildPath(t, path, i);
  }

  ghost function ChildOffs(c: Ctx, t: Tree, path: Path): (r: seq<nat>)
    requires IsNode(t, path)
    ensures |r| == |Sub(t, path).kids|
    ensures forall i :: 0 <= i < |r| ==> r[i] == ChildOff(c, t, path, i)
  {
    seq(|Sub(t, path).kids|, i requires 0 <= i < |Sub(t, path).kids| => ChildOff(c, t, path, i))
  }

  /** Asking for the next child until there is none gives all children, in order; below
      depth fifteen it gives the first one only. */
  lemma ChildrenOnTree(c: Ctx, t: Tree, path: Path)
    requires Encodes(c, t) && IsNode(t, path)
    ensures ChildrenAfter(c, NodeOff(c, t, path), 0) ==
            if |path| < MAX_DEPTH || Sub(t, path).kids == [] then ChildOffs(c, t, path)
            else ChildOffs(c, t, path)[..1]
  {
    hide Encodes, FirstChildOf, NextSiblingOf;
    FirstChildOnTree(c, t, path);
    if Sub(t, path).kids != [] {
      ChildOffPositive(c, t, path, 0);
      if |path| < MAX_DEPTH {
        ChildrenFromKid(c, t, path, 0);
      } else {
        NoSiblingBelow(c, t, path);
      }
    }
  }

  /** Below depth fifteen no child has a next sibling. */
  lemma NoSiblingBelow(c: Ctx, t: Tree, path: Path)
    requires Encodes(c, t) && IsNode(t, path) && |path| >= MAX_DEPTH && Sub(t, path).kids != []
    ensures NextSiblingOf(c, NodeOff(c, t, path), ChildOff(c, t, path, 0)) == ERR_NODE
  {
    hide Encodes, NextSiblingOf, Pos;
    ChildPath(t, path, 0);
    NextSiblingOnTree(c, t, path + [0], NodeOff(c, t, path));
  }
}
