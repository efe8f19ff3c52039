/** `fdt_path_offset`: from a path such as "/soc/serial@2000" to a node. */
module FdtPath {
  import opened Wrappers
  import opened Bytes
  import opened FdtTree
  import opened FdtLexer
  import opened FdtWalk

  const SLASH: byte := 0x2f

  // ----- The components of a path -----

  function NameLen(s: seq<byte>): (n: nat)
    ensures n <= |s| && (n < |s| ==> s[n] == SLASH) && forall i :: 0 <= i < n ==> s[i] != SLASH
  {
    if s == [] || s[0] == SLASH then 0 else 1 + NameLen(s[1..])
  }

  /** The names between slashes; runs of slashes count as one, and so do those at the ends. */
  function Components(s: seq<byte>): seq<seq<byte>> {
    if s == [] then []
    else if s[0] == SLASH then Components(s[1..])
    else [s[..NameLen(s)]] + Components(s[NameLen(s)..])
  }

  // ----- The lookup as the code runs it -----

  function FindChildFrom(c: Ctx, parent: int, ch: int, name: seq<byte>): (r: int)
    decreases ch != ERR_NODE, c.off + |c.s| - ch
  {
    if ch == ERR_NODE || ch - c.off + 4 < 0 then ERR_NODE
    else
      match NulAt(c.s, ch - c.off + 4)
      case None => ERR_NODE
      case Some(q) =>
        if c.s[ch - c.off + 4..q] == name then ch
        else FindChildFrom(c, parent, NextSiblingOf(c, parent, ch), name)
  }

  function ResolveFrom(c: Ctx, cur: int, names: seq<seq<byte>>): int
    decreases |names|
  {
    if names == [] then cur
    else
      var ch := FindChildFrom(c, cur, FirstChildOf(c, cur), names[0]);
      if ch == ERR_NODE then ERR_NODE else ResolveFrom(c, ch, names[1..])
  }

  function PathOffsetOf(c: Ctx, path: seq<byte>): int {
    if path == [] || path[0] != SLASH || !IsBegin(c.s, 0) then ERR_NODE
    else ResolveFrom(c, c.off, Components(path))
  }

  lemma {:induction false} FirstChildBegins(s: seq<byte>, p: int)
    ensures FirstChildFrom(s, p) != -1 ==> IsBegin(s, FirstChildFrom(s, p))
    decreases |s| - p
  {
    hide Lex;
    if !IsBegin(s, p) {
      match Lex(s, p)
      case LProp(_, _, next) => FirstChildBegins(s, next);
      case LNop(next) => FirstChildBegins(s, next);
      case _ =>
    }
  }

  lemma {:induction false} NextBegins(s: seq<byte>, p: int)
    ensures NextFrom(s, p) != -1 ==> IsBegin(s, NextFrom(s, p))
    decreases |s| - p
  {
    hide Lex;
    if !IsBegin(s, p) && Lex(s, p).LNop? {
      NextBegins(s, Lex(s, p).next);
    }
  }

  lemma ChildrenBegin(c: Ctx, parent: int, prev: int)
    ensures FirstChildOf(c, parent) != ERR_NODE ==> IsBegin(c.s, FirstChildOf(c, parent) - c.off)
    ensures NextSiblingOf(c, parent, prev) != ERR_NODE ==> IsBegin(c.s, NextSiblingOf(c, parent, prev) - c.off)
  {
    hide Lex, FirstChildFrom, NextFrom, IsBegin, SkipFrom, ParentOf, AfterName;
    FirstChildBegins(c.s, AfterName(c.s, parent - c.off));
    NextBegins(c.s, SkipFrom(c.s, prev - c.off, 0));
  }

  /** The child of `parent` of the given name, or ERR_NODE. */
  method FindChild(c: Ctx, parent: int, name: seq<byte>) returns (found: int)
    ensures found == FindChildFrom(c, parent, FirstChildOf(c, parent), name)
  {
    hide FirstChildOf, NextSiblingOf, IsBegin, NulAt;
    var ch := FirstChild(c, parent);
    ChildrenBegin(c, parent, ch);
    found := ERR_NODE;
    while ch != ERR_NODE
      invariant found == ERR_NODE
      invariant ch != ERR_NODE ==> IsBegin(c.s, ch - c.off)
      invariant FindChildFrom(c, parent, FirstChildOf(c, parent), name) == FindChildFrom(c, parent, ch, name)
      decreases ch != ERR_NODE, c.off + |c.s| - ch
    {
      var at := ch - c.off + 4;
      BeginFits(c.s, ch - c.off);
      var len := NodeName(c.s, at);
      if len < 0 {
        break;
      }
      NulAtBounds(c.s, at);
      if len == |name| {
        var i := 0;
        while i < len && c.s[at + i] == name[i]
          invariant 0 <= i <= len && c.s[at..at + i] == name[..i]
        {
          i := i + 1;
        }
        if i == len {
          assert c.s[at..at + len] == name;
          found := ch;
          break;
        }
        assert c.s[at..at + len][i] != name[i];
      }
      ChildrenBegin(c, parent, ch);
      ch := NextSibling(c, parent, ch);
    }
  }

  lemma BeginFits(s: seq<byte>, p: int)
    requires IsBegin(s, p)
    ensures 0 <= p && p + 4 <= |s|
  {
  }

  lemma NulAtBounds(s: seq<byte>, p: nat)
    ensures NulAt(s, p).Some? ==> p <= NulAt(s, p).value < |s|
  {
  }

  method SkipSlashes(path: seq<byte>, from: nat) returns (p: nat)
    requires from <= |path|
    ensures from <= p <= |path| && (p < |path| ==> path[p] != SLASH)
    ensures Components(path[p..]) == Components(path[from..])
  {
    p := from;
    while p < |path| && path[p] == SLASH
      invariant from <= p <= |path| && Components(path[from..]) == Components(path[p..])
    {
      assert path[p..][1..] == path[p + 1..];
      p := p + 1;
    }
  }

  method NameEnd(path: seq<byte>, start: nat) returns (p: nat)
    requires start < |path| && path[start] != SLASH
    ensures start < p <= |path| && Components(path[start..]) == [path[start..p]] + Components(path[p..])
  {
    hide Components;
    p := start;
    while p < |path| && path[p] != SLASH
      invariant start <= p <= |path| && forall i :: start <= i < p ==> path[i] != SLASH
    {
      p := p + 1;
    }
    ComponentAt(path, start, p);
  }

  method PathOffset(c: Ctx, path: seq<byte>) returns (r: int)
    ensures r == PathOffsetOf(c, path)
  {
    hide FirstChildOf, FindChildFrom, Components;
    if path == [] || path[0] != SLASH {
      return ERR_NODE;
    }
    r := c.off;
    if !Ok(c.s, 0, 4) || Be32(c.s, 0) != BEGIN_NODE {
      return ERR_NODE;
    }
    assert path[0..] == path;
    var p := SkipSlashes(path, 0);
    while p < |path|
      invariant 0 <= p <= |path| && (p < |path| ==> path[p] != SLASH)
      invariant ResolveFrom(c, c.off, Components(path)) == ResolveFrom(c, r, Components(path[p..]))
      decreases |path| - p
    {
      var end := NameEnd(path, p);
      assert Components(path[p..])[1..] == Components(path[end..]);
      r := FindChild(c, r, path[p..end]);
      if r == ERR_NODE {
        return;
      }
      p := SkipSlashes(path, end);
    }
    NoComponents(path[p..]);
  }

  lemma NoComponents(s: seq<byte>)
    ensures s == [] ==> Components(s) == []
  {
  }

  lemma NameLenAt(s: seq<byte>, n: nat)
    requires n <= |s| && (n < |s| ==> s[n] == SLASH) && forall i :: 0 <= i < n ==> s[i] != SLASH
    ensures NameLen(s) == n
  {
  }

  lemma ComponentAt(path: seq<byte>, start: nat, p: nat)
    requires start < p <= |path| && (p < |path| ==> path[p] == SLASH)
    requires forall i :: start <= i < p ==> path[i] != SLASH
    ensures Components(path[start..]) == [path[start..p]] + Components(path[p..])
  {
    var s := path[start..];
    NameLenAt(s, p - start);
    assert s[..p - start] == path[start..p] && s[p - start..] == path[p..];
  }

  // ----- What it means on a tree -----

  function FindKid(ks: seq<Tree>, name: seq<byte>): (i: nat)
    ensures i <= |ks|
    ensures i < |ks| ==> ks[i].name == name
    ensures forall j :: 0 <= j < i ==> ks[j].name != name
  {
    if ks == [] || ks[0].name == name then 0 else 1 + FindKid(ks[1..], name)
  }

  /** From a node, follow names; at each level the first child of that name. */
  function Resolve(t: Tree, names: seq<seq<byte>>): (r: Option<Path>)
    ensures r.Some? ==> IsNode(t, r.value)
    decreases |names|
  {
    if names == [] then Some([])
    else
      var i := FindKid(t.kids, names[0]);
      if i == |t.kids| then None
      else
        match Resolve(t.kids[i], names[1..])
        case None => None
        case Some(rest) => assert ([i] + rest)[1..] == rest; Some([i] + rest)
  }

  function Names(t: Tree, q: Path): seq<seq<byte>>
    requires IsNode(t, q)
    decreases |q|
  {
    if q == [] then [] else [t.kids[q[0]].name] + Names(t.kids[q[0]], q[1..])
  }

  ghost predicate UniqueNames(t: Tree) {
    && (forall i, j :: 0 <= i < j < |t.kids| ==> t.kids[i].name != t.kids[j].name)
    && (forall i :: 0 <= i < |t.kids| ==> UniqueNames(t.kids[i]))
  }

  /** A node is in the lookup's reach unless it is, or is under, a later child of a node
      deeper than fifteen. Here the first `d` steps to it are already behind. */
  ghost predicate InReach(d: nat, q: Path) {
    forall j :: 0 <= j < |q| && MAX_DEPTH <= d + j ==> q[j] == 0
  }

  lemma InReachStep(d: nat, i: nat, rest: Path)
    ensures InReach(d, [i] + rest) <==> (d < MAX_DEPTH || i == 0) && InReach(d + 1, rest)
  {
    var q := [i] + rest;
    if InReach(d, q) {
      forall j | 0 <= j < |rest| && MAX_DEPTH <= d + 1 + j ensures rest[j] == 0 {
        assert q[j + 1] == rest[j];
      }
      assert q[0] == i;
    }
  }

  lemma NameOf(c: Ctx, t: Tree, q: Path)
    requires Encodes(c, t) && IsNode(t, q)
    ensures NulAt(c.s, Pos(t, q) + 4).Some?
    ensures c.s[Pos(t, q) + 4..NulAt(c.s, Pos(t, q) + 4).value] == Sub(t, q).name
  {
    hide Encodes, PropsAt, KidsAt, Pos;
    Locate(c, t, q);
  }

  /** Among the children from the `i`-th on, the first of the given name. */
  lemma {:induction false} FindChildOnTree(c: Ctx, t: Tree, up: Path, i: nat, name: seq<byte>)
    requires Encodes(c, t) && IsNode(t, up) && |up| < MAX_DEPTH && i < |Sub(t, up).kids|
    ensures FindChildFrom(c, NodeOff(c, t, up), ChildOff(c, t, up, i), name) ==
            var k := i + FindKid(Sub(t, up).kids[i..], name);
            if k < |Sub(t, up).kids| then ChildOff(c, t, up, k) else ERR_NODE
    decreases |Sub(t, up).kids| - i
  {
    hide Encodes, NextSiblingOf, FindChildFrom, Pos, Sub, IsNode;
    var ks := Sub(t, up).kids;
    ChildPath(t, up, i);
    FindChildOnce(c, t, up + [i], NodeOff(c, t, up), name);
    assert Parent(up + [i]) == up && Last(up + [i]) == i;
    NextSiblingOnTree(c, t, up + [i], NodeOff(c, t, up));
    assert ks[i..][0] == ks[i] && ks[i..][1..] == ks[i + 1..];
    if ks[i].name != name {
      if i + 1 < |ks| {
        FindChildOnTree(c, t, up, i + 1, name);
      } else {
        FindNothing(c, NodeOff(c, t, up), name);
      }
    }
  }

  /** One turn of the loop over children. */
  lemma FindChildOnce(c: Ctx, t: Tree, q: Path, parent: int, name: seq<byte>)
    requires Encodes(c, t) && IsNode(t, q)
    ensures FindChildFrom(c, parent, NodeOff(c, t, q), name) ==
            if Sub(t, q).name == name then NodeOff(c, t, q)
            else FindChildFrom(c, parent, NextSiblingOf(c, parent, NodeOff(c, t, q)), name)
  {
    hide Encodes, NextSiblingOf, NulAt, Pos, Sub, IsNode;
    NameOf(c, t, q);
  }

  lemma FindFirstOnTree(c: Ctx, t: Tree, up: Path, name: seq<byte>)
    requires Encodes(c, t) && IsNode(t, up)
    ensures FindChildFrom(c, NodeOff(c, t, up), FirstChildOf(c, NodeOff(c, t, up)), name) ==
            var k := FindKid(Sub(t, up).kids, name);
            if k < |Sub(t, up).kids| && (|up| < MAX_DEPTH || k == 0) then ChildOff(c, t, up, k) else ERR_NODE
  {
    hide Encodes, FirstChildOf, FindChildFrom, Pos, NextSiblingOf;
    var ks := Sub(t, up).kids;
    FirstChildOnTree(c, t, up);
    if ks == [] {
      FindNothing(c, NodeOff(c, t, up), name);
    } else if |up| >= MAX_DEPTH {
      ChildPath(t, up, 0);
      FindChildOnce(c, t, up + [0], NodeOff(c, t, up), name);
      NoSiblingBelow(c, t, up);
      FindNothing(c, NodeOff(c, t, up), name);
    } else {
      FindChildOnTree(c, t, up, 0, name);
      assert ks[0..] == ks;
    }
  }

  lemma {:induction false} ResolveOnTree(c: Ctx, t: Tree, up: Path, names: seq<seq<byte>>)
    requires Encodes(c, t) && IsNode(t, up)
    ensures ResolveFrom(c, NodeOff(c, t, up), names) ==
            match Resolve(Sub(t, up), names)
            case None => ERR_NODE
            case Some(q) => if InReach(|up|, q) then JoinOff(c, t, up, q) else ERR_NODE
    decreases |names|
  {
    hide Encodes, FirstChildOf, FindChildFrom, Pos, IsNode, Sub, InReach;
    var u := Sub(t, up);
    if names == [] {
      assert up + [] == up;
      NothingLeft(|up|);
    } else {
      FindFirstOnTree(c, t, up, names[0]);
      var i := FindKid(u.kids, names[0]);
      if i < |u.kids| {
        ChildPath(t, up, i);
        ResolveOnTree(c, t, up + [i], names[1..]);
        var rest := Resolve(u.kids[i], names[1..]);
        if rest.Some? {
          InReachStep(|up|, i, rest.value);
          assert (up + [i]) + rest.value == up + ([i] + rest.value);
        }
      }
    }
  }

  lemma NothingLeft(d: nat)
    ensures InReach(d, [])
  {
  }

  lemma FindNothing(c: Ctx, parent: int, name: seq<byte>)
    ensures FindChildFrom(c, parent, ERR_NODE, name) == ERR_NODE
  {
  }

  lemma {:induction false} JoinPath(t: Tree, up: Path, q: Path)
    requires IsNode(t, up) && IsNode(Sub(t, up), q)
    ensures IsNode(t, up + q)
    decreases |up|
  {
    if up == [] {
      assert up + q == q;
    } else {
      assert (up + q)[1..] == up[1..] + q;
      JoinPath(t.kids[up[0]], up[1..], q);
    }
  }

  ghost function JoinOff(c: Ctx, t: Tree, up: Path, q: Path): nat
    requires IsNode(t, up) && IsNode(Sub(t, up), q)
  {
    JoinPath(t, up, q);
    NodeOff(c, t, up + q)
  }

  predicate FromRoot(path: seq<byte>) {
    path != [] && path[0] == SLASH
  }

  /** Every path that starts with a slash resolves as its components do on the tree, as far
      as the lookup reaches; no other path does. */
  lemma PathOnTree(c: Ctx, t: Tree, path: seq<byte>)
    requires Encodes(c, t)
    ensures PathOffsetOf(c, path) ==
            if !FromRoot(path) then ERR_NODE
            else
              match Resolve(t, Components(path))
              case None => ERR_NODE
              case Some(q) => if InReach(0, q) then NodeOff(c, t, q) else ERR_NODE
  {
    hide Encodes, Components, ResolveFrom, InReach, TreeAt, Resolve;
    AtStart(c, t);
    ResolveOnTree(c, t, [], Components(path));
    forall q: Path ensures [] + q == q {}
  }

  lemma AtStart(c: Ctx, t: Tree)
    requires Encodes(c, t)
    ensures IsBegin(c.s, 0) && Pos(t, []) == 0
  {
    hide Lex, Encodes, IsBegin;
    Locate(c, t, []);
    EncodesLead(c, t);
  }

  lemma EncodesLead(c: Ctx, t: Tree)
    requires Encodes(c, t)
    ensures t.lead == 0
  {
  }

  // ----- Paths and nodes are inverses -----

  /** Resolving finds a node of exactly those names... */
  lemma {:induction false} ResolvedNames(t: Tree, names: seq<seq<byte>>)
    requires Resolve(t, names).Some?
    ensures Names(t, Resolve(t, names).value) == names
    decreases |names|
  {
    if names != [] {
      var i := FindKid(t.kids, names[0]);
      ResolvedNames(t.kids[i], names[1..]);
      var rest := Resolve(t.kids[i], names[1..]).value;
      assert ([i] + rest)[1..] == rest;
    }
  }

  /** ...and, where siblings have different names, the node whose names they are. */
  lemma {:induction false} ResolveNames(t: Tree, q: Path)
    requires UniqueNames(t) && IsNode(t, q)
    ensures Resolve(t, Names(t, q)) == Some(q)
    decreases |q|
  {
    if q != [] {
      var k := t.kids[q[0]];
      ResolveNames(k, q[1..]);
      assert Names(t, q)[1..] == Names(k, q[1..]);
      var i := FindKid(t.kids, k.name);
      assert i == q[0];
      assert [q[0]] + q[1..] == q;
    }
  }

  function Slashes(n: nat): (s: seq<byte>)
    ensures |s| == n && forall i :: 0 <= i < n ==> s[i] == SLASH
  {
    seq(n, _ => SLASH)
  }

  /** A spelling of a list of names: a slash and any number of extra ones before each name,
      and any number of slashes at the end. */
  function Spell(names: seq<seq<byte>>, extra: seq<nat>, trail: nat): seq<byte>
    requires |extra| == |names|
    decreases |names|
  {
    if names == [] then Slashes(trail)
    else Slashes(1 + extra[0]) + (names[0] + Spell(names[1..], extra[1..], trail))
  }

  predicate IsName(n: seq<byte>) {
    n != [] && SLASH !in n
  }

  lemma {:induction false} SlashesVanish(n: nat, rest: seq<byte>)
    ensures Components(Slashes(n) + rest) == Components(rest)
  {
    if n == 0 {
      assert Slashes(0) + rest == rest;
    } else {
      assert (Slashes(n) + rest)[1..] == Slashes(n - 1) + rest;
      SlashesVanish(n - 1, rest);
    }
  }

  lemma {:induction false} ComponentsSpell(names: seq<seq<byte>>, extra: seq<nat>, trail: nat)
    requires |extra| == |names| && forall i :: 0 <= i < |names| ==> IsName(names[i])
    ensures Components(Spell(names, extra, trail)) == names
    decreases |names|
  {
    hide Components;
    if names == [] {
      assert Slashes(trail) + [] == Slashes(trail);
      SlashesVanish(trail, []);
      NoComponents([]);
    } else {
      var rest := Spell(names[1..], extra[1..], trail);
      SlashesVanish(1 + extra[0], names[0] + rest);
      var s := names[0] + rest;
      assert s[0..] == s && s[0..|names[0]|] == names[0] && s[|names[0]|..] == rest;
      ComponentAt(s, 0, |names[0]|);
      ComponentsSpell(names[1..], extra[1..], trail);
    }
  }

  /** A node is found at every spelling of its path, whatever slashes are added, if and only
      if it is in reach; in a tree of at most seventeen levels every node is. */
  lemma PathOfNode(c: Ctx, t: Tree, q: Path, extra: seq<nat>, trail: nat)
    requires Encodes(c, t) && UniqueNames(t) && IsNode(t, q)
    requires forall i :: 0 <= i < |Names(t, q)| ==> IsName(Names(t, q)[i])
    requires |extra| == |Names(t, q)| && (q == [] ==> trail > 0)
    ensures PathOffsetOf(c, Spell(Names(t, q), extra, trail)) == if InReach(0, q) then NodeOff(c, t, q) else ERR_NODE
    ensures |q| <= MAX_DEPTH ==> InReach(0, q)
  {
    hide Encodes, Components, Resolve, PathOffsetOf, UniqueNames;
    var path := Spell(Names(t, q), extra, trail);
    ComponentsSpell(Names(t, q), extra, trail);
    ResolveNames(t, q);
    PathOnTree(c, t, path);
  }

  /** A path is refused exactly when it does not start with a slash, or names no node in reach. */
  lemma PathOfNoNode(c: Ctx, t: Tree, path: seq<byte>)
    requires Encodes(c, t) && UniqueNames(t)
    ensures PathOffsetOf(c, path) == ERR_NODE <==>
            !FromRoot(path) || !exists q :: IsNode(t, q) && InReach(0, q) && Names(t, q) == Components(path)
  {
    hide Encodes, Components, Resolve, InReach, PathOffsetOf, UniqueNames, Names, IsNode;
    PathOnTree(c, t, path);
    if Resolve(t, Components(path)).Some? {
      ResolvedNames(t, Components(path));
    }
    forall q | IsNode(t, q) ensures Resolve(t, Names(t, q)) == Some(q) {
      ResolveNames(t, q);
    }
  }
}
