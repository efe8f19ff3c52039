/** A device tree as a value, its encoding as the token stream of section 5.4 of the
    Devicetree Specification v0.4, and its nodes in document order.

    Nodes and properties say how many NOP tokens stand before them, so that every
    placement of NOPs between tokens is the encoding of some tree. */
module FdtTree {
  import opened Bytes

  const BEGIN_NODE: nat := 1
  const END_NODE: nat := 2
  const PROP: nat := 3
  const NOP: nat := 4

  datatype Property = Property(lead: nat, nameoff: nat, value: seq<byte>)

  datatype Tree = Node(lead: nat, name: seq<byte>, props: seq<Property>, kids: seq<Tree>, trail: nat)

  datatype Token = TBegin(name: seq<byte>) | TEnd | TProp(nameoff: nat, value: seq<byte>) | TNop

  // ----- Encoding -----

  /** Names are C strings, and lengths fit their fields. */
  predicate ValidToken(t: Token) {
    match t
    case TBegin(name) => IsCString(name)
    case TProp(nameoff, value) => nameoff < TWO32 && |value| < TWO32
    case _ => true
  }

  function TokenBytes(t: Token): (b: seq<byte>)
    requires ValidToken(t)
    ensures |b| == TokenSize(t)
  {
    match t
    case TBegin(name) => Be32Bytes(BEGIN_NODE) + (name + Zeros(Align4(|name| + 1) - |name|))
    case TEnd => Be32Bytes(END_NODE)
    case TProp(nameoff, value) =>
      Be32Bytes(PROP) + (Be32Bytes(|value|) + (Be32Bytes(nameoff) + (value + Zeros(Align4(|value|) - |value|))))
    case TNop => Be32Bytes(NOP)
  }

  predicate ValidTokens(ts: seq<Token>) {
    forall i :: 0 <= i < |ts| ==> ValidToken(ts[i])
  }

  function Encode(ts: seq<Token>): (b: seq<byte>)
    requires ValidTokens(ts)
  {
    if ts == [] then [] else TokenBytes(ts[0]) + Encode(ts[1..])
  }

  function NopTokens(n: nat): seq<Token> {
    if n == 0 then [] else [TNop] + NopTokens(n - 1)
  }

  function PropTokens(ps: seq<Property>): seq<Token> {
    if ps == [] then []
    else NopTokens(ps[0].lead) + ([TProp(ps[0].nameoff, ps[0].value)] + PropTokens(ps[1..]))
  }

  function TreeTokens(t: Tree): seq<Token>
    decreases t, 1
  {
    NopTokens(t.lead) + ([TBegin(t.name)] + (PropTokens(t.props) + (KidTokens(t.kids) +
      (NopTokens(t.trail) + [TEnd]))))
  }

  function KidTokens(ks: seq<Tree>): seq<Token>
    decreases ks, 0
  {
    if ks == [] then [] else TreeTokens(ks[0]) + KidTokens(ks[1..])
  }

  // ----- The sizes of the pieces of an encoding -----

  function BeginSize(name: seq<byte>): nat {
    4 + Align4(|name| + 1)
  }

  function TokenSize(t: Token): nat {
    match t
    case TBegin(name) => BeginSize(name)
    case TProp(_, value) => 12 + Align4(|value|)
    case _ => 4
  }

  function TokensSize(ts: seq<Token>): nat {
    if ts == [] then 0 else TokenSize(ts[0]) + TokensSize(ts[1..])
  }

  function PropSize(p: Property): nat {
    4 * p.lead + 12 + Align4(|p.value|)
  }

  function PropsSize(ps: seq<Property>): nat {
    if ps == [] then 0 else PropSize(ps[0]) + PropsSize(ps[1..])
  }

  /** From a node's BEGIN_NODE token to its first child. */
  function HeadSize(t: Tree): nat {
    BeginSize(t.name) + PropsSize(t.props)
  }

  /** From a node's BEGIN_NODE token to just past its END_NODE. */
  function OwnSize(t: Tree): nat
    decreases t, 1
  {
    HeadSize(t) + KidsSize(t.kids) + 4 * t.trail + 4
  }

  function TreeSize(t: Tree): nat
    decreases t, 2
  {
    4 * t.lead + OwnSize(t)
  }

  function KidsSize(ks: seq<Tree>): nat
    decreases ks, 0
  {
    if ks == [] then 0 else TreeSize(ks[0]) + KidsSize(ks[1..])
  }

  // ----- Nodes, named by the child indices that lead to them -----

  type Path = seq<nat>

  predicate IsNode(t: Tree, path: Path)
    decreases |path|
  {
    path == [] || (path[0] < |t.kids| && IsNode(t.kids[path[0]], path[1..]))
  }

  function Sub(t: Tree, path: Path): Tree
    requires IsNode(t, path)
    decreases |path|
  {
    if path == [] then t else Sub(t.kids[path[0]], path[1..])
  }

  /** Where, in the encoding of `t`, the BEGIN_NODE token of the node at `path` stands. */
  function Pos(t: Tree, path: Path): nat
    requires IsNode(t, path)
    decreases |path|
  {
    4 * t.lead + if path == [] then 0 else HeadSize(t) + KidsSize(t.kids[..path[0]]) + Pos(t.kids[path[0]], path[1..])
  }

  /** Just past the END_NODE token of the node at `path`. */
  function EndPos(t: Tree, path: Path): nat
    requires IsNode(t, path)
  {
    Pos(t, path) + OwnSize(Sub(t, path))
  }

  function Parent(path: Path): Path
    requires path != []
  {
    path[..|path| - 1]
  }

  function Last(path: Path): nat
    requires path != []
  {
    path[|path| - 1]
  }

  lemma {:induction false} KidsSizeConcat(a: seq<Tree>, b: seq<Tree>)
    ensures KidsSize(a + b) == KidsSize(a) + KidsSize(b)
    decreases |a|
  {
    if a == [] {
      assert a + b == b;
    } else {
      assert (a + b)[1..] == a[1..] + b;
      KidsSizeConcat(a[1..], b);
    }
  }

  lemma KidsSizeSplit(ks: seq<Tree>, i: nat)
    requires i < |ks|
    ensures KidsSize(ks[..i + 1]) == KidsSize(ks[..i]) + TreeSize(ks[i])
    ensures KidsSize(ks) == KidsSize(ks[..i]) + TreeSize(ks[i]) + KidsSize(ks[i + 1..])
  {
    hide TreeSize, KidsSize;
    KidsSizeConcat(ks[..i], [ks[i]]);
    OneKidSize(ks[i]);
    assert ks[..i] + [ks[i]] == ks[..i + 1];
    KidsSizeConcat(ks[..i + 1], ks[i + 1..]);
    assert ks[..i + 1] + ks[i + 1..] == ks;
  }

  lemma OneKidSize(k: Tree)
    ensures KidsSize([k]) == TreeSize(k)
  {
    hide TreeSize;
    assert [k][1..] == [];
  }

  lemma {:induction false} ChildPath(t: Tree, path: Path, i: nat)
    requires IsNode(t, path) && i < |Sub(t, path).kids|
    ensures IsNode(t, path + [i]) && Sub(t, path + [i]) == Sub(t, path).kids[i]
    ensures Pos(t, path + [i]) == Pos(t, path) + HeadSize(Sub(t, path)) + KidsSize(Sub(t, path).kids[..i])
                                  + 4 * Sub(t, path + [i]).lead
    decreases |path|
  {
    if path == [] {
      assert path + [i] == [i] && [i][1..] == [];
    } else {
      assert (path + [i])[1..] == path[1..] + [i];
      ChildPath(t.kids[path[0]], path[1..], i);
    }
  }

  lemma {:induction false} ParentPath(t: Tree, path: Path)
    requires IsNode(t, path) && path != []
    ensures IsNode(t, Parent(path)) && Last(path) < |Sub(t, Parent(path)).kids|
    ensures path == Parent(path) + [Last(path)] && Sub(t, path) == Sub(t, Parent(path)).kids[Last(path)]
    decreases |path|
  {
    if |path| > 1 {
      assert Parent(path)[1..] == Parent(path[1..]);
      ParentPath(t.kids[path[0]], path[1..]);
    }
  }
}
