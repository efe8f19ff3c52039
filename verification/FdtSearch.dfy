/** `fdt_node_by_compatible_offset`: a depth-first search with a sixteen-entry stack.

    One turn of the search's outer loop is the function `SearchTurn` on the stack of
    offsets, and `Run` is any number of turns. On an encoded tree the search visits the
    nodes in document order. It has a defect: at a node of depth fifteen that has
    children it steps back to the parent, which starts again at its own first child. The
    search therefore ends exactly when no such node comes before the first match. */
module FdtSearch {
  import opened Wrappers
  import opened Bytes
  import opened FdtTree
  import opened FdtLexer
  import opened FdtWalk
  import opened FdtOrder
  import opened FdtProps

  /** "compatible" */
  const COMPATIBLE: seq<byte> := [0x63, 0x6f, 0x6d, 0x70, 0x61, 0x74, 0x69, 0x62, 0x6c, 0x65]

  // ----- The search as the code runs it -----

  datatype Turn = Done(off: int) | Go(stack: seq<int>)

  predicate MatchesAt(c: Ctx, off: int, want: seq<byte>) {
    var v := PropOf(c, off, COMPATIBLE);
    v.Some? && want in Entries(v.value)
  }

  function Climb(c: Ctx, stack: seq<int>): (r: Turn)
    requires stack != []
    ensures r.Go? ==> r.stack != []
  {
    var d := |stack| - 1;
    if d == 0 then Done(ERR_NODE)
    else
      var sib := NextSiblingOf(c, stack[d - 1], stack[d]);
      if sib != ERR_NODE then Go(stack[..d] + [sib]) else Climb(c, stack[..d])
  }

  function SearchTurn(c: Ctx, want: seq<byte>, stack: seq<int>): (r: Turn)
    requires stack != []
    ensures r.Go? ==> r.stack != []
  {
    var d := |stack| - 1;
    var cur := stack[d];
    if MatchesAt(c, cur, want) then Done(cur)
    else
      var ch := FirstChildOf(c, cur);
      if ch == ERR_NODE then Climb(c, stack)
      else if d + 1 < MAX_DEPTH then Go(stack + [ch])
      else if d == 0 then Done(ERR_NODE)
      else Go(stack[..d])
  }

  function Run(c: Ctx, want: seq<byte>, n: nat): (r: Turn)
    ensures r.Go? ==> r.stack != []
  {
    if n == 0 then Go([c.off])
    else
      match Run(c, want, n - 1)
      case Done(off) => Done(off)
      case Go(stack) => SearchTurn(c, want, stack)
  }

  // ----- What it means on a tree -----

  predicate Matches(c: Ctx, t: Tree, want: seq<byte>, q: Path) {
    IsNode(t, q) &&
    var v := PropIn(c.str, Sub(t, q).props, COMPATIBLE);
    v.Some? && want in Entries(v.value)
  }

  ghost predicate NoneBefore(c: Ctx, t: Tree, want: seq<byte>, q: Path) {
    forall x :: Earlier(x, q) ==> !Matches(c, t, want, x)
  }

  /** `r` is the offset of the first match in document order, or ERR_NODE when there is none. */
  ghost predicate IsFirstMatch(c: Ctx, t: Tree, want: seq<byte>, r: int) {
    || (r == ERR_NODE && forall x :: !Matches(c, t, want, x))
    || exists q :: Matches(c, t, want, q) && r == NodeOff(c, t, q) && NoneBefore(c, t, want, q)
  }

  /** A node at which the search turns back. */
  predicate IsTrap(t: Tree, d: Path) {
    |d| == MAX_DEPTH - 1 && IsNode(t, d) && Sub(t, d).kids != []
  }

  /** The search falls into the trap `d`: no node up to it, or it, matches. */
  ghost predicate FallsInto(c: Ctx, t: Tree, want: seq<byte>, d: Path) {
    IsTrap(t, d) && NoneBefore(c, t, want, d) && !Matches(c, t, want, d)
  }

  ghost predicate Trapped(c: Ctx, t: Tree, want: seq<byte>) {
    exists d :: FallsInto(c, t, want, d)
  }

  /** The stack while the search is at `q`: the offsets of the nodes from the root to `q`. */
  ghost function StackOf(c: Ctx, t: Tree, q: Path): (r: seq<int>)
    requires IsNode(t, q)
    ensures |r| == |q| + 1 && r[|q|] == NodeOff(c, t, q)
    decreases |q|
  {
    if q == [] then [NodeOff(c, t, q)]
    else ParentPath(t, q); StackOf(c, t, Parent(q)) + [NodeOff(c, t, q)]
  }

  /** One turn, told in terms of nodes. */
  ghost function TreeTurn(c: Ctx, t: Tree, want: seq<byte>, q: Path): Turn
    requires IsNode(t, q)
  {
    if Matches(c, t, want, q) then Done(NodeOff(c, t, q))
    else if Sub(t, q).kids == [] then
      if NextAfter(t, q) == [] then Done(ERR_NODE) else Go(StackOf(c, t, NextAfter(t, q)[0]))
    else if |q| + 1 < MAX_DEPTH then
      ChildPath(t, q, 0);
      Go(StackOf(c, t, q + [0]))
    else if q == [] then Done(ERR_NODE)
    else
      ParentPath(t, q);
      Go(StackOf(c, t, Parent(q)))
  }

  lemma {:induction false} ClimbOnTree(c: Ctx, t: Tree, q: Path)
    requires Encodes(c, t) && IsNode(t, q) && |q| < MAX_DEPTH
    ensures Climb(c, StackOf(c, t, q)) ==
            if NextAfter(t, q) == [] then Done(ERR_NODE) else Go(StackOf(c, t, NextAfter(t, q)[0]))
    decreases |q|
  {
    hide Encodes, NextSiblingOf, Pos;
    if q != [] {
      ParentPath(t, q);
      var up, i, stack := Parent(q), Last(q), StackOf(c, t, q);
      assert stack[..|q|] == StackOf(c, t, up);
      assert stack[|q| - 1] == StackOf(c, t, up)[|up|];
      NextSiblingOnTree(c, t, q, NodeOff(c, t, up));
      if i + 1 < |Sub(t, up).kids| {
        ChildPath(t, up, i + 1);
        assert Parent(up + [i + 1]) == up;
      } else {
        ClimbOnTree(c, t, up);
      }
    }
  }

  /** On an encoded tree every turn of the code is a turn on the tree. */
  lemma TurnOnTree(c: Ctx, t: Tree, want: seq<byte>, q: Path)
    requires Encodes(c, t) && IsNode(t, q) && |q| < MAX_DEPTH
    ensures SearchTurn(c, want, StackOf(c, t, q)) == TreeTurn(c, t, want, q)
  {
    hide Encodes, FirstChildOf, Climb, Pos, PropOf, PropIn, StackOf, Sub, IsNode, NextAfter;
    StackTop(c, t, q);
    GetPropOnTree(c, t, q, COMPATIBLE);
    FirstChildOnTree(c, t, q);
    if Sub(t, q).kids == [] {
      ClimbOnTree(c, t, q);
    } else {
      StackPush(c, t, q);
      if q != [] {
        StackPop(c, t, q);
      }
    }
  }

  lemma StackTop(c: Ctx, t: Tree, q: Path)
    requires IsNode(t, q)
    ensures |StackOf(c, t, q)| == |q| + 1 && StackOf(c, t, q)[|q|] == NodeOff(c, t, q)
  {
    hide Pos;
  }

  lemma StackPush(c: Ctx, t: Tree, q: Path)
    requires IsNode(t, q) && Sub(t, q).kids != []
    ensures IsNode(t, q + [0]) && StackOf(c, t, q + [0]) == StackOf(c, t, q) + [NodeOff(c, t, q + [0])]
  {
    hide Pos, Sub;
    ChildPath(t, q, 0);
    assert Parent(q + [0]) == q;
  }

  lemma StackPop(c: Ctx, t: Tree, q: Path)
    requires IsNode(t, q) && q != []
    ensures IsNode(t, Parent(q)) && StackOf(c, t, q)[..|q|] == StackOf(c, t, Parent(q))
  {
    hide Pos, Sub;
    ParentPath(t, q);
  }

  // ----- Where the search goes -----

  /** The node that a turn moves to. */
  ghost function Next(t: Tree, q: Path): (r: Path)
    requires IsNode(t, q)
    ensures IsNode(t, r) && (|q| < MAX_DEPTH ==> |r| < MAX_DEPTH)
  {
    if Sub(t, q).kids == [] then
      if NextAfter(t, q) == [] then q else NextAfter(t, q)[0]
    else if |q| + 1 < MAX_DEPTH then
      ChildPath(t, q, 0); q + [0]
    else if q == [] then q
    else
      ParentPath(t, q); Parent(q)
  }

  lemma TurnGoes(c: Ctx, t: Tree, want: seq<byte>, q: Path)
    requires Encodes(c, t) && IsNode(t, q) && |q| < MAX_DEPTH
    ensures SearchTurn(c, want, StackOf(c, t, q)).Go? ==>
              SearchTurn(c, want, StackOf(c, t, q)).stack == StackOf(c, t, Next(t, q))
  {
    hide Encodes, SearchTurn, StackOf;
    TurnOnTree(c, t, want, q);
  }

  /** Away from traps, a turn either gives the answer or moves forward over nodes that do
      not match. */
  lemma TurnAdvances(c: Ctx, t: Tree, want: seq<byte>, q: Path)
    requires Encodes(c, t) && IsNode(t, q) && |q| < MAX_DEPTH
    requires NoneBefore(c, t, want, q) && !FallsInto(c, t, want, q)
    ensures var turn := SearchTurn(c, want, StackOf(c, t, q));
            if turn.Done? then IsFirstMatch(c, t, want, turn.off)
            else NoneBefore(c, t, want, Next(t, q)) && Pos(t, q) < Pos(t, Next(t, q))
  {
    hide Encodes, SearchTurn, StackOf, Matches, Pos;
    TurnOnTree(c, t, want, q);
    if !Matches(c, t, want, q) {
      if Sub(t, q).kids == [] {
        forall x | Matches(c, t, want, x) ensures IsNode(t, x) { MatchIsNode(c, t, want, x); }
        forall x | IsNode(t, x) && x != q
          ensures NextAfter(t, q) == [] ==> Earlier(x, q)
          ensures NextAfter(t, q) != [] && Earlier(x, NextAfter(t, q)[0]) ==> Earlier(x, q)
        {
          NextAfterIsNext(t, q, x);
          if Under(q, x) {
            UnderLeaf(t, q, x);
          }
        }
        if NextAfter(t, q) != [] {
          NextAfterIsNext(t, q, q);
          UnderSelf(q);
          OrderIsPosition(t, q, NextAfter(t, q)[0]);
        }
      } else {
        ChildPath(t, q, 0);
        forall x ensures Earlier(x, q + [0]) <==> NotLater(x, q) { BeforeFirstChild(q, x); }
        OrderIsPosition(t, q, q + [0]);
      }
    }
  }

  lemma MatchIsNode(c: Ctx, t: Tree, want: seq<byte>, x: Path)
    requires Matches(c, t, want, x)
    ensures IsNode(t, x)
  {
  }

  lemma {:induction false} UnderSelf(q: Path)
    ensures Under(q, q)
    decreases |q|
  {
    if q != [] {
      UnderSelf(q[1..]);
    }
  }

  lemma {:induction false} ParentIsBefore(q: Path)
    requires q != []
    ensures Earlier(Parent(q), q)
    decreases |q|
  {
    if |q| > 1 {
      ParentIsBefore(q[1..]);
      assert Parent(q)[1..] == Parent(q[1..]);
    }
  }

  /** Before a trap that it falls into, the search never passes the trap. */
  lemma TurnStaysBehind(c: Ctx, t: Tree, want: seq<byte>, q: Path, d: Path)
    requires Encodes(c, t) && IsNode(t, q) && |q| < MAX_DEPTH && FallsInto(c, t, want, d) && NotLater(q, d)
    ensures SearchTurn(c, want, StackOf(c, t, q)).Go? && NotLater(Next(t, q), d)
  {
    hide Encodes, SearchTurn, StackOf, Matches, Earlier;
    TurnOnTree(c, t, want, q);
    Trichotomy(q, d);
    if Sub(t, q).kids == [] {
      if Under(q, d) {
        UnderLeaf(t, q, d);
      }
      NextAfterIsNext(t, q, d);
      if NextAfter(t, q) != [] {
        Trichotomy(NextAfter(t, q)[0], d);
      }
    } else if |q| + 1 < MAX_DEPTH {
      BeforeFirstChild(q, d);
      Trichotomy(q + [0], d);
    } else {
      ParentIsBefore(q);
      if q != d {
        EarlierTransitive(Parent(q), q, d);
      }
    }
  }

  lemma {:induction false} SearchEnds(c: Ctx, t: Tree, want: seq<byte>, q: Path, n: nat) returns (m: nat)
    requires Encodes(c, t) && !Trapped(c, t, want)
    requires IsNode(t, q) && |q| < MAX_DEPTH && NoneBefore(c, t, want, q)
    requires Run(c, want, n) == Go(StackOf(c, t, q))
    ensures Run(c, want, m).Done? && IsFirstMatch(c, t, want, Run(c, want, m).off)
    decreases TreeSize(t) - Pos(t, q)
  {
    hide Encodes, SearchTurn, StackOf, FallsInto, NoneBefore, IsFirstMatch, Pos, TreeSize;
    TurnAdvances(c, t, want, q);
    TurnGoes(c, t, want, q);
    m := n + 1;
    if Run(c, want, n + 1).Go? {
      InsideTree(t, Next(t, q));
      m := SearchEnds(c, t, want, Next(t, q), n + 1);
    }
  }

  lemma {:induction false} SearchLoops(c: Ctx, t: Tree, want: seq<byte>, d: Path, n: nat) returns (q: Path)
    requires Encodes(c, t) && FallsInto(c, t, want, d)
    ensures IsNode(t, q) && |q| < MAX_DEPTH && NotLater(q, d) && Run(c, want, n) == Go(StackOf(c, t, q))
    decreases n
  {
    hide SearchTurn, FallsInto, Pos;
    if n == 0 {
      q := [];
      AtRoot(c, t, want);
    } else {
      var prev := SearchLoops(c, t, want, d, n - 1);
      TurnStaysBehind(c, t, want, prev, d);
      TurnGoes(c, t, want, prev);
      q := Next(t, prev);
    }
  }

  /** The search ends if and only if it falls into no trap. */
  lemma SearchEndsIff(c: Ctx, t: Tree, want: seq<byte>)
    requires Encodes(c, t)
    ensures (exists n :: Run(c, want, n).Done?) <==> !Trapped(c, t, want)
  {
    hide Run, FallsInto, StackOf;
    if Trapped(c, t, want) {
      var d :| FallsInto(c, t, want, d);
      forall n ensures !Run(c, want, n).Done? {
        var q := SearchLoops(c, t, want, d, n);
      }
    } else {
      AtRoot(c, t, want);
      var m := SearchEnds(c, t, want, [], 0);
    }
  }

  /** In particular it ends when no node is deeper than fifteen. */
  lemma ShallowTreesAreSafe(c: Ctx, t: Tree, want: seq<byte>)
    requires forall q :: IsNode(t, q) ==> |q| < MAX_DEPTH
    ensures !Trapped(c, t, want)
  {
    hide NoneBefore, Matches;
    forall d | IsTrap(t, d) ensures false {
      ChildPath(t, d, 0);
    }
  }

  /** Stepping back to the parent is a step back in the document. */
  lemma TurnBack(t: Tree, q: Path)
    requires IsNode(t, q) && |q| + 1 == MAX_DEPTH && Sub(t, q).kids != []
    ensures Pos(t, Next(t, q)) < Pos(t, q)
  {
    ParentPath(t, q);
    ParentIsBefore(q);
    OrderIsPosition(t, Parent(q), q);
  }

  // ----- The loop itself -----

  lemma AtRoot(c: Ctx, t: Tree, want: seq<byte>)
    requires Encodes(c, t)
    ensures IsNode(t, []) && StackOf(c, t, []) == [c.off] && NoneBefore(c, t, want, [])
    ensures Run(c, want, 0) == Go([c.off])
  {
  }

  lemma NotInTrap(c: Ctx, t: Tree, want: seq<byte>, q: Path)
    requires !Trapped(c, t, want)
    ensures !FallsInto(c, t, want, q)
  {
  }

  lemma RunTurn(c: Ctx, want: seq<byte>, n: nat, stack: seq<int>)
    requires stack != [] && Run(c, want, n) == Go(stack)
    ensures Run(c, want, n + 1) == SearchTurn(c, want, stack)
  {
  }

  lemma ClimbOnce(c: Ctx, stack: seq<int>)
    requires stack != []
    ensures |stack| == 1 ==> Climb(c, stack) == Done(ERR_NODE)
    ensures |stack| > 1 ==>
              var sib := NextSiblingOf(c, stack[|stack| - 2], stack[|stack| - 1]);
              Climb(c, stack) ==
              if sib != ERR_NODE then Go(stack[..|stack| - 1] + [sib]) else Climb(c, stack[..|stack| - 1])
  {
  }

  // ----- A block on which it does not end -----

  /** Nodes without names and properties, each the only child of the one before. */
  function Chain(n: nat): Tree {
    Node(0, [], [], if n == 0 then [] else [Chain(n - 1)], 0)
  }

  /** A node without properties, NOPs or name, around its children's tokens. */
  lemma BareTokens(t: Tree)
    requires t.lead == 0 && t.name == [] && t.props == [] && t.trail == 0
    ensures TreeTokens(t) == [TBegin([])] + KidTokens(t.kids) + [TEnd]
  {
    hide KidTokens;
    assert NopTokens(0) == [] && PropTokens([]) == [];
  }

  lemma OneKidTokens(k: Tree)
    ensures KidTokens([]) == [] && KidTokens([k]) == TreeTokens(k)
  {
    hide TreeTokens;
    assert [k][1..] == [];
  }

  lemma {:induction false} ChainIsValid(n: nat)
    ensures ValidTokens(TreeTokens(Chain(n)))
  {
    hide TreeTokens, KidTokens;
    BareTokens(Chain(n));
    OneKidTokens(if n == 0 then Chain(0) else Chain(n - 1));
    if n > 0 {
      ChainIsValid(n - 1);
    }
  }

  lemma {:induction false} ChainDown(n: nat, k: nat)
    requires k <= n
    ensures IsNode(Chain(n), seq(k, _ => 0)) && Sub(Chain(n), seq(k, _ => 0)) == Chain(n - k)
  {
    if k > 0 {
      ChainDown(n - 1, k - 1);
      assert seq(k, _ => 0)[1..] == seq(k - 1, _ => 0);
    }
  }

  lemma {:induction false} ChainIsBare(n: nat, q: Path)
    requires IsNode(Chain(n), q)
    ensures Sub(Chain(n), q).props == []
    decreases |q|
  {
    if q != [] {
      ChainIsBare(n - 1, q[1..]);
    }
  }

  /** Every chain of seventeen nodes or more: its encoding is a block on which no search, for
      whatever string, ends. */
  lemma SearchHangs(n: nat, off: nat, str: seq<byte>, want: seq<byte>)
    requires n >= MAX_DEPTH
    ensures ValidTokens(TreeTokens(Chain(n)))
    ensures var c := Ctx(off, Encode(TreeTokens(Chain(n))), str);
            Encodes(c, Chain(n)) && !exists m :: Run(c, want, m).Done?
  {
    hide Run, TreeTokens, Encode;
    ChainIsValid(n);
    var t := Chain(n);
    var c, d: Path := Ctx(off, Encode(TreeTokens(t)), str), seq(MAX_DEPTH - 1, _ => 0);
    ChainDown(n, MAX_DEPTH - 1);
    forall x ensures !Matches(c, t, want, x) {
      if IsNode(t, x) {
        ChainIsBare(n, x);
      }
    }
    assert FallsInto(c, t, want, d);
    SearchEndsIff(c, t, want);
  }

  /** Up the stack to the nearest node with a later sibling, which takes its place. */
  method ClimbStack(c: Ctx, stack: array<int>, top: nat) returns (more: bool, depth: nat)
    requires stack.Length == MAX_DEPTH && top < MAX_DEPTH
    modifies stack
    ensures depth <= top
    ensures Climb(c, old(stack[..top + 1])) == if more then Go(stack[..depth + 1]) else Done(ERR_NODE)
  {
    hide NextSiblingOf, Climb;
    depth := top;
    while true
      invariant 0 <= depth <= top && stack[..] == old(stack[..])
      invariant Climb(c, old(stack[..top + 1])) == Climb(c, stack[..depth + 1])
      decreases depth
    {
      ClimbOnce(c, stack[..depth + 1]);
      if depth == 0 {
        return false, 0;
      }
      var sib := NextSibling(c, stack[depth - 1], stack[depth]);
      assert stack[..depth + 1][..depth] == stack[..depth];
      if sib != ERR_NODE {
        stack[depth] := sib;
        assert stack[..depth + 1] == old(stack[..])[..depth] + [sib];
        return true, depth;
      }
      depth := depth - 1;
    }
  }

  /** The search, on the array it keeps its stack in. A block that does not start with a
      node has nothing to find; otherwise `t` is the tree that the block encodes. */
  method NodeByCompatible(c: Ctx, want: seq<byte>, ghost t: Tree) returns (r: int)
    requires IsCString(want) && Terminated(c.str)
    requires IsBegin(c.s, 0) ==> Encodes(c, t) && !Trapped(c, t, want)
    ensures !IsBegin(c.s, 0) ==> r == ERR_NODE
    ensures IsBegin(c.s, 0) ==> IsFirstMatch(c, t, want, r) && exists n :: Run(c, want, n) == Done(r)
  {
    hide Lex, Encodes, FirstChildOf, NextSiblingOf, PropOf, Entries, Climb, StackOf, FallsInto, NoneBefore,
         IsFirstMatch, Pos, Next, IsNode, Run, Sub, Trapped;
    var stack := new int[MAX_DEPTH];
    var depth := 0;
    stack[0] := c.off;
    if !Ok(c.s, 0, 4) || Be32(c.s, 0) != BEGIN_NODE {
      return ERR_NODE;
    }
    ghost var q: Path, n := [], 0;
    AtRoot(c, t, want);
    while true
      invariant 0 <= depth < MAX_DEPTH && |q| == depth && IsNode(t, q)
      invariant stack[..depth + 1] == StackOf(c, t, q)
      invariant NoneBefore(c, t, want, q)
      invariant Run(c, want, n) == Go(stack[..depth + 1])
      decreases TreeSize(t) - Pos(t, q)
    {
      ghost var was, wasAt := stack[..depth + 1], q;
      NotInTrap(c, t, want, q);
      InsideTree(t, q);
      TurnAdvances(c, t, want, q);
      TurnGoes(c, t, want, q);
      RunTurn(c, want, n, was);
      n, q := n + 1, Next(t, q);
      var cur := stack[depth];
      var list := GetProp(c, cur, COMPATIBLE);
      if list.Some? {
        var found := CompatibleMatch(list.value, want);
        if found {
          return cur;
        }
      }
      var ch := FirstChild(c, cur);
      if ch != ERR_NODE {
        if depth + 1 >= MAX_DEPTH {
          var sib := NextSibling(c, cur, ch);
          while sib != ERR_NODE
            invariant sib == ERR_NODE || sib < c.off + |c.s|
            decreases if sib == ERR_NODE then 0 else c.off + |c.s| - sib
          {
            sib := NextSibling(c, cur, sib);
          }
          depth := depth - 1;
          FirstChildOnTree(c, t, wasAt);
          TurnBack(t, wasAt);
          assert false;
        }
        depth := depth + 1;
        stack[depth] := ch;
        assert stack[..depth + 1] == was + [ch];
        continue;
      }
      var more;
      more, depth := ClimbStack(c, stack, depth);
      if !more {
        return ERR_NODE;
      }
    }
  }
}
