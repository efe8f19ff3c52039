/** Reading properties: `fdt_getprop` and the list match on "compatible". */
module FdtProps {
  import opened Wrappers
  import opened Bytes
  import opened FdtTree
  import opened FdtLexer
  import opened FdtWalk

  /** The block of property names is a row of NUL-terminated strings. */
  predicate Terminated(str: seq<byte>) {
    str != [] ==> str[|str| - 1] == 0
  }

  lemma {:induction false} TerminatedNul(str: seq<byte>, i: nat)
    requires Terminated(str) && i < |str|
    ensures NulAt(str, i).Some?
    decreases |str| - i
  {
    if str[i] != 0 {
      TerminatedNul(str, i + 1);
    }
  }

  /** The string that starts at `i`, up to its terminator. */
  function StringAt(str: seq<byte>, i: nat): (r: seq<byte>)
    requires i < |str|
  {
    match NulAt(str, i)
    case None => str[i..]
    case Some(q) => str[i..q]
  }

  /** Two C strings are compared; the second is held without its terminator. */
  method StrEq(a: seq<byte>, i: nat, b: seq<byte>) returns (r: bool)
    requires IsCString(b) && i < |a| && NulAt(a, i).Some?
    ensures r <==> StringAt(a, i) == b
  {
    ghost var q := NulAt(a, i).value;
    var j := 0;
    while a[i + j] != 0 && a[i + j] == (if j < |b| then b[j] else 0)
      invariant j <= |b| && i + j <= q
      invariant a[i..i + j] == b[..j]
      decreases q - (i + j)
    {
      assert i + j != q;
      j := j + 1;
    }
    r := a[i + j] == (if j < |b| then b[j] else 0);
    if r {
      assert a[i..q] == b[..j];
    }
  }

  function PropFrom(c: Ctx, p: int, name: seq<byte>): (r: Option<seq<byte>>)
    decreases |c.s| - p
  {
    match Lex(c.s, p)
    case LNop(next) => PropFrom(c, next, name)
    case LProp(nameoff, value, next) =>
      if nameoff >= |c.str| then None
      else if StringAt(c.str, nameoff) == name then Some(value)
      else PropFrom(c, next, name)
    case _ => None
  }

  function PropOf(c: Ctx, off: int, name: seq<byte>): Option<seq<byte>> {
    var p := AfterName(c.s, off - c.off);
    if p < 0 then None else PropFrom(c, p, name)
  }

  method GetProp(c: Ctx, node: int, name: seq<byte>) returns (r: Option<seq<byte>>)
    requires IsCString(name) && Terminated(c.str)
    ensures r == PropOf(c, node, name)
  {
    hide Lex, StringAt, NulAt, AfterName;
    var p := AfterNameAt(c.s, node - c.off);
    if p < 0 {
      return None;
    }
    while true
      invariant p >= 0 && PropOf(c, node, name) == PropFrom(c, p, name)
      decreases |c.s| - p
    {
      LexAt(c.s, p);
      if !Ok(c.s, p, 4) {
        return None;
      }
      var token := Be32(c.s, p);
      if token == BEGIN_NODE || token == END_NODE {
        return None;
      }
      if token == NOP {
        p := p + 4;
        continue;
      }
      if token != PROP || !Ok(c.s, p, 8) {
        return None;
      }
      var len := Be32(c.s, p + 4);
      var nameoff := PeekBe32(c.s, p + 8);
      if !Ok(c.s, p + 12, len) {
        return None;
      }
      if nameoff >= |c.str| {
        return None;
      }
      TerminatedNul(c.str, nameoff);
      var same := StrEq(c.str, nameoff, name);
      if same {
        return Some(c.s[p + 12..p + 12 + len]);
      }
      p := p + 12 + Align4(len);
    }
  }

  /** A node's property of a given name, found among its properties in order. */
  function PropIn(str: seq<byte>, ps: seq<Property>, name: seq<byte>): Option<seq<byte>> {
    if ps == [] || ps[0].nameoff >= |str| then None
    else if StringAt(str, ps[0].nameoff) == name then Some(ps[0].value)
    else PropIn(str, ps[1..], name)
  }

  /** What a name offset stands for: the C string that is written there. */
  lemma StringIsRead(str: seq<byte>, i: nat, name: seq<byte>)
    requires IsCString(name) && HasAt(str, i, name + [0])
    ensures i < |str| && StringAt(str, i) == name
  {
    var q := i + |name|;
    assert str[q] == (name + [0])[|name|];
    forall k | i <= k < q ensures str[k] != 0 {
      assert str[i + (k - i)] == (name + [0])[k - i];
    }
    NulAtUnique(str, i, q);
    forall k | 0 <= k < |name| ensures str[i..q][k] == name[k] {
      assert str[i + k] == (name + [0])[k];
    }
    assert str[i..q] == name;
  }

  /** The value is that of the first property with the name; without one, or behind a property
      whose name is outside the block, there is none. */
  lemma {:induction false} FirstOfName(str: seq<byte>, ps: seq<Property>, name: seq<byte>, k: nat)
    requires k <= |ps|
    requires forall j :: 0 <= j < k ==> ps[j].nameoff < |str| && StringAt(str, ps[j].nameoff) != name
    requires k < |ps| && ps[k].nameoff < |str| ==> StringAt(str, ps[k].nameoff) == name
    ensures PropIn(str, ps, name) == if k < |ps| && ps[k].nameoff < |str| then Some(ps[k].value) else None
    decreases |ps|
  {
    hide StringAt;
    if k > 0 {
      FirstOfName(str, ps[1..], name, k - 1);
    }
  }

  lemma {:induction false} PropNops(c: Ctx, p: nat, n: nat, name: seq<byte>)
    requires NopsAt(c.s, p, n)
    ensures PropFrom(c, p, name) == PropFrom(c, p + 4 * n, name)
    decreases n
  {
    hide Lex;
    if n > 0 {
      PropNops(c, p + 4, n - 1, name);
    }
  }

  /** Past the last property the walk meets a child or the end of the node, and gives up. */
  lemma {:induction false} PropProps(c: Ctx, p: nat, ps: seq<Property>, name: seq<byte>)
    requires PropsAt(c.s, p, ps) && PropFrom(c, p + PropsSize(ps), name) == None
    ensures PropFrom(c, p, name) == PropIn(c.str, ps, name)
    decreases |ps|
  {
    hide Lex, Align4, StringAt;
    if ps != [] {
      PropNops(c, p, ps[0].lead, name);
      PropProps(c, p + PropSize(ps[0]), ps[1..], name);
    }
  }

  lemma PropOwn(c: Ctx, p: nat, u: Tree, name: seq<byte>)
    requires OwnAt(c.s, p, u)
    ensures AfterName(c.s, p) == p + BeginSize(u.name)
    ensures PropFrom(c, p + BeginSize(u.name), name) == PropIn(c.str, u.props, name)
  {
    hide Lex, LexOnce, PropsAt, StringAt, BeginSize, PropsSize, PropIn;
    if u.kids == [] {
      assert OwnSize(u) == HeadSize(u) + KidsSize([]) + 4 * u.trail + 4;
      PropNops(c, p + HeadSize(u), u.trail, name);
    } else {
      FirstKidAt(c.s, p, u);
      PropNops(c, p + HeadSize(u), u.kids[0].lead, name);
    }
    PropProps(c, p + BeginSize(u.name), u.props, name);
  }

  /** On an encoded tree the property found is the node's own first of that name. */
  lemma GetPropOnTree(c: Ctx, t: Tree, path: Path, name: seq<byte>)
    requires Encodes(c, t) && IsNode(t, path)
    ensures PropOf(c, NodeOff(c, t, path), name) == PropIn(c.str, Sub(t, path).props, name)
  {
    hide Encodes, OwnAt, PropFrom, AfterName, PropIn;
    Locate(c, t, path);
    PropOwn(c, Pos(t, path), Sub(t, path), name);
  }

  // ----- compatible_match -----

  /** The NUL-terminated strings of a list; bytes after the last NUL are not an entry. */
  function Entries(list: seq<byte>): seq<seq<byte>> {
    match NulAt(list, 0)
    case None => []
    case Some(q) => [list[..q]] + Entries(list[q + 1..])
  }

  /** A list of strings as it is written, each with its NUL. */
  function ListBytes(ss: seq<seq<byte>>): seq<byte> {
    if ss == [] then [] else ss[0] + ([0] + ListBytes(ss[1..]))
  }

  /** All strings that were written are entries, in order, and nothing else is. */
  lemma {:induction false} EntriesOfList(ss: seq<seq<byte>>)
    requires forall i :: 0 <= i < |ss| ==> IsCString(ss[i])
    ensures Entries(ListBytes(ss)) == ss
    decreases |ss|
  {
    hide IsCString;
    if ss != [] {
      var list, rest := ListBytes(ss), ListBytes(ss[1..]);
      EntriesOfList(ss[1..]);
      assert IsCString(ss[0]);
      FirstEntryOf(ss[0], rest);
      assert [ss[0]] + ss[1..] == ss;
    }
  }

  lemma FirstEntryOf(s: seq<byte>, rest: seq<byte>)
    requires IsCString(s)
    ensures Entries(s + ([0] + rest)) == [s] + Entries(rest)
  {
    var list := s + ([0] + rest);
    NulAtUnique(list, 0, |s|);
    assert list[..|s|] == s && list[|s| + 1..] == rest;
  }

  lemma StringEndsAt(a: seq<byte>, i: nat, q: nat)
    requires i <= q < |a| && a[q] == 0 && forall k :: i <= k < q ==> a[k] != 0
    ensures NulAt(a, i).Some? && StringAt(a, i) == a[i..q]
  {
    NulAtUnique(a, i, q);
  }

  lemma EntriesAt(list: seq<byte>, i: nat, q: nat)
    requires i <= q < |list| && list[q] == 0 && forall k :: i <= k < q ==> list[k] != 0
    ensures Entries(list[i..]) == [list[i..q]] + Entries(list[q + 1..])
  {
    NulAtUnique(list[i..], 0, q - i);
    assert list[i..][..q - i] == list[i..q];
    assert list[i..][q - i + 1..] == list[q + 1..];
  }

  lemma EntriesNone(list: seq<byte>, i: nat)
    requires i <= |list| && forall k :: i <= k < |list| ==> list[k] != 0
    ensures Entries(list[i..]) == []
  {
  }

  method CompatibleMatch(list: seq<byte>, want: seq<byte>) returns (r: bool)
    requires IsCString(want)
    ensures r <==> want in Entries(list)
  {
    hide Entries, NulAt, StringAt;
    var i := 0;
    assert list[0..] == list;
    while i < |list|
      invariant 0 <= i <= |list| + 1
      invariant want in Entries(list) <==> i <= |list| && want in Entries(list[i..])
    {
      var j := 0;
      while i + j < |list| && list[i + j] != 0
        invariant i + j <= |list|
        invariant forall k :: i <= k < i + j ==> list[k] != 0
      {
        j := j + 1;
      }
      if i + j < |list| {
        StringEndsAt(list, i, i + j);
        EntriesAt(list, i, i + j);
        var same := StrEq(list, i, want);
        if same {
          return true;
        }
      } else {
        EntriesNone(list, i);
      }
      i := i + j + 1;
    }
    if i == |list| {
      EntriesNone(list, i);
    }
    r := false;
  }
}
