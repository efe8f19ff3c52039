/** Reading tokens out of the structure block.

    Positions are relative to the structure block; a node offset, as the callers of the
    library see it, is the block's own offset plus such a position. The five walks of the
    library read a token in five slightly different ways; `Lex` is what they have in
    common, and each walk is proved to read tokens as `Lex` does. */
module FdtLexer {
  import opened Wrappers
  import opened Bytes
  import opened FdtTree

  const MAGIC: nat := 0xd00d_feed
  const HEADER_SIZE: nat := 40
  const ERR_NODE: int := -1

  /** The two blocks that the walks look at, and where the structure block starts. */
  datatype Ctx = Ctx(off: nat, s: seq<byte>, str: seq<byte>)

  /** `n` bytes from position `p` lie in the block `s`. */
  predicate Ok(s: seq<byte>, p: int, n: nat) {
    0 <= p <= |s| && n <= |s| - p
  }

  /** The caller owes the header and as many bytes as the header announces. */
  function CtxInit(blob: seq<byte>): (r: Option<Ctx>)
    requires HEADER_SIZE <= |blob| && Be32(blob, 4) <= |blob|
    ensures r.Some? ==> r.value.off + |r.value.s| <= Be32(blob, 4)
    ensures r.Some? ==> HasAt(blob, r.value.off, r.value.s)
    ensures r.Some? ==> HasAt(blob, Be32(blob, 12), r.value.str) && Be32(blob, 12) + |r.value.str| <= Be32(blob, 4)
  {
    var totalSize, offStruct, offStrings := Be32(blob, 4), Be32(blob, 8), Be32(blob, 12);
    var sizeStrings, sizeStruct := Be32(blob, 32), Be32(blob, 36);
    if Be32(blob, 0) != MAGIC then None
    else if offStruct > totalSize || sizeStruct > totalSize - offStruct then None
    else if offStrings > totalSize || sizeStrings > totalSize - offStrings then None
    else Some(Ctx(offStruct, blob[offStruct..offStruct + sizeStruct], blob[offStrings..offStrings + sizeStrings]))
  }

  /** The ten words of a header, in their order. */
  datatype Header = Header(magic: nat, totalSize: nat, offStruct: nat, offStrings: nat, offReserve: nat,
                           version: nat, lastVersion: nat, bootCpu: nat, sizeStrings: nat, sizeStruct: nat) {
    function Words(): seq<nat> {
      [magic, totalSize, offStruct, offStrings, offReserve, version, lastVersion, bootCpu, sizeStrings, sizeStruct]
    }

    predicate Fits() {
      forall i :: 0 <= i < 10 ==> Words()[i] < TWO32
    }
  }

  function WordBytes(ws: seq<nat>): (b: seq<byte>)
    requires forall i :: 0 <= i < |ws| ==> ws[i] < TWO32
    ensures |b| == 4 * |ws|
  {
    if ws == [] then [] else Be32Bytes(ws[0]) + WordBytes(ws[1..])
  }

  lemma {:induction false} WordIsRead(s: seq<byte>, p: nat, ws: seq<nat>, i: nat)
    requires (forall k :: 0 <= k < |ws| ==> ws[k] < TWO32) && HasAt(s, p, WordBytes(ws)) && i < |ws|
    ensures p + 4 * i + 4 <= |s| && Be32(s, p + 4 * i) == ws[i]
    decreases i
  {
    hide Be32Bytes, Be32;
    HasAtConcat(s, p, Be32Bytes(ws[0]), WordBytes(ws[1..]));
    if i == 0 {
      Be32At(s, p, ws[0]);
    } else {
      WordIsRead(s, p + 4, ws[1..], i - 1);
    }
  }

  /** A blob is accepted if and only if its header has the magic number and both blocks lie in
      the announced size; the blocks are then where the header says. */
  lemma CtxOfHeader(h: Header, body: seq<byte>)
    requires h.Fits() && h.totalSize <= HEADER_SIZE + |body|
    ensures var blob := WordBytes(h.Words()) + body;
            && |blob| == HEADER_SIZE + |body| && Be32(blob, 4) == h.totalSize
            && CtxInit(blob) ==
               if && h.magic == MAGIC && h.offStruct + h.sizeStruct <= h.totalSize
                  && h.offStrings + h.sizeStrings <= h.totalSize
               then Some(Ctx(h.offStruct, blob[h.offStruct..h.offStruct + h.sizeStruct],
                             blob[h.offStrings..h.offStrings + h.sizeStrings]))
               else None
  {
    hide WordBytes, Be32;
    var head, blob := WordBytes(h.Words()), WordBytes(h.Words()) + body;
    HeaderLength(h);
    HasAtConcat(blob, 0, head, body);
    WordIsRead(blob, 0, h.Words(), 0);
    WordIsRead(blob, 0, h.Words(), 1);
    WordIsRead(blob, 0, h.Words(), 2);
    WordIsRead(blob, 0, h.Words(), 3);
    WordIsRead(blob, 0, h.Words(), 8);
    WordIsRead(blob, 0, h.Words(), 9);
  }

  lemma HeaderLength(h: Header)
    requires h.Fits()
    ensures |WordBytes(h.Words())| == HEADER_SIZE
  {
  }

  /** The position of the first NUL at or after `p`. */
  function NulAt(s: seq<byte>, p: nat): (r: Option<nat>)
    ensures r.Some? ==> p <= r.value < |s| && s[r.value] == 0 && IsCString(s[p..r.value])
    ensures r.None? ==> forall i :: p <= i < |s| ==> s[i] != 0
    decreases |s| - p
  {
    if p >= |s| then None
    else if s[p] == 0 then Some(p)
    else NulAt(s, p + 1)
  }

  lemma NulAtUnique(s: seq<byte>, p: nat, q: nat)
    requires p <= q < |s| && s[q] == 0 && forall i :: p <= i < q ==> s[i] != 0
    ensures NulAt(s, p) == Some(q)
  {
  }

  /** The length of the NUL-terminated name at `p`, or -1 when the block ends first. */
  method NodeName(s: seq<byte>, p: nat) returns (n: int)
    requires p <= |s|
    ensures n == match NulAt(s, p) case None => -1 case Some(q) => q - p
  {
    n := 0;
    while Ok(s, p + n, 1) && s[p + n] != 0
      invariant 0 <= n <= |s| - p
      invariant forall i :: p <= i < p + n ==> s[i] != 0
      decreases |s| - n
    {
      n := n + 1;
    }
    if !Ok(s, p + n, 1) {
      return -1;
    }
    NulAtUnique(s, p, p + n);
  }

  /** A four-byte read that the code makes before it has checked it: what it finds past
      the end of the block is anybody's guess. */
  method PeekBe32(s: seq<byte>, p: nat) returns (v: nat)
    ensures v < TWO32
    ensures p + 4 <= |s| ==> v == Be32(s, p)
  {
    if p + 4 <= |s| {
      v := Be32(s, p);
    } else {
      v :| v < TWO32;
    }
  }

  datatype Lexeme =
    | Bad
    | LBegin(name: seq<byte>, next: nat)
    | LEnd(next: nat)
    | LProp(nameoff: nat, value: seq<byte>, next: nat)
    | LNop(next: nat)

  predicate IsBegin(s: seq<byte>, p: int) {
    Ok(s, p, 4) && Be32(s, p) == BEGIN_NODE
  }

  function Lex(s: seq<byte>, p: int): (r: Lexeme)
    ensures !r.Bad? ==> 0 <= p && p + 4 <= r.next && p + 4 <= |s|
  {
    LexOnce(s, p)
  }

  function LexOnce(s: seq<byte>, p: int): (r: Lexeme)
    ensures !r.Bad? ==> 0 <= p && p + 4 <= r.next && p + 4 <= |s|
  {
    if !Ok(s, p, 4) then Bad
    else
      var token := Be32(s, p);
      if token == BEGIN_NODE then
        match NulAt(s, p + 4)
        case None => Bad
        case Some(q) => LBegin(s[p + 4..q], p + 4 + Align4(q - (p + 4) + 1))
      else if token == END_NODE then LEnd(p + 4)
      else if token == PROP then
        if Ok(s, p + 12, 0) && Ok(s, p + 12, Be32(s, p + 4)) then
          var len := Be32(s, p + 4);
          LProp(Be32(s, p + 8), s[p + 12..p + 12 + len], p + 12 + Align4(len))
        else Bad
      else if token == NOP then LNop(p + 4)
      else Bad
  }

  /** Lets a proof that hides `Lex` read one token. */
  lemma LexAt(s: seq<byte>, p: int)
    ensures Lex(s, p) == LexOnce(s, p)
    ensures Lex(s, p).LBegin? ==> IsBegin(s, p)
    ensures Lex(s, p).LEnd? || Lex(s, p).LProp? || Lex(s, p).LNop? ==> !IsBegin(s, p)
  {
  }

  // ----- Reading an encoding back -----

  lemma LexBegin(s: seq<byte>, p: nat, name: seq<byte>)
    requires IsCString(name) && HasAt(s, p, TokenBytes(TBegin(name)))
    ensures IsBegin(s, p) && Lex(s, p) == LBegin(name, p + BeginSize(name))
  {
    var pad := Zeros(Align4(|name| + 1) - |name|);
    HasAtConcat(s, p, Be32Bytes(BEGIN_NODE), name + pad);
    Be32At(s, p, BEGIN_NODE);
    HasAtConcat(s, p + 4, name, pad);
    assert s[p + 4 + |name|] == pad[0];
    forall i | p + 4 <= i < p + 4 + |name| ensures s[i] != 0 {
      assert s[i] == name[i - (p + 4)];
    }
    NulAtUnique(s, p + 4, p + 4 + |name|);
  }

  lemma LexProp(s: seq<byte>, p: nat, nameoff: nat, value: seq<byte>)
    requires nameoff < TWO32 && |value| < TWO32 && HasAt(s, p, TokenBytes(TProp(nameoff, value)))
    ensures Lex(s, p) == LProp(nameoff, value, p + 12 + Align4(|value|))
  {
    var pad := Zeros(Align4(|value|) - |value|);
    HasAtConcat(s, p, Be32Bytes(PROP), Be32Bytes(|value|) + (Be32Bytes(nameoff) + (value + pad)));
    Be32At(s, p, PROP);
    HasAtConcat(s, p + 4, Be32Bytes(|value|), Be32Bytes(nameoff) + (value + pad));
    Be32At(s, p + 4, |value|);
    HasAtConcat(s, p + 8, Be32Bytes(nameoff), value + pad);
    Be32At(s, p + 8, nameoff);
    HasAtConcat(s, p + 12, value, pad);
  }

  predicate Reads(s: seq<byte>, p: nat, t: Token) {
    var next := p + TokenSize(t);
    match t
    case TBegin(name) => IsBegin(s, p) && Lex(s, p) == LBegin(name, next)
    case TEnd => Lex(s, p) == LEnd(next)
    case TProp(nameoff, value) => Lex(s, p) == LProp(nameoff, value, next)
    case TNop => Lex(s, p) == LNop(next)
  }

  lemma LexToken(s: seq<byte>, p: nat, t: Token)
    requires ValidToken(t) && HasAt(s, p, TokenBytes(t))
    ensures Reads(s, p, t)
  {
    match t
    case TBegin(name) => LexBegin(s, p, name);
    case TEnd => Be32At(s, p, END_NODE);
    case TProp(nameoff, value) => LexProp(s, p, nameoff, value);
    case TNop => Be32At(s, p, NOP);
  }

  ghost predicate ReadsAll(s: seq<byte>, p: nat, ts: seq<Token>)
    decreases |ts|
  {
    ts == [] || (Reads(s, p, ts[0]) && ReadsAll(s, p + TokenSize(ts[0]), ts[1..]))
  }

  /** Reading what was encoded gives the tokens back, one by one. */
  lemma {:induction false} LexEncoded(s: seq<byte>, p: nat, ts: seq<Token>)
    requires ValidTokens(ts) && HasAt(s, p, Encode(ts))
    ensures ReadsAll(s, p, ts)
    decreases |ts|
  {
    hide Reads, TokenBytes, TokenSize, Lex;
    if ts != [] {
      HasAtConcat(s, p, TokenBytes(ts[0]), Encode(ts[1..]));
      LexToken(s, p, ts[0]);
      LexEncoded(s, p + TokenSize(ts[0]), ts[1..]);
    }
  }

  lemma {:induction false} ReadsConcat(s: seq<byte>, p: nat, a: seq<Token>, b: seq<Token>)
    requires ReadsAll(s, p, a + b)
    ensures ReadsAll(s, p, a) && ReadsAll(s, p + TokensSize(a), b)
    decreases |a|
  {
    hide Reads;
    if a == [] {
      assert a + b == b;
    } else {
      assert (a + b)[1..] == a[1..] + b;
      ReadsConcat(s, p + TokenSize(a[0]), a[1..], b);
    }
  }

  /** The pieces of a tree stand in the block, and `Lex` reads each of them. */
  ghost predicate NopsAt(s: seq<byte>, p: nat, n: nat)
    decreases n
  {
    n == 0 || (Lex(s, p) == LNop(p + 4) && NopsAt(s, p + 4, n - 1))
  }

  ghost predicate PropsAt(s: seq<byte>, p: nat, ps: seq<Property>)
    decreases |ps|
  {
    ps == [] ||
    (&& NopsAt(s, p, ps[0].lead)
     && Lex(s, p + 4 * ps[0].lead) == LProp(ps[0].nameoff, ps[0].value, p + PropSize(ps[0]))
     && PropsAt(s, p + PropSize(ps[0]), ps[1..]))
  }

  ghost predicate OwnAt(s: seq<byte>, p: nat, t: Tree)
    decreases t, 1
  {
    && IsBegin(s, p) && Lex(s, p) == LBegin(t.name, p + BeginSize(t.name))
    && PropsAt(s, p + BeginSize(t.name), t.props)
    && KidsAt(s, p + HeadSize(t), t.kids)
    && NopsAt(s, p + OwnSize(t) - 4 - 4 * t.trail, t.trail)
    && Lex(s, p + OwnSize(t) - 4) == LEnd(p + OwnSize(t))
  }

  ghost predicate TreeAt(s: seq<byte>, p: nat, t: Tree)
    decreases t, 2
  {
    NopsAt(s, p, t.lead) && OwnAt(s, p + 4 * t.lead, t)
  }

  ghost predicate KidsAt(s: seq<byte>, p: nat, ks: seq<Tree>)
    decreases ks, 0
  {
    ks == [] || (TreeAt(s, p, ks[0]) && KidsAt(s, p + TreeSize(ks[0]), ks[1..]))
  }

  lemma {:induction false} ReadNops(s: seq<byte>, p: nat, n: nat)
    requires ReadsAll(s, p, NopTokens(n))
    ensures NopsAt(s, p, n) && TokensSize(NopTokens(n)) == 4 * n
    decreases n
  {
    hide Lex;
    if n > 0 {
      ReadNops(s, p + 4, n - 1);
    }
  }

  lemma {:induction false} ReadProps(s: seq<byte>, p: nat, ps: seq<Property>)
    requires ReadsAll(s, p, PropTokens(ps))
    ensures PropsAt(s, p, ps) && TokensSize(PropTokens(ps)) == PropsSize(ps)
    decreases |ps|
  {
    hide Lex;
    if ps != [] {
      var t, rest := TProp(ps[0].nameoff, ps[0].value), PropTokens(ps[1..]);
      ReadsConcat(s, p, NopTokens(ps[0].lead), [t] + rest);
      ReadNops(s, p, ps[0].lead);
      assert ([t] + rest)[1..] == rest;
      ReadProps(s, p + PropSize(ps[0]), ps[1..]);
      TokensSizeConcat(NopTokens(ps[0].lead), [t] + rest);
    }
  }

  lemma {:induction false} TokensSizeConcat(a: seq<Token>, b: seq<Token>)
    ensures TokensSize(a + b) == TokensSize(a) + TokensSize(b)
    decreases |a|
  {
    if a == [] {
      assert a + b == b;
    } else {
      assert (a + b)[1..] == a[1..] + b;
      TokensSizeConcat(a[1..], b);
    }
  }

  lemma ReadsCons(s: seq<byte>, p: nat, t: Token, rest: seq<Token>)
    requires ReadsAll(s, p, [t] + rest)
    ensures Reads(s, p, t) && ReadsAll(s, p + TokenSize(t), rest)
    ensures TokensSize([t] + rest) == TokenSize(t) + TokensSize(rest)
  {
    hide Reads;
    assert ([t] + rest)[1..] == rest;
  }

  lemma {:induction false} ReadTree(s: seq<byte>, p: nat, t: Tree)
    requires ReadsAll(s, p, TreeTokens(t))
    ensures TreeAt(s, p, t) && TokensSize(TreeTokens(t)) == TreeSize(t)
    decreases t, 1
  {
    hide Lex, ReadsAll, TokensSize, Align4;
    var nops, props, kids := NopTokens(t.lead), PropTokens(t.props), KidTokens(t.kids);
    var tail := NopTokens(t.trail) + [TEnd];
    ReadsConcat(s, p, nops, [TBegin(t.name)] + (props + (kids + tail)));
    ReadNops(s, p, t.lead);
    TokensSizeConcat(nops, [TBegin(t.name)] + (props + (kids + tail)));
    ReadsCons(s, p + 4 * t.lead, TBegin(t.name), props + (kids + tail));
    var q := p + 4 * t.lead + BeginSize(t.name);
    ReadsConcat(s, q, props, kids + tail);
    ReadProps(s, q, t.props);
    TokensSizeConcat(props, kids + tail);
    ReadsConcat(s, q + PropsSize(t.props), kids, tail);
    ReadKids(s, q + PropsSize(t.props), t.kids);
    TokensSizeConcat(kids, tail);
    ReadTail(s, q + PropsSize(t.props) + KidsSize(t.kids), t.trail);
  }

  lemma ReadTail(s: seq<byte>, p: nat, n: nat)
    requires ReadsAll(s, p, NopTokens(n) + [TEnd])
    ensures NopsAt(s, p, n) && Lex(s, p + 4 * n) == LEnd(p + 4 * n + 4)
    ensures TokensSize(NopTokens(n) + [TEnd]) == 4 * n + 4
  {
    hide Lex;
    ReadsConcat(s, p, NopTokens(n), [TEnd]);
    ReadNops(s, p, n);
    TokensSizeConcat(NopTokens(n), [TEnd]);
  }

  lemma {:induction false} ReadKids(s: seq<byte>, p: nat, ks: seq<Tree>)
    requires ReadsAll(s, p, KidTokens(ks))
    ensures KidsAt(s, p, ks) && TokensSize(KidTokens(ks)) == KidsSize(ks)
    decreases ks, 0
  {
    hide Lex, ReadsAll;
    if ks != [] {
      ReadsConcat(s, p, TreeTokens(ks[0]), KidTokens(ks[1..]));
      ReadTree(s, p, ks[0]);
      TokensSizeConcat(TreeTokens(ks[0]), KidTokens(ks[1..]));
      ReadKids(s, p + TreeSize(ks[0]), ks[1..]);
    }
  }

  /** The block starts with the encoding of `t`, whatever follows it. */
  ghost predicate Encodes(c: Ctx, t: Tree) {
    t.lead == 0 && ValidTokens(TreeTokens(t)) && HasAt(c.s, 0, Encode(TreeTokens(t)))
  }

  lemma {:induction false} KidsFrom(s: seq<byte>, p: nat, ks: seq<Tree>, i: nat)
    requires KidsAt(s, p, ks) && i <= |ks|
    ensures KidsAt(s, p + KidsSize(ks[..i]), ks[i..])
    decreases i
  {
    hide TreeAt;
    if i == 0 {
      assert ks[..0] == [] && ks[0..] == ks;
    } else {
      KidsFrom(s, p + TreeSize(ks[0]), ks[1..], i - 1);
      assert ks[..i][1..] == ks[1..][..i - 1];
      assert ks[1..][i - 1..] == ks[i..];
    }
  }

  lemma KidAt(s: seq<byte>, p: nat, ks: seq<Tree>, i: nat)
    requires KidsAt(s, p, ks) && i < |ks|
    ensures TreeAt(s, p + KidsSize(ks[..i]), ks[i])
  {
    KidsFrom(s, p, ks, i);
    assert ks[i..][0] == ks[i];
  }

  lemma FirstKidAt(s: seq<byte>, p: nat, t: Tree)
    requires OwnAt(s, p, t) && t.kids != []
    ensures NopsAt(s, p + HeadSize(t), t.kids[0].lead) && OwnAt(s, p + HeadSize(t) + 4 * t.kids[0].lead, t.kids[0])
  {
    hide Lex;
    KidAt(s, p + HeadSize(t), t.kids, 0);
    assert t.kids[..0] == [];
  }

  lemma {:induction false} SubAt(s: seq<byte>, p: nat, t: Tree, path: Path)
    requires TreeAt(s, p, t) && IsNode(t, path)
    ensures OwnAt(s, p + Pos(t, path), Sub(t, path))
    decreases |path|
  {
    hide Lex, PropsAt, NopsAt;
    if path != [] {
      KidAt(s, p + 4 * t.lead + HeadSize(t), t.kids, path[0]);
      SubAt(s, p + 4 * t.lead + HeadSize(t) + KidsSize(t.kids[..path[0]]), t.kids[path[0]], path[1..]);
    }
  }

  lemma EncodedTreeAt(c: Ctx, t: Tree)
    requires Encodes(c, t)
    ensures TreeAt(c.s, 0, t)
  {
    hide Lex, TreeAt, ReadsAll;
    LexEncoded(c.s, 0, TreeTokens(t));
    ReadTree(c.s, 0, t);
  }

  /** Every node of an encoded tree stands at its position. */
  lemma Locate(c: Ctx, t: Tree, path: Path)
    requires Encodes(c, t) && IsNode(t, path)
    ensures OwnAt(c.s, Pos(t, path), Sub(t, path))
  {
    hide Lex, TreeAt, OwnAt, Encodes;
    EncodedTreeAt(c, t);
    SubAt(c.s, 0, t, path);
  }
}
