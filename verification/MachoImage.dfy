/** What a loaded image is: a function from unslid addresses to bytes, the same for every
    slide; and, for an image whose segments do not overlap, what each byte of it is. */
module MachoImage {
  import opened Wrappers
  import opened Bytes
  import opened Macho

  /** How far `x` is past `a`, around the address space. */
  function Past(a: Word, x: Word): Word {
    (x - a) % TWO64
  }

  /** The loader writes the unslid address `x` for this segment; a segment that runs past the
      end of the address space goes on at its start. */
  predicate Covers(c: Command, x: Word) {
    Loads(c) && Past(c.vmaddr, x) < Extent(c)
  }

  /** The byte that ends up at the unslid address `x`: the last segment to cover it wins. */
  function ByteAt(s: seq<byte>, cs: seq<Command>, x: Word): Option<byte>
    requires FileBacked(s, cs)
  {
    if cs == [] then None
    else
      var n := |cs| - 1;
      if Covers(cs[n], x) then Some(Image(s, cs[n])[Past(cs[n].vmaddr, x)]) else ByteAt(s, cs[..n], x)
  }

  lemma PastNext(a: Word, x: Word)
    ensures Past(a, x) == 0 <==> x == a
    ensures x != a ==> Past(Plus(a, 1), x) == Past(a, x) - 1
    ensures x == a ==> Past(Plus(a, 1), x) == TWO64 - 1
  {
  }

  lemma {:induction false} StoreAt(mem: Memory, a: Word, content: seq<byte>, x: Word)
    requires |content| <= TWO64
    ensures var m := Store(mem, a, content);
            if Past(a, x) < |content| then x in m && m[x] == content[Past(a, x)]
            else (x in m <==> x in mem) && (x in m ==> m[x] == mem[x])
    decreases |content|
  {
    hide Past, Plus;
    if content != [] {
      PastNext(a, x);
      StoreAt(mem[a := content[0]], Plus(a, 1), content[1..], x);
    }
  }

  /** Distances do not change under a slide. */
  lemma PastSlid(base: Word, v: Word, x: Word)
    ensures Past(Plus(base, v), Plus(base, x)) == Past(v, x)
  {
    assert Past(v, x) == if v <= x then x - v else x - v + TWO64;
  }

  /** For every slide: at the slid address of `x` stands the image's byte for `x`, and
      addresses the image has no byte for keep what they had. */
  lemma {:induction false} LoadedAt(mem: Memory, s: seq<byte>, cs: seq<Command>, base: Word, x: Word)
    requires FileBacked(s, cs)
    ensures var m, a := Loaded(mem, s, cs, base), Plus(base, x);
            match ByteAt(s, cs, x)
            case Some(b) => a in m && m[a] == b
            case None => (a in m <==> a in mem) && (a in m ==> m[a] == mem[a])
    decreases |cs|
  {
    hide Store, Image, Plus, Past, Extent;
    if cs != [] {
      var n := |cs| - 1;
      assert forall i :: 0 <= i < n ==> cs[..n][i] == cs[i];
      LoadedAt(mem, s, cs[..n], base, x);
      if Loads(cs[n]) {
        PastSlid(base, cs[n].vmaddr, x);
        ExtentFits(cs[n]);
        StoreAt(Loaded(mem, s, cs[..n], base), Plus(base, cs[n].vmaddr), Image(s, cs[n]), Plus(base, x));
      }
    }
  }

  lemma ExtentFits(c: Command)
    requires Loads(c)
    ensures 1 <= Extent(c) < TWO64
  {
  }

  /** Loading with slide `b` is loading with slide 0, moved by `b`. */
  lemma SlideShifts(mem0: Memory, memB: Memory, s: seq<byte>, cs: seq<Command>, base: Word, x: Word)
    requires FileBacked(s, cs) && ByteAt(s, cs, x).Some?
    ensures var m0, mB := Loaded(mem0, s, cs, 0), Loaded(memB, s, cs, base);
            x in m0 && Plus(base, x) in mB && mB[Plus(base, x)] == m0[x]
  {
    hide Loaded, ByteAt;
    LoadedAt(mem0, s, cs, 0, x);
    LoadedAt(memB, s, cs, base, x);
  }

  lemma {:induction false} EntryShifts(cs: seq<Command>, i: nat, off: Word, base: Word)
    requires i <= |cs|
    ensures EntryFrom(cs, i, off, base) ==
            match EntryFrom(cs, i, off, 0) case None => None case Some(e) => Some(Plus(base, e))
    decreases |cs| - i
  {
    hide Plus, Contains;
    if i < |cs| {
      if Contains(cs[i], off) {
        ContainsIsSegment(cs[i], off);
        PlusAssociates(base, cs[i].vmaddr, off - cs[i].fileoff);
      } else {
        EntryShifts(cs, i + 1, off, base);
      }
    }
  }

  lemma ContainsIsSegment(c: Command, off: Word)
    requires Contains(c, off)
    ensures c.Segment?
  {
  }

  lemma PlusAssociates(base: Word, v: Word, d: int)
    ensures Plus(Plus(base, v), d) == Plus(base, Plus(v, d)) && Plus(0, v) == v
  {
    ModAdd(base + v, d);
    ModAdd(v + d, base);
  }

  lemma ModAdd(x: int, y: int)
    ensures (x % TWO64 + y) % TWO64 == (x + y) % TWO64
  {
    var q := x / TWO64;
    assert x + y == (x % TWO64 + y) + TWO64 * q;
  }

  // ----- Images whose segments do not overlap -----

  /** No address is in both segments. */
  ghost predicate Apart(c: Command, d: Command) {
    forall x: Word :: !(Covers(c, x) && Covers(d, x))
  }

  ghost predicate Disjoint(cs: seq<Command>) {
    forall i, j :: 0 <= i < j < |cs| ==> Apart(cs[i], cs[j])
  }

  lemma PastPlus(v: Word, k: nat)
    requires k < TWO64
    ensures Past(v, Plus(v, k)) == k
  {
    assert Plus(v, k) == if v + k < TWO64 then v + k else v + k - TWO64;
  }

  /** Each byte of a segment is the file's byte, or zero past the file's. */
  lemma {:induction false} SegmentBytes(s: seq<byte>, cs: seq<Command>, i: nat, k: nat)
    requires FileBacked(s, cs) && Disjoint(cs) && i < |cs| && Loads(cs[i]) && k < Extent(cs[i])
    ensures ByteAt(s, cs, Plus(cs[i].vmaddr, k)) == Some(if k < cs[i].filesize then s[cs[i].fileoff + k] else 0)
    decreases |cs|
  {
    hide Extent, Past, Plus;
    var c, n := cs[i], |cs| - 1;
    ExtentFits(c);
    PastPlus(c.vmaddr, k);
    assert Covers(c, Plus(c.vmaddr, k));
    if i < n {
      assert Apart(cs[i], cs[n]);
      assert forall j :: 0 <= j < n ==> cs[..n][j] == cs[j];
      SegmentBytes(s, cs[..n], i, k);
    }
  }

  /** Elsewhere the image has no byte, so memory is left as it was. */
  lemma {:induction false} OutsideSegments(s: seq<byte>, cs: seq<Command>, x: Word)
    requires FileBacked(s, cs)
    ensures ByteAt(s, cs, x).None? <==> forall i :: 0 <= i < |cs| ==> !Covers(cs[i], x)
    decreases |cs|
  {
    hide Covers, Image;
    if cs != [] {
      var n := |cs| - 1;
      assert forall j :: 0 <= j < n ==> cs[..n][j] == cs[j];
      OutsideSegments(s, cs[..n], x);
      assert cs[n] == cs[n];
    }
  }

  lemma {:induction false} EntrySegment(cs: seq<Command>, i: nat, off: Word, base: Word) returns (k: nat)
    requires i <= |cs| && EntryFrom(cs, i, off, base).Some?
    ensures i <= k < |cs| && Contains(cs[k], off)
    ensures EntryFrom(cs, i, off, base).value == Plus(Plus(base, cs[k].vmaddr), off - cs[k].fileoff)
    ensures forall j :: i <= j < k ==> !Contains(cs[j], off)
    decreases |cs| - i
  {
    hide Contains;
    if Contains(cs[i], off) {
      k := i;
    } else {
      k := EntrySegment(cs, i + 1, off, base);
    }
  }

  /** At the entry point that the loader returns stands the byte of the file at the entry
      offset. */
  lemma EntryByte(mem: Memory, s: seq<byte>, cs: seq<Command>, base: Word)
    requires FileBacked(s, cs) && Disjoint(cs) && EntryOf(cs, base).Some?
    requires forall i :: 0 <= i < |cs| && cs[i].Segment? ==> cs[i].filesize <= cs[i].vmsize
    ensures var m, e, off := Loaded(mem, s, cs, base), EntryOf(cs, base).value, EntryOff(cs).value;
            e in m && off < |s| && m[e] == s[off]
  {
    hide Loaded, ByteAt, Extent, Disjoint, Plus;
    var off := EntryOff(cs).value;
    var k := EntrySegment(cs, 0, off, base);
    var c := cs[k];
    InFileRange(c, off, s);
    var d := off - c.fileoff;
    SegmentBytes(s, cs, k, d);
    LoadedAt(mem, s, cs, base, Plus(c.vmaddr, d));
    PlusAssociates(base, c.vmaddr, d);
  }

  lemma InFileRange(c: Command, off: Word, s: seq<byte>)
    requires Contains(c, off) && c.filesize <= c.vmsize && (Loads(c) ==> c.fileoff + c.filesize <= |s|)
    ensures Loads(c) && c.fileoff <= off < c.fileoff + c.filesize && off - c.fileoff < Extent(c)
  {
  }
}
