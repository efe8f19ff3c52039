/** The codec for one message shape: a root struct of data words and one pointer, to a
    composite list of structs of data words. */
module CapnpList {
  import opened Wrappers
  import opened Bytes
  import opened Capnp

  // ----- The message as words -----

  function WordsBytes(ws: seq<Word>): (b: seq<byte>)
    ensures |b| == 8 * |ws|
  {
    if ws == [] then [] else LeBytes(ws[0], 8) + WordsBytes(ws[1..])
  }

  /** `n << 2 | width << 32`: past 2^30 the top two bits of the count land on the width. */
  function TagWord(n: nat, width: nat): (w: Word)
    requires n < TWO32 && width < 0x1_0000
  {
    4 * (n % TWO30) + TWO32 * OrLow2(width, n / TWO30)
  }

  function OrBit(a: nat, b: nat): nat {
    if a == 1 || b == 1 then 1 else 0
  }

  /** `a | b`, for a `b` of two bits. */
  function OrLow2(a: nat, b: nat): (r: nat)
    requires a < 0x1_0000 && b < 4
    ensures r < 0x1_0000 && (b == 0 ==> r == a)
  {
    var low := a % 4;
    a - low + 2 * OrBit(low / 2, b / 2) + OrBit(low % 2, b % 2)
  }

  function RootWord(dataWords: nat): (w: Word)
    requires dataWords < 0x1_0000
  {
    TWO32 * dataWords + TWO48
  }

  function ListPtrWord(bodyWords: nat): (w: Word) {
    1 + 7 * TWO32 + bodyWords % TWO29 * TWO35
  }

  /** Element count, element width, and the elements one after another. */
  datatype Items = Items(count: nat, width: nat, words: seq<Word>) {
    ghost predicate Valid() {
      count < TWO32 && width < 0x1_0000 && |words| == count * width
    }
  }

  function ListWords(items: Items): (ws: seq<Word>)
    requires items.count < TWO32 && items.width < 0x1_0000
  {
    [ListPtrWord(1 + |items.words|), TagWord(items.count, items.width)] + items.words
  }

  function MessageWords(data: seq<Word>, items: Items): (ws: seq<Word>)
    requires |data| < 0x1_0000 && items.count < TWO32 && items.width < 0x1_0000
    ensures |ws| == |data| + |items.words| + 3
  {
    [RootWord(|data|)] + data + ListWords(items)
  }

  function Header(segWords: nat): (b: seq<byte>)
    ensures |b| == 8
  {
    LeBytes(0, 4) + LeBytes(segWords % TWO32, 4)
  }

  function Message(data: seq<Word>, items: Items): seq<byte>
    requires |data| < 0x1_0000 && items.count < TWO32 && items.width < 0x1_0000
  {
    Header(|data| + |items.words| + 3) + WordsBytes(MessageWords(data, items))
  }

  // ----- The builder -----

  lemma {:induction false} WordsBytesConcat(a: seq<Word>, b: seq<Word>)
    ensures WordsBytes(a + b) == WordsBytes(a) + WordsBytes(b)
  {
    if a == [] {
      assert a + b == b;
    } else {
      assert (a + b)[1..] == a[1..] + b;
      WordsBytesConcat(a[1..], b);
    }
  }

  method Store(buf: array<byte>, pos: nat, b: seq<byte>)
    requires pos + |b| <= buf.Length
    modifies buf
    ensures buf[..pos] == old(buf[..pos]) && buf[pos..pos + |b|] == b
    ensures buf[pos + |b|..] == old(buf[pos + |b|..])
  {
    forall k | 0 <= k < |b| {
      buf[pos + k] := b[k];
    }
  }

  /** `w[i++] = ...`, for a run of words. */
  method StoreWords(buf: array<byte>, pos: nat, ws: seq<Word>)
    requires pos + 8 * |ws| <= buf.Length
    modifies buf
    ensures buf[..pos + 8 * |ws|] == old(buf[..pos]) + WordsBytes(ws)
    ensures buf[pos + 8 * |ws|..] == old(buf[pos + 8 * |ws|..])
  {
    hide LeBytes, WordsBytes;
    ghost var was := buf[..];
    var j := 0;
    assert ws[..0] == [];
    NoWords();
    while j < |ws|
      invariant 0 <= j <= |ws| && pos + 8 * j <= buf.Length
      invariant buf[..pos + 8 * j] == was[..pos] + WordsBytes(ws[..j])
      invariant buf[pos + 8 * j..] == was[pos + 8 * j..]
    {
      ghost var p, before := pos + 8 * j, buf[..];
      Store(buf, pos + 8 * j, LeBytes(ws[j], 8));
      MoreWords(ws, j);
      assert buf[..p + 8] == buf[..p] + buf[p..p + 8];
      assert buf[p + 8..] == before[p..][8..] == was[p..][8..];
      j := j + 1;
    }
    assert ws[..j] == ws;
  }

  lemma MoreWords(ws: seq<Word>, j: nat)
    requires j < |ws|
    ensures WordsBytes(ws[..j + 1]) == WordsBytes(ws[..j]) + LeBytes(ws[j], 8)
  {
    hide LeBytes, WordsBytes;
    WordsBytesConcat(ws[..j], [ws[j]]);
    assert ws[..j + 1] == ws[..j] + [ws[j]];
    OneWord(ws[j]);
  }

  lemma NoWords()
    ensures WordsBytes([]) == []
  {
  }

  lemma OneWord(w: Word)
    ensures WordsBytes([w]) == LeBytes(w, 8)
  {
    assert [w][1..] == [];
  }

  /** Stores `ws` after a header and the words `acc`; bytes from `total` on stay. */
  method Append(buf: array<byte>, pos: nat, ws: seq<Word>,
                ghost head: seq<byte>, ghost acc: seq<Word>, ghost total: nat)
    requires pos + 8 * |ws| <= total <= buf.Length && buf[..pos] == head + WordsBytes(acc)
    modifies buf
    ensures buf[..pos + 8 * |ws|] == head + WordsBytes(acc + ws)
    ensures buf[total..] == old(buf[total..])
  {
    hide WordsBytes;
    ghost var before := buf[..];
    StoreWords(buf, pos, ws);
    WordsBytesConcat(acc, ws);
    var n := pos + 8 * |ws|;
    assert buf[total..] == buf[n..][total - n..];
    assert before[total..] == before[n..][total - n..];
  }

  method BuildListRoot(buf: array<byte>, data: seq<Word>, items: Items) returns (total: nat)
    requires |data| < 0x1_0000 && items.Valid()
    modifies buf
    ensures buf.Length < |Message(data, items)| ==> total == 0 && buf[..] == old(buf[..])
    ensures buf.Length >= |Message(data, items)| ==>
              && total == |Message(data, items)| && buf[..total] == Message(data, items)
              && buf[total..] == old(buf[total..])
  {
    hide WordsBytes, Header, LeBytes, TagWord, ListPtrWord, RootWord, MessageWords;
    HeaderSize(|data| + |items.words| + 3);
    SameWords(data, items);
    var bodyWords := 1 + items.count * items.width;
    assert bodyWords == 1 + |items.words|;
    var segWords := 1 + |data| + 1 + bodyWords;
    total := 8 + segWords * 8;
    if buf.Length < total {
      return 0;
    }
    var head := Header(segWords);
    HeaderFirst(buf, head, total);
    var root := [RootWord(|data|)];
    Append(buf, 8, root, head, [], total);
    assert [] + root == root;
    Append(buf, 16, data, head, root, total);
    var front := [ListPtrWord(bodyWords), TagWord(items.count, items.width)];
    Append(buf, 16 + 8 * |data|, front, head, root + data, total);
    Append(buf, 32 + 8 * |data|, items.words, head, root + data + front, total);
  }

  lemma HeaderSize(segWords: nat)
    ensures |Header(segWords)| == 8
  {
  }

  lemma SameWords(data: seq<Word>, items: Items)
    requires |data| < 0x1_0000 && items.count < TWO32 && items.width < 0x1_0000
    ensures MessageWords(data, items) ==
            [RootWord(|data|)] + data + [ListPtrWord(1 + |items.words|), TagWord(items.count, items.width)]
            + items.words
    ensures |Message(data, items)| == 8 + 8 * (|data| + |items.words| + 3)
  {
    hide WordsBytes, Header, TagWord, ListPtrWord, RootWord;
  }

  method HeaderFirst(buf: array<byte>, head: seq<byte>, ghost total: nat)
    requires |head| == 8 && 8 <= total <= buf.Length
    modifies buf
    ensures buf[..8] == head + WordsBytes([]) && buf[total..] == old(buf[total..])
  {
    ghost var before := buf[..];
    Store(buf, 0, head);
    assert buf[..8] == buf[0..8];
    assert buf[total..] == buf[8..][total - 8..];
    assert before[total..] == before[8..][total - 8..];
  }

  // ----- The reader -----

  /** Where in the segment, in words, the data section and the elements are. */
  datatype View = View(dataAt: nat, elementsAt: nat, count: nat)

  function WordAt(msg: seq<byte>, i: nat): Word
    requires 8 + 8 * i + 8 <= |msg|
  {
    Le64(msg, 8 + 8 * i)
  }

  function ReadListRoot(msg: seq<byte>, dataWords: nat, width: nat): (r: Option<View>)
    requires dataWords < 0x1_0000 && width < 0x1_0000
  {
    if |msg| < 8 || (|msg| - 8) % 8 != 0 then None
    else
      var avail := (|msg| - 8) / 8;
      if 1 + dataWords >= avail then None
      else
        var body := ReadPointers(WordAt(msg, 0), WordAt(msg, 1 + dataWords), dataWords);
        var tagAt := 2 + dataWords;
        if body.None? || tagAt >= avail || body.value > avail - tagAt then None
        else ReadTag(WordAt(msg, tagAt), body.value, width, tagAt)
  }

  /** The root and list pointers: a struct with the right number of data words and a pointer,
      and a composite list, whose body size is the result. */
  function ReadPointers(root: Word, listPtr: Word, dataWords: nat): Option<nat> {
    if root % 4 != 0 then None
    else if root / TWO32 % 0x1_0000 != dataWords || root / TWO48 % 0x1_0000 < 1 then None
    else if listPtr % 4 != 1 || listPtr / TWO32 % 8 != 7 then None
    else Some(listPtr / TWO35 % TWO29)
  }

  /** The tag word, against a body of `body` words. With an empty body `body - 1` wraps to
      the largest 64-bit number, and the second test must catch it. */
  function ReadTag(tag: Word, body: nat, width: nat, tagAt: nat): Option<View> {
    var count := tag / 4 % TWO30;
    if tag % 4 != 0 then None
    else if tag / TWO32 % 0x1_0000 != width || tag / TWO48 % 0x1_0000 != 0 then None
    else if width != 0 && count > (body - 1) % TWO64 / width then None
    else if 1 + count * width > body then None
    else Some(View(1, tagAt + 1, count))
  }

  /** Whatever the input, what the reader returns lies wholly inside the message. */
  lemma ViewIsInside(msg: seq<byte>, dataWords: nat, width: nat)
    requires dataWords < 0x1_0000 && width < 0x1_0000 && ReadListRoot(msg, dataWords, width).Some?
    ensures var v := ReadListRoot(msg, dataWords, width).value;
            && 8 + 8 * (v.dataAt + dataWords) <= |msg|
            && 8 + 8 * (v.elementsAt + v.count * width) <= |msg|
  {
    hide Le64, ReadPointers, ReadTag;
    var tagAt := dataWords + 2;
    var body := ReadPointers(WordAt(msg, 0), WordAt(msg, 1 + dataWords), dataWords);
    TagFits(WordAt(msg, tagAt), body.value, width, tagAt);
  }

  /** The reader accepts exactly the messages of the one shape, by the decoder of pointers: a
      struct with the right data section and a pointer section, a composite list after it, and
      a tag of the right shape whose elements fit the list; the result names its parts. */
  lemma ReadIff(msg: seq<byte>, dataWords: nat, width: nat, v: View)
    requires dataWords < 0x1_0000 && width < 0x1_0000
    ensures ReadListRoot(msg, dataWords, width) == Some(v) <==>
            && |msg| >= 8 && |msg| % 8 == 0 && 8 + 8 * (3 + dataWords) <= |msg|
            && var root, list, tag :=
                 Decode(WordAt(msg, 0)), Decode(WordAt(msg, 1 + dataWords)), Decode(WordAt(msg, 2 + dataWords));
            && root.tag == Struct && root.dataWords == dataWords && root.ptrWords >= 1
            && list.tag == List && list.elementSize == COMPOSITE
            && 8 + 8 * (2 + dataWords + list.elementCount) <= |msg|
            && (tag.tag == Struct || tag.tag == Null) && tag.dataWords == width && tag.ptrWords == 0
            && v == View(1, 3 + dataWords, tag.offset % TWO30) && 1 + v.count * width <= list.elementCount
  {
    hide Le64;
    if |msg| >= 8 && |msg| % 8 == 0 && 8 + 8 * (3 + dataWords) <= |msg| {
      var avail := (|msg| - 8) / 8;
      assert |msg| == 8 + 8 * avail;
      var w0, w1, w2 := WordAt(msg, 0), WordAt(msg, 1 + dataWords), WordAt(msg, 2 + dataWords);
      PointersIff(w0, w1, dataWords);
      if ReadPointers(w0, w1, dataWords).Some? {
        TagIff(w2, Decode(w1).elementCount, width, 2 + dataWords, v);
      }
    }
  }

  lemma PointersIff(root: Word, list: Word, dataWords: nat)
    requires dataWords < 0x1_0000
    ensures ReadPointers(root, list, dataWords).Some? <==>
            && Decode(root).tag == Struct && Decode(root).dataWords == dataWords && Decode(root).ptrWords >= 1
            && Decode(list).tag == List && Decode(list).elementSize == COMPOSITE
    ensures ReadPointers(root, list, dataWords).Some? ==>
              ReadPointers(root, list, dataWords).value == Decode(list).elementCount
  {
  }

  lemma TagIff(w: Word, body: nat, width: nat, tagAt: nat, v: View)
    requires body < TWO29
    ensures ReadTag(w, body, width, tagAt) == Some(v) <==>
            && (Decode(w).tag == Struct || Decode(w).tag == Null) && Decode(w).dataWords == width
            && Decode(w).ptrWords == 0
            && v == View(1, tagAt + 1, Decode(w).offset % TWO30) && 1 + v.count * width <= body
  {
    var count := w / 4 % TWO30;
    assert Decode(w).tag == Struct || Decode(w).tag == Null ==> Decode(w).offset % TWO30 == count;
    if width != 0 && body >= 1 && count > (body - 1) / width {
      NoRoomFor(count, width, body - 1);
    }
  }

  lemma NoRoomFor(count: nat, width: nat, room: nat)
    requires width != 0 && count > room / width
    ensures count * width > room
  {
    var q := room / width;
    assert room < width * (q + 1);
    assert width * (q + 1) <= width * count;
  }

  lemma TagFits(tag: Word, body: nat, width: nat, tagAt: nat)
    ensures ReadTag(tag, body, width, tagAt).Some? ==>
              var v := ReadTag(tag, body, width, tagAt).value;
              v.dataAt == 1 && v.elementsAt + v.count * width <= tagAt + body
  {
  }

  lemma {:induction false} WordOf(b: seq<byte>, p: nat, ws: seq<Word>, i: nat)
    requires HasAt(b, p, WordsBytes(ws)) && i < |ws|
    ensures p + 8 * i + 8 <= |b| && Le64(b, p + 8 * i) == ws[i]
    decreases i
  {
    hide LeBytes;
    HasAtConcat(b, p, LeBytes(ws[0], 8), WordsBytes(ws[1..]));
    if i == 0 {
      Pow256Values();
      LeRoundTrip(b, p, ws[0], 8);
    } else {
      WordOf(b, p + 8, ws[1..], i - 1);
    }
  }

  lemma WordOfMessage(data: seq<Word>, items: Items, i: nat)
    requires |data| < 0x1_0000 && items.count < TWO32 && items.width < 0x1_0000
    requires i < |MessageWords(data, items)|
    ensures WordAt(Message(data, items), i) == MessageWords(data, items)[i]
  {
    hide WordsBytes, Header, Le64, MessageWords;
    var head, ws := Header(|data| + |items.words| + 3), MessageWords(data, items);
    var msg := Message(data, items);
    assert HasAt(msg, 0, head + WordsBytes(ws));
    HasAtConcat(msg, 0, head, WordsBytes(ws));
    WordOf(msg, 8, ws, i);
  }

  lemma MessageWordsAt(data: seq<Word>, items: Items)
    requires |data| < 0x1_0000 && items.count < TWO32 && items.width < 0x1_0000
    ensures var ws := MessageWords(data, items);
            && ws[0] == RootWord(|data|)
            && ws[1..1 + |data|] == data
            && ws[1 + |data|] == ListPtrWord(1 + |items.words|)
            && ws[2 + |data|] == TagWord(items.count, items.width)
            && ws[3 + |data|..] == items.words
  {
    hide RootWord, ListPtrWord, TagWord;
  }

  lemma RootFields(dataWords: nat)
    requires dataWords < 0x1_0000
    ensures var w := RootWord(dataWords);
            w % 4 == 0 && w / TWO32 % 0x1_0000 == dataWords && w / TWO48 % 0x1_0000 == 1
  {
    StructFields(0, dataWords, 1);
    assert RootWord(dataWords) == StructWord(0, dataWords, 1);
  }

  lemma ListPtrFields(bodyWords: nat)
    ensures var w := ListPtrWord(bodyWords);
            w % 4 == 1 && w / TWO32 % 8 == 7 && w / TWO35 % TWO29 == bodyWords % TWO29
  {
    var w, f := ListPtrWord(bodyWords), bodyWords % TWO29;
    assert w / TWO32 == 7 + 8 * f;
    assert w / TWO35 == f;
  }

  lemma PointersOfBuilt(dataWords: nat, bodyWords: nat)
    requires dataWords < 0x1_0000
    ensures ReadPointers(RootWord(dataWords), ListPtrWord(bodyWords), dataWords) == Some(bodyWords % TWO29)
  {
    hide RootWord, ListPtrWord;
    RootFields(dataWords);
    ListPtrFields(bodyWords);
  }

  lemma TagFields(n: nat, width: nat)
    requires n < TWO32 && width < 0x1_0000
    ensures var w := TagWord(n, width);
            && w % 4 == 0 && w / 4 % TWO30 == n % TWO30 && w / TWO48 % 0x1_0000 == 0
            && w / TWO32 % 0x1_0000 == OrLow2(width, n / TWO30)
  {
    hide OrLow2;
    var w, h := TagWord(n, width), OrLow2(width, n / TWO30);
    assert w / 4 == n % TWO30 + TWO30 * h;
    assert w / TWO32 == h;
  }

  /** The reader's answer to what the builder wrote. */
  lemma ReadOfBuilt(data: seq<Word>, items: Items)
    requires |data| < 0x1_0000 && items.Valid()
    ensures ReadListRoot(Message(data, items), |data|, items.width) ==
            var body := (1 + |items.words|) % TWO29;
            if body > 1 + |items.words| then None
            else ReadTag(TagWord(items.count, items.width), body, items.width, |data| + 2)
  {
    hide RootWord, ListPtrWord, TagWord, MessageWords, Le64, WordAt, ReadTag, WordsBytes, Header, ReadPointers;
    var msg := Message(data, items);
    MessageWordsAt(data, items);
    WordOfMessage(data, items, 0);
    WordOfMessage(data, items, 1 + |data|);
    WordOfMessage(data, items, 2 + |data|);
    PointersOfBuilt(|data|, 1 + |items.words|);
    assert |msg| == 8 + 8 * (|data| + |items.words| + 3);
  }

  /** Reading undoes building if and only if the body is under 2^29 words and the count under
      2^30; the words found are then the words given. */
  lemma RoundTripIff(data: seq<Word>, items: Items)
    requires |data| < 0x1_0000 && items.Valid()
    ensures ReadListRoot(Message(data, items), |data|, items.width) == Some(View(1, |data| + 3, items.count))
            <==> 1 + |items.words| < TWO29 && items.count < TWO30
  {
    hide Message, ReadListRoot, TagWord, OrLow2;
    ReadOfBuilt(data, items);
    TagFields(items.count, items.width);
    var body := (1 + |items.words|) % TWO29;
    TagAccepted(TagWord(items.count, items.width), body, items.width, |data| + 2, items.count);
    OrLow2Zero(items.width);
  }

  lemma OrLow2Zero(width: nat)
    requires width < 0x1_0000
    ensures OrLow2(width, 0) == width
  {
  }

  /** When the tag word is accepted with a given count. */
  lemma TagAccepted(tag: Word, body: nat, width: nat, tagAt: nat, count: nat)
    requires body < TWO29
    ensures ReadTag(tag, body, width, tagAt) == Some(View(1, tagAt + 1, count)) <==>
            && tag % 4 == 0 && tag / 4 % TWO30 == count
            && tag / TWO32 % 0x1_0000 == width && tag / TWO48 % 0x1_0000 == 0
            && 1 + count * width <= body
  {
    if 1 + count * width <= body && width != 0 {
      FitsQuotient(count, width, body - 1);
    }
  }

  lemma FitsQuotient(count: nat, width: nat, n: nat)
    requires width != 0 && count * width <= n
    ensures count <= n / width
  {
    var q := n / width;
    assert n < (q + 1) * width;
    assert q + 1 <= count ==> (q + 1) * width <= count * width;
  }

  /** The words at the places that the reader names are the ones that were built in. */
  lemma BuiltContents(data: seq<Word>, items: Items, i: nat)
    requires |data| < 0x1_0000 && items.Valid()
    ensures i < |data| ==> WordAt(Message(data, items), 1 + i) == data[i]
    ensures i < |items.words| ==> WordAt(Message(data, items), 3 + |data| + i) == items.words[i]
  {
    hide Message, MessageWords, WordAt, RootWord, ListPtrWord, TagWord;
    var ws := MessageWords(data, items);
    MessageWordsAt(data, items);
    if i < |data| {
      WordOfMessage(data, items, 1 + i);
      assert ws[1..1 + |data|][i] == ws[1 + i];
    }
    if i < |items.words| {
      WordOfMessage(data, items, 3 + |data| + i);
      assert ws[3 + |data|..][i] == ws[3 + |data| + i];
    }
  }
}
