/** Exactly when the rewriter's output parses back: a segment command that is cut off by the
    end of the input, or too short to state its own size, is not read back as it was. */
module MachoXnuReparse {
  import opened Wrappers
  import opened Bytes
  import opened Macho
  import opened MachoXnu

  /** The output parses back to the input's segment commands, byte for byte and in order, and
      one thread command. */
  ghost predicate ParsesBack(data: seq<byte>, out: seq<byte>, plan: Plan) {
    && plan.rip < TWO64 && plan.stack < TWO64 && Parse(data).Ok? && Parse(out).Ok?
    && RawsOf(out, Parse(out).value) == SegmentsOf(data, Parse(data).value) + [Thread(plan.rip, plan.stack)]
  }

  // ----- The first bytes of commands -----

  lemma Le32Digits(s: seq<byte>, p: nat)
    requires p + 4 <= |s|
    ensures Le32(s, p) == s[p] as int + 0x100 * s[p + 1] as int + 0x1_0000 * s[p + 2] as int
                          + 0x100_0000 * s[p + 3] as int
  {
    assert Le(s, p + 3, 1) == s[p + 3] as int + 0x100 * Le(s, p + 4, 0);
    assert Le(s, p + 2, 2) == s[p + 2] as int + 0x100 * Le(s, p + 3, 1);
    assert Le(s, p + 1, 3) == s[p + 1] as int + 0x100 * Le(s, p + 2, 2);
  }

  /** A number under 256 has three zero bytes. */
  lemma SmallDigits(s: seq<byte>, p: nat)
    requires p + 4 <= |s| && Le32(s, p) < 0x100
    ensures s[p] as int == Le32(s, p) && s[p + 1] == 0 && s[p + 2] == 0 && s[p + 3] == 0
  {
    hide Le32;
    Le32Digits(s, p);
  }

  /** As much of `raw` as there is of them are the four bytes of the number of the command. */
  predicate StartsLike(raw: seq<byte>, cmd: byte) {
    forall j :: 0 <= j < 4 && j < |raw| ==> raw[j] == if j == 0 then cmd else 0
  }

  const SEGMENT_BYTE: byte := 0x19
  const THREAD_BYTE: byte := 5

  /** Pieces of segment commands, and a whole thread command at the end. */
  predicate Pieces(raws: seq<seq<byte>>) {
    && raws != []
    && (forall i :: 0 <= i < |raws| - 1 ==> StartsLike(raws[i], SEGMENT_BYTE))
    && StartsLike(raws[|raws| - 1], THREAD_BYTE) && IsCommand(raws[|raws| - 1])
  }

  lemma PiecesTail(raws: seq<seq<byte>>)
    requires Pieces(raws) && |raws| > 1
    ensures Pieces(raws[1..])
  {
    hide StartsLike, IsCommand;
  }

  /** The first four bytes of a row of pieces are among three values, and the very first is
      not zero. */
  lemma {:induction false} EarlyByte(raws: seq<seq<byte>>, j: nat)
    requires Pieces(raws) && j < 4
    ensures |Concat(raws)| >= 8
    ensures Concat(raws)[j] in {0, THREAD_BYTE, SEGMENT_BYTE}
    ensures Concat(raws)[0] != 0
    decreases |raws|
  {
    hide Le32;
    if |raws| > 1 {
      PiecesTail(raws);
      EarlyByte(raws[1..], if j < |raws[0]| then 0 else j - |raws[0]|);
      assert StartsLike(raws[0], SEGMENT_BYTE);
    }
  }

  /** Where a command says that its size is 0, the parser stays. */
  lemma {:induction false} ParserStays(s: seq<byte>, p: nat, n: nat, i: nat)
    requires p + 8 <= |s| && Le32(s, p + 4) == 0 && ParseFrom(s, p, n).Ok? && i < n
    ensures |RawsOf(s, ParseFrom(s, p, n).value)| == n && RawsOf(s, ParseFrom(s, p, n).value)[i] == []
    decreases n
  {
    hide Le32;
    if n > 1 {
      ParserStays(s, p, n - 1, if i == 0 then 0 else i - 1);
    }
  }

  /** Where a piece of fewer than eight bytes stands, and others follow it, the four bytes that
      would be its size are another number. */
  lemma ShortSize(s: seq<byte>, p: nat, n: nat, tail: seq<byte>)
    requires 1 <= n < 8 && HasAt(s, p + n, tail) && |tail| >= 8 && tail[0] != 0
    requires n <= 4 ==> tail[4 - n] in {0, THREAD_BYTE, SEGMENT_BYTE}
    ensures p + 8 <= |s| && Le32(s, p + 4) != n
  {
    hide Le32;
    assert n <= 4 ==> s[p + n + (4 - n)] == tail[4 - n];
    assert s[p + n + 0] == tail[0];
    if Le32(s, p + 4) < 0x100 {
      SmallDigits(s, p + 4);
    }
  }

  /** A first piece that is read back has at least a command's head. */
  lemma NotShort(s: seq<byte>, p: nat, raws: seq<seq<byte>>)
    requires HasAt(s, p, Concat(raws)) && Pieces(raws) && |raws| > 1
    requires ParseFrom(s, p, |raws|).Ok? && RawsOf(s, ParseFrom(s, p, |raws|).value) == raws
    ensures |raws[0]| >= 8
  {
    hide Le32, StartsLike, IsCommand, ParseFrom, RawsOf, HasAt;
    var n := |raws[0]|;
    var size := FirstSize(s, p, raws);
    CommandIsLong(raws[|raws| - 1]);
    PiecesTail(raws);
    HasAtConcat(s, p, raws[0], Concat(raws[1..]));
    EarlyByte(raws[1..], if 1 <= n <= 4 then 4 - n else 0);
    if n == 0 {
      ParserStays(s, p, |raws|, |raws| - 1);
    } else if n < 8 {
      ShortSize(s, p, n, Concat(raws[1..]));
    }
  }

  lemma CommandIsLong(raw: seq<byte>)
    requires IsCommand(raw)
    ensures |raw| >= 8
  {
  }

  /** What is read back as the first piece is as long as the parser says. */
  lemma FirstSize(s: seq<byte>, p: nat, raws: seq<seq<byte>>) returns (size: nat)
    requires HasAt(s, p, Concat(raws)) && Pieces(raws) && |raws| > 1
    requires ParseFrom(s, p, |raws|).Ok? && RawsOf(s, ParseFrom(s, p, |raws|).value) == raws
    ensures p + 8 <= |s| && size == Le32(s, p + 4) == |raws[0]|
    ensures ParseFrom(s, p + size, |raws| - 1).Ok?
    ensures RawsOf(s, ParseFrom(s, p + size, |raws| - 1).value) == raws[1..]
  {
    hide Le32, StartsLike, IsCommand;
    size := Le32(s, p + 4);
    PiecesTail(raws);
    EarlyByte(raws[1..], 0);
    assert raws[0] == Slice(s, p, p + size);
  }

  /** If pieces are read back as they were, each of them is a whole command. */
  lemma {:induction false} ReadBackAreCommands(s: seq<byte>, p: nat, raws: seq<seq<byte>>, i: nat)
    requires HasAt(s, p, Concat(raws)) && Pieces(raws) && i < |raws|
    requires ParseFrom(s, p, |raws|).Ok? && RawsOf(s, ParseFrom(s, p, |raws|).value) == raws
    ensures IsCommand(raws[i])
    decreases |raws|
  {
    hide Le32, StartsLike, ParseFrom, RawsOf;
    if i < |raws| - 1 {
      var size := FirstSize(s, p, raws);
      HasAtConcat(s, p, raws[0], Concat(raws[1..]));
      NotShort(s, p, raws);
      if i == 0 {
        Le32Slice(s, p, raws[0], 4);
      } else {
        PiecesTail(raws);
        ReadBackAreCommands(s, p + size, raws[1..], i - 1);
      }
    }
  }

  // ----- From the output to the input -----

  lemma {:induction false} SegmentsStart(data: seq<byte>, cmds: seq<Cmd>, i: nat)
    requires i < |SegmentsOf(data, cmds)|
    requires forall k :: 0 <= k < |cmds| ==> cmds[k].off + 8 <= |data| && cmds[k].cmd == Le32(data, cmds[k].off)
    ensures StartsLike(SegmentsOf(data, cmds)[i], SEGMENT_BYTE)
    decreases |cmds|
  {
    hide Le32;
    var n := |cmds| - 1;
    assert forall k :: 0 <= k < n ==> cmds[..n][k] == cmds[k];
    if i < |SegmentsOf(data, cmds[..n])| {
      SegmentsStart(data, cmds[..n], i);
    } else {
      SmallDigits(data, cmds[n].off);
    }
  }

  /** A segment command whose piece is a whole command is there in full. */
  lemma {:induction false} WholeIsPlaced(data: seq<byte>, cmds: seq<Cmd>, k: nat)
    requires k < |cmds| && cmds[k].cmd == LC_SEGMENT_64
    requires cmds[k].off + 8 <= |data| && cmds[k].size == Le32(data, cmds[k].off + 4)
    requires forall i :: 0 <= i < |SegmentsOf(data, cmds)| ==> IsCommand(SegmentsOf(data, cmds)[i])
    ensures cmds[k].size >= 8 && cmds[k].off + cmds[k].size <= |data|
    decreases |cmds|
  {
    hide Le32;
    var n := |cmds| - 1;
    if k < n {
      var rest := SegmentsOf(data, cmds[..n]);
      assert forall i :: 0 <= i < |rest| ==> SegmentsOf(data, cmds)[i] == rest[i];
      WholeIsPlaced(data, cmds[..n], k);
    } else {
      var c, raws := cmds[n], SegmentsOf(data, cmds);
      var raw := RawAt(data, c);
      assert raws[|raws| - 1] == raw;
      Le32Slice(data, c.off, raw, 4);
    }
  }

  lemma ThreadStarts(rip: Word, stack: Word)
    ensures StartsLike(Thread(rip, stack), THREAD_BYTE)
  {
    hide StartsLike;
    ThreadNumber(rip, stack);
    StartsWith(Thread(rip, stack));
  }

  lemma StartsWith(t: seq<byte>)
    requires |t| >= 4 && Le32(t, 0) == LC_UNIXTHREAD
    ensures StartsLike(t, THREAD_BYTE)
  {
    hide Le32;
    SmallDigits(t, 0);
  }

  /** The output parses back if and only if every segment command of the input is there in
      full. */
  lemma ReparseIff(data: seq<byte>)
    requires Rewrite(data).Ok?
    ensures ParsesBack(data, Rewrite(data).value, PlanOf(data).value) <==> WellPlaced(data, Parse(data).value)
  {
    hide Le32, Le64, Thread, Header, MainOf, TextFrom, SegmentsOf, ParseFrom, RawsOf, Concat, StartsLike, IsCommand;
    ParsedHasHeader(data);
    var plan, out, cmds := PlanOf(data).value, Rewrite(data).value, Parse(data).value;
    if WellPlaced(data, cmds) {
      ReparseIsSegmentsAndThread(data);
    }
    if ParsesBack(data, out, plan) {
      var raws := plan.raws + [Thread(plan.rip, plan.stack)];
      CommandsParsed(data);
      ThreadIsCommand(plan.rip, plan.stack);
      ThreadStarts(plan.rip, plan.stack);
      forall i | 0 <= i < |raws| - 1 ensures StartsLike(raws[i], SEGMENT_BYTE) {
        SegmentsStart(data, cmds, i);
      }
      assert Pieces(raws);
      ConcatLast(plan.raws, Thread(plan.rip, plan.stack));
      OutputStarts(data, plan, out);
      forall i | 0 <= i < |plan.raws| ensures IsCommand(plan.raws[i]) {
        ReadBackAreCommands(out, HEADER_SIZE, raws, i);
      }
      forall k | 0 <= k < |cmds| && cmds[k].cmd == LC_SEGMENT_64
        ensures cmds[k].size >= 8 && cmds[k].off + cmds[k].size <= |data|
      {
        WholeIsPlaced(data, cmds, k);
      }
    }
  }

  lemma CommandsParsed(data: seq<byte>)
    requires Parse(data).Ok?
    ensures forall k :: 0 <= k < |Parse(data).value| ==>
              var c := Parse(data).value[k];
              c.off + 8 <= |data| && c.cmd == Le32(data, c.off) && c.size == Le32(data, c.off + 4)
  {
    hide Le32, ParseFrom;
    var cmds := Parse(data).value;
    ParsedLength(data, HEADER_SIZE, Le32(data, 16));
    forall k | 0 <= k < |cmds|
      ensures var c := cmds[k];
              c.off + 8 <= |data| && c.cmd == Le32(data, c.off) && c.size == Le32(data, c.off + 4)
    {
      ParsedSizes(data, HEADER_SIZE, Le32(data, 16), k);
    }
  }

  // ----- An input that does not parse back -----

  const CUT_ENTRY: nat := 512

  const MAIN_COMMAND: seq<byte> := LeBytes(LC_MAIN, 4) + (LeBytes(24, 4) + (LeBytes(CUT_ENTRY, 8) + Zeros(8)))
  const TEXT_COMMAND: seq<byte> := LeBytes(LC_SEGMENT_64, 4) + (LeBytes(72, 4) + (TEXT_NAME + Zeros(58)))

  /** Forty bytes of a command that says it has seventy-two. */
  const CUT_COMMAND: seq<byte> := LeBytes(LC_SEGMENT_64, 4) + (LeBytes(72, 4) + Zeros(32))

  const CUT_HEADER: seq<byte> := LeBytes(MH_MAGIC_64, 4) + (Zeros(12) + (LeBytes(3, 4) + Zeros(12)))
  const CUT_FILE: seq<byte> := CUT_HEADER + (MAIN_COMMAND + (TEXT_COMMAND + CUT_COMMAND))

  /** The first two fields of a command, wherever it stands. */
  lemma HeadAt(s: seq<byte>, p: nat, cmd: nat, size: nat, rest: seq<byte>)
    requires cmd < TWO32 && size < TWO32 && HasAt(s, p, LeBytes(cmd, 4) + (LeBytes(size, 4) + rest))
    ensures p + 8 <= |s| && Le32(s, p) == cmd && Le32(s, p + 4) == size && HasAt(s, p + 8, rest)
  {
    hide LeBytes, Le;
    Pow256Values();
    HasAtConcat(s, p, LeBytes(cmd, 4), LeBytes(size, 4) + rest);
    LeRoundTrip(s, p, cmd, 4);
    HasAtConcat(s, p + 4, LeBytes(size, 4), rest);
    LeRoundTrip(s, p + 4, size, 4);
  }

  lemma CutPieces()
    ensures |CUT_FILE| == 168
    ensures HasAt(CUT_FILE, 0, CUT_HEADER) && HasAt(CUT_FILE, 32, MAIN_COMMAND)
    ensures HasAt(CUT_FILE, 56, TEXT_COMMAND) && HasAt(CUT_FILE, 128, CUT_COMMAND)
    ensures Slice(CUT_FILE, 56, 128) == TEXT_COMMAND && Slice(CUT_FILE, 128, 200) == CUT_COMMAND
  {
    hide LeBytes;
    assert HasAt(CUT_FILE, 0, CUT_HEADER + (MAIN_COMMAND + (TEXT_COMMAND + CUT_COMMAND)));
    HasAtConcat(CUT_FILE, 0, CUT_HEADER, MAIN_COMMAND + (TEXT_COMMAND + CUT_COMMAND));
    HasAtConcat(CUT_FILE, 32, MAIN_COMMAND, TEXT_COMMAND + CUT_COMMAND);
    HasAtConcat(CUT_FILE, 56, TEXT_COMMAND, CUT_COMMAND);
  }

  lemma CutParses()
    ensures Parse(CUT_FILE) ==
            Ok([Cmd(LC_MAIN, 24, 32), Cmd(LC_SEGMENT_64, 72, 56), Cmd(LC_SEGMENT_64, 72, 128)])
  {
    hide LeBytes, Le32, HasAt;
    CutPieces();
    CutHeader();
    HeadAt(CUT_FILE, 32, LC_MAIN, 24, LeBytes(CUT_ENTRY, 8) + Zeros(8));
    HeadAt(CUT_FILE, 56, LC_SEGMENT_64, 72, TEXT_NAME + Zeros(58));
    HeadAt(CUT_FILE, 128, LC_SEGMENT_64, 72, Zeros(32));
    var first, second, third := Cmd(LC_MAIN, 24, 32), Cmd(LC_SEGMENT_64, 72, 56), Cmd(LC_SEGMENT_64, 72, 128);
    ParseOne(CUT_FILE, 128, 1, []);
    assert [third] + [] == [third];
    ParseOne(CUT_FILE, 56, 2, [third]);
    assert [second] + [third] == [second, third];
    ParseOne(CUT_FILE, 32, 3, [second, third]);
    assert [first] + [second, third] == [first, second, third];
  }

  lemma ParseOne(s: seq<byte>, p: nat, n: nat, rest: seq<Cmd>)
    requires n > 0 && p + 8 <= |s| && (n == 1 ==> rest == [])
    requires n > 1 ==> ParseFrom(s, p + Le32(s, p + 4), n - 1) == Ok(rest)
    ensures ParseFrom(s, p, n) == Ok([Cmd(Le32(s, p), Le32(s, p + 4), p)] + rest)
  {
    hide Le32;
  }

  lemma CutHeader()
    ensures |CUT_FILE| >= HEADER_SIZE && Le32(CUT_FILE, 0) == MH_MAGIC_64 && Le32(CUT_FILE, 16) == 3
  {
    hide LeBytes, Le;
    CutPieces();
    Pow256Values();
    HasAtConcat(CUT_FILE, 0, LeBytes(MH_MAGIC_64, 4), Zeros(12) + (LeBytes(3, 4) + Zeros(12)));
    LeRoundTrip(CUT_FILE, 0, MH_MAGIC_64, 4);
    HasAtConcat(CUT_FILE, 4, Zeros(12), LeBytes(3, 4) + Zeros(12));
    HasAtConcat(CUT_FILE, 16, LeBytes(3, 4), Zeros(12));
    LeRoundTrip(CUT_FILE, 16, 3, 4);
  }

  lemma CutMain()
    ensures Le64(CUT_FILE, 40) == CUT_ENTRY
  {
    hide LeBytes, Le, Le32;
    CutPieces();
    Pow256Values();
    HeadAt(CUT_FILE, 32, LC_MAIN, 24, LeBytes(CUT_ENTRY, 8) + Zeros(8));
    HasAtConcat(CUT_FILE, 40, LeBytes(CUT_ENTRY, 8), Zeros(8));
    LeRoundTrip(CUT_FILE, 40, CUT_ENTRY, 8);
  }

  lemma {:induction false} LeOfZeros(s: seq<byte>, p: nat, n: nat)
    requires p + n <= |s| && forall i :: p <= i < p + n ==> s[i] == 0
    ensures Le(s, p, n) == 0
    decreases n
  {
    if n > 0 {
      LeOfZeros(s, p + 1, n - 1);
    }
  }

  lemma CutSegments()
    ensures |TEXT_COMMAND| == 72 && IsText(TEXT_COMMAND) && Le64(TEXT_COMMAND, 24) == 0
    ensures |CUT_COMMAND| == 40 && Le64(CUT_COMMAND, 24) == 0 && Le64(CUT_COMMAND, 32) == 0
  {
    hide LeBytes, Le, StripZeros;
    LeOfZeros(TEXT_COMMAND, 24, 8);
    LeOfZeros(CUT_COMMAND, 24, 8);
    LeOfZeros(CUT_COMMAND, 32, 8);
    assert Slice(TEXT_COMMAND, 8, 24) == TEXT_NAME + Zeros(10);
    StripsZeros(TEXT_NAME, 10);
  }

  lemma {:induction false} StripsZeros(s: seq<byte>, n: nat)
    requires s != [] && s[|s| - 1] != 0
    ensures StripZeros(s + Zeros(n)) == s
  {
    if n == 0 {
      assert s + Zeros(0) == s;
    } else {
      StripsZeros(s, n - 1);
      assert (s + Zeros(n))[..|s| + n - 1] == s + Zeros(n - 1);
    }
  }

  lemma CutSegmentsOf()
    requires Parse(CUT_FILE) == Ok([Cmd(LC_MAIN, 24, 32), Cmd(LC_SEGMENT_64, 72, 56), Cmd(LC_SEGMENT_64, 72, 128)])
    ensures var cmds := Parse(CUT_FILE).value;
            && SegmentsOf(CUT_FILE, cmds) == [TEXT_COMMAND, CUT_COMMAND]
            && MainOf(CUT_FILE, cmds) == Ok(Some(CUT_ENTRY))
  {
    hide LeBytes, Le64, Slice, Parse, SegmentsOf, MainOf;
    CutPieces();
    CutMain();
    var cmds := Parse(CUT_FILE).value;
    NoneOf(CUT_FILE);
    OneMoreOf(CUT_FILE, [], cmds[0]);
    assert [] + [cmds[0]] == [cmds[0]] && [cmds[0]] + [cmds[1]] == cmds[..2] && cmds[..2] + [cmds[2]] == cmds;
    OneMoreOf(CUT_FILE, [cmds[0]], cmds[1]);
    OneMoreOf(CUT_FILE, cmds[..2], cmds[2]);
  }

  lemma NoneOf(data: seq<byte>)
    ensures SegmentsOf(data, []) == [] && MainOf(data, []) == Ok(None)
  {
  }

  lemma OneMoreOf(data: seq<byte>, cmds: seq<Cmd>, c: Cmd)
    requires MainOf(data, cmds).Ok? && (c.cmd == LC_MAIN ==> c.off + 24 <= |data|)
    ensures SegmentsOf(data, cmds + [c]) ==
            SegmentsOf(data, cmds) + if c.cmd == LC_SEGMENT_64 then [RawAt(data, c)] else []
    ensures MainOf(data, cmds + [c]) == if c.cmd == LC_MAIN then Ok(Some(Le64(data, c.off + 8))) else MainOf(data, cmds)
  {
    hide Le64, RawAt;
    assert (cmds + [c])[..|cmds|] == cmds;
  }

  /** A file that the tool converts, and whose output does not parse back. */
  lemma CutFileIsNotParsedBack()
    ensures Rewrite(CUT_FILE).Ok?
    ensures !ParsesBack(CUT_FILE, Rewrite(CUT_FILE).value, PlanOf(CUT_FILE).value)
  {
    hide LeBytes, Le64, Parse, SegmentsOf, MainOf, ParsesBack, Thread, Header, IsText;
    CutParses();
    CutSegmentsOf();
    CutSegments();
    CutPieces();
    var raws := [TEXT_COMMAND, CUT_COMMAND];
    assert PlanOf(CUT_FILE) == Ok(Plan(raws, CUT_ENTRY, CUT_ENTRY, 0));
    assert raws[1..] == [CUT_COMMAND] && [CUT_COMMAND][1..] == [];
    assert Concat([CUT_COMMAND]) == CUT_COMMAND + [] == CUT_COMMAND;
    assert Concat(raws) == TEXT_COMMAND + CUT_COMMAND;
    ReparseIff(CUT_FILE);
    assert Parse(CUT_FILE).value[2].off + 72 > |CUT_FILE|;
  }
}
