/** What the rewriter writes besides the segments: when there is room, the stack, the registers,
    and the gap before the entry point. */
module MachoXnuPlan {
  import opened Wrappers
  import opened Bytes
  import L = CapnpList
  import opened Macho
  import opened MachoXnu

  /** The bytes in front of the gap: header, segment commands, thread command. */
  function FrontSize(raws: seq<seq<byte>>): nat {
    HEADER_SIZE + |Concat(raws)| + THREAD_SIZE
  }

  lemma PreambleSize(data: seq<byte>, plan: Plan)
    requires |data| >= HEADER_SIZE && plan.rip < TWO64 && plan.stack < TWO64
    ensures |Preamble(data, plan)| == FrontSize(plan.raws)
  {
    hide Concat, LeBytes, Zeros;
    ThreadLength(plan.rip, plan.stack);
  }

  /** A file whose parts were found, and whose numbers fit their fields, is converted if and only
      if the new commands end at or before the entry offset. */
  lemma ConvertedIff(data: seq<byte>)
    requires PlanOf(data).Ok?
    requires var plan := PlanOf(data).value;
             plan.rip < TWO64 && plan.stack < TWO64 && FrontSize(plan.raws) < TWO32 && |plan.raws| + 1 < TWO32
    ensures Rewrite(data).Ok? <==> FrontSize(PlanOf(data).value.raws) <= PlanOf(data).value.entryoff
  {
    hide Preamble, Concat, PlanOf;
    PlanParses(data);
    ParsedHasHeader(data);
    PreambleSize(data, PlanOf(data).value);
  }

  lemma PlanParses(data: seq<byte>)
    ensures PlanOf(data).Ok? ==> Parse(data).Ok?
  {
  }

  /** Between the commands and the entry offset the output is zero. */
  lemma GapIsZero(data: seq<byte>, i: nat)
    requires Rewrite(data).Ok?
    requires FrontSize(PlanOf(data).value.raws) <= i < PlanOf(data).value.entryoff
    ensures i < |Rewrite(data).value| && Rewrite(data).value[i] == 0
  {
    hide Preamble, Concat, PlanOf;
    PlanParses(data);
    ParsedHasHeader(data);
    PreambleSize(data, PlanOf(data).value);
  }

  /** The recorded stack is the end of the last segment in memory, rounded down to sixteen. */
  lemma StackIsEnd(data: seq<byte>)
    requires PlanOf(data).Ok?
    ensures var raws, stack := SegmentsOf(data, Parse(data).value), PlanOf(data).value.stack;
            && raws != [] && |raws[|raws| - 1]| >= 40
            && var end := Le64(raws[|raws| - 1], 24) + Le64(raws[|raws| - 1], 32);
            stack % 16 == 0 && stack <= end < stack + 16
  {
    hide Le64, SegmentsOf, MainOf, TextFrom, Parse;
  }

  /** The segment that gives the entry its address is the one whose sixteen bytes of name are
      "__TEXT" and zeros. */
  lemma IsTextIff(raw: seq<byte>)
    requires |raw| >= 24
    ensures IsText(raw) <==> raw[8..24] == Ascii("__TEXT") + Zeros(10)
  {
    var name := raw[8..24];
    assert TEXT_NAME == Ascii("__TEXT");
    assert Slice(raw, 8, 24) == name;
    StripsIff(name, TEXT_NAME, 10);
  }

  lemma {:induction false} StripsIff(s: seq<byte>, name: seq<byte>, n: nat)
    requires name != [] && name[|name| - 1] != 0 && |s| == |name| + n
    ensures StripZeros(s) == name <==> s == name + Zeros(n)
    decreases n
  {
    var m := |s| - 1;
    StripIsShorter(s[..m]);
    if n == 0 {
      assert name + Zeros(0) == name;
    } else {
      StripsIff(s[..m], name, n - 1);
      assert (name + Zeros(n))[..m] == name + Zeros(n - 1) && (name + Zeros(n))[m] == 0;
      if s[m] == 0 && s[..m] == name + Zeros(n - 1) {
        assert s == s[..m] + [0];
        assert s == name + Zeros(n);
      }
    }
  }

  lemma {:induction false} StripIsShorter(s: seq<byte>)
    ensures |StripZeros(s)| <= |s|
    decreases |s|
  {
    if s != [] && s[|s| - 1] == 0 {
      StripIsShorter(s[..|s| - 1]);
    }
  }

  // ----- The registers -----

  /** rax to rdi, rbp and rsp; r8 to r15; rip, rflags, cs, fs and gs: all zero but three. */
  function Registers(rip: Word, stack: Word): seq<Word> {
    seq(21, i requires 0 <= i < 21 => if i == 7 then stack else if i == 16 then rip else if i == 17 then 2 else 0)
  }

  lemma {:induction false} ZeroWords(n: nat)
    ensures L.WordsBytes(seq(n, _ => 0 as Word)) == Zeros(8 * n)
  {
    if n > 0 {
      ZeroWord(8);
      ZeroWords(n - 1);
      assert seq(n, _ => 0 as Word)[1..] == seq(n - 1, _ => 0 as Word);
    }
  }

  lemma {:induction false} ZeroWord(n: nat)
    ensures LeBytes(0, n) == Zeros(n)
  {
    if n > 0 {
      ZeroWord(n - 1);
    }
  }

  /** The thread command: its number and size, the flavour of the state and its length in
      32-bit words, and the registers one after the other. */
  lemma ThreadIsState(rip: Word, stack: Word)
    ensures Thread(rip, stack) ==
            LeBytes(5, 4) + LeBytes(184, 4) + LeBytes(4, 4) + LeBytes(42, 4) + L.WordsBytes(Registers(rip, stack))
  {
    hide LeBytes, L.WordsBytes, Zeros;
    var z7, z8, z3 := seq(7, _ => 0 as Word), seq(8, _ => 0 as Word), seq(3, _ => 0 as Word);
    ZeroWords(7);
    ZeroWords(8);
    ZeroWords(3);
    L.OneWord(stack);
    L.OneWord(rip);
    L.OneWord(2);
    var a := z7 + [stack];
    var b := a + z8;
    var c := b + [rip];
    var d := c + [2];
    L.WordsBytesConcat(z7, [stack]);
    L.WordsBytesConcat(a, z8);
    L.WordsBytesConcat(b, [rip]);
    L.WordsBytesConcat(c, [2]);
    L.WordsBytesConcat(d, z3);
    assert d + z3 == Registers(rip, stack);
    Associate(rip, stack);
  }

  lemma Associate(rip: Word, stack: Word)
    ensures var head := LeBytes(5, 4) + LeBytes(184, 4) + LeBytes(4, 4) + LeBytes(42, 4);
            Thread(rip, stack) ==
            head + (Zeros(56) + LeBytes(stack, 8) + Zeros(64) + LeBytes(rip, 8) + LeBytes(2, 8) + Zeros(24))
  {
    hide LeBytes, Zeros;
  }
}
