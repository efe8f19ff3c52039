/** The rewriter that makes a Mach-O bootable by a loader that knows only segments and a
    thread command: it keeps the segment commands, drops the rest, and replaces LC_MAIN by
    a thread state. */
module MachoXnu {
  import opened Wrappers
  import opened Bytes
  import opened Macho

  const LC_UNIXTHREAD: nat := 0x5
  const X86_THREAD_STATE64: nat := 4
  const THREAD_SIZE: nat := 184

  /** "__TEXT" */
  const TEXT_NAME: seq<byte> := [0x5f, 0x5f, 0x54, 0x45, 0x58, 0x54]

  /** Too short for a field that is read; no 64-bit Mach-O; no LC_MAIN; no __TEXT; a number
      that does not fit its field; and no room before the entry point. */
  datatype Failure = Truncated | NotMachO | NoMain | NoText | Overflow | NoRoom

  datatype Result<+T> = Ok(value: T) | Err(error: Failure) {
    predicate IsFailure() { Err? }
    function PropagateFailure<U>(): Result<U> requires Err? { Err(error) }
    function Extract(): T requires Ok? { value }
  }

  // ----- read_load_commands -----

  datatype Cmd = Cmd(cmd: nat, size: nat, off: nat)

  function ParseFrom(data: seq<byte>, off: nat, n: nat): Result<seq<Cmd>>
    decreases n
  {
    if n == 0 then Ok([])
    else if off + 8 > |data| then Err(Truncated)
    else
      var rest :- ParseFrom(data, off + Le32(data, off + 4), n - 1);
      Ok([Cmd(Le32(data, off), Le32(data, off + 4), off)] + rest)
  }

  function Parse(data: seq<byte>): Result<seq<Cmd>> {
    if |data| < HEADER_SIZE then Err(Truncated)
    else if Le32(data, 0) != MH_MAGIC_64 then Err(NotMachO)
    else ParseFrom(data, HEADER_SIZE, Le32(data, 16))
  }

  method ReadLoadCommands(data: seq<byte>) returns (r: Result<seq<Cmd>>)
    ensures r == Parse(data)
  {
    hide Le32;
    if |data| < HEADER_SIZE {
      return Err(Truncated);
    }
    if Le32(data, 0) != MH_MAGIC_64 {
      return Err(NotMachO);
    }
    var cmds: seq<Cmd> := [];
    var n := Le32(data, 16);
    var off: nat := HEADER_SIZE;
    PrependNone(ParseFrom(data, off, n));
    for i := 0 to n
      invariant Parse(data) == Prepend(cmds, ParseFrom(data, off, n - i))
    {
      if off + 8 > |data| {
        return Err(Truncated);
      }
      var cmd, size := Le32(data, off), Le32(data, off + 4);
      PrependOne(cmds, Cmd(cmd, size, off), ParseFrom(data, off + size, n - i - 1));
      cmds := cmds + [Cmd(cmd, size, off)];
      off := off + size;
    }
    assert cmds + [] == cmds;
    r := Ok(cmds);
  }

  function Prepend(done: seq<Cmd>, rest: Result<seq<Cmd>>): Result<seq<Cmd>> {
    if rest.Err? then rest else Ok(done + rest.value)
  }

  lemma PrependNone(rest: Result<seq<Cmd>>)
    ensures Prepend([], rest) == rest
  {
    if rest.Ok? {
      assert [] + rest.value == rest.value;
    }
  }

  lemma PrependOne(done: seq<Cmd>, c: Cmd, rest: Result<seq<Cmd>>)
    ensures Prepend(done + [c], rest) == Prepend(done, Prepend([c], rest))
  {
    if rest.Ok? {
      assert done + [c] + rest.value == done + ([c] + rest.value);
    }
  }

  // ----- convert -----

  /** A slice that is cut off where the data ends. */
  function Slice(data: seq<byte>, lo: nat, hi: nat): seq<byte>
    requires lo <= hi
  {
    if lo >= |data| then [] else if hi > |data| then data[lo..] else data[lo..hi]
  }

  function RawAt(data: seq<byte>, c: Cmd): seq<byte> {
    Slice(data, c.off, c.off + c.size)
  }

  function SegmentsOf(data: seq<byte>, cmds: seq<Cmd>): (raws: seq<seq<byte>>) {
    if cmds == [] then []
    else
      var rest, c := SegmentsOf(data, cmds[..|cmds| - 1]), cmds[|cmds| - 1];
      if c.cmd == LC_SEGMENT_64 then rest + [RawAt(data, c)] else rest
  }

  /** The entry offset of the last LC_MAIN, if there is one. */
  function MainOf(data: seq<byte>, cmds: seq<Cmd>): Result<Option<Word>> {
    if cmds == [] then Ok(None)
    else
      var rest :- MainOf(data, cmds[..|cmds| - 1]);
      var c := cmds[|cmds| - 1];
      if c.cmd != LC_MAIN then Ok(rest)
      else if c.off + 24 > |data| then Err(Truncated)
      else Ok(Some(Le64(data, c.off + 8)))
  }

  function StripZeros(s: seq<byte>): seq<byte> {
    if s != [] && s[|s| - 1] == 0 then StripZeros(s[..|s| - 1]) else s
  }

  predicate IsText(raw: seq<byte>) {
    StripZeros(Slice(raw, 8, 24)) == TEXT_NAME
  }

  /** The address of the first segment named __TEXT. */
  function TextFrom(raws: seq<seq<byte>>, i: nat): Result<Option<Word>>
    requires i <= |raws|
    decreases |raws| - i
  {
    if i == |raws| then Ok(None)
    else if !IsText(raws[i]) then TextFrom(raws, i + 1)
    else if |raws[i]| < 32 then Err(Truncated)
    else Ok(Some(Le64(raws[i], 24)))
  }

  function Concat(raws: seq<seq<byte>>): seq<byte> {
    if raws == [] then [] else raws[0] + Concat(raws[1..])
  }

  /** The thread command: all registers zero but the stack pointer, the entry point and the
      flags' fixed bit. */
  function Thread(rip: Word, stack: Word): (b: seq<byte>)
    ensures |b| == THREAD_SIZE
  {
    LeBytes(LC_UNIXTHREAD, 4) + LeBytes(THREAD_SIZE, 4) + LeBytes(X86_THREAD_STATE64, 4) + LeBytes(42, 4)
    + Zeros(56) + LeBytes(stack, 8) + Zeros(64) + LeBytes(rip, 8) + LeBytes(2, 8) + Zeros(24)
  }

  function Header(data: seq<byte>, ncmds: nat, size: nat): (b: seq<byte>)
    requires |data| >= HEADER_SIZE
    ensures |b| == HEADER_SIZE
  {
    LeBytes(MH_MAGIC_64, 4) + data[4..16] + LeBytes(ncmds, 4) + LeBytes(size, 4) + LeBytes(0, 4) + LeBytes(0, 4)
  }

  /** What the rewriter found: the segment commands, the entry offset, the entry address and
      the top of the stack. */
  datatype Plan = Plan(raws: seq<seq<byte>>, entryoff: Word, rip: nat, stack: nat)

  /** `& ~0xF` */
  function Down16(v: nat): nat {
    v / 16 * 16
  }

  function PlanOf(data: seq<byte>): Result<Plan> {
    var cmds :- Parse(data);
    var raws := SegmentsOf(data, cmds);
    var main :- MainOf(data, cmds);
    if main.None? then Err(NoMain)
    else
      var text :- TextFrom(raws, 0);
      if text.None? || raws == [] then Err(NoText)
      else
        var last := raws[|raws| - 1];
        if |last| < 40 then Err(Truncated)
        else Ok(Plan(raws, main.value, text.value + main.value, Down16(Le64(last, 24) + Le64(last, 32))))
  }

  function Preamble(data: seq<byte>, plan: Plan): (b: seq<byte>)
    requires |data| >= HEADER_SIZE && plan.rip < TWO64 && plan.stack < TWO64
  {
    var commands := Concat(plan.raws) + Thread(plan.rip, plan.stack);
    Header(data, |plan.raws| + 1, |commands|) + commands
  }

  /** The file that is written, given what was found. */
  function Assemble(data: seq<byte>, plan: Plan): Result<seq<byte>>
    requires |data| >= HEADER_SIZE
  {
    if plan.rip >= TWO64 || plan.stack >= TWO64 then Err(Overflow)
    else
      var preamble := Preamble(data, plan);
      if |preamble| - HEADER_SIZE >= TWO32 || |plan.raws| + 1 >= TWO32 then Err(Overflow)
      else if |preamble| > plan.entryoff then Err(NoRoom)
      else Ok(preamble + (Zeros(plan.entryoff - |preamble|) + Rest(data, plan.entryoff)))
  }

  function Rest(data: seq<byte>, off: nat): seq<byte> {
    if off >= |data| then [] else data[off..]
  }

  function Rewrite(data: seq<byte>): Result<seq<byte>> {
    var plan :- PlanOf(data);
    ParsedHasHeader(data);
    Assemble(data, plan)
  }

  method Convert(data: seq<byte>) returns (r: Result<seq<byte>>)
    ensures r == Rewrite(data)
  {
    hide Le32, Le64, IsText, Parse, Assemble;
    var parsed := ReadLoadCommands(data);
    if parsed.Err? {
      return Err(parsed.error);
    }
    ParsedHasHeader(data);
    var cmds := parsed.value;
    var segments: seq<seq<byte>> := [];
    var entryoff: Option<Word> := None;
    var i := 0;
    assert cmds[..0] == [];
    while i < |cmds|
      invariant 0 <= i <= |cmds|
      invariant segments == SegmentsOf(data, cmds[..i]) && MainOf(data, cmds[..i]) == Ok(entryoff)
    {
      var c := cmds[i];
      assert cmds[..i + 1][..i] == cmds[..i] && cmds[..i + 1][i] == c;
      if c.cmd == LC_SEGMENT_64 {
        segments := segments + [RawAt(data, c)];
      } else if c.cmd == LC_MAIN {
        if c.off + 24 > |data| {
          MainStaysBad(data, cmds, i + 1);
          return Err(Truncated);
        }
        entryoff := Some(Le64(data, c.off + 8));
      }
      i := i + 1;
    }
    assert cmds[..i] == cmds;
    if entryoff.None? {
      return Err(NoMain);
    }
    var text: Option<Word> := None;
    var j := 0;
    while j < |segments|
      invariant 0 <= j <= |segments| && text == None && TextFrom(segments, 0) == TextFrom(segments, j)
    {
      if IsText(segments[j]) {
        if |segments[j]| < 32 {
          return Err(Truncated);
        }
        text := Some(Le64(segments[j], 24));
        break;
      }
      j := j + 1;
    }
    if text.None? {
      return Err(NoText);
    }
    var last := segments[|segments| - 1];
    if |last| < 40 {
      return Err(Truncated);
    }
    var top := Down16(Le64(last, 24) + Le64(last, 32));
    r := Assemble(data, Plan(segments, entryoff.value, text.value + entryoff.value, top));
  }

  lemma ParsedHasHeader(data: seq<byte>)
    ensures Parse(data).Ok? ==> |data| >= HEADER_SIZE
  {
  }

  lemma {:induction false} MainStaysBad(data: seq<byte>, cmds: seq<Cmd>, i: nat)
    requires i <= |cmds| && MainOf(data, cmds[..i]).Err?
    ensures MainOf(data, cmds) == MainOf(data, cmds[..i])
    decreases |cmds| - i
  {
    hide Le64;
    if i < |cmds| {
      assert cmds[..i + 1][..i] == cmds[..i];
      MainStaysBad(data, cmds, i + 1);
    } else {
      assert cmds[..i] == cmds;
    }
  }

  // ----- What the output file is -----

  /** A command as bytes: it says its own length, and is long enough to say it. */
  predicate IsCommand(raw: seq<byte>) {
    |raw| >= 8 && Le32(raw, 4) == |raw|
  }

  /** The commands of a file, each as its bytes. */
  function RawsOf(data: seq<byte>, cmds: seq<Cmd>): seq<seq<byte>> {
    if cmds == [] then [] else [RawAt(data, cmds[0])] + RawsOf(data, cmds[1..])
  }

  /** Commands written one after the other are parsed back one by one. */
  lemma {:induction false} ParseConcat(data: seq<byte>, p: nat, raws: seq<seq<byte>>)
    requires HasAt(data, p, Concat(raws)) && forall i :: 0 <= i < |raws| ==> IsCommand(raws[i])
    ensures ParseFrom(data, p, |raws|).Ok?
    ensures RawsOf(data, ParseFrom(data, p, |raws|).value) == raws
    decreases |raws|
  {
    hide Le32;
    if raws != [] {
      HasAtConcat(data, p, raws[0], Concat(raws[1..]));
      assert IsCommand(raws[0]);
      Le32Slice(data, p, raws[0], 4);
      ParseConcat(data, p + |raws[0]|, raws[1..]);
      assert Slice(data, p, p + |raws[0]|) == raws[0];
    }
  }

  lemma Le32Slice(data: seq<byte>, at: nat, part: seq<byte>, p: nat)
    requires HasAt(data, at, part) && p + 4 <= |part|
    ensures Le32(data, at + p) == Le32(part, p)
  {
    hide Le;
    LeSlice(data, at, part, p, 4);
  }

  lemma Le64Slice(data: seq<byte>, at: nat, part: seq<byte>, p: nat)
    requires HasAt(data, at, part) && p + 8 <= |part|
    ensures Le64(data, at + p) == Le64(part, p)
  {
    hide Le;
    LeSlice(data, at, part, p, 8);
  }

  /** Every segment command of the input is there in full. */
  predicate WellPlaced(data: seq<byte>, cmds: seq<Cmd>) {
    forall i :: 0 <= i < |cmds| && cmds[i].cmd == LC_SEGMENT_64 ==>
      cmds[i].size >= 8 && cmds[i].off + cmds[i].size <= |data|
  }

  lemma {:induction false} ParsedSizes(data: seq<byte>, off: nat, n: nat, i: nat)
    requires ParseFrom(data, off, n).Ok? && i < n
    ensures |ParseFrom(data, off, n).value| == n
    ensures var c := ParseFrom(data, off, n).value[i];
            c.off + 8 <= |data| && c.cmd == Le32(data, c.off) && c.size == Le32(data, c.off + 4)
    decreases n
  {
    hide Le32;
    if i > 0 {
      ParsedSizes(data, off + Le32(data, off + 4), n - 1, i - 1);
    } else if n > 1 {
      ParsedSizes(data, off + Le32(data, off + 4), n - 1, 0);
    }
  }

  lemma {:induction false} ParsedLength(data: seq<byte>, off: nat, n: nat)
    requires ParseFrom(data, off, n).Ok?
    ensures |ParseFrom(data, off, n).value| == n
    decreases n
  {
    hide Le32;
    if n > 0 {
      ParsedLength(data, off + Le32(data, off + 4), n - 1);
    }
  }

  lemma {:induction false} SegmentsAreCommands(data: seq<byte>, cmds: seq<Cmd>, i: nat)
    requires WellPlaced(data, cmds) && i < |SegmentsOf(data, cmds)|
    requires forall k :: 0 <= k < |cmds| ==> cmds[k].off + 8 <= |data| && cmds[k].size == Le32(data, cmds[k].off + 4)
    ensures IsCommand(SegmentsOf(data, cmds)[i])
    decreases |cmds|
  {
    hide Le32;
    var n := |cmds| - 1;
    assert forall k :: 0 <= k < n ==> cmds[..n][k] == cmds[k];
    if i < |SegmentsOf(data, cmds[..n])| {
      SegmentsAreCommands(data, cmds[..n], i);
    } else {
      var c := cmds[n];
      var raw := RawAt(data, c);
      assert HasAt(data, c.off, raw);
      Le32Slice(data, c.off, raw, 4);
    }
  }

  lemma ThreadIsCommand(rip: Word, stack: Word)
    ensures IsCommand(Thread(rip, stack))
  {
    hide LeBytes, Le;
    var t := Thread(rip, stack);
    Pow256Values();
    var rest := LeBytes(X86_THREAD_STATE64, 4) + LeBytes(42, 4) + Zeros(56) + LeBytes(stack, 8) + Zeros(64)
                + LeBytes(rip, 8) + LeBytes(2, 8) + Zeros(24);
    assert t == LeBytes(LC_UNIXTHREAD, 4) + (LeBytes(THREAD_SIZE, 4) + rest);
    assert HasAt(t, 0, LeBytes(LC_UNIXTHREAD, 4) + (LeBytes(THREAD_SIZE, 4) + rest));
    HasAtConcat(t, 0, LeBytes(LC_UNIXTHREAD, 4), LeBytes(THREAD_SIZE, 4) + rest);
    HasAtConcat(t, 4, LeBytes(THREAD_SIZE, 4), rest);
    LeRoundTrip(t, 4, THREAD_SIZE, 4);
  }

  lemma ThreadNumber(rip: Word, stack: Word)
    ensures Le32(Thread(rip, stack), 0) == LC_UNIXTHREAD
  {
    hide LeBytes, Le;
    var t := Thread(rip, stack);
    Pow256Values();
    var rest := LeBytes(THREAD_SIZE, 4) + LeBytes(X86_THREAD_STATE64, 4) + LeBytes(42, 4) + Zeros(56)
                + LeBytes(stack, 8) + Zeros(64) + LeBytes(rip, 8) + LeBytes(2, 8) + Zeros(24);
    assert t == LeBytes(LC_UNIXTHREAD, 4) + rest;
    assert HasAt(t, 0, LeBytes(LC_UNIXTHREAD, 4) + rest);
    HasAtConcat(t, 0, LeBytes(LC_UNIXTHREAD, 4), rest);
    LeRoundTrip(t, 0, LC_UNIXTHREAD, 4);
  }

  /** The commands of the output are the input's segment commands, byte for byte and in
      order, and one thread command. */
  lemma ReparseIsSegmentsAndThread(data: seq<byte>)
    requires Rewrite(data).Ok? && WellPlaced(data, Parse(data).value)
    ensures var out, plan := Rewrite(data).value, PlanOf(data).value;
            && Parse(out).Ok?
            && plan.rip < TWO64 && plan.stack < TWO64
            && RawsOf(out, Parse(out).value) == SegmentsOf(data, Parse(data).value) + [Thread(plan.rip, plan.stack)]
  {
    hide Le32, Le64, Thread, Header, MainOf, TextFrom, SegmentsOf, WellPlaced, ParseFrom, RawsOf, Concat;
    ParsedHasHeader(data);
    var plan, out := PlanOf(data).value, Rewrite(data).value;
    AllSegmentsAreCommands(data);
    ThreadIsCommand(plan.rip, plan.stack);
    var raws := plan.raws + [Thread(plan.rip, plan.stack)];
    ConcatLast(plan.raws, Thread(plan.rip, plan.stack));
    OutputStarts(data, plan, out);
    ParseConcat(out, HEADER_SIZE, raws);
  }

  lemma AllSegmentsAreCommands(data: seq<byte>)
    requires Parse(data).Ok? && WellPlaced(data, Parse(data).value)
    ensures forall i :: 0 <= i < |SegmentsOf(data, Parse(data).value)| ==>
              IsCommand(SegmentsOf(data, Parse(data).value)[i])
  {
    hide Le32, SegmentsOf, ParseFrom, IsCommand, WellPlaced;
    var cmds := Parse(data).value;
    forall k | 0 <= k < |cmds| ensures cmds[k].off + 8 <= |data| && cmds[k].size == Le32(data, cmds[k].off + 4) {
      ParsedLength(data, HEADER_SIZE, Le32(data, 16));
      ParsedSizes(data, HEADER_SIZE, Le32(data, 16), k);
    }
    forall i | 0 <= i < |SegmentsOf(data, cmds)| ensures IsCommand(SegmentsOf(data, cmds)[i]) {
      SegmentsAreCommands(data, cmds, i);
    }
  }

  lemma {:induction false} ConcatLast(raws: seq<seq<byte>>, last: seq<byte>)
    ensures Concat(raws + [last]) == Concat(raws) + last
    decreases |raws|
  {
    if raws == [] {
      assert [last][1..] == [] && raws + [last] == [last];
    } else {
      assert (raws + [last])[1..] == raws[1..] + [last];
      ConcatLast(raws[1..], last);
    }
  }

  /** The output starts with a header that counts its commands, and then has them. */
  lemma OutputStarts(data: seq<byte>, plan: Plan, out: seq<byte>)
    requires |data| >= HEADER_SIZE && Assemble(data, plan) == Ok(out)
    ensures |out| >= HEADER_SIZE && Le32(out, 0) == MH_MAGIC_64 && Le32(out, 16) == |plan.raws| + 1
    ensures Le32(out, 20) == |Concat(plan.raws)| + THREAD_SIZE
    ensures out[4..16] == data[4..16]
    ensures HasAt(out, HEADER_SIZE, Concat(plan.raws) + Thread(plan.rip, plan.stack))
  {
    hide Thread, Concat, LeBytes, Le, Zeros;
    var commands := Concat(plan.raws) + Thread(plan.rip, plan.stack);
    var head := Header(data, |plan.raws| + 1, |commands|);
    var rest := Zeros(plan.entryoff - |head + commands|) + Rest(data, plan.entryoff);
    assert HasAt(out, 0, (head + commands) + rest);
    HasAtConcat(out, 0, head + commands, rest);
    HasAtConcat(out, 0, head, commands);
    HeaderFields(data, |plan.raws| + 1, |commands|);
    Le32Slice(out, 0, head, 0);
    Le32Slice(out, 0, head, 16);
    Le32Slice(out, 0, head, 20);
    ThreadLength(plan.rip, plan.stack);
    assert out[4..16] == head[4..16];
  }

  lemma ThreadLength(rip: Word, stack: Word)
    ensures |Thread(rip, stack)| == THREAD_SIZE
  {
  }

  lemma HeaderFields(data: seq<byte>, ncmds: nat, size: nat)
    requires |data| >= HEADER_SIZE && ncmds < TWO32 && size < TWO32
    ensures var h := Header(data, ncmds, size);
            Le32(h, 0) == MH_MAGIC_64 && h[4..16] == data[4..16] && Le32(h, 16) == ncmds && Le32(h, 20) == size
  {
    hide LeBytes, Le;
    var h := Header(data, ncmds, size);
    Pow256Values();
    var tail := LeBytes(size, 4) + LeBytes(0, 4) + LeBytes(0, 4);
    assert h == LeBytes(MH_MAGIC_64, 4) + (data[4..16] + (LeBytes(ncmds, 4) + tail));
    assert HasAt(h, 0, LeBytes(MH_MAGIC_64, 4) + (data[4..16] + (LeBytes(ncmds, 4) + tail)));
    HasAtConcat(h, 0, LeBytes(MH_MAGIC_64, 4), data[4..16] + (LeBytes(ncmds, 4) + tail));
    LeRoundTrip(h, 0, MH_MAGIC_64, 4);
    HasAtConcat(h, 4, data[4..16], LeBytes(ncmds, 4) + tail);
    HasAtConcat(h, 16, LeBytes(ncmds, 4), tail);
    LeRoundTrip(h, 16, ncmds, 4);
    assert tail == LeBytes(size, 4) + (LeBytes(0, 4) + LeBytes(0, 4));
    HasAtConcat(h, 20, LeBytes(size, 4), LeBytes(0, 4) + LeBytes(0, 4));
    LeRoundTrip(h, 20, size, 4);
  }

  /** All bytes from the entry offset on are kept; the file keeps its length if and only if
      the entry offset lies in it. */
  lemma TailIsKept(data: seq<byte>)
    requires Rewrite(data).Ok?
    ensures var out, off := Rewrite(data).value, PlanOf(data).value.entryoff;
            && off <= |out| && out[off..] == Rest(data, off)
            && (|out| == |data| <==> off <= |data|)
  {
    hide Parse, Preamble, Zeros, MainOf, TextFrom, SegmentsOf, Le64;
    ParsedHasHeader(data);
    var plan, out := PlanOf(data).value, Rewrite(data).value;
    var front := Preamble(data, plan) + Zeros(plan.entryoff - |Preamble(data, plan)|);
    assert out == front + Rest(data, plan.entryoff);
  }

  /** The thread command records the entry point and the stack where a loader looks for
      them: registers 16 and 7 of the state. */
  lemma ThreadFields(rip: Word, stack: Word)
    ensures Le64(Thread(rip, stack), 16 + 8 * 16) == rip && Le64(Thread(rip, stack), 16 + 8 * 7) == stack
  {
    hide LeBytes, Le, Zeros;
    var t := Thread(rip, stack);
    var a := LeBytes(LC_UNIXTHREAD, 4) + LeBytes(THREAD_SIZE, 4) + LeBytes(X86_THREAD_STATE64, 4) + LeBytes(42, 4)
             + Zeros(56);
    var b := LeBytes(rip, 8) + (LeBytes(2, 8) + Zeros(24));
    Pow256Values();
    assert t == a + (LeBytes(stack, 8) + (Zeros(64) + b));
    assert HasAt(t, 0, a + (LeBytes(stack, 8) + (Zeros(64) + b)));
    HasAtConcat(t, 0, a, LeBytes(stack, 8) + (Zeros(64) + b));
    HasAtConcat(t, 72, LeBytes(stack, 8), Zeros(64) + b);
    LeRoundTrip(t, 72, stack, 8);
    HasAtConcat(t, 80, Zeros(64), b);
    HasAtConcat(t, 144, LeBytes(rip, 8), LeBytes(2, 8) + Zeros(24));
    LeRoundTrip(t, 144, rip, 8);
  }
}
