/** What the rewriting leaves unchanged for this project's own loader: the segments that it
    sees, and so the size of the image; and the entry point. */
module MachoXnuLoad {
  import opened Wrappers
  import opened Bytes
  import opened Macho
  import opened MachoXnu

  /** Every segment command has all its fields, and lies in the file. */
  predicate FullSegments(data: seq<byte>, cmds: seq<Cmd>) {
    forall i :: 0 <= i < |cmds| && cmds[i].cmd == LC_SEGMENT_64 ==>
      cmds[i].size >= SEGMENT_SIZE && cmds[i].off + cmds[i].size <= |data|
  }

  predicate IsFullSegment(raw: seq<byte>) {
    |raw| >= SEGMENT_SIZE && Le32(raw, 0) == LC_SEGMENT_64 && Le32(raw, 4) == |raw|
  }

  function View(raw: seq<byte>): (c: Command)
    requires IsFullSegment(raw)
    ensures c.Segment?
  {
    CommandAt(raw, 0)
  }

  function Views(raws: seq<seq<byte>>): (cs: seq<Command>)
    requires forall i :: 0 <= i < |raws| ==> IsFullSegment(raws[i])
    ensures |cs| == |raws| && forall i :: 0 <= i < |cs| ==> cs[i] == View(raws[i]) && cs[i].Segment?
  {
    seq(|raws|, i requires 0 <= i < |raws| => View(raws[i]))
  }

  function OnlySegments(cs: seq<Command>): seq<Command> {
    if cs == [] then []
    else
      var rest, c := OnlySegments(cs[..|cs| - 1]), cs[|cs| - 1];
      if c.Segment? then rest + [c] else rest
  }

  // ----- The commands that the loader sees in the input -----

  lemma {:induction false} CommandOfParsed(data: seq<byte>, p: nat, n: nat, i: nat)
    requires Readable(data, p, n) && i < n
    ensures ParseFrom(data, p, n).Ok? && |ParseFrom(data, p, n).value| == n
    ensures var c := ParseFrom(data, p, n).value[i];
            && c.off + 8 <= |data| && c.cmd == Le32(data, c.off) && c.size == Le32(data, c.off + 4)
            && (c.cmd == LC_SEGMENT_64 ==> c.off + SEGMENT_SIZE <= |data|)
            && (c.cmd == LC_MAIN ==> c.off + MAIN_SIZE <= |data|)
            && Commands(data, p, n)[i] == CommandAt(data, c.off)
    decreases n
  {
    hide Le32, CommandAt;
    if n > 1 {
      CommandOfParsed(data, p + Le32(data, p + 4), n - 1, if i == 0 then 0 else i - 1);
    }
  }

  lemma ViewOfSlice(data: seq<byte>, c: Cmd)
    requires c.cmd == LC_SEGMENT_64 && c.size >= SEGMENT_SIZE && c.off + c.size <= |data|
    requires c.cmd == Le32(data, c.off) && c.size == Le32(data, c.off + 4)
    ensures var raw := RawAt(data, c); IsFullSegment(raw) && View(raw) == CommandAt(data, c.off)
  {
    hide Le, Le32, Le64;
    var raw := RawAt(data, c);
    assert HasAt(data, c.off, raw);
    Le32Slice(data, c.off, raw, 0);
    Le32Slice(data, c.off, raw, 4);
    Le64Slice(data, c.off, raw, 24);
    Le64Slice(data, c.off, raw, 32);
    Le64Slice(data, c.off, raw, 40);
    Le64Slice(data, c.off, raw, 48);
  }

  /** Command `i` of the list is what the loader reads where command `i` of the file is. */
  ghost predicate Matches(data: seq<byte>, cmds: seq<Cmd>, cs: seq<Command>) {
    && |cs| == |cmds|
    && forall i :: 0 <= i < |cmds| ==>
         && cmds[i].off + 8 <= |data|
         && cmds[i].cmd == Le32(data, cmds[i].off) && cmds[i].size == Le32(data, cmds[i].off + 4)
         && (cmds[i].cmd == LC_SEGMENT_64 ==> cmds[i].off + SEGMENT_SIZE <= |data|)
         && (cmds[i].cmd == LC_MAIN ==> cmds[i].off + MAIN_SIZE <= |data|)
         && cs[i] == CommandAt(data, cmds[i].off)
  }

  lemma InputMatches(data: seq<byte>)
    requires ReadableSlice(data) && Le32(data, 0) == MH_MAGIC_64
    ensures Parse(data).Ok? && Matches(data, Parse(data).value, SliceCommands(data))
  {
    hide Le32, CommandAt, Commands, Readable, ParseFrom;
    var n := Le32(data, 16);
    if n == 0 {
      NoCommands(data);
    } else {
      forall i | 0 <= i < n
        ensures ParseFrom(data, HEADER_SIZE, n).Ok? && |ParseFrom(data, HEADER_SIZE, n).value| == n
        ensures var c := ParseFrom(data, HEADER_SIZE, n).value[i];
                && c.off + 8 <= |data| && c.cmd == Le32(data, c.off) && c.size == Le32(data, c.off + 4)
                && (c.cmd == LC_SEGMENT_64 ==> c.off + SEGMENT_SIZE <= |data|)
                && (c.cmd == LC_MAIN ==> c.off + MAIN_SIZE <= |data|)
                && Commands(data, HEADER_SIZE, n)[i] == CommandAt(data, c.off)
      {
        CommandOfParsed(data, HEADER_SIZE, n, i);
      }
      CommandOfParsed(data, HEADER_SIZE, n, 0);
    }
  }

  lemma NoCommands(data: seq<byte>)
    ensures ParseFrom(data, HEADER_SIZE, 0) == Ok([])
  {
  }

  lemma LastMatches(data: seq<byte>, cmds: seq<Cmd>, cs: seq<Command>)
    requires Matches(data, cmds, cs) && FullSegments(data, cmds) && cmds != []
    ensures var n := |cmds| - 1;
            && Matches(data, cmds[..n], cs[..n]) && FullSegments(data, cmds[..n])
            && (cmds[n].cmd == LC_SEGMENT_64 <==> cs[n].Segment?)
            && (cs[n].Segment? ==> var raw := RawAt(data, cmds[n]);
                                   IsFullSegment(raw) && View(raw) == cs[n])
  {
    hide Le32, Le64, View, IsFullSegment;
    var n := |cmds| - 1;
    if cmds[n].cmd == LC_SEGMENT_64 {
      ViewOfSlice(data, cmds[n]);
    }
  }

  lemma ViewsOfMore(raws: seq<seq<byte>>, raw: seq<byte>)
    requires (forall i :: 0 <= i < |raws| ==> IsFullSegment(raws[i])) && IsFullSegment(raw)
    ensures forall i :: 0 <= i < |raws + [raw]| ==> IsFullSegment((raws + [raw])[i])
    ensures Views(raws + [raw]) == Views(raws) + [View(raw)]
  {
    hide IsFullSegment, View;
  }

  lemma {:induction false} SegmentsOfInput(data: seq<byte>, cmds: seq<Cmd>, cs: seq<Command>)
    requires Matches(data, cmds, cs) && FullSegments(data, cmds)
    ensures forall i :: 0 <= i < |SegmentsOf(data, cmds)| ==> IsFullSegment(SegmentsOf(data, cmds)[i])
    ensures OnlySegments(cs) == Views(SegmentsOf(data, cmds))
    decreases |cmds|
  {
    hide IsFullSegment, View, FullSegments, RawAt;
    if cmds != [] {
      var n := |cmds| - 1;
      LastMatches(data, cmds, cs);
      hide Matches;
      SegmentsOfInput(data, cmds[..n], cs[..n]);
      if cs[n].Segment? {
        ViewsOfMore(SegmentsOf(data, cmds[..n]), RawAt(data, cmds[n]));
      }
    }
  }

  // ----- The commands that the loader sees in the output -----

  lemma {:induction false} CommandsOfConcat(out: seq<byte>, p: nat, raws: seq<seq<byte>>, last: seq<byte>)
    requires HasAt(out, p, Concat(raws) + last) && (forall i :: 0 <= i < |raws| ==> IsFullSegment(raws[i]))
    requires IsCommand(last) && Le32(last, 0) != LC_SEGMENT_64 && Le32(last, 0) != LC_MAIN
    ensures Readable(out, p, |raws| + 1)
    ensures Commands(out, p, |raws| + 1) == Views(raws) + [Other]
    decreases |raws|
  {
    hide Le32, Le64;
    if raws == [] {
      assert Concat(raws) + last == last;
      Le32Slice(out, p, last, 0);
      assert Commands(out, p, 1)[0] == Other;
    } else {
      var raw, rest := raws[0], Concat(raws[1..]) + last;
      assert Concat(raws) + last == raw + rest;
      HasAtConcat(out, p, raw, rest);
      FirstCommand(out, p, raw);
      CommandsOfConcat(out, p + |raw|, raws[1..], last);
      assert [View(raw)] + (Views(raws[1..]) + [Other]) == Views(raws) + [Other];
    }
  }

  lemma FirstCommand(out: seq<byte>, p: nat, raw: seq<byte>)
    requires HasAt(out, p, raw) && IsFullSegment(raw)
    ensures Le32(out, p) == LC_SEGMENT_64 && Le32(out, p + 4) == |raw| && CommandAt(out, p) == View(raw)
  {
    hide Le, Le32, Le64;
    Le32Slice(out, p, raw, 0);
    Le32Slice(out, p, raw, 4);
    Le64Slice(out, p, raw, 24);
    Le64Slice(out, p, raw, 32);
    Le64Slice(out, p, raw, 40);
    Le64Slice(out, p, raw, 48);
  }

  // ----- The image's size -----

  lemma ExtremesOfMore(cs: seq<Command>, c: Command)
    ensures Lowest(cs + [c]) == if Counts(c) && c.vmaddr < Lowest(cs) then c.vmaddr else Lowest(cs)
    ensures Highest(cs + [c]) == if Counts(c) && End(c) > Highest(cs) then End(c) else Highest(cs)
    ensures AnyCounts(cs + [c]) <==> AnyCounts(cs) || Counts(c)
  {
    hide End;
    assert (cs + [c])[..|cs|] == cs && (cs + [c])[..|cs| + 1] == cs + [c];
    OneMore(cs + [c], |cs|);
  }

  lemma {:induction false} SizeOfSegments(cs: seq<Command>)
    ensures Lowest(cs) == Lowest(OnlySegments(cs)) && Highest(cs) == Highest(OnlySegments(cs))
    ensures AnyCounts(cs) <==> AnyCounts(OnlySegments(cs))
    decreases |cs|
  {
    hide End, Lowest, Highest, AnyCounts;
    if cs != [] {
      var n := |cs| - 1;
      SizeOfSegments(cs[..n]);
      assert cs == cs[..n] + [cs[n]];
      ExtremesOfMore(cs[..n], cs[n]);
      ExtremesOfMore(OnlySegments(cs[..n]), cs[n]);
    }
  }

  lemma OnlyViews(cs: seq<Command>, n: nat)
    requires n <= |cs| && forall i :: 0 <= i < |cs| ==> cs[i].Segment?
    ensures OnlySegments(cs[..n]) == cs[..n]
    decreases n
  {
    if n > 0 {
      assert cs[..n][..n - 1] == cs[..n - 1];
      OnlyViews(cs, n - 1);
    }
  }

  // ----- What can be converted can be read -----

  lemma {:induction false} MainsAreThere(data: seq<byte>, cmds: seq<Cmd>, i: nat)
    requires MainOf(data, cmds).Ok? && i < |cmds| && cmds[i].cmd == LC_MAIN
    ensures cmds[i].off + MAIN_SIZE <= |data|
    decreases |cmds|
  {
    hide Le64;
    if i < |cmds| - 1 {
      MainsAreThere(data, cmds[..|cmds| - 1], i);
    }
  }

  lemma {:induction false} ParsedIsReadable(data: seq<byte>, p: nat, n: nat)
    requires ParseFrom(data, p, n).Ok? && FullSegments(data, ParseFrom(data, p, n).value)
    requires forall i :: 0 <= i < |ParseFrom(data, p, n).value| && ParseFrom(data, p, n).value[i].cmd == LC_MAIN ==>
               ParseFrom(data, p, n).value[i].off + MAIN_SIZE <= |data|
    ensures Readable(data, p, n)
    decreases n
  {
    hide Le32;
    if n > 0 {
      var all, rest := ParseFrom(data, p, n).value, ParseFrom(data, p + Le32(data, p + 4), n - 1).value;
      assert all[0] == Cmd(Le32(data, p), Le32(data, p + 4), p);
      assert forall i :: 0 <= i < |rest| ==> rest[i] == all[i + 1];
      ParsedIsReadable(data, p + Le32(data, p + 4), n - 1);
    }
  }

  lemma InputIsReadable(data: seq<byte>)
    requires Rewrite(data).Ok? && FullSegments(data, Parse(data).value)
    ensures ReadableSlice(data)
  {
    hide Le32, Le64, ParseFrom, MainOf, TextFrom, Readable, FullSegments, SegmentsOf, Assemble;
    ParsedIsMachO(data);
    var cmds := Parse(data).value;
    forall i | 0 <= i < |cmds| && cmds[i].cmd == LC_MAIN ensures cmds[i].off + MAIN_SIZE <= |data| {
      MainsAreThere(data, cmds, i);
    }
    ParsedIsReadable(data, HEADER_SIZE, Le32(data, 16));
  }

  /** `macho_image_size` gives the same for the output as for the input, whatever the
      processor: the loader sees the same segments. */
  lemma ImageSizeIsKept(data: seq<byte>, native: nat)
    requires Rewrite(data).Ok? && FullSegments(data, Parse(data).value)
    ensures ReadableSlice(data) && ReadableSlice(Rewrite(data).value)
    ensures OnlySegments(SliceCommands(Rewrite(data).value)) == OnlySegments(SliceCommands(data))
    ensures Legible(data, native) && Legible(Rewrite(data).value, native)
    ensures NativeSlice(Rewrite(data).value, native).Some? <==> NativeSlice(data, native).Some?
    ensures SizeOf(Rewrite(data).value, native) == SizeOf(data, native)
  {
    hide Le32, Le64, Readable, Commands, FullSegments, Lowest, Highest, ParseFrom, OnlySegments, AnyCounts,
         Legible, NativeSlice, Rewrite, Footprint, SliceCommands;
    InputIsReadable(data);
    FootprintIsKept(data);
    ParsedIsMachO(data);
    RewrittenParses(data);
    PlainIsLegible(data, native);
    PlainIsLegible(Rewrite(data).value, native);
  }

  lemma RewrittenParses(data: seq<byte>)
    ensures Rewrite(data).Ok? ==> Parse(data).Ok?
  {
  }

  lemma FootprintIsKept(data: seq<byte>)
    requires ReadableSlice(data) && Rewrite(data).Ok? && FullSegments(data, Parse(data).value)
    ensures ReadableSlice(Rewrite(data).value) && Le32(Rewrite(data).value, 0) == MH_MAGIC_64
    ensures OnlySegments(SliceCommands(Rewrite(data).value)) == OnlySegments(SliceCommands(data))
    ensures Footprint(SliceCommands(Rewrite(data).value)) == Footprint(SliceCommands(data))
    ensures forall native :: IsNative(Rewrite(data).value, native) <==> IsNative(data, native)
  {
    hide Le32, Le64, Readable, Commands, Concat, Header, Thread, MainOf, TextFrom, SegmentsOf, FullSegments,
         Matches, Lowest, Highest, ParseFrom, IsFullSegment, IsCommand, OnlySegments, AnyCounts;
    ParsedIsMachO(data);
    var plan, out := PlanOf(data).value, Rewrite(data).value;
    InputMatches(data);
    SegmentsOfInput(data, Parse(data).value, SliceCommands(data));
    OutputStarts(data, plan, out);
    ThreadNumber(plan.rip, plan.stack);
    ThreadIsCommand(plan.rip, plan.stack);
    CommandsOfConcat(out, HEADER_SIZE, plan.raws, Thread(plan.rip, plan.stack));
    OtherIsDropped(Views(plan.raws));
    SizeOfSegments(SliceCommands(out));
    SizeOfSegments(SliceCommands(data));
    SameCpu(data, out);
  }

  lemma ParsedIsMachO(data: seq<byte>)
    ensures Parse(data).Ok? ==> |data| >= HEADER_SIZE && Le32(data, 0) == MH_MAGIC_64
  {
  }

  lemma OtherIsDropped(cs: seq<Command>)
    requires forall i :: 0 <= i < |cs| ==> cs[i].Segment?
    ensures OnlySegments(cs + [Other]) == cs
  {
    assert (cs + [Other])[..|cs|] == cs && cs[..|cs|] == cs;
    OnlyViews(cs, |cs|);
  }

  lemma SameCpu(data: seq<byte>, out: seq<byte>)
    requires |data| >= HEADER_SIZE && |out| >= HEADER_SIZE && out[4..16] == data[4..16]
    ensures Le32(out, 4) == Le32(data, 4)
  {
    hide Le;
    LeSlice(out, 4, out[4..16], 0, 4);
    LeSlice(data, 4, data[4..16], 0, 4);
  }

  // ----- The entry point -----

  lemma {:induction false} SameMain(data: seq<byte>, cmds: seq<Cmd>, cs: seq<Command>)
    requires Matches(data, cmds, cs)
    ensures MainOf(data, cmds) == Ok(EntryOff(cs))
    decreases |cmds|
  {
    hide Le32, Le64;
    if cmds != [] {
      var n := |cmds| - 1;
      assert forall k :: 0 <= k < n ==> cmds[..n][k] == cmds[k] && cs[..n][k] == cs[k];
      SameMain(data, cmds[..n], cs[..n]);
    }
  }

  lemma {:induction false} TextOfMore(raws: seq<seq<byte>>, raw: seq<byte>, i: nat)
    requires i <= |raws|
    ensures TextFrom(raws, i) != Ok(None) ==> TextFrom(raws + [raw], i) == TextFrom(raws, i)
    ensures TextFrom(raws, i) == Ok(None) ==> TextFrom(raws + [raw], i) == TextFrom([raw], 0)
    decreases |raws| - i
  {
    hide IsText, Le64;
    if i < |raws| {
      TextOfMore(raws, raw, i + 1);
    } else {
      assert (raws + [raw])[i] == raw;
    }
  }

  /** Among the segments up to command `k`, the first that is named __TEXT is command `k`. */
  predicate IsTextCommand(data: seq<byte>, cmds: seq<Cmd>, k: nat) {
    && k < |cmds| && cmds[k].cmd == LC_SEGMENT_64 && IsText(RawAt(data, cmds[k]))
    && forall j :: 0 <= j < k && cmds[j].cmd == LC_SEGMENT_64 ==> !IsText(RawAt(data, cmds[j]))
  }

  lemma {:induction false} NoTextBefore(data: seq<byte>, cmds: seq<Cmd>)
    requires forall j :: 0 <= j < |cmds| && cmds[j].cmd == LC_SEGMENT_64 ==> !IsText(RawAt(data, cmds[j]))
    ensures TextFrom(SegmentsOf(data, cmds), 0) == Ok(None)
    decreases |cmds|
  {
    hide IsText, RawAt, Le64;
    if cmds != [] {
      var n := |cmds| - 1;
      assert forall j :: 0 <= j < n ==> cmds[..n][j] == cmds[j];
      NoTextBefore(data, cmds[..n]);
      if cmds[n].cmd == LC_SEGMENT_64 {
        TextOfMore(SegmentsOf(data, cmds[..n]), RawAt(data, cmds[n]), 0);
      }
    }
  }

  lemma {:induction false} TextIsFound(data: seq<byte>, cmds: seq<Cmd>, k: nat)
    requires IsTextCommand(data, cmds, k) && |RawAt(data, cmds[k])| >= 32
    ensures TextFrom(SegmentsOf(data, cmds), 0) ==
            Ok(Some(Le64(RawAt(data, cmds[k]), 24)))
    decreases |cmds|
  {
    hide IsText, RawAt, Le64;
    var n := |cmds| - 1;
    assert forall j :: 0 <= j < n ==> cmds[..n][j] == cmds[j];
    var raw := RawAt(data, cmds[n]);
    TextOfMore(SegmentsOf(data, cmds[..n]), raw, 0);
    if k < n {
      TextIsFound(data, cmds[..n], k);
    } else {
      NoTextBefore(data, cmds[..n]);
      assert [raw][0] == raw;
    }
  }

  lemma {:induction false} FirstContaining(cs: seq<Command>, i: nat, k: nat, off: Word, base: Word)
    requires i <= k < |cs| && Contains(cs[k], off) && forall j :: i <= j < k ==> !Contains(cs[j], off)
    ensures EntryFrom(cs, i, off, base) == Some(Plus(Plus(base, cs[k].vmaddr), off - cs[k].fileoff))
    decreases k - i
  {
    hide Contains, Plus;
    if i < k {
      FirstContaining(cs, i + 1, k, off, base);
    }
  }

  /** The entry address that goes into the thread command is the one at which the loader,
      with base 0, would enter the input, when __TEXT starts the file and is the first
      segment to contain the entry offset. */
  lemma RecordedEntry(data: seq<byte>, k: nat)
    requires ReadableSlice(data) && Rewrite(data).Ok? && FullSegments(data, Parse(data).value)
    requires IsTextCommand(data, Parse(data).value, k) && k < |SliceCommands(data)|
    requires var cs, off := SliceCommands(data), PlanOf(data).value.entryoff;
             && Contains(cs[k], off) && cs[k].fileoff == 0 && forall j :: 0 <= j < k ==> !Contains(cs[j], off)
    ensures EntryOf(SliceCommands(data), 0) == Some(PlanOf(data).value.rip)
  {
    hide Readable, Commands, Parse, Plus, Contains, PlanOf, Rewrite, IsTextCommand, FullSegments, Matches,
         SliceCommands, ReadableSlice, EntryFrom;
    PlanFacts(data);
    var cs, plan := SliceCommands(data), PlanOf(data).value;
    InputMatches(data);
    SameMain(data, Parse(data).value, cs);
    TextAddress(data, Parse(data).value, cs, k);
    FirstContaining(cs, 0, k, plan.entryoff, 0);
    PlusZero(cs[k].vmaddr, plan.entryoff);
  }

  /** What a plan was made from. */
  lemma PlanFacts(data: seq<byte>)
    requires Rewrite(data).Ok?
    ensures |data| >= HEADER_SIZE && Le32(data, 0) == MH_MAGIC_64 && Parse(data).Ok? && PlanOf(data).Ok?
    ensures var plan, cmds := PlanOf(data).value, Parse(data).value;
            && MainOf(data, cmds) == Ok(Some(plan.entryoff)) && plan.rip < TWO64
            && var text := TextFrom(SegmentsOf(data, cmds), 0);
               text.Ok? && text.value.Some? && plan.rip == text.value.value + plan.entryoff
  {
    hide Parse, MainOf, TextFrom, SegmentsOf, Le64, Le32, Preamble, Zeros;
    ParsedIsMachO(data);
  }

  lemma TextAddress(data: seq<byte>, cmds: seq<Cmd>, cs: seq<Command>, k: nat)
    requires Matches(data, cmds, cs) && FullSegments(data, cmds) && IsTextCommand(data, cmds, k)
    ensures cs[k].Segment? && TextFrom(SegmentsOf(data, cmds), 0) == Ok(Some(cs[k].vmaddr))
  {
    hide Le32, Le64, TextFrom, SegmentsOf, IsText;
    var c := cmds[k];
    ViewOfSlice(data, c);
    TextIsFound(data, cmds, k);
    Le64Slice(data, c.off, RawAt(data, c), 24);
  }

  lemma PlusZero(v: Word, off: Word)
    ensures v + off < TWO64 ==> Plus(Plus(0, v), off - 0) == v + off
  {
  }
}
