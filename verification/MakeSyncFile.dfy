/** The tool that prints signed code sets, and the round trip through the device's parser. */
module MakeSyncFile {
  import opened Bytes
  import opened AccessCore
  import opened SyncLogic
  import opened Text
  import opened SyncParse
  import opened SyncSoundness

  /** One `--code` argument, its plaintext already digested and its times already read as epochs. */
  datatype CodeArg = CodeArg(id: string, digest: Hash, validFrom: int, validUntil: int)

  function FieldsOf(c: CodeArg): seq<string> {
    [c.id, HexOf(c.digest), Printed(c.validFrom), Printed(c.validUntil)]
  }

  function CodeLine(c: CodeArg): string {
    "code " + Join(FieldsOf(c), ' ')
  }

  function CodeLines(codes: seq<CodeArg>): (l: seq<string>)
    ensures |l| == |codes|
    ensures forall k :: 0 <= k < |codes| ==> l[k] == CodeLine(codes[k])
  {
    if codes == [] then [] else CodeLines(codes[..|codes| - 1]) + [CodeLine(codes[|codes| - 1])]
  }

  ghost predicate GoodIds(codes: seq<CodeArg>) {
    forall k :: 0 <= k < |codes| ==> IsBackendId(codes[k].id)
  }

  function SheetOf(generation: int, codes: seq<CodeArg>): Sheet {
    Sheet(Printed(generation), CodeLines(codes))
  }

  /** What the tool writes to stdout for good ids. */
  function BodyOf(gate: string, generation: int, codes: seq<CodeArg>, tag: Tag): string {
    var signed := SignedText(gate, SheetOf(generation, codes));
    signed + "mac " + tag(signed) + "\n"
  }

  /** `main`: the header, a line for each code, the end line, then joined and signed.  A bad id
      stops it with nothing on stdout. */
  method PrintSet(gate: string, generation: int, codes: seq<CodeArg>, tag: Tag) returns (out: Option<string>)
    ensures out.Some? <==> GoodIds(codes)
    ensures out.Some? ==> out.value == BodyOf(gate, generation, codes, tag)
  {
    hide HexOf, Printed, Join, IsBackendId;
    var lines := [VERSION_LINE, "gate " + gate, "gen " + Printed(generation)];
    ghost var head := lines;
    for i := 0 to |codes|
      invariant GoodIds(codes[..i]) && lines == head + CodeLines(codes[..i])
    {
      var c := codes[i];
      if !IsBackendId(c.id) {
        return None;
      }
      assert codes[..i + 1][..i] == codes[..i];
      lines := lines + ["code " + Join([c.id, HexOf(c.digest), Printed(c.validFrom), Printed(c.validUntil)], ' ')];
    }
    assert codes[..|codes|] == codes;
    lines := lines + ["end"];
    assert lines == SheetLines(gate, SheetOf(generation, codes));
    var signed := Join(lines, '\n') + "\n";
    JoinedIsText(lines);
    out := Some(signed + "mac " + tag(signed) + "\n");
  }

  lemma JoinedIsText(lines: seq<string>)
    requires |lines| > 0
    ensures Join(lines, '\n') + "\n" == TextOf(lines)
  {
    hide Join;
    JoinConcat(lines, [""], '\n');
    JoinOne("", '\n');
  }

  // ---- numbers ----

  /** Times the parser takes: nineteen characters with the sign, and 64 bits. */
  predicate TimeFits(n: int) {
    -1_000_000_000_000_000_000 < n <= I64_MAX
  }

  lemma Pow18()
    ensures Pow10(18) == 1_000_000_000_000_000_000
  {
    Pow10Values();
  }

  lemma {:induction false} DecimalIsLong(n: nat, k: nat)
    requires n >= Pow10(k)
    ensures |Decimal(n)| > k
    decreases k
  {
    if k == 0 {
    } else {
      assert n / 10 >= Pow10(k - 1);
      assert n >= 10 by {
        Pow10Grows(1, k);
      }
      DecimalIsLong(n / 10, k - 1);
    }
  }

  /** A printed time is read back exactly when it fits, and is refused otherwise. */
  lemma PrintedTime(n: int)
    ensures I64(Printed(n)) == if TimeFits(n) then Some(n) else None
    ensures TimeFits(n) ==> |Printed(n)| <= 19
    ensures Free(Printed(n), ' ') && Free(Printed(n), '\n')
  {
    hide Value, Pow10, Decimal, AllDigits;
    var m: nat := if n < 0 then -n else n;
    var d := Decimal(m);
    Pow10Values();
    Pow18();
    ValueOfDecimal(m);
    DigitsAreFree(d, ' ');
    DigitsAreFree(d, '\n');
    if n < 0 {
      assert ("-" + d)[1..] == d;
      if m < Pow10(18) {
        DecimalLength(m, 18);
      } else {
        DecimalIsLong(m, 18);
      }
    } else if m < Pow10(19) {
      DecimalLength(m, 19);
    }
  }

  // ---- code lines ----

  ghost predicate GoodWindow(c: CodeArg) {
    TimeFits(c.validFrom) && TimeFits(c.validUntil) && c.validFrom <= c.validUntil
  }

  function EntryFor(c: CodeArg): Entry
    requires IsBackendId(c.id)
  {
    Entry(c.id, c.digest, c.validFrom, c.validUntil)
  }

  lemma IdIsFree(id: string)
    requires IsBackendId(id)
    ensures Free(id, ' ') && Free(id, '\n')
  {
  }

  lemma FieldsAreFree(c: CodeArg)
    requires IsBackendId(c.id)
    ensures forall k :: 0 <= k < 4 ==> Free(FieldsOf(c)[k], ' ') && Free(FieldsOf(c)[k], '\n')
    ensures GoodWindow(c) ==> forall k :: 0 <= k < 4 ==> |FieldsOf(c)[k]| <= 64
  {
    hide Printed, I64, Free, HexOf;
    IdIsFree(c.id);
    HexIsFree(HexOf(c.digest), ' ');
    HexIsFree(HexOf(c.digest), '\n');
    PrintedTime(c.validFrom);
    PrintedTime(c.validUntil);
  }

  /** A printed code line is read back exactly when its window is good, and is refused otherwise. */
  lemma CodeLineIsRead(c: CodeArg)
    requires IsBackendId(c.id)
    ensures "code " <= CodeLine(c)
    ensures EntryOf(CodeLine(c)) == if GoodWindow(c) then Some(EntryFor(c)) else None
  {
    hide Printed, I64, Join, Split, HexOf, TimeFits, IsBackendId;
    var f := FieldsOf(c);
    FieldsAreFree(c);
    SplitJoin(f, ' ');
    assert CodeLine(c)[5..] == Join(f, ' ');
    HexRoundTrip(c.digest);
    PrintedTime(c.validFrom);
    PrintedTime(c.validUntil);
  }

  lemma {:induction false} JoinIsFree(f: seq<string>, sep: char, c: char)
    requires |f| > 0 && sep != c && forall k :: 0 <= k < |f| ==> Free(f[k], c)
    ensures Free(Join(f, sep), c)
  {
    if |f| == 1 {
    } else {
      JoinIsFree(f[1..], sep, c);
    }
  }

  lemma CodeLineShape(c: CodeArg)
    requires IsBackendId(c.id)
    ensures Free(CodeLine(c), '\n')
    ensures GoodWindow(c) ==> |CodeLine(c)| <= 118
  {
    hide Printed, I64, HexOf, Join, Free, IsBackendId;
    var f := FieldsOf(c);
    FieldsAreFree(c);
    JoinIsFree(f, ' ', '\n');
    CodePrefixFree(Join(f, ' '));
    assert f[..2] + f[2..] == f;
    JoinConcat(f[..2], f[2..], ' ');
    assert f[..2] == [c.id] + [HexOf(c.digest)];
    JoinCons(c.id, [HexOf(c.digest)], ' ');
    JoinOne(HexOf(c.digest), ' ');
    assert f[2..] == [Printed(c.validFrom)] + [Printed(c.validUntil)];
    JoinCons(Printed(c.validFrom), [Printed(c.validUntil)], ' ');
    JoinOne(Printed(c.validUntil), ' ');
    PrintedTime(c.validFrom);
    PrintedTime(c.validUntil);
    assert |c.id| == 8 by {
      BackendIdLength(c.id);
    }
  }

  lemma BackendIdLength(id: string)
    requires IsBackendId(id)
    ensures |id| == 8
  {
  }

  lemma CodePrefixFree(s: string)
    requires Free(s, '\n')
    ensures Free("code " + s, '\n')
  {
  }

  // ---- the whole body ----

  /** A gate id as the firmware is configured with: short, and on one line. */
  predicate GoodGate(gate: string) {
    |gate| <= 32 && Free(gate, '\n')
  }

  lemma SheetIsLineFree(gate: string, generation: int, codes: seq<CodeArg>)
    requires GoodGate(gate) && GoodIds(codes)
    ensures LineFree(SheetLines(gate, SheetOf(generation, codes)))
  {
    hide Printed, CodeLine;
    var lines := SheetLines(gate, SheetOf(generation, codes));
    PrintedTime(generation);
    assert Free("gate " + gate, '\n') && Free("gen " + Printed(generation), '\n');
    forall k | 0 <= k < |lines|
      ensures Free(lines[k], '\n')
    {
      if 3 <= k < |lines| - 1 {
        CodeLineShape(codes[k - 3]);
        assert lines[k] == CodeLine(codes[k - 3]);
      }
    }
  }

  ghost predicate GoodSet(generation: int, codes: seq<CodeArg>) {
    && 0 <= generation <= I64_MAX && |codes| <= MAX_ENTRIES
    && forall k :: 0 <= k < |codes| ==> GoodWindow(codes[k])
  }

  lemma LineIsShort(gate: string, generation: int, codes: seq<CodeArg>, k: nat)
    requires GoodGate(gate) && GoodIds(codes) && GoodSet(generation, codes)
    requires k < |SheetLines(gate, SheetOf(generation, codes))|
    ensures |SheetLines(gate, SheetOf(generation, codes))[k]| <= 118
  {
    hide Printed, CodeLine, Join;
    PrintedTime(generation);
    if 3 <= k < |codes| + 3 {
      CodeLineShape(codes[k - 3]);
    }
  }

  lemma BodyFits(gate: string, generation: int, codes: seq<CodeArg>, tag: Tag)
    requires GoodGate(gate) && GoodIds(codes) && GoodSet(generation, codes)
    ensures |BodyOf(gate, generation, codes, tag)| <= BODY_MAX
  {
    hide Printed, CodeLine, Join, SheetLines, CodeLines;
    var lines := SheetLines(gate, SheetOf(generation, codes));
    forall k | 0 <= k < |lines + [""]|
      ensures |(lines + [""])[k]| <= 118
    {
      if k < |lines| {
        LineIsShort(gate, generation, codes, k);
      }
    }
    JoinLength(lines + [""], '\n', 118);
  }

  function SetOf(generation: u64, codes: seq<CodeArg>): (s: CodeSet)
    requires forall k :: 0 <= k < |codes| ==> IsBackendId(codes[k].id)
    ensures |s.entries| == |codes|
    ensures forall k :: 0 <= k < |codes| ==> s.entries[k] == EntryFor(codes[k])
  {
    CodeSet(generation, seq(|codes|, k requires 0 <= k < |codes| => EntryFor(codes[k])))
  }

  lemma GenerationIsRead(n: int)
    ensures GenerationOf(Printed(n)) == if 0 <= n <= I64_MAX then Some(n) else None
  {
    hide Printed, I64;
    PrintedTime(n);
  }

  lemma GoodSheetSays(generation: int, codes: seq<CodeArg>)
    requires GoodIds(codes) && GoodSet(generation, codes)
    ensures Says(SheetOf(generation, codes), SetOf(generation, codes))
  {
    hide Printed, EntryOf, CodeLine;
    GenerationIsRead(generation);
    forall k | 0 <= k < |codes|
      ensures "code " <= CodeLine(codes[k]) && EntryOf(CodeLine(codes[k])) == Some(EntryFor(codes[k]))
    {
      CodeLineIsRead(codes[k]);
    }
  }

  /** If the lines of a printed sheet are read as any set at all, everything in it was good. */
  lemma ReadMeansGood(gate: string, generation: int, codes: seq<CodeArg>, got: CodeSet)
    requires GoodIds(codes)
    requires FromLines(SheetLines(gate, SheetOf(generation, codes)), gate) == Ok(got)
    ensures GoodSet(generation, codes)
  {
    hide Printed, EntryOf, CodeLine, I64;
    var lines := SheetLines(gate, SheetOf(generation, codes));
    GenerationIsRead(generation);
    assert lines[2][4..] == Printed(generation);
    forall k | 3 <= k < 3 + |codes|
      ensures lines[k] == CodeLine(codes[k - 3]) && lines[k] != "end"
    {
      CodeLineIsRead(codes[k - 3]);
      assert lines[k][0] == "code "[0];
    }
    var e := CodesAccepted(lines, 3, generation, [], got);
    assert e == 3 + |codes|;
    forall k | 0 <= k < |codes|
      ensures GoodWindow(codes[k])
    {
      CodeLineIsRead(codes[k]);
      assert EntryOf(lines[k + 3]).Some?;
    }
  }

  /** The round trip.  For a gate id on one line of at most 32 characters and backend ids, the body
      the tool prints is accepted as exactly that generation and those entries in order, if and only
      if the generation is in 0..INT64_MAX, there are at most eight codes, and every window is
      upright with times that fit. */
  lemma SetRoundTrip(gate: string, generation: int, codes: seq<CodeArg>, tag: Tag)
    requires GoodGate(gate) && GoodIds(codes)
    ensures var r := Parse(BodyOf(gate, generation, codes, tag), gate, s => Some(tag(s)));
            if GoodSet(generation, codes) then r == Ok(SetOf(generation, codes)) else r.Err?
  {
    hide Printed, CodeLine, SignedText, FromLines, GoodSet, Says;
    var t, mac := SheetOf(generation, codes), (s: string) => Some(tag(s));
    var body := BodyOf(gate, generation, codes, tag);
    SheetIsLineFree(gate, generation, codes);
    forall k | 0 <= k < |t.codes|
      ensures "code " <= t.codes[k]
    {
      CodeLineIsRead(codes[k]);
    }
    if GoodSet(generation, codes) {
      BodyFits(gate, generation, codes, tag);
      assert SignedBody(body, gate, mac, t, "\n");
      SignedIsRead(body, gate, mac, t, "\n");
      GoodSheetSays(generation, codes);
      SheetIsRead(gate, t, SetOf(generation, codes));
    } else if |body| <= BODY_MAX {
      assert SignedBody(body, gate, mac, t, "\n");
      SignedIsRead(body, gate, mac, t, "\n");
      var r := FromLines(SheetLines(gate, t), gate);
      if r.Ok? {
        ReadMeansGood(gate, generation, codes, r.codes);
      }
    }
  }
}
