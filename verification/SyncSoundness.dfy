/** Exactly which bodies `sync_parse` accepts, and the round trip with the tool that prints them. */
module SyncSoundness {
  import opened Bytes
  import opened AccessCore
  import opened SyncLogic
  import opened Text
  import opened SyncParse

  /** A set as it appears in a body: the generation's digits and the code lines. */
  datatype Sheet = Sheet(generation: string, codes: seq<string>)

  /** The lines of the signed region. */
  function SheetLines(gate: string, t: Sheet): (l: seq<string>)
    ensures |l| == |t.codes| + 4
  {
    [VERSION_LINE, "gate " + gate, "gen " + t.generation] + t.codes + ["end"]
  }

  /** Lines as text, each ended by a newline. */
  function TextOf(lines: seq<string>): string {
    Join(lines + [""], '\n')
  }

  function SignedText(gate: string, t: Sheet): string {
    TextOf(SheetLines(gate, t))
  }

  ghost predicate LineFree(lines: seq<string>) {
    forall k :: 0 <= k < |lines| ==> Free(lines[k], '\n')
  }

  /** The sheet says exactly `codes`: a generation and at most eight valid code lines, in order. */
  ghost predicate Says(t: Sheet, codes: CodeSet) {
    && GenerationOf(t.generation) == Some(codes.generation)
    && |t.codes| == |codes.entries| <= MAX_ENTRIES
    && forall k :: 0 <= k < |t.codes| ==> "code " <= t.codes[k] && EntryOf(t.codes[k]) == Some(codes.entries[k])
  }

  /** Only line ends follow the MAC. */
  predicate OnlyLineEnds(s: string) {
    forall k :: 0 <= k < |s| ==> IsLineEnd(s[k])
  }

  /** The body is a signed sheet for this gate, the MAC of exactly that text, and line ends. */
  ghost predicate SignedBody(body: string, gate: string, mac: Mac, t: Sheet, trail: string) {
    var signed := SignedText(gate, t);
    && LineFree(SheetLines(gate, t))
    && mac(signed).Some? && OnlyLineEnds(trail)
    && body == signed + "mac " + mac(signed).value + trail
    && |body| <= BODY_MAX
  }

  // ---- lines and text ----

  lemma TextSplits(lines: seq<string>)
    requires LineFree(lines)
    ensures Split(TextOf(lines), '\n') == lines + [""]
    ensures LinesOf(TextOf(lines)) == lines
  {
    hide Split, Join;
    assert Free("", '\n');
    SplitJoin(lines + [""], '\n');
    assert (lines + [""])[..|lines|] == lines;
  }

  /** A text that ends in a newline is its lines. */
  lemma TextOfLines(s: string)
    requires s != "" && s[|s| - 1] == '\n'
    ensures TextOf(LinesOf(s)) == s && LineFree(LinesOf(s))
  {
    hide Split, Join;
    var front := s[..|s| - 1];
    assert s == front + "\n" + "";
    SplitConcat(front, "", '\n');
    SplitEmpty('\n');
    JoinSplit(s, '\n');
    SplitIsFree(s, '\n');
    var f := Split(s, '\n');
    assert f == f[..|f| - 1] + [""];
  }

  lemma SplitEmpty(sep: char)
    ensures Split("", sep) == [""]
  {
  }

  lemma TextEnds(lines: seq<string>)
    requires |lines| >= 2 && lines[|lines| - 1] == "end"
    ensures var s := TextOf(lines); |s| >= 5 && s[|s| - 5..] == END_MARKER
  {
    hide Join;
    var head := lines[..|lines| - 1];
    assert lines + [""] == head + (["end"] + [""]);
    JoinConcat(head, ["end"] + [""], '\n');
    JoinCons("end", [""], '\n');
    JoinOne("", '\n');
    assert TextOf(lines) == Join(head, '\n') + "\n" + ("end" + "\n" + "");
    assert "\n" + ("end" + "\n" + "") == END_MARKER;
  }

  /** A marker in a text is a line that says "end" and is not the first. */
  lemma MarkerIsEndLine(lines: seq<string>, k: nat) returns (i: nat)
    requires LineFree(lines) && MarkerAt(TextOf(lines), k)
    ensures 1 <= i < |lines| && lines[i] == "end"
    ensures k + 5 < |TextOf(lines)| ==> i < |lines| - 1
  {
    hide Split, Join;
    var s := TextOf(lines);
    var a, b := s[..k], s[k + 5..];
    TextSplits(lines);
    assert s == a + "\n" + ("end" + "\n" + b) by {
      assert s == a + s[k..k + 5] + b;
    }
    SplitConcat(a, "end" + "\n" + b, '\n');
    SplitConcat("end", b, '\n');
    SplitEnd();
    i := |Split(a, '\n')|;
    assert (lines + [""])[i] == "end";
    if k + 5 < |s| {
      if i == |lines| - 1 {
        assert |Split(b, '\n')| == 1;
        assert (lines + [""])[i + 1] == Split(b, '\n')[0] == "";
        JoinSplit(b, '\n');
        assert Split(b, '\n') == [""];
        JoinOne("", '\n');
        assert false;
      }
    }
  }

  lemma SplitEnd()
    ensures Split("end", '\n') == ["end"]
  {
    CutIs("end", '\n', 0, 3);
    assert "end"[0..] == "end";
  }

  /** A line that says "end" and is not the first puts a marker in the text. */
  lemma EndLineIsMarker(lines: seq<string>, i: nat)
    requires 1 <= i < |lines| && lines[i] == "end"
    ensures var k := |Join(lines[..i], '\n')|;
            MarkerAt(TextOf(lines), k) && (i < |lines| - 1 ==> k + 5 < |TextOf(lines)|)
  {
    hide Join;
    var head, rest := lines[..i], lines[i + 1..] + [""];
    assert lines + [""] == head + (["end"] + rest);
    JoinConcat(head, ["end"] + rest, '\n');
    JoinCons("end", rest, '\n');
    var s, k := TextOf(lines), |Join(head, '\n')|;
    assert s == Join(head, '\n') + "\n" + ("end" + "\n" + Join(rest, '\n'));
    assert s[k..k + 5] == END_MARKER;
    if i < |lines| - 1 {
      assert rest == [lines[i + 1]] + (lines[i + 2..] + [""]);
      JoinCons(lines[i + 1], lines[i + 2..] + [""], '\n');
    }
  }

  // ---- the trail ----

  lemma {:induction false} StripIs(s: string) returns (trail: string)
    ensures s == Stripped(s) + trail && OnlyLineEnds(trail)
  {
    if |s| > 0 && IsLineEnd(s[|s| - 1]) {
      var front := s[..|s| - 1];
      var t := StripIs(front);
      trail := t + [s[|s| - 1]];
      assert s == front + [s[|s| - 1]];
    } else {
      trail := "";
    }
  }

  lemma {:induction false} StripsTo(tag: MacHex, trail: string)
    requires OnlyLineEnds(trail)
    ensures Stripped(tag + trail) == tag
  {
    var s := tag + trail;
    if trail == "" {
      assert s == tag;
    } else {
      var n := |trail| - 1;
      assert s[..|s| - 1] == tag + trail[..n];
      StripsTo(tag, trail[..n]);
    }
  }

  // ---- the code lines ----

  /** From line `i` on, the code lines of a sheet give the rest of its entries. */
  lemma {:induction false} CodesRead(lines: seq<string>, i: nat, g: u64, all: seq<Entry>)
    requires 3 <= i <= 3 + |all| && |lines| == |all| + 4 && lines[|lines| - 1] == "end" && |all| <= MAX_ENTRIES
    requires forall k :: 3 <= k < 3 + |all| ==> "code " <= lines[k] && EntryOf(lines[k]) == Some(all[k - 3])
    ensures CodesFrom(lines, i, g, all[..i - 3]) == Ok(CodeSet(g, all))
    decreases |lines| - i
  {
    hide EntryOf;
    if i == 3 + |all| {
      assert all[..|all|] == all;
    } else {
      assert lines[i][0] == "code "[0];
      CodesRead(lines, i + 1, g, all);
      assert all[..i - 3] + [all[i - 3]] == all[..i + 1 - 3];
    }
  }

  /** An accepted run of code lines: where the end line is, and what each line gave. */
  lemma {:induction false} CodesAccepted(lines: seq<string>, i: nat, g: u64, got: seq<Entry>, codes: CodeSet)
    returns (e: nat)
    requires i <= |lines| && |got| <= MAX_ENTRIES
    requires CodesFrom(lines, i, g, got) == Ok(codes)
    ensures i <= e < |lines| && lines[e] == "end"
    ensures codes.generation == g && got <= codes.entries && |codes.entries| == |got| + (e - i) <= MAX_ENTRIES
    ensures forall k :: i <= k < e ==> "code " <= lines[k] && EntryOf(lines[k]) == Some(codes.entries[|got| + k - i])
    decreases |lines| - i
  {
    hide EntryOf;
    if lines[i] == "end" {
      e := i;
    } else {
      var x := EntryOf(lines[i]).value;
      e := CodesAccepted(lines, i + 1, g, got + [x], codes);
      assert codes.entries[|got|] == (got + [x])[|got|] == x;
      assert got <= got + [x];
    }
  }

  /** With an end line in front of it, the loop never runs off the end. */
  lemma {:induction false} NeverRunsOff(lines: seq<string>, i: nat, g: u64, got: seq<Entry>)
    requires i < |lines| && lines[|lines| - 1] == "end"
    ensures CodesFrom(lines, i, g, got) != Err(Truncated)
    decreases |lines| - i
  {
    hide EntryOf;
    if lines[i] != "end" && "code " <= lines[i] && EntryOf(lines[i]).Some? {
      NeverRunsOff(lines, i + 1, g, got + [EntryOf(lines[i]).value]);
    }
  }

  // ---- what the region found by the marker looks like ----

  /** The region up to the first marker ends in the only "end" line that is not its first line. */
  lemma RegionShape(body: string)
    requires MarkerFrom(body, 0) >= 0
    ensures var signed := body[..MarkerFrom(body, 0) + 5];
            var lines := LinesOf(signed);
            && TextOf(lines) == signed && LineFree(lines)
            && |lines| >= 2 && lines[|lines| - 1] == "end"
            && forall i :: 1 <= i < |lines| - 1 ==> lines[i] != "end"
  {
    hide LinesOf, TextOf, Join;
    var m := MarkerFrom(body, 0);
    var signed := body[..m + 5];
    assert signed[m..m + 5] == body[m..m + 5] == END_MARKER;
    assert signed[|signed| - 1] == END_MARKER[4];
    TextOfLines(signed);
    var lines := LinesOf(signed);
    LastIsEnd(signed, m);
    forall i | 1 <= i < |lines| - 1
      ensures lines[i] != "end"
    {
      if lines[i] == "end" {
        EndLineIsMarker(lines, i);
        var k := |Join(lines[..i], '\n')|;
        MarkerInPrefix(body, m + 5, k);
        assert false;
      }
    }
  }

  lemma MarkerInPrefix(s: string, n: nat, k: nat)
    requires n <= |s| && MarkerAt(s[..n], k)
    ensures MarkerAt(s, k)
  {
    assert s[..n][k..k + 5] == s[k..k + 5];
  }

  lemma LastIsEnd(signed: string, m: nat)
    requires |signed| == m + 5 && MarkerAt(signed, m)
    ensures var lines := LinesOf(signed); |lines| >= 2 && lines[|lines| - 1] == "end"
  {
    hide Split;
    var a := signed[..m];
    assert signed == a + "\n" + ("end" + "\n" + "") by {
      assert signed == a + signed[m..m + 5];
    }
    SplitConcat(a, "end" + "\n" + "", '\n');
    SplitConcat("end", "", '\n');
    SplitEnd();
    SplitEmpty('\n');
    var f := Split(signed, '\n');
    assert f == Split(a, '\n') + (["end"] + [""]);
  }

  /** The last return of `sync_parse` cannot be reached: "truncated" always means there was no end marker. */
  lemma TruncatedMeansNoMarker(body: string, gate: string, mac: Mac)
    requires Parse(body, gate, mac) == Err(Truncated)
    ensures MarkerFrom(body, 0) < 0
  {
    hide LinesOf, Stripped, EntryOf;
    if MarkerFrom(body, 0) >= 0 {
      RegionShape(body);
      var lines := LinesOf(body[..MarkerFrom(body, 0) + 5]);
      assert |lines| >= 3 && lines[2][..4] == "gen ";
      assert lines[2] != "end";
      NeverRunsOff(lines, 3, GenerationOf(lines[2][4..]).value, []);
      assert false;
    }
  }

  // ---- soundness and completeness ----

  /** Lines that are read as a set are the lines of a sheet that says it. */
  lemma LinesSay(lines: seq<string>, gate: string, codes: CodeSet) returns (t: Sheet)
    requires FromLines(lines, gate) == Ok(codes)
    requires |lines| >= 2 && lines[|lines| - 1] == "end"
    requires forall i :: 1 <= i < |lines| - 1 ==> lines[i] != "end"
    ensures lines == SheetLines(gate, t) && Says(t, codes)
  {
    hide EntryOf, I64;
    assert lines[2] != "end" by {
      assert lines[2][0] == "gen "[0];
    }
    var g := GenerationOf(lines[2][4..]).value;
    var e := CodesAccepted(lines, 3, g, [], codes);
    assert e == |lines| - 1;
    t := Sheet(lines[2][4..], lines[3..e]);
    HeaderSplits(lines, gate);
  }

  lemma PartsOfAccepted(body: string, gate: string, mac: Mac, codes: CodeSet) returns (m: nat)
    requires Parse(body, gate, mac) == Ok(codes)
    ensures m == MarkerFrom(body, 0) && m + 5 <= |body| <= BODY_MAX
    ensures var signed, rest := body[..m + 5], body[m + 5..];
            && mac(signed).Some? && "mac " <= rest && Stripped(rest[4..]) == mac(signed).value
            && FromLines(LinesOf(signed), gate) == Ok(codes)
  {
    hide LinesOf, Stripped, FromLines;
    m := MarkerFrom(body, 0);
  }

  lemma AcceptedIsSigned(body: string, gate: string, mac: Mac, codes: CodeSet) returns (t: Sheet, trail: string)
    requires Parse(body, gate, mac) == Ok(codes)
    ensures SignedBody(body, gate, mac, t, trail) && Says(t, codes)
  {
    hide LinesOf, Stripped, FromLines, TextOf, Says, SheetLines, MarkerFrom, LineFree, OnlyLineEnds, Parse;
    var m := PartsOfAccepted(body, gate, mac, codes);
    RegionShape(body);
    var signed, rest := body[..m + 5], body[m + 5..];
    trail := StripIs(rest[4..]);
    t := LinesSay(LinesOf(signed), gate, codes);
    assert rest == "mac " + rest[4..];
    assert body == signed + rest;
  }

  lemma HeaderSplits(lines: seq<string>, gate: string)
    requires |lines| >= 4 && lines[|lines| - 1] == "end"
    requires lines[0] == VERSION_LINE && "gate " <= lines[1] && lines[1][5..] == gate && "gen " <= lines[2]
    ensures lines == SheetLines(gate, Sheet(lines[2][4..], lines[3..|lines| - 1]))
  {
    assert lines[1] == "gate " + lines[1][5..];
    assert lines[2] == "gen " + lines[2][4..];
  }

  lemma SheetIsRead(gate: string, t: Sheet, codes: CodeSet)
    requires Says(t, codes)
    ensures FromLines(SheetLines(gate, t), gate) == Ok(codes)
  {
    hide EntryOf, I64;
    var lines := SheetLines(gate, t);
    assert lines[1][5..] == gate && lines[2][4..] == t.generation;
    forall k | 3 <= k < 3 + |codes.entries|
      ensures "code " <= lines[k] && EntryOf(lines[k]) == Some(codes.entries[k - 3])
    {
      assert lines[k] == t.codes[k - 3];
    }
    CodesRead(lines, 3, codes.generation, codes.entries);
    assert codes.entries[..0] == [];
  }

  lemma PartsAreRead(signed: string, rest: string, gate: string, mac: Mac)
    requires |signed| >= 5 && |signed + rest| <= BODY_MAX && MarkerFrom(signed + rest, 0) == |signed| - 5
    requires mac(signed).Some? && "mac " <= rest && Stripped(rest[4..]) == mac(signed).value
    ensures Parse(signed + rest, gate, mac) == FromLines(LinesOf(signed), gate)
  {
    hide LinesOf, Stripped, FromLines, MarkerFrom;
    assert (signed + rest)[..|signed|] == signed && (signed + rest)[|signed|..] == rest;
  }

  /** An authenticated body is read line by line, whatever its lines say. */
  lemma SignedIsRead(body: string, gate: string, mac: Mac, t: Sheet, trail: string)
    requires SignedBody(body, gate, mac, t, trail)
    requires forall k :: 0 <= k < |t.codes| ==> "code " <= t.codes[k]
    ensures Parse(body, gate, mac) == FromLines(SheetLines(gate, t), gate)
  {
    hide LinesOf, Stripped, TextOf, FromLines, SheetLines, Parse, MarkerFrom;
    var lines := SheetLines(gate, t);
    var signed := SignedText(gate, t);
    var tag := mac(signed).value;
    var rest := "mac " + tag + trail;
    TextSplits(lines);
    FirstMarkerIsLast(gate, t, rest);
    assert body == signed + rest && rest[4..] == tag + trail;
    StripsTo(tag, trail);
    PartsAreRead(signed, rest, gate, mac);
  }

  lemma SignedIsAccepted(body: string, gate: string, mac: Mac, codes: CodeSet, t: Sheet, trail: string)
    requires SignedBody(body, gate, mac, t, trail) && Says(t, codes)
    ensures Parse(body, gate, mac) == Ok(codes)
  {
    hide Parse, SignedBody, FromLines, EntryOf, I64;
    SignedIsRead(body, gate, mac, t, trail);
    SheetIsRead(gate, t, codes);
  }

  /** In a signed text the first marker is the one at its end, whatever follows. */
  lemma FirstMarkerIsLast(gate: string, t: Sheet, after: string)
    requires LineFree(SheetLines(gate, t))
    requires forall k :: 0 <= k < |t.codes| ==> "code " <= t.codes[k]
    ensures var signed := SignedText(gate, t);
            |signed| >= 5 && MarkerFrom(signed + after, 0) == |signed| - 5
  {
    hide TextOf;
    var lines := SheetLines(gate, t);
    var signed := SignedText(gate, t);
    TextEnds(lines);
    var body := signed + after;
    var m := MarkerFrom(body, 0);
    assert body[|signed| - 5..|signed|] == signed[|signed| - 5..];
    assert MarkerAt(body, |signed| - 5);
    if m < |signed| - 5 {
      assert signed[m..m + 5] == body[m..m + 5];
      var i := MarkerIsEndLine(lines, m);
      NoEarlyEnd(gate, t, i);
      assert false;
    }
  }

  lemma NoEarlyEnd(gate: string, t: Sheet, i: nat)
    requires forall k :: 0 <= k < |t.codes| ==> "code " <= t.codes[k]
    requires i < |SheetLines(gate, t)| - 1
    ensures SheetLines(gate, t)[i] != "end"
  {
    var l := SheetLines(gate, t);
    if i < 3 {
      assert l[0][0] == 'p' && l[1][0] == 'g' && l[2][0] == 'g';
    } else {
      assert l[i] == t.codes[i - 3];
      assert l[i][0] == 'c';
    }
  }

  /** A body is accepted as a set exactly when it is a signed sheet saying that set: version line,
      this gate's line, generation line, at most eight valid code lines in order, end line, the MAC
      of everything before it, and nothing but line ends after. */
  lemma AcceptedExactly(body: string, gate: string, mac: Mac, codes: CodeSet)
    ensures Parse(body, gate, mac) == Ok(codes) <==>
            exists t: Sheet, trail: string :: SignedBody(body, gate, mac, t, trail) && Says(t, codes)
  {
    hide Parse, SignedBody, Says;
    if Parse(body, gate, mac) == Ok(codes) {
      var t, trail := AcceptedIsSigned(body, gate, mac, codes);
    }
    forall t: Sheet, trail: string | SignedBody(body, gate, mac, t, trail) && Says(t, codes)
      ensures Parse(body, gate, mac) == Ok(codes)
    {
      SignedIsAccepted(body, gate, mac, codes, t, trail);
    }
  }
}
