/** Which refusal a signed set gets: what is wrong first decides, and nothing unsigned is looked into. */
module SyncRefusals {
  import opened Bytes
  import opened SyncLogic
  import opened Text
  import opened SyncParse
  import opened SyncSoundness

  predicate RightSize(body: string) {
    1 <= |body| <= 2048
  }

  /** The first end marker stands at `m`. */
  ghost predicate FirstMarker(body: string, m: nat) {
    MarkerAt(body, m) && forall k: nat :: k < m ==> !MarkerAt(body, k)
  }

  lemma MarkerFound(body: string)
    ensures MarkerFrom(body, 0) < 0 <==> forall k: nat :: !MarkerAt(body, k)
    ensures MarkerFrom(body, 0) >= 0 ==> FirstMarker(body, MarkerFrom(body, 0))
    ensures forall m: nat :: FirstMarker(body, m) ==> m == MarkerFrom(body, 0)
  {
    hide MarkerAt;
    var f := MarkerFrom(body, 0);
    assert f >= 0 ==> MarkerAt(body, f);
  }

  /** The text up to the marker is signed, and nothing but line ends follows its MAC. */
  ghost predicate Authentic(body: string, m: nat, mac: Mac)
    requires m + 5 <= |body|
  {
    && mac(body[..m + 5]).Some?
    && exists trail: string :: OnlyLineEnds(trail)
         && body[m + 5..] == "mac " + mac(body[..m + 5]).value + trail
  }

  lemma AuthenticParts(body: string, m: nat, mac: Mac)
    requires m + 5 <= |body|
    ensures Authentic(body, m, mac) <==>
            && mac(body[..m + 5]).Some?
            && "mac " <= body[m + 5..] && Stripped(body[m + 5..][4..]) == mac(body[..m + 5]).value
  {
    hide Stripped, OnlyLineEnds;
    var rest := body[m + 5..];
    if mac(body[..m + 5]).Some? {
      var tag := mac(body[..m + 5]).value;
      if "mac " <= rest && Stripped(rest[4..]) == tag {
        var trail := StripIs(rest[4..]);
        assert rest == "mac " + tag + trail;
      }
      forall trail: string | OnlyLineEnds(trail) && rest == "mac " + tag + trail
        ensures "mac " <= rest && Stripped(rest[4..]) == tag
      {
        assert rest[4..] == tag + trail;
        StripsTo(tag, trail);
      }
    }
  }

  /** The entry a line stands for, if it is a good code line. */
  function EntryOfLine(line: string): Option<Entry> {
    if "code " <= line then EntryOf(line) else None
  }

  /** The errors that only a look into the lines can give. */
  lemma {:induction false} CodesNeverBlameTheMac(lines: seq<string>, i: nat, g: u64, got: seq<Entry>)
    requires i <= |lines|
    ensures CodesFrom(lines, i, g, got).Err? ==>
              CodesFrom(lines, i, g, got).error in {Format, Truncated, TooMany, BadLine}
    decreases |lines| - i
  {
    hide EntryOf;
    if i < |lines| && EntryOfLine(lines[i]).Some? {
      CodesNeverBlameTheMac(lines, i + 1, g, got + [EntryOfLine(lines[i]).value]);
    }
  }

  lemma LinesNeverBlameTheMac(lines: seq<string>, gate: string)
    ensures FromLines(lines, gate) != Err(BadMac)
  {
    hide EntryOf, I64, CodesFrom;
    if |lines| >= 3 && "gen " <= lines[2] && GenerationOf(lines[2][4..]).Some? {
      CodesNeverBlameTheMac(lines, 3, GenerationOf(lines[2][4..]).value, []);
    }
  }

  /** "Truncated" is answered exactly when a body of the right size holds no end marker. */
  lemma TruncatedExactly(body: string, gate: string, mac: Mac)
    ensures Parse(body, gate, mac) == Err(Truncated) <==> RightSize(body) && forall k: nat :: !MarkerAt(body, k)
  {
    hide LinesOf, Stripped, FromLines, MarkerAt;
    MarkerFound(body);
    if Parse(body, gate, mac) == Err(Truncated) {
      TruncatedMeansNoMarker(body, gate, mac);
    }
  }

  /** "Bad MAC" exactly when the text up to the first marker cannot be signed, or what stands after
      the word "mac" is not its MAC and line ends. */
  lemma BadMacExactly(body: string, gate: string, mac: Mac)
    ensures Parse(body, gate, mac) == Err(BadMac) <==>
            && RightSize(body)
            && exists m: nat :: FirstMarker(body, m) && !Authentic(body, m, mac)
                 && (mac(body[..m + 5]).None? || "mac " <= body[m + 5..])
  {
    hide LinesOf, Stripped, FromLines, FirstMarker, Authentic;
    MarkerFound(body);
    var f := MarkerFrom(body, 0);
    if 0 <= f {
      AuthenticParts(body, f, mac);
      LinesNeverBlameTheMac(LinesOf(body[..f + 5]), gate);
      assert FirstMarker(body, f);
    }
  }

  /** Only a body that is authentic is looked into: any answer but "format", "truncated" and "bad MAC"
      comes from the lines of its signed text, and from nothing else. */
  lemma OnlyAuthenticIsRead(body: string, gate: string, mac: Mac)
    ensures RightSize(body) && MarkerFrom(body, 0) >= 0 && Authentic(body, MarkerFrom(body, 0), mac) ==>
              Parse(body, gate, mac) == FromLines(LinesOf(body[..MarkerFrom(body, 0) + 5]), gate)
    ensures !(RightSize(body) && MarkerFrom(body, 0) >= 0 && Authentic(body, MarkerFrom(body, 0), mac)) ==>
              Parse(body, gate, mac) in {Err(Format), Err(Truncated), Err(BadMac)}
  {
    hide LinesOf, Stripped, FromLines, Authentic;
    var f := MarkerFrom(body, 0);
    if 0 <= f {
      AuthenticParts(body, f, mac);
    }
  }

  /** What the three header lines are refused for. */
  lemma HeaderRefusals(lines: seq<string>, gate: string)
    ensures FromLines(lines, gate) == Err(Version) <==>
            exists v: string :: |lines| > 0 && lines[0] == "portao-sync " + v && v != "v1"
    ensures FromLines(lines, gate) == Err(WrongGate) <==>
            exists g: string :: |lines| > 1 && lines[0] == "portao-sync v1" && lines[1] == "gate " + g && g != gate
  {
    hide EntryOf, I64, CodesFrom;
    if |lines| >= 3 && "gen " <= lines[2] && GenerationOf(lines[2][4..]).Some? {
      CodesNeverBlameTheMac(lines, 3, GenerationOf(lines[2][4..]).value, []);
    }
    if |lines| > 0 && "portao-sync " <= lines[0] {
      assert lines[0] == "portao-sync " + lines[0][12..];
      assert VERSION_LINE == "portao-sync " + "v1";
      assert VERSION_LINE[12..] == "v1";
    }
    if |lines| > 1 && "gate " <= lines[1] {
      assert lines[1] == "gate " + lines[1][5..];
    }
    forall v: string | |lines| > 0 && lines[0] == "portao-sync " + v
      ensures lines[0][12..] == v && "portao-sync " <= lines[0]
    {
    }
    forall g: string | |lines| > 1 && lines[1] == "gate " + g
      ensures lines[1][5..] == g && "gate " <= lines[1]
    {
    }
  }

  /** The first `n` lines after the header are good code lines. */
  ghost predicate GoodCodes(lines: seq<string>, n: nat) {
    n + 3 <= |lines| && forall k :: 3 <= k < 3 + n ==> EntryOfLine(lines[k]).Some? && lines[k] != "end"
  }

  lemma {:induction false} CodesFromOdd(lines: seq<string>, g: u64, n: nat, i: nat, got: seq<Entry>)
    requires GoodCodes(lines, n) && n <= 8 && i <= n && |got| == i
    ensures exists all: seq<Entry> :: |all| == n && CodesFrom(lines, i + 3, g, got) == CodesFrom(lines, n + 3, g, all)
    decreases n - i
  {
    hide EntryOf;
    if i < n {
      assert EntryOfLine(lines[i + 3]).Some?;
      CodesFromOdd(lines, g, n, i + 1, got + [EntryOfLine(lines[i + 3]).value]);
    }
  }

  /** After a good header and some good code lines, at most eight, the next line decides: an end line
      closes the set, anything but a code line is a format error, a ninth code line is one too many,
      and a code line that is not good is a bad one. */
  lemma FirstOddLineDecides(lines: seq<string>, gate: string, g: u64, n: nat)
    requires GoodCodes(lines, n) && n <= 8 && n + 3 < |lines|
    requires lines[0] == "portao-sync v1" && lines[1] == "gate " + gate
    requires "gen " <= lines[2] && GenerationOf(lines[2][4..]) == Some(g)
    requires n == 8 || EntryOfLine(lines[n + 3]).None? || lines[n + 3] == "end"
    ensures var r, line := FromLines(lines, gate), lines[n + 3];
            && (line == "end" <==> r.Ok?)
            && (line == "end" ==> r.codes.generation == g && |r.codes.entries| == n)
            && (r == Err(Format) <==> line != "end" && !("code " <= line))
            && (r == Err(TooMany) <==> line != "end" && "code " <= line && n == 8)
            && (r == Err(BadLine) <==> line != "end" && "code " <= line && n < 8)
  {
    hide EntryOf, I64;
    CodesFromOdd(lines, g, n, 0, []);
    assert lines[1][5..] == gate;
    var all: seq<Entry> :| |all| == n && CodesFrom(lines, 3, g, []) == CodesFrom(lines, n + 3, g, all);
  }
}
