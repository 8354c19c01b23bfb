/** Reading and authenticating a signed code set. */
module SyncParse {
  import opened Bytes
  import opened AccessCore
  import opened SyncLogic
  import opened Text

  const BODY_MAX := 2048
  const VERSION_LINE := "portao-sync v1"
  const END_MARKER := "\nend\n"

  datatype Error = Format | Version | WrongGate | BadMac | Truncated | BadLine | TooMany

  datatype Parsed = Ok(codes: CodeSet) | Err(error: Error)

  // ---- numbers ----

  /** `parse_i64`: at most nineteen characters, an optional sign, digits, no overflow. */
  function I64(s: string): (r: Option<int>)
    ensures r.Some? ==> -I64_MAX <= r.value <= I64_MAX
  {
    var digits := if |s| > 0 && s[0] == '-' then s[1..] else s;
    if |s| > 19 || digits == "" || !AllDigits(digits) || Value(digits) > I64_MAX then None
    else
      var v: int := Value(digits);
      Some(if s[0] == '-' then -v else v)
  }

  method ParseI64(s: string) returns (out: Option<int>)
    ensures out == I64(s)
  {
    hide AllDigits, Value;
    if |s| == 0 || |s| > 19 {
      return None;
    }
    var negative := s[0] == '-';
    var digits := if negative then s[1..] else s;
    if digits == "" {
      return None;
    }
    EmptyValue();
    assert digits[..0] == "";
    var v: int := 0;
    for i := 0 to |digits|
      invariant AllDigits(digits[..i]) && v == Value(digits[..i]) <= I64_MAX
    {
      if !IsDigit(digits[i]) {
        NotAllDigits(digits, i);
        return None;
      }
      var d := DigitValue(digits[i]);
      DigitAdds(digits, i);
      if v > (I64_MAX - d) / 10 {
        PrefixTooBig(digits, i + 1);
        return None;
      }
      v := v * 10 + d;
    }
    assert digits[..|digits|] == digits;
    out := Some(if negative then -v else v);
  }

  lemma NotAllDigits(s: string, i: nat)
    requires i < |s| && !IsDigit(s[i])
    ensures !AllDigits(s)
  {
  }

  lemma DigitAdds(s: string, i: nat)
    requires i < |s| && AllDigits(s[..i]) && IsDigit(s[i])
    ensures AllDigits(s[..i + 1]) && Value(s[..i + 1]) == 10 * Value(s[..i]) + DigitValue(s[i])
  {
    assert s[..i + 1][..i] == s[..i];
  }

  /** A run of digits is at least what its beginning denotes. */
  lemma {:induction false} PrefixTooBig(s: string, n: nat)
    requires n <= |s| && AllDigits(s[..n])
    ensures AllDigits(s) ==> Value(s) >= Value(s[..n])
    decreases |s|
  {
    if n < |s| && AllDigits(s) {
      var t := s[..|s| - 1];
      assert t[..n] == s[..n];
      PrefixTooBig(t, n);
    } else {
      assert n == |s| ==> s[..n] == s;
    }
  }

  /** `parse_u64`: the same, and not negative. */
  function GenerationOf(s: string): Option<u64> {
    match I64(s)
    case None => None
    case Some(v) => if v < 0 then None else Some(v)
  }

  // ---- one code line ----

  /** `code <id> <hash> <from> <until>`, split on single spaces. */
  function EntryOf(line: string): Option<Entry>
    requires |line| >= 5
  {
    var f := Split(line[5..], ' ');
    if |f| != 4 || !IsBackendId(f[0]) then None
    else
      var hash, from, until := HexToBytes(f[1], HASH_LEN), I64(f[2]), I64(f[3]);
      if hash.None? || from.None? || until.None? || until.value < from.value then None
      else Some(Entry(f[0], hash.value, from.value, until.value))
  }

  method ParseCodeLine(line: string) returns (e: Option<Entry>)
    requires |line| >= 5
    ensures e == EntryOf(line)
  {
    hide I64, Split;
    var split := SplitFields(line[5..], ' ', 4);
    if split.None? {
      return None;
    }
    var f := split.value;
    if |f[0]| != ID_LEN - 1 {
      return None;
    }
    for i := 0 to |f[0]|
      invariant forall k :: 0 <= k < i ==> IsHexDigit(f[0][k])
    {
      if Nibble(f[0][i]) < 0 {
        return None;
      }
    }
    var hash := ReadHex(f[1], HASH_LEN);
    if hash.None? {
      return None;
    }
    var from := ParseI64(f[2]);
    if from.None? {
      return None;
    }
    var until := ParseI64(f[3]);
    if until.None? || until.value < from.value {
      return None;
    }
    e := Some(Entry(f[0], hash.value, from.value, until.value));
  }

  // ---- the lines of the signed region ----

  /** The code lines from `i` on, up to the end line. */
  function CodesFrom(lines: seq<string>, i: nat, generation: u64, got: seq<Entry>): Parsed
    requires i <= |lines|
    decreases |lines| - i
  {
    if i == |lines| then Err(Truncated)
    else if lines[i] == "end" then Ok(CodeSet(generation, got))
    else if !("code " <= lines[i]) then Err(Format)
    else if |got| >= MAX_ENTRIES then Err(TooMany)
    else
      match EntryOf(lines[i])
      case None => Err(BadLine)
      case Some(e) => CodesFrom(lines, i + 1, generation, got + [e])
  }

  /** The header lines, then the codes. */
  function FromLines(lines: seq<string>, gate: string): Parsed {
    if |lines| == 0 || lines[0] != VERSION_LINE then
      if |lines| > 0 && "portao-sync " <= lines[0] then Err(Version) else Err(Format)
    else if |lines| < 2 || !("gate " <= lines[1]) then Err(Format)
    else if lines[1][5..] != gate then Err(WrongGate)
    else if |lines| < 3 || !("gen " <= lines[2]) then Err(Format)
    else
      match GenerationOf(lines[2][4..])
      case None => Err(Format)
      case Some(g) => CodesFrom(lines, 3, g, [])
  }

  /** The lines of a text that ends in a newline. */
  function LinesOf(text: string): seq<string> {
    var f := Split(text, '\n');
    f[..|f| - 1]
  }

  // ---- finding and checking the signature ----

  predicate MarkerAt(s: string, k: nat) {
    k + 5 <= |s| && s[k..k + 5] == END_MARKER
  }

  /** The first place at or after `i` where the end marker stands, or -1. */
  function MarkerFrom(s: string, i: nat): (m: int)
    ensures -1 <= m
    ensures 0 <= m ==> i <= m && MarkerAt(s, m)
    ensures forall k: nat :: i <= k && MarkerAt(s, k) ==> 0 <= m <= k
    decreases |s| - i
  {
    if i + 5 > |s| then -1
    else if MarkerAt(s, i) then i
    else MarkerFrom(s, i + 1)
  }

  predicate IsLineEnd(c: char) {
    c == '\n' || c == '\r'
  }

  /** Without trailing line ends. */
  function Stripped(s: string): string {
    if |s| > 0 && IsLineEnd(s[|s| - 1]) then Stripped(s[..|s| - 1]) else s
  }

  /** `sync_parse`. */
  function Parse(body: string, gate: string, mac: Mac): Parsed {
    if |body| == 0 || |body| > BODY_MAX then Err(Format)
    else
      var marker := MarkerFrom(body, 0);
      if marker < 0 then Err(Truncated)
      else
        var signed, rest := body[..marker + 5], body[marker + 5..];
        match mac(signed)
        case None => Err(BadMac)
        case Some(expected) =>
          if !("mac " <= rest) then Err(Format)
          else if Stripped(rest[4..]) != expected then Err(BadMac)
          else FromLines(LinesOf(signed), gate)
  }

  /** `strstr` for the end marker. */
  method FindMarker(s: string) returns (m: int)
    ensures m == MarkerFrom(s, 0)
  {
    m := -1;
    var i := 0;
    while i + 5 <= |s|
      invariant MarkerFrom(s, 0) == MarkerFrom(s, i)
    {
      if s[i..i + 5] == END_MARKER {
        return i;
      }
      i := i + 1;
    }
  }

  method Strip(s: string) returns (t: string)
    ensures t == Stripped(s)
  {
    var n := |s|;
    assert s[..n] == s;
    while n > 0 && IsLineEnd(s[n - 1])
      invariant n <= |s| && Stripped(s) == Stripped(s[..n])
    {
      assert s[..n][..n - 1] == s[..n - 1];
      n := n - 1;
    }
    t := s[..n];
  }

  /** `next_line`: the line at `p` and where the next one starts. */
  method NextLine(s: string, p: nat) returns (line: Option<string>, next: nat)
    requires p <= |s| && (s != "" ==> s[|s| - 1] == '\n')
    ensures line == if p == |s| then None else Some(SplitFrom(s, '\n', p)[0])
    ensures p <= next <= |s|
    ensures p < |s| ==> p < next && SplitFrom(s, '\n', p) == [SplitFrom(s, '\n', p)[0]] + SplitFrom(s, '\n', next)
  {
    if p >= |s| {
      return None, p;
    }
    var c := p;
    while c < |s| && s[c] != '\n'
      invariant p <= c <= |s|
      invariant forall k :: p <= k < c ==> s[k] != '\n'
    {
      c := c + 1;
    }
    CutIs(s, '\n', p, c);
    line := Some(s[p..c]);
    next := c + 1;
  }

  /** The cursor at `p` stands before line `i` of the text. */
  ghost predicate AtLine(s: string, p: nat, i: nat) {
    && p <= |s| && (s != "" ==> s[|s| - 1] == '\n') && i <= |LinesOf(s)|
    && Split(s, '\n')[i..] == SplitFrom(s, '\n', p)
  }

  lemma AtFirstLine(s: string)
    requires s != "" ==> s[|s| - 1] == '\n'
    ensures AtLine(s, 0, 0)
  {
    assert Split(s, '\n')[0..] == Split(s, '\n');
  }

  lemma {:induction false} EndsWithNothing(s: string, p: nat)
    requires p <= |s| && (s != "" ==> s[|s| - 1] == '\n')
    ensures p < |s| <==> |SplitFrom(s, '\n', p)| > 1
    decreases |s| - p
  {
  }

  lemma LineAdvances(s: string, p: nat, i: nat, next: nat)
    requires AtLine(s, p, i) && p <= next <= |s|
    requires p < |s| ==> SplitFrom(s, '\n', p) == [SplitFrom(s, '\n', p)[0]] + SplitFrom(s, '\n', next)
    ensures p == |s| <==> i == |LinesOf(s)|
    ensures p < |s| ==> LinesOf(s)[i] == SplitFrom(s, '\n', p)[0] && AtLine(s, next, i + 1)
  {
    hide SplitFrom;
    EndsWithNothing(s, p);
    var f := Split(s, '\n');
    assert |f[i..]| == |f| - i;
    if p < |s| {
      assert f[i..][0] == f[i];
      assert f[i..][1..] == f[i + 1..];
    }
  }

  /** One line of the region, as a step from line `i` to line `i + 1`. */
  method TakeLine(s: string, p: nat, ghost i: nat) returns (line: Option<string>, next: nat)
    requires AtLine(s, p, i)
    ensures line == if i == |LinesOf(s)| then None else Some(LinesOf(s)[i])
    ensures line.Some? ==> p < next && AtLine(s, next, i + 1)
  {
    hide SplitFrom, LinesOf;
    line, next := NextLine(s, p);
    LineAdvances(s, p, i, next);
  }

  method ParseSet(body: string, gate: string, mac: Mac) returns (r: Parsed)
    ensures r == Parse(body, gate, mac)
  {
    hide FromLines, LinesOf, Stripped;
    if |body| == 0 || |body| > BODY_MAX {
      return Err(Format);
    }
    var marker := FindMarker(body);
    if marker < 0 {
      return Err(Truncated);
    }
    var signed, rest := body[..marker + 5], body[marker + 5..];
    var expected := mac(signed);
    if expected.None? {
      return Err(BadMac);
    }
    if !("mac " <= rest) {
      return Err(Format);
    }
    var got := Strip(rest[4..]);
    if |got| != 64 || got != expected.value {
      return Err(BadMac);
    }
    assert signed[|signed| - 1] == body[marker..marker + 5][4];
    r := ParseRegion(signed, gate);
  }

  method ParseRegion(s: string, gate: string) returns (r: Parsed)
    requires s != "" && s[|s| - 1] == '\n'
    ensures r == FromLines(LinesOf(s), gate)
  {
    hide AtLine, LinesOf, CodesFrom, I64;
    ghost var lines := LinesOf(s);
    AtFirstLine(s);
    var line, p := TakeLine(s, 0, 0);
    if line.None? || line.value != VERSION_LINE {
      return if line.Some? && "portao-sync " <= line.value then Err(Version) else Err(Format);
    }
    line, p := TakeLine(s, p, 1);
    if line.None? || !("gate " <= line.value) {
      return Err(Format);
    }
    if line.value[5..] != gate {
      return Err(WrongGate);
    }
    line, p := TakeLine(s, p, 2);
    if line.None? || !("gen " <= line.value) {
      return Err(Format);
    }
    var v := ParseI64(line.value[4..]);
    if v.None? || v.value < 0 {
      return Err(Format);
    }
    r := ParseCodes(s, p, v.value);
  }

  method ParseCodes(s: string, start: nat, generation: u64) returns (r: Parsed)
    requires 3 <= |LinesOf(s)| && AtLine(s, start, 3)
    ensures r == CodesFrom(LinesOf(s), 3, generation, [])
  {
    hide AtLine, LinesOf, EntryOf;
    ghost var lines := LinesOf(s);
    ghost var i: nat := 3;
    var p := start;
    var got: seq<Entry> := [];
    while true
      invariant i <= |lines| && AtLine(s, p, i)
      invariant CodesFrom(lines, 3, generation, []) == CodesFrom(lines, i, generation, got)
      decreases |lines| - i
    {
      var line, next := TakeLine(s, p, i);
      if line.None? {
        return Err(Truncated);
      }
      if line.value == "end" {
        return Ok(CodeSet(generation, got));
      }
      if !("code " <= line.value) {
        return Err(Format);
      }
      if |got| >= MAX_ENTRIES {
        return Err(TooMany);
      }
      var e := ParseCodeLine(line.value);
      if e.None? {
        return Err(BadLine);
      }
      got := got + [e.value];
      p, i := next, i + 1;
    }
  }
}
