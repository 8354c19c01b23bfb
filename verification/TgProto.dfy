/** The courier line: `v1|counter|op|id|hash|from|until|mac`. */
module TgProto {
  import opened Bytes
  import opened AccessCore
  import opened SyncLogic
  import opened Text

  const LINE_MAX := 256
  const FIELDS := 8
  const WORD64: int := 0x1_0000_0000_0000_0000

  datatype Op = Add | Revoke

  datatype Message = Message(counter: u64, op: Op, id: IdText, hash: Hash, validFrom: int, validUntil: int)

  datatype Error = Format | Version | BadMac | Replay | BadId | BadHash | Window | BadOp

  datatype Parsed = Ok(msg: Message) | Err(error: Error)

  // ---- numbers ----

  /** What `parse_u64` accepts: one to twenty digits.  Its overflow test compares the wrapped
      result with the value one digit earlier, so a twenty-digit number that wraps high enough
      gets through, wrapped. */
  function U64(s: string): Option<u64> {
    if 1 <= |s| <= 20 && AllDigits(s) && Value(s) % WORD64 >= Value(s) / 10
    then Some(Value(s) % WORD64)
    else None
  }

  method ParseU64(s: string) returns (out: Option<u64>)
    ensures out == U64(s)
  {
    hide SoFar, AllDigits;
    if |s| == 0 || |s| > 20 {
      return None;
    }
    NothingRead(s);
    var v: u64 := 0;
    for i := 0 to |s|
      invariant SoFar(s, i, v)
    {
      if !IsDigit(s[i]) {
        NotAllDigits(s, i);
        return None;
      }
      var next: u64 := (v * 10 + DigitValue(s[i])) % WORD64;
      ReadDigit(s, i, v);
      if next < v {
        return None;
      }
      v := next;
    }
    AllRead(s, v);
    out := Some(v);
  }

  /** The value of the first `i` digits, which only the twentieth can take past 64 bits. */
  ghost predicate SoFar(s: string, i: nat, v: u64) {
    && i <= |s| && AllDigits(s[..i])
    && v == Value(s[..i]) % WORD64
    && (i <= 19 ==> Value(s[..i]) < WORD64)
    && Value(s[..i]) % WORD64 >= Value(s[..i]) / 10
  }

  lemma NothingRead(s: string)
    ensures SoFar(s, 0, 0)
  {
    EmptyValue();
    assert s[..0] == "";
  }

  lemma NotAllDigits(s: string, i: nat)
    requires i < |s| && !IsDigit(s[i])
    ensures !AllDigits(s)
  {
  }

  lemma AllRead(s: string, v: u64)
    requires 1 <= |s| <= 20 && SoFar(s, |s|, v)
    ensures U64(s) == Some(v)
  {
    assert s[..|s|] == s;
  }

  lemma ReadDigit(s: string, i: nat, v: u64)
    requires SoFar(s, i, v) && i < |s| <= 20 && IsDigit(s[i])
    ensures var next: u64 := (v * 10 + DigitValue(s[i])) % WORD64;
            if next < v then U64(s) == None else SoFar(s, i + 1, next)
  {
    hide Value, Pow10;
    OneMoreDigit(s, i);
    WrapDigit(Value(s[..i]), DigitValue(s[i]), i);
    if i == 19 {
      assert s[..i + 1] == s;
    }
  }

  /** Wrapping before or after multiplying makes no difference to a value that has not wrapped yet. */
  lemma WrapDigit(n: nat, d: nat, i: nat)
    requires d < 10 && i <= 19 && n < WORD64
    ensures (n % WORD64 * 10 + d) % WORD64 == (10 * n + d) % WORD64
    ensures (10 * n + d) / 10 == n
    ensures 10 * n + d < WORD64 ==> (10 * n + d) % WORD64 >= n
  {
  }

  lemma OneMoreDigit(s: string, i: nat)
    requires i < |s| && i < 20 && AllDigits(s[..i]) && IsDigit(s[i])
    requires i <= 19 ==> Value(s[..i]) < WORD64
    ensures AllDigits(s[..i + 1])
    ensures Value(s[..i + 1]) == 10 * Value(s[..i]) + DigitValue(s[i])
    ensures Value(s[..i + 1]) / 10 == Value(s[..i])
    ensures i <= 18 ==> Value(s[..i + 1]) < WORD64
  {
    var t := s[..i + 1];
    assert t[..i] == s[..i];
    if i <= 18 {
      ValueBound(t);
      Pow10Grows(i + 1, 19);
      Pow10Values();
    }
  }

  /** The overflow test is right exactly below 2^64 and for numbers whose wrapped value is small. */
  lemma U64IsExact(s: string)
    ensures 1 <= |s| <= 20 && AllDigits(s) && Value(s) < WORD64 ==> U64(s) == Some(Value(s))
    ensures U64(s).Some? ==> AllDigits(s) && (U64(s).value == Value(s) <==> Value(s) < WORD64)
  {
  }

  /** Three times ten to the nineteenth does not fit, and is read as something else. */
  lemma U64MissesOverflow()
    ensures U64("30000000000000000000") == Some(11_553_255_926_290_448_384)
  {
    var s := "30000000000000000000";
    ZerosValue(s, 20);
    assert s[..20] == s;
    Pow10Values();
  }

  lemma {:induction false} ZerosValue(s: string, n: nat)
    requires 1 <= n <= |s| && s[0] == '3' && forall i :: 1 <= i < |s| ==> s[i] == '0'
    ensures AllDigits(s[..n]) && Value(s[..n]) == 3 * Pow10(n - 1)
  {
    var t := s[..n];
    assert t[..n - 1] == s[..n - 1];
    if n == 1 {
      assert t[..0] == "";
    } else {
      ZerosValue(s, n - 1);
    }
  }

  /** `parse_i64`: an optional sign, then `parse_u64` up to INT64_MAX. */
  function I64(s: string): Option<int> {
    var negative := |s| > 0 && s[0] == '-';
    match U64(if negative then s[1..] else s)
    case None => None
    case Some(v) =>
      var m: int := v;
      if m > I64_MAX then None else Some(if negative then -m else m)
  }

  method ParseI64(s: string) returns (out: Option<int>)
    ensures out == I64(s)
  {
    var negative := |s| > 0 && s[0] == '-';
    var m := ParseU64(if negative then s[1..] else s);
    if m.None? || m.value > I64_MAX {
      return None;
    }
    var v: int := m.value;
    out := Some(if negative then -v else v);
  }

  // ---- the line ----

  function OpOf(s: string): Option<Op> {
    if s == "add" then Some(Add) else if s == "rev" then Some(Revoke) else None
  }

  /** The fields once authenticated, in the order `tg_parse` reads them. */
  function FromFields(f: seq<string>, last: u64): Parsed
    requires |f| == FIELDS
  {
    var counter := U64(f[1]);
    if counter.None? then Err(Format)
    else if counter.value <= last then Err(Replay)
    else
      var op := OpOf(f[2]);
      if op.None? then Err(BadOp)
      else if !IsBackendId(f[3]) then Err(BadId)
      else if op.value == Revoke then Ok(Message(counter.value, Revoke, f[3], ZERO_HASH, 0, 0))
      else
        var hash, from, until := HexToBytes(f[4], HASH_LEN), I64(f[5]), I64(f[6]);
        if hash.None? then Err(BadHash)
        else if from.None? || until.None? then Err(Format)
        else if until.value < from.value then Err(Window)
        else Ok(Message(counter.value, Add, f[3], hash.value, from.value, until.value))
  }

  /** The signed region: everything before the last separator. */
  function Region(line: string, f: seq<string>): string
    requires |f| == FIELDS && |f[7]| + 1 <= |line|
  {
    line[..|line| - |f[7]| - 1]
  }

  lemma {:induction false} LastFieldFits(f: seq<string>, sep: char)
    requires |f| >= 2
    ensures |f[|f| - 1]| + 1 <= |Join(f, sep)|
    ensures Join(f, sep) == Join(f[..|f| - 1], sep) + [sep] + f[|f| - 1]
  {
    var n := |f| - 1;
    if n == 1 {
      assert Join(f[1..], sep) == f[1];
      assert f[..1] == [f[0]];
    } else {
      LastFieldFits(f[1..], sep);
      assert f[1..][..n - 1] == f[..n][1..];
      assert f[..n][0] == f[0];
    }
  }

  /** `tg_parse`. */
  function Parse(line: string, last: u64, mac: Mac): Parsed {
    if |line| == 0 || |line| > LINE_MAX then Err(Format)
    else
      var f := Split(line, '|');
      if |f| != FIELDS then Err(Format)
      else if f[0] != "v1" then Err(Version)
      else
        LastFieldFits(f, '|');
        JoinSplit(line, '|');
        match mac(Region(line, f))
        case None => Err(BadMac)
        case Some(expected) => if f[7] != expected then Err(BadMac) else FromFields(f, last)
  }

  method ParseLine(line: string, last: u64, mac: Mac) returns (r: Parsed)
    ensures r == Parse(line, last, mac)
  {
    if |line| == 0 || |line| > LINE_MAX {
      return Err(Format);
    }
    var split := SplitFields(line, '|', FIELDS);
    if split.None? {
      return Err(Format);
    }
    var f := split.value;
    if |f[0]| != 2 || f[0] != "v1" {
      return Err(Version);
    }
    LastFieldFits(f, '|');
    JoinSplit(line, '|');
    var expected := mac(Region(line, f));
    if expected.None? {
      return Err(BadMac);
    }
    if |f[7]| != 64 || f[7] != expected.value {
      return Err(BadMac);
    }
    r := ReadFields(f, last);
  }

  method ReadFields(f: seq<string>, last: u64) returns (r: Parsed)
    requires |f| == FIELDS
    ensures r == FromFields(f, last)
  {
    var counter := ParseU64(f[1]);
    if counter.None? {
      return Err(Format);
    }
    if counter.value <= last {
      return Err(Replay);
    }
    var op := OpOf(f[2]);
    if op.None? {
      return Err(BadOp);
    }
    if |f[3]| != ID_LEN - 1 {
      return Err(BadId);
    }
    for i := 0 to |f[3]|
      invariant forall k :: 0 <= k < i ==> IsHexDigit(f[3][k])
    {
      if Nibble(f[3][i]) < 0 {
        return Err(BadId);
      }
    }
    if op.value == Revoke {
      return Ok(Message(counter.value, Revoke, f[3], ZERO_HASH, 0, 0));
    }
    var hash := ReadHex(f[4], HASH_LEN);
    if hash.None? {
      return Err(BadHash);
    }
    var from := ParseI64(f[5]);
    if from.None? {
      return Err(Format);
    }
    var until := ParseI64(f[6]);
    if until.None? {
      return Err(Format);
    }
    if until.value < from.value {
      return Err(Window);
    }
    r := Ok(Message(counter.value, Add, f[3], hash.value, from.value, until.value));
  }

  // ---- what an accepted line is ----

  /** Seven separator-free fields that make up the signed region. */
  ghost predicate SignedFields(g: seq<string>, last: u64, m: Message) {
    && |g| == 7 && (forall k :: 0 <= k < 7 ==> Free(g[k], '|'))
    && g[0] == "v1" && FromFields(g + [""], last) == Ok(m)
  }

  /** A line is accepted as `m` exactly when it is a MACed region of seven good fields, one
      separator, and the MAC of that region. */
  lemma AcceptedExactly(line: string, last: u64, mac: Mac, m: Message)
    ensures Parse(line, last, mac) == Ok(m) <==>
            exists g: seq<string> :: SignedFields(g, last, m)
              && mac(Join(g, '|')).Some? && line == Join(g, '|') + "|" + mac(Join(g, '|')).value
              && |line| <= LINE_MAX
  {
    if Parse(line, last, mac) == Ok(m) {
      AcceptedHasFields(line, last, mac, m);
    }
    forall g: seq<string> | SignedFields(g, last, m) && mac(Join(g, '|')).Some?
      && line == Join(g, '|') + "|" + mac(Join(g, '|')).value && |line| <= LINE_MAX
      ensures Parse(line, last, mac) == Ok(m)
    {
      FieldsAreAccepted(g, last, mac, m);
    }
  }

  lemma AcceptedHasFields(line: string, last: u64, mac: Mac, m: Message)
    requires Parse(line, last, mac) == Ok(m)
    ensures var g := Split(line, '|')[..7];
            && SignedFields(g, last, m)
            && mac(Join(g, '|')).Some? && line == Join(g, '|') + "|" + mac(Join(g, '|')).value
  {
    hide FromFields, Join, Split;
    var f := Split(line, '|');
    var g := f[..7];
    JoinSplit(line, '|');
    LastFieldFits(f, '|');
    assert Region(line, f) == Join(g, '|');
    SplitIsFree(line, '|');
    LastFieldUnread(f, g + [""], last);
  }

  lemma LastFieldUnread(f: seq<string>, g: seq<string>, last: u64)
    requires |f| == FIELDS && |g| == FIELDS && f[..7] == g[..7]
    ensures FromFields(f, last) == FromFields(g, last)
  {
    assert forall k :: 0 <= k < 7 ==> f[k] == f[..7][k] == g[k];
  }

  lemma FieldsAreAccepted(g: seq<string>, last: u64, mac: Mac, m: Message)
    requires SignedFields(g, last, m) && mac(Join(g, '|')).Some?
    ensures var line := Join(g, '|') + "|" + mac(Join(g, '|')).value;
            |line| <= LINE_MAX ==> Parse(line, last, mac) == Ok(m)
  {
    hide FromFields, Join, Split;
    var tag := mac(Join(g, '|')).value;
    var line := Join(g, '|') + "|" + tag;
    var f := g + [tag];
    LastFieldFits(f, '|');
    assert f[..7] == g;
    HexIsFree(tag, '|');
    SplitJoin(f, '|');
    assert line == Join(f, '|');
    assert Region(line, f) == Join(g, '|');
    assert (g + [""])[..7] == g;
    LastFieldUnread(f, g + [""], last);
  }

  /** A larger held counter only refuses more. */
  lemma AcceptedIsMonotone(line: string, last: u64, lower: u64, mac: Mac)
    requires lower <= last && Parse(line, last, mac).Ok?
    ensures Parse(line, lower, mac) == Parse(line, last, mac)
    ensures Parse(line, last, mac).msg.counter > last
  {
    hide Split, U64, I64;
  }
}
