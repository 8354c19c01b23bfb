/** The tool that prints courier lines, and the round trip through the device's parser. */
module MakeTgLine {
  import opened Bytes
  import opened AccessCore
  import opened SyncLogic
  import opened Text
  import opened TgProto

  datatype Request =
    | AddCode(id: string, digest: Hash, validFrom: int, validUntil: int)
    | RevokeCode(id: string)

  /** The seven fields that are signed.  A revoke fills the unused ones with dashes. */
  function FieldsOf(counter: int, r: Request): (f: seq<string>)
    ensures |f| == 7
  {
    match r
    case AddCode(id, digest, from, until) =>
      ["v1", Printed(counter), "add", id, HexOf(digest), Printed(from), Printed(until)]
    case RevokeCode(id) => ["v1", Printed(counter), "rev", id, "-", "-", "-"]
  }

  /** The line on stdout, or nothing when the tool stops with an error. */
  function LineOf(counter: int, r: Request, tag: Tag): Option<string> {
    if counter < 0 || !IsBackendId(r.id) || (r.AddCode? && r.validUntil < r.validFrom) then None
    else
      var signed := Join(FieldsOf(counter, r), '|');
      var line := signed + "|" + tag(signed);
      if |line| > LINE_MAX then None else Some(line)
  }

  /** The message a request stands for. */
  function MessageOf(counter: u64, r: Request): Message
    requires IsBackendId(r.id)
  {
    match r
    case AddCode(id, digest, from, until) => Message(counter, Add, id, digest, from, until)
    case RevokeCode(id) => Message(counter, Revoke, id, ZERO_HASH, 0, 0)
  }

  /** What the device makes of a printed natural number: its overflow test refuses some of those that
      do not fit 64 bits, and reads the others wrapped. */
  function ReadNat(n: nat): Option<u64> {
    if n < 100_000_000_000_000_000_000 && n % WORD64 >= n / 10 then Some(n % WORD64) else None
  }

  /** And of a printed integer. */
  function ReadInt(n: int): Option<int> {
    match ReadNat(if n < 0 then -n else n)
    case None => None
    case Some(v) =>
      var m: int := v;
      if m > I64_MAX then None else Some(if n < 0 then -m else m)
  }

  lemma PrintedCounter(n: nat)
    ensures U64(Printed(n)) == ReadNat(n) && Free(Printed(n), '|')
    ensures n < WORD64 ==> ReadNat(n) == Some(n) && |Printed(n)| <= 20
  {
    hide Value, Pow10, Decimal;
    Pow10Values();
    ValueOfDecimal(n);
    DigitsAreFree(Decimal(n), '|');
    if n < 100_000_000_000_000_000_000 {
      DecimalLength(n, 20);
    } else {
      ValueBound(Decimal(n));
      if |Decimal(n)| <= 20 {
        Pow10Grows(|Decimal(n)|, 20);
      }
    }
  }

  lemma PrintedTime(n: int)
    ensures I64(Printed(n)) == ReadInt(n) && Free(Printed(n), '|')
    ensures -I64_MAX <= n <= I64_MAX ==> ReadInt(n) == Some(n) && |Printed(n)| <= 20
  {
    hide Value, Pow10, Decimal, AllDigits, U64;
    var m: nat := if n < 0 then -n else n;
    Pow10Values();
    PrintedCounter(m);
    DigitsAreFree(Decimal(m), '|');
    if m <= I64_MAX {
      DecimalLength(m, 19);
    }
    if n < 0 {
      assert ("-" + Decimal(m))[1..] == Decimal(m);
    } else {
      DecimalIsDigits(n);
    }
  }

  lemma DecimalIsDigits(n: nat)
    ensures Decimal(n) != "" && Decimal(n)[0] != '-'
  {
    hide Decimal;
    DigitsAreFree(Decimal(n), '-');
  }

  /** Numbers that fit are read as themselves, and only they are. */
  lemma ReadsItselfExactly(n: int)
    ensures n >= 0 ==> (ReadNat(n) == Some(n) <==> n < WORD64)
    ensures ReadInt(n) == Some(n) <==> -I64_MAX <= n <= I64_MAX
  {
  }

  /** Beyond 64 bits a time can be read as another one. */
  lemma TimeReadAsAnother()
    ensures ReadInt(22_000_000_000_000_000_000) == Some(3_553_255_926_290_448_384)
  {
  }

  /** What the device reads from the line printed for a request, authentication having passed. */
  function ReadAs(counter: nat, r: Request, last: u64): Parsed
    requires IsBackendId(r.id)
  {
    var c := ReadNat(counter);
    if c.None? then Err(Format)
    else if c.value <= last then Err(Replay)
    else
      match r
      case RevokeCode(id) => Ok(Message(c.value, Revoke, id, ZERO_HASH, 0, 0))
      case AddCode(id, digest, from, until) =>
        var f, u := ReadInt(from), ReadInt(until);
        if f.None? || u.None? then Err(Format)
        else if u.value < f.value then Err(Window)
        else Ok(Message(c.value, Add, id, digest, f.value, u.value))
  }

  lemma FieldsAreFree(counter: nat, r: Request)
    requires IsBackendId(r.id)
    ensures forall k :: 0 <= k < 7 ==> Free(FieldsOf(counter, r)[k], '|')
  {
    hide Decimal, Printed, I64, U64, ReadNat, ReadInt;
    PrintedCounter(counter);
    assert Free(r.id, '|');
    if r.AddCode? {
      PrintedTime(r.validFrom);
      PrintedTime(r.validUntil);
      HexIsFree(HexOf(r.digest), '|');
    }
  }

  lemma LineFits(counter: u64, r: Request)
    requires IsBackendId(r.id)
    requires r.AddCode? ==> -I64_MAX <= r.validFrom <= I64_MAX && -I64_MAX <= r.validUntil <= I64_MAX
    ensures var f := FieldsOf(counter, r);
            |Join(f, '|')| + 65 < LINE_MAX
  {
    hide Decimal, Printed, I64, U64, Join, ReadNat, ReadInt;
    PrintedCounter(counter);
    var f := FieldsOf(counter, r);
    match r {
      case AddCode(id, digest, from, until) =>
        PrintedTime(from);
        PrintedTime(until);
        var head, tail := f[..4], f[5..];
        JoinParts(f);
        JoinLength(head, '|', 20);
        JoinLength(tail, '|', 20);
      case RevokeCode(id) =>
        JoinLength(f, '|', 20);
    }
  }

  lemma JoinParts(f: seq<string>)
    requires |f| == 7
    ensures Join(f, '|') == Join(f[..4], '|') + "|" + f[4] + "|" + Join(f[5..], '|')
  {
    hide Join;
    JoinConcat(f[..4], f[4..], '|');
    assert f[..4] + f[4..] == f;
    assert f[4..] == [f[4]] + f[5..];
    JoinCons(f[4], f[5..], '|');
  }

  lemma FieldsReadAs(counter: nat, r: Request, tag: string, last: u64)
    requires IsBackendId(r.id)
    ensures FromFields(FieldsOf(counter, r) + [tag], last) == ReadAs(counter, r, last)
  {
    hide Decimal, Printed, I64, U64, ReadNat, ReadInt;
    PrintedCounter(counter);
    if r.AddCode? {
      PrintedTime(r.validFrom);
      PrintedTime(r.validUntil);
      HexRoundTrip(r.digest);
    }
  }

  /** Every line the tool prints, whatever the numbers on its command line, is read exactly so. */
  lemma PrintedLineReads(counter: int, r: Request, tag: Tag, last: u64)
    requires LineOf(counter, r, tag).Some?
    ensures Parse(LineOf(counter, r, tag).value, last, s => Some(tag(s))) == ReadAs(counter, r, last)
  {
    hide Decimal, Printed, I64, U64, Join, Split, ReadNat, ReadInt;
    FieldsAreFree(counter, r);
    var f := FieldsOf(counter, r);
    var signed := Join(f, '|');
    var all := f + [tag(signed)];
    LastFieldFits(all, '|');
    assert all[..7] == f;
    HexIsFree(tag(signed), '|');
    SplitJoin(all, '|');
    var line := LineOf(counter, r, tag).value;
    assert line == Join(all, '|');
    assert Region(line, all) == signed;
    FieldsReadAs(counter, r, tag(signed), last);
  }

  /** The numbers of a request fit 64 bits. */
  predicate NumbersFit(counter: int, r: Request) {
    && 0 <= counter < WORD64
    && (r.AddCode? ==> -I64_MAX <= r.validFrom <= I64_MAX && -I64_MAX <= r.validUntil <= I64_MAX)
  }

  /** The round trip.  A request with a backend id, numbers that fit and a window not inverted is
      printed, in fewer bytes than the device's limit.  And a printed line is accepted as what was
      asked for if and only if its numbers fit and its counter is above the one held. */
  lemma CourierRoundTrip(counter: int, r: Request, tag: Tag, last: u64)
    ensures IsBackendId(r.id) && NumbersFit(counter, r) && (r.AddCode? ==> r.validFrom <= r.validUntil) ==>
              LineOf(counter, r, tag).Some? && |LineOf(counter, r, tag).value| < LINE_MAX
    ensures LineOf(counter, r, tag).Some? ==>
              && counter >= 0 && IsBackendId(r.id) && (r.AddCode? ==> r.validFrom <= r.validUntil)
              && |LineOf(counter, r, tag).value| <= 256
    ensures LineOf(counter, r, tag).Some? ==>
              var read := Parse(LineOf(counter, r, tag).value, last, s => Some(tag(s)));
              && (NumbersFit(counter, r) ==> read == if counter > last then Ok(MessageOf(counter, r)) else Err(Replay))
              && (!NumbersFit(counter, r) ==> !(read.Ok? && Asks(read.msg, counter, r)))
  {
    hide Decimal, Printed, I64, U64, Join, Split, ReadNat, ReadInt, Parse, FieldsOf;
    if NumbersFit(counter, r) && IsBackendId(r.id) {
      LineFits(counter, r);
    }
    if LineOf(counter, r, tag).Some? {
      PrintedLineReads(counter, r, tag, last);
      ReadsItselfExactly(counter);
      if r.AddCode? {
        ReadsItselfExactly(r.validFrom);
        ReadsItselfExactly(r.validUntil);
      }
    }
  }

  /** The message is the one the command line asked for. */
  predicate Asks(m: Message, counter: int, r: Request) {
    && m.counter == counter && m.id == r.id
    && match r
       case AddCode(_, digest, from, until) =>
         m.op == Add && m.hash == digest && m.validFrom == from && m.validUntil == until
       case RevokeCode(_) => m.op == Revoke
  }

  /** A signed add with an end beyond 64 bits is printed, and accepted with another end. */
  lemma AddWithAnotherEnd(counter: u64, id: string, digest: Hash, tag: Tag, last: u64)
    requires IsBackendId(id) && counter > last
    ensures var r := AddCode(id, digest, 0, 22_000_000_000_000_000_000);
            && LineOf(counter, r, tag).Some?
            && Parse(LineOf(counter, r, tag).value, last, s => Some(tag(s))) ==
               Ok(Message(counter, Add, id, digest, 0, 3_553_255_926_290_448_384))
  {
    hide Decimal, Printed, I64, U64, Join, Split, Parse, ReadNat, ReadInt;
    var until := 22_000_000_000_000_000_000;
    var r := AddCode(id, digest, 0, until);
    TimeReadAsAnother();
    ReadsItselfExactly(counter);
    ReadsItselfExactly(0);
    PrintedCounter(counter);
    PrintedTime(0);
    Pow10Values();
    DecimalLength(until, 20);
    assert |Printed(until)| <= 20 by { PrintedIsDecimal(until); }
    var f := FieldsOf(counter, r);
    JoinParts(f);
    JoinLength(f[..4], '|', 20);
    JoinLength(f[5..], '|', 20);
    PrintedLineReads(counter, r, tag, last);
  }

  lemma PrintedIsDecimal(n: nat)
    ensures Printed(n) == Decimal(n)
  {
  }
}
