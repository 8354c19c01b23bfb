/** Which refusal a courier line gets: what is wrong first decides, and nothing unsigned is looked into. */
module TgRefusals {
  import opened Bytes
  import opened SyncLogic
  import opened Text
  import opened TgProto

  /** A line of eight fields, none of which holds the separator. */
  ghost predicate EightFields(f: seq<string>) {
    |f| == 8 && forall k :: 0 <= k < 8 ==> Free(f[k], '|')
  }

  /** The last field is the MAC of the rest. */
  predicate Signed(f: seq<string>, mac: Mac)
    requires |f| == 8
  {
    mac(Join(f[..7], '|')).Some? && mac(Join(f[..7], '|')).value == f[7]
  }

  lemma EightFieldsAreRead(f: seq<string>, last: u64, mac: Mac)
    requires EightFields(f) && |Join(f, '|')| <= 256
    ensures Parse(Join(f, '|'), last, mac) ==
            if f[0] != "v1" then Err(Version) else if !Signed(f, mac) then Err(BadMac) else FromFields(f, last)
  {
    hide Join, Split, FromFields;
    SplitJoin(f, '|');
    LastFieldFits(f, '|');
    assert Region(Join(f, '|'), f) == Join(f[..7], '|');
  }

  /** A line is a format error before anything else exactly when it is empty, longer than 256
      characters, or not eight fields. */
  lemma OtherShapesAreRefused(line: string, last: u64, mac: Mac)
    ensures (exists f: seq<string> :: EightFields(f) && line == Join(f, '|') && |line| <= 256)
            || Parse(line, last, mac) == Err(Format)
  {
    hide Join, Split, FromFields;
    JoinSplit(line, '|');
    SplitIsFree(line, '|');
    if 0 < |line| <= 256 && |Split(line, '|')| == 8 {
      assert EightFields(Split(line, '|'));
    }
  }

  /** The version is looked at first and the MAC next; neither a replayed nor a malformed line is told
      apart from a good one before its MAC has been found right. */
  lemma SignatureFirst(f: seq<string>, last: u64, mac: Mac)
    requires EightFields(f) && |Join(f, '|')| <= 256
    ensures var r := Parse(Join(f, '|'), last, mac);
            && (r == Err(Version) <==> f[0] != "v1")
            && (r == Err(BadMac) <==> f[0] == "v1" && !Signed(f, mac))
            && (r.Ok? || r.error in {Format, Replay, BadOp, BadId, BadHash, Window} ==> f[0] == "v1" && Signed(f, mac))
  {
    hide Join, Split, U64, I64;
    EightFieldsAreRead(f, last, mac);
  }

  /** Then the counter, the operation, the id, and for an add the digest, the times and the window, in
      that order; a revoke looks at nothing after the id. */
  lemma ThenTheFields(f: seq<string>, last: u64, mac: Mac)
    requires EightFields(f) && |Join(f, '|')| <= 256 && f[0] == "v1" && Signed(f, mac)
    ensures var r := Parse(Join(f, '|'), last, mac);
            var newer := U64(f[1]).Some? && U64(f[1]).value > last;
            var known := newer && (f[2] == "add" || f[2] == "rev");
            var named := known && IsBackendId(f[3]);
            var hashed := named && f[2] == "add" && (exists h: seq<byte> :: |h| == 32 && f[4] == HexOf(h));
            var timed := hashed && I64(f[5]).Some? && I64(f[6]).Some?;
            && (r == Err(Replay) <==> U64(f[1]).Some? && U64(f[1]).value <= last)
            && (r == Err(BadOp) <==> newer && !known)
            && (r == Err(BadId) <==> known && !named)
            && (r == Err(BadHash) <==> named && f[2] == "add" && !hashed)
            && (r == Err(Format) <==> U64(f[1]).None? || (hashed && !timed))
            && (r == Err(Window) <==> timed && I64(f[6]).value < I64(f[5]).value)
            && (r.Ok? <==> (named && f[2] == "rev") || (timed && I64(f[5]).value <= I64(f[6]).value))
  {
    hide Join, Split, U64, I64, HexToBytes;
    EightFieldsAreRead(f, last, mac);
    DigestExactly(f[4]);
  }

  lemma DigestExactly(s: string)
    ensures HexToBytes(s, 32).Some? <==> exists h: seq<byte> :: |h| == 32 && s == HexOf(h)
  {
    if HexToBytes(s, 32).Some? {
      HexIsUnique(s);
    }
    forall h: seq<byte> | |h| == 32 && s == HexOf(h)
      ensures HexToBytes(s, 32).Some?
    {
      HexRoundTrip(h);
    }
  }
}
