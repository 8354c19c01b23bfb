/** Text the two parsers and the two printers share: hexadecimal, decimal, fields. */
module Text {
  import opened Bytes

  // ---- hexadecimal ----

  predicate IsHexDigit(c: char) {
    '0' <= c <= '9' || 'a' <= c <= 'f'
  }

  predicate AllHex(s: string) {
    forall i :: 0 <= i < |s| ==> IsHexDigit(s[i])
  }

  /** `hex_nibble`: lowercase only, -1 for anything else. */
  function Nibble(c: char): (n: int)
    ensures -1 <= n < 16
    ensures 0 <= n <==> IsHexDigit(c)
  {
    if '0' <= c <= '9' then c as int - '0' as int
    else if 'a' <= c <= 'f' then c as int - 'a' as int + 10
    else -1
  }

  /** The lowercase digit for a nibble. */
  function HexDigit(n: nat): (c: char)
    requires n < 16
    ensures Nibble(c) == n
  {
    if n < 10 then ('0' as int + n) as char else ('a' as int + n - 10) as char
  }

  /** The two digits of a byte. */
  function PairOf(v: byte): (s: string)
    ensures |s| == 2 && AllHex(s)
  {
    var n: int := v;
    [HexDigit(n / 16), HexDigit(n % 16)]
  }

  /** The byte two digits stand for. */
  function ByteOfPair(hi: char, lo: char): byte
    requires IsHexDigit(hi) && IsHexDigit(lo)
  {
    16 * Nibble(hi) + Nibble(lo)
  }

  lemma PairRoundTrip(v: byte)
    ensures ByteOfPair(PairOf(v)[0], PairOf(v)[1]) == v
  {
  }

  lemma PairUnique(hi: char, lo: char)
    requires IsHexDigit(hi) && IsHexDigit(lo)
    ensures PairOf(ByteOfPair(hi, lo)) == [hi, lo]
  {
    DigitOfNibble(hi);
    DigitOfNibble(lo);
    var p, q := Nibble(hi), Nibble(lo);
    assert (16 * p + q) / 16 == p && (16 * p + q) % 16 == q;
  }

  /** `hexdigest`. */
  function HexOf(b: seq<byte>): (s: string)
    ensures |s| == 2 * |b| && AllHex(s)
  {
    if b == [] then "" else HexOf(b[..|b| - 1]) + PairOf(b[|b| - 1])
  }

  /** The bytes an even run of hex digits stands for. */
  function BytesOf(s: string): (b: seq<byte>)
    requires |s| % 2 == 0 && AllHex(s)
    ensures 2 * |b| == |s|
  {
    if s == "" then []
    else BytesOf(s[..|s| - 2]) + [ByteOfPair(s[|s| - 2], s[|s| - 1])]
  }

  /** `hex_to_bytes`: exactly `2 * n` lowercase digits. */
  function HexToBytes(s: string, n: nat): (b: Option<seq<byte>>)
    ensures b.Some? ==> |b.value| == n
  {
    if |s| == 2 * n && AllHex(s) then Some(BytesOf(s)) else None
  }

  method ReadHex(s: string, n: nat) returns (b: Option<seq<byte>>)
    ensures b == HexToBytes(s, n)
  {
    if |s| != 2 * n {
      return None;
    }
    var out: seq<byte> := [];
    for i := 0 to n
      invariant AllHex(s[..2 * i]) && out == BytesOf(s[..2 * i])
    {
      var hi, lo := Nibble(s[2 * i]), Nibble(s[2 * i + 1]);
      if hi < 0 || lo < 0 {
        return None;
      }
      var next := s[..2 * i + 2];
      assert next[..2 * i] == s[..2 * i];
      assert AllHex(next) by {
        forall k | 0 <= k < 2 * i + 2
          ensures IsHexDigit(next[k])
        {
          if k < 2 * i {
            assert s[..2 * i][k] == next[k];
          }
        }
      }
      out := out + [ByteOfPair(s[2 * i], s[2 * i + 1])];
    }
    assert s[..2 * n] == s;
    b := Some(out);
  }

  lemma {:induction false} BytesOfHex(b: seq<byte>)
    ensures BytesOf(HexOf(b)) == b
  {
    hide PairOf, ByteOfPair, AllHex;
    if b == [] {
    } else {
      var front, v := b[..|b| - 1], b[|b| - 1];
      BytesOfHex(front);
      PairRoundTrip(v);
      var s := HexOf(b);
      assert s[..|s| - 2] == HexOf(front);
      assert b == front + [v];
    }
  }

  /** Reading a digest back gives its bytes, and the digits can be written only one way. */
  lemma HexRoundTrip(b: seq<byte>)
    ensures HexToBytes(HexOf(b), |b|) == Some(b)
  {
    BytesOfHex(b);
  }

  lemma HexOfSnoc(b: seq<byte>, v: byte)
    ensures HexOf(b + [v]) == HexOf(b) + PairOf(v)
  {
    hide PairOf;
    assert (b + [v])[..|b|] == b;
  }

  lemma {:induction false} HexIsUnique(s: string)
    requires |s| % 2 == 0 && AllHex(s)
    ensures HexOf(BytesOf(s)) == s
  {
    hide HexOf, PairOf, ByteOfPair, IsHexDigit;
    if s == "" {
      NoBytes();
    } else {
      var front := s[..|s| - 2];
      HexIsUnique(front);
      PairUnique(s[|s| - 2], s[|s| - 1]);
      HexOfSnoc(BytesOf(front), ByteOfPair(s[|s| - 2], s[|s| - 1]));
      assert s == front + [s[|s| - 2], s[|s| - 1]];
    }
  }

  lemma NoBytes()
    ensures HexOf([]) == ""
  {
  }

  lemma DigitOfNibble(c: char)
    requires IsHexDigit(c)
    ensures HexDigit(Nibble(c)) == c
  {
  }

  type MacHex = s: string | |s| == 64 && AllHex(s) witness seq(64, _ => '0')

  /** The keyed MAC of a region as the device computes it: any deterministic function to 64 hex
      characters, or a failure. */
  type Mac = string -> Option<MacHex>

  /** The same MAC as the tools print it: `hmac(...).hexdigest()` under the delivery key. */
  type Tag = string -> MacHex

  // ---- decimal ----

  predicate IsDigit(c: char) {
    '0' <= c <= '9'
  }

  predicate AllDigits(s: string) {
    forall i :: 0 <= i < |s| ==> IsDigit(s[i])
  }

  function DigitValue(c: char): (d: nat)
    requires IsDigit(c)
    ensures d < 10
  {
    c as int - '0' as int
  }

  /** The number a run of digits denotes. */
  function Value(s: string): nat
    requires AllDigits(s)
  {
    if s == "" then 0 else 10 * Value(s[..|s| - 1]) + DigitValue(s[|s| - 1])
  }

  lemma EmptyValue()
    ensures AllDigits("") && Value("") == 0
  {
  }

  /** A natural number in decimal, without leading zeros. */
  function Decimal(n: nat): (s: string)
    ensures s != "" && AllDigits(s)
  {
    var d := ('0' as int + n % 10) as char;
    if n < 10 then [d] else Decimal(n / 10) + [d]
  }

  /** Python's `str` of an integer. */
  function Printed(n: int): string {
    if n < 0 then "-" + Decimal(-n) else Decimal(n)
  }

  lemma {:induction false} ValueOfDecimal(n: nat)
    ensures Value(Decimal(n)) == n
  {
    var s := Decimal(n);
    if n < 10 {
      assert s[..0] == "";
    } else {
      ValueOfDecimal(n / 10);
      assert s[..|s| - 1] == Decimal(n / 10);
    }
  }

  function Pow10(k: nat): nat {
    if k == 0 then 1 else 10 * Pow10(k - 1)
  }

  lemma {:induction false} ValueBound(s: string)
    requires AllDigits(s)
    ensures Value(s) < Pow10(|s|)
  {
    if s == "" {
    } else {
      ValueBound(s[..|s| - 1]);
    }
  }

  lemma {:induction false} DecimalLength(n: nat, k: nat)
    requires k > 0 && n < Pow10(k)
    ensures |Decimal(n)| <= k
  {
    if n < 10 {
    } else {
      DecimalLength(n / 10, k - 1);
    }
  }

  lemma Pow10Values()
    ensures Pow10(19) == 10_000_000_000_000_000_000
    ensures Pow10(20) == 100_000_000_000_000_000_000
  {
    assert Pow10(5) == 100_000;
    assert Pow10(10) == 10_000_000_000;
    assert Pow10(15) == 1_000_000_000_000_000;
  }

  lemma {:induction false} Pow10Grows(a: nat, b: nat)
    requires a <= b
    ensures Pow10(a) <= Pow10(b)
    decreases b
  {
    if a == b {
    } else {
      Pow10Grows(a, b - 1);
    }
  }

  // ---- fields ----

  /** No field holds the separator. */
  predicate Free(s: string, sep: char) {
    forall i :: 0 <= i < |s| ==> s[i] != sep
  }

  /** Where the first separator is at or after `i`, or the end. */
  function Cut(s: string, sep: char, i: nat): (c: nat)
    requires i <= |s|
    ensures i <= c <= |s|
    ensures c < |s| ==> s[c] == sep
    ensures forall k :: i <= k < c ==> s[k] != sep
    decreases |s| - i
  {
    if i == |s| || s[i] == sep then i else Cut(s, sep, i + 1)
  }

  /** The text from `i` on, split at every separator. */
  function SplitFrom(s: string, sep: char, i: nat): (f: seq<string>)
    requires i <= |s|
    ensures |f| > 0
    decreases |s| - i
  {
    var c := Cut(s, sep, i);
    if c == |s| then [s[i..]] else [s[i..c]] + SplitFrom(s, sep, c + 1)
  }

  function Split(s: string, sep: char): (f: seq<string>)
    ensures |f| > 0
  {
    SplitFrom(s, sep, 0)
  }

  function Join(f: seq<string>, sep: char): string
    requires |f| > 0
  {
    if |f| == 1 then f[0] else f[0] + [sep] + Join(f[1..], sep)
  }

  /** The field that starts at `start` and ends at `i`. */
  lemma FieldEnds(s: string, sep: char, start: nat, i: nat)
    requires start <= i <= |s| && (i < |s| ==> s[i] == sep)
    requires forall k :: start <= k < i ==> s[k] != sep
    ensures SplitFrom(s, sep, start) == [s[start..i]] + if i == |s| then [] else SplitFrom(s, sep, i + 1)
  {
    hide Cut;
    CutIs(s, sep, start, i);
    assert i == |s| ==> s[start..i] == s[start..];
  }

  /** The splitting loop both parsers use: succeed on exactly `n` fields. */
  method SplitFields(s: string, sep: char, n: nat) returns (f: Option<seq<string>>)
    requires n > 0
    ensures f == if |Split(s, sep)| == n then Some(Split(s, sep)) else None
  {
    hide Cut, SplitFrom;
    var fields: seq<string> := [];
    var start := 0;
    for i := 0 to |s| + 1
      invariant 0 <= start <= i
      invariant if start <= |s| then Split(s, sep) == fields + SplitFrom(s, sep, start) else Split(s, sep) == fields
      invariant i > |s| ==> start > |s|
      invariant forall k :: start <= k < i && k < |s| ==> s[k] != sep
      invariant |fields| <= n
    {
      if i == |s| || s[i] == sep {
        FieldEnds(s, sep, start, i);
        if |fields| >= n {
          return None;
        }
        fields := fields + [s[start..i]];
        start := i + 1;
      }
    }
    f := if |fields| == n then Some(fields) else None;
  }

  lemma {:induction false} CutIs(s: string, sep: char, i: nat, c: nat)
    requires i <= c <= |s| && (c < |s| ==> s[c] == sep)
    requires forall k :: i <= k < c ==> s[k] != sep
    ensures Cut(s, sep, i) == c
    decreases c - i
  {
    if i == c {
    } else {
      CutIs(s, sep, i + 1, c);
    }
  }

  lemma JoinCons(h: string, rest: seq<string>, sep: char)
    requires |rest| > 0
    ensures Join([h] + rest, sep) == h + [sep] + Join(rest, sep)
  {
    assert ([h] + rest)[1..] == rest;
  }

  lemma {:induction false} JoinConcat(f: seq<string>, g: seq<string>, sep: char)
    requires |f| > 0 && |g| > 0
    ensures Join(f + g, sep) == Join(f, sep) + [sep] + Join(g, sep)
  {
    if |f| == 1 {
      assert f == [f[0]];
      JoinCons(f[0], g, sep);
    } else {
      assert f + g == [f[0]] + (f[1..] + g);
      JoinConcat(f[1..], g, sep);
      JoinCons(f[0], f[1..] + g, sep);
    }
  }

  lemma {:induction false} JoinSplitFrom(s: string, sep: char, i: nat)
    requires i <= |s|
    ensures Join(SplitFrom(s, sep, i), sep) == s[i..]
    decreases |s| - i
  {
    hide Join, Cut;
    var c := Cut(s, sep, i);
    if c < |s| {
      JoinSplitFrom(s, sep, c + 1);
      JoinCons(s[i..c], SplitFrom(s, sep, c + 1), sep);
      assert s[i..] == s[i..c] + [sep] + s[c + 1..];
    } else {
      JoinOne(s[i..], sep);
    }
  }

  lemma JoinOne(h: string, sep: char)
    ensures Join([h], sep) == h
  {
  }

  /** Splitting loses nothing. */
  lemma JoinSplit(s: string, sep: char)
    ensures Join(Split(s, sep), sep) == s
  {
    JoinSplitFrom(s, sep, 0);
    assert s[0..] == s;
  }

  lemma {:induction false} FieldsFree(s: string, sep: char, i: nat, k: nat)
    requires i <= |s| && k < |SplitFrom(s, sep, i)|
    ensures Free(SplitFrom(s, sep, i)[k], sep)
    decreases |s| - i
  {
    var c := Cut(s, sep, i);
    if c < |s| && k > 0 {
      FieldsFree(s, sep, c + 1, k - 1);
    }
  }

  lemma {:induction false} SplitShift(p: string, s: string, sep: char, i: nat)
    requires i <= |s|
    ensures SplitFrom(p + s, sep, |p| + i) == SplitFrom(s, sep, i)
    decreases |s| - i
  {
    hide SplitFrom;
    var c := Cut(s, sep, i);
    var t := p + s;
    forall k | |p| + i <= k < |p| + c
      ensures t[k] != sep
    {
      assert t[k] == s[k - |p|];
    }
    FieldEnds(s, sep, i, c);
    FieldEnds(t, sep, |p| + i, |p| + c);
    assert t[|p| + i..|p| + c] == s[i..c];
    if c == |s| {
    } else {
      SplitShift(p, s, sep, c + 1);
    }
  }

  /** Joining separator-free fields and splitting gives them back. */
  lemma {:induction false} SplitJoin(f: seq<string>, sep: char)
    requires |f| > 0 && forall k :: 0 <= k < |f| ==> Free(f[k], sep)
    ensures Split(Join(f, sep), sep) == f
  {
    hide Cut;
    var s := Join(f, sep);
    if |f| == 1 {
      CutIs(s, sep, 0, |s|);
      assert s[0..] == s;
      assert f == [s];
    } else {
      SplitJoin(f[1..], sep);
      SplitCons(f[0], Join(f[1..], sep), sep);
      assert f == [f[0]] + f[1..];
    }
  }

  lemma SplitCons(h: string, t: string, sep: char)
    requires Free(h, sep)
    ensures Split(h + [sep] + t, sep) == [h] + Split(t, sep)
  {
    hide SplitFrom;
    var s := h + [sep] + t;
    FieldEnds(s, sep, 0, |h|);
    SplitShift(h + [sep], t, sep, 0);
    assert s[0..|h|] == h;
  }

  /** Splitting either side of a separator. */
  lemma SplitConcat(a: string, b: string, sep: char)
    ensures Split(a + [sep] + b, sep) == Split(a, sep) + Split(b, sep)
  {
    hide Split, Join;
    JoinSplit(a, sep);
    JoinSplit(b, sep);
    SplitIsFree(a, sep);
    SplitIsFree(b, sep);
    JoinConcat(Split(a, sep), Split(b, sep), sep);
    SplitJoin(Split(a, sep) + Split(b, sep), sep);
  }

  lemma SplitIsFree(line: string, sep: char)
    ensures forall k :: 0 <= k < |Split(line, sep)| ==> Free(Split(line, sep)[k], sep)
  {
    hide Free, SplitFrom;
    forall k | 0 <= k < |Split(line, sep)|
      ensures Free(Split(line, sep)[k], sep)
    {
      FieldsFree(line, sep, 0, k);
    }
  }

  lemma HexIsFree(s: string, sep: char)
    requires AllHex(s) && !IsHexDigit(sep)
    ensures Free(s, sep)
  {
  }

  lemma DigitsAreFree(s: string, sep: char)
    requires AllDigits(s) && !IsDigit(sep)
    ensures Free(s, sep)
    ensures s != "" ==> s[0] != '-'
  {
  }

  lemma {:induction false} JoinLength(f: seq<string>, sep: char, bound: nat)
    requires |f| > 0 && forall k :: 0 <= k < |f| ==> |f[k]| <= bound
    ensures |Join(f, sep)| <= |f| * (bound + 1) - 1
  {
    if |f| == 1 {
    } else {
      JoinLength(f[1..], sep, bound);
    }
  }
}
