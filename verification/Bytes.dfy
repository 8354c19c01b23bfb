/** Bytes, 32-bit words and their little-endian layout.

    A byte of memory is an integer in `0..255`, a `uint32_t` one in `0..WORD-1`; every place
    where the firmware lets one wrap is written out with `% WORD`. */
module Bytes {

  const WORD: int := 0x1_0000_0000
  const HALF_WORD: int := 0x8000_0000

  const I64_MAX: int := 0x7FFF_FFFF_FFFF_FFFF

  type byte = x: int | 0 <= x < 0x100
  type u32 = x: int | 0 <= x < 0x1_0000_0000

  datatype Option<+T> = None | Some(value: T)

  /** `(int32_t)(a - b) > 0`: is `a` ahead of `b` on the 32-bit circle? */
  predicate Ahead(a: u32, b: u32) {
    0 < (a - b) % WORD < HALF_WORD
  }

  /** The four bytes `put32` stores, lowest first. */
  function Put32(v: u32): (p: seq<byte>)
    ensures |p| == 4
  {
    var n0: int := v;
    var n1 := n0 / 0x100;
    var n2 := n1 / 0x100;
    var n3 := n2 / 0x100;
    [n0 % 0x100, n1 % 0x100, n2 % 0x100, n3]
  }

  /** The word `get32` reads back. */
  function Get32(p: seq<byte>): u32
    requires |p| == 4
  {
    var a: int, b: int, c: int, d: int := p[0], p[1], p[2], p[3];
    a + 0x100 * (b + 0x100 * (c + 0x100 * d))
  }

  lemma GetPut32(v: u32)
    ensures Get32(Put32(v)) == v
  {
  }

  /** The lowest byte comes first. */
  lemma LittleEndian(v: u32)
    ensures var a: int, b: int, c: int, d: int := Put32(v)[0], Put32(v)[1], Put32(v)[2], Put32(v)[3];
            v == a + 0x100 * b + 0x1_0000 * c + 0x100_0000 * d
  {
    GetPut32(v);
  }

  lemma PutGet32(p: seq<byte>)
    requires |p| == 4
    ensures Put32(Get32(p)) == p
  {
    var a: int, b: int, c: int, d: int := p[0], p[1], p[2], p[3];
    assert (a + 0x100 * (b + 0x100 * (c + 0x100 * d))) / 0x100 == b + 0x100 * (c + 0x100 * d);
    assert (b + 0x100 * (c + 0x100 * d)) / 0x100 == c + 0x100 * d;
  }

  /** Stores a word into a record buffer at `at`, as `put32` does. */
  method StoreWord(buf: array<byte>, at: nat, v: u32)
    requires at + 4 <= buf.Length
    modifies buf
    ensures buf[..at + 4] == old(buf[..at]) + Put32(v)
    ensures forall k :: at + 4 <= k < buf.Length ==> buf[k] == old(buf[k])
  {
    var p := Put32(v);
    buf[at] := p[0];
    buf[at + 1] := p[1];
    buf[at + 2] := p[2];
    buf[at + 3] := p[3];
  }

  /** Copies `data` into a buffer at `at`, as `memcpy` does. */
  method StoreBytes(buf: array<byte>, at: nat, data: seq<byte>)
    requires at + |data| <= buf.Length
    modifies buf
    ensures buf[..at + |data|] == old(buf[..at]) + data
    ensures forall k :: at + |data| <= k < buf.Length ==> buf[k] == old(buf[k])
  {
    forall k | 0 <= k < |data| {
      buf[at + k] := data[k];
    }
  }

  /** `n` copies of one byte. */
  function Run(v: byte, n: nat): (p: seq<byte>)
    ensures |p| == n && forall i :: 0 <= i < n ==> p[i] == v
  {
    seq(n, _ => v)
  }

  /** `memset` over a whole buffer. */
  method Fill(buf: array<byte>, v: byte)
    modifies buf
    ensures buf[..] == Run(v, buf.Length)
  {
    forall k | 0 <= k < buf.Length {
      buf[k] := v;
    }
  }
}
