/** The slot table, the attempt counter and the decision. */
module AccessCore {
  import opened Bits
  import opened Bytes

  const HASH_LEN := 32
  const ID_LEN := 9
  const CODE_LEN := 9
  const TRANSIENT_MAX_S := 900

  type Hash = h: seq<byte> | |h| == 32 witness Run(0, 32)

  const ZERO_HASH: Hash := Run(0, 32)

  /** Eight-bit characters, none of them NUL: what a C string can hold. */
  predicate CText(s: string) {
    forall i :: 0 <= i < |s| ==> 0 < s[i] as int < 0x100
  }

  type CString = s: string | CText(s) witness ""

  /** The C string a nine-byte id field can hold. */
  type IdText = s: CString | |s| <= 8 witness ""

  /** A code slot. */
  datatype Slot = Slot(occupied: bool, transient: bool, id: IdText, hash: Hash, validFrom: int, validUntil: int)

  const EMPTY := Slot(false, false, "", ZERO_HASH, 0, 0)

  type Table = t: seq<Slot> | |t| == 5 witness [EMPTY, EMPTY, EMPTY, EMPTY, EMPTY]

  const EMPTY_TABLE: Table := [EMPTY, EMPTY, EMPTY, EMPTY, EMPTY]

  datatype Verdict = Granted | Unknown | NotYet | Expired | Lockout | NoClock

  /** Everything `ac_ctx_t` holds. */
  datatype Access = Access(
    slots: Table,
    clockTrusted: bool,
    failedAttempts: byte,
    lockoutUntil: int,
    maxFailedAttempts: byte,
    lockoutSeconds: int)

  // ---- the table ----

  /** The first occupied slot at or after `i` whose id is exactly `id`, or -1. */
  function FindFrom(t: Table, id: CString, i: nat): (r: int)
    requires i <= 5
    ensures -1 <= r < 5
    ensures 0 <= r ==> i <= r && t[r].occupied && t[r].id == id
    ensures forall k :: i <= k < 5 && t[k].occupied && t[k].id == id ==> 0 <= r <= k
    decreases 5 - i
  {
    if i == 5 then -1
    else if t[i].occupied && t[i].id == id then i
    else FindFrom(t, id, i + 1)
  }

  function FindById(t: Table, id: CString): int {
    FindFrom(t, id, 0)
  }

  /** The first free slot at or after `i`, or -1. */
  function FreeFrom(t: Table, i: nat): (r: int)
    requires i <= 5
    ensures -1 <= r < 5
    ensures 0 <= r ==> i <= r && !t[r].occupied
    ensures forall k :: i <= k < 5 && !t[k].occupied ==> 0 <= r <= k
    decreases 5 - i
  {
    if i == 5 then -1
    else if !t[i].occupied then i
    else FreeFrom(t, i + 1)
  }

  /** `strncpy` into the id field keeps at most eight characters. */
  function Truncated(id: CString): IdText {
    if |id| <= 8 then id else id[..8]
  }

  /** Where an upsert lands: the slot already holding the id, else the first free one, else -1. */
  function Target(t: Table, id: CString): (r: int)
    ensures -1 <= r < 5
  {
    var held := FindById(t, id);
    if 0 <= held then held else FreeFrom(t, 0)
  }

  /** `upsert`: the new table and the slot index, -1 when refused. */
  function Upserted(t: Table, id: CString, hash: Hash, validFrom: int, validUntil: int, transient: bool): (Table, int) {
    if id == "" || validUntil <= validFrom || Target(t, id) < 0 then (t, -1)
    else
      var idx := Target(t, id);
      (t[idx := Slot(true, transient, Truncated(id), hash, validFrom, validUntil)], idx)
  }

  /** The clamp of `ac_upsert_transient`. */
  function ClampedUntil(validFrom: int, validUntil: int): int {
    if validUntil > validFrom + TRANSIENT_MAX_S then validFrom + TRANSIENT_MAX_S else validUntil
  }

  function Revoked(t: Table, id: CString): (Table, bool) {
    var idx := FindById(t, id);
    if idx < 0 then (t, false) else (t[idx := EMPTY], true)
  }

  /** The table with every slot below `n` that `gone` marks emptied. */
  function ClearedWhere(t: Table, gone: seq<bool>, n: nat): (r: Table)
    requires |gone| == 5 && n <= 5
    ensures forall k :: 0 <= k < 5 ==> r[k] == if k < n && gone[k] then EMPTY else t[k]
  {
    if n == 0 then t
    else
      var r := ClearedWhere(t, gone, n - 1);
      if gone[n - 1] then r[n - 1 := EMPTY] else r
  }

  /** How many of the first `n` marks are set. */
  function Count(marks: seq<bool>, n: nat): nat
    requires n <= |marks|
  {
    if n == 0 then 0 else Count(marks, n - 1) + if marks[n - 1] then 1 else 0
  }

  function TransientMarks(t: Table): seq<bool> {
    seq(5, i requires 0 <= i < 5 => t[i].occupied && t[i].transient)
  }

  function ExpiredMarks(t: Table, now: int): seq<bool> {
    seq(5, i requires 0 <= i < 5 => t[i].occupied && t[i].validUntil < now)
  }

  // ---- the counter ----

  predicate LockedOut(a: Access, now: int) {
    a.lockoutUntil > now
  }

  function Ticked(a: Access, now: int): Access {
    if a.lockoutUntil != 0 && a.lockoutUntil <= now then a.(lockoutUntil := 0, failedAttempts := 0) else a
  }

  function FailureRegistered(a: Access, now: int): Access {
    var failed: byte := if a.failedAttempts < 255 then a.failedAttempts + 1 else a.failedAttempts;
    if a.maxFailedAttempts > 0 && failed >= a.maxFailedAttempts
    then a.(failedAttempts := failed, lockoutUntil := now + a.lockoutSeconds)
    else a.(failedAttempts := failed)
  }

  // ---- the decision ----

  /** The highest occupied slot below `n` holding this hash, or -1. */
  function LastMatch(t: Table, hash: Hash, n: nat): (r: int)
    requires n <= 5
    ensures -1 <= r < n
    ensures 0 <= r ==> t[r].occupied && t[r].hash == hash
    ensures forall k :: 0 <= k < n && t[k].occupied && t[k].hash == hash ==> k <= r
  {
    if n == 0 then -1
    else if t[n - 1].occupied && t[n - 1].hash == hash then n - 1
    else LastMatch(t, hash, n - 1)
  }

  /** `ac_evaluate`: the new context, the verdict, and the matched slot, -1 when none is granted. */
  function Evaluated(a: Access, hash: Hash, now: int): (Access, Verdict, int) {
    if !a.clockTrusted then (a, NoClock, -1)
    else
      var b := Ticked(a, now);
      if LockedOut(b, now) then (b, Lockout, -1)
      else
        var m := LastMatch(b.slots, hash, 5);
        if m < 0 then (FailureRegistered(b, now), Unknown, -1)
        else if now < b.slots[m].validFrom then (b, NotYet, -1)
        else if now > b.slots[m].validUntil then (b, Expired, -1)
        else (b.(failedAttempts := 0, lockoutUntil := 0), Granted, m)
  }

  /** The constant-time comparison is equality. */
  method CtEqual(a: seq<byte>, b: seq<byte>, n: nat) returns (same: bool)
    requires n <= |a| && n <= |b|
    ensures same <==> a[..n] == b[..n]
  {
    var diff := ZEROS;
    for i := 0 to n
      invariant diff == ZEROS <==> a[..i] == b[..i]
    {
      hide BitsOf;
      XorZero(a[i], b[i]);
      diff := Or8(diff, Xor8(BitsOf(a[i]), BitsOf(b[i])));
      assert a[..i + 1] == a[..i] + [a[i]] && b[..i + 1] == b[..i] + [b[i]];
    }
    same := diff == ZEROS;
  }

  class AccessContext {
    var slots: Table
    var clockTrusted: bool
    var failedAttempts: byte
    var lockoutUntil: int
    var maxFailedAttempts: byte
    var lockoutSeconds: int

    function Value(): Access
      reads this
    {
      Access(slots, clockTrusted, failedAttempts, lockoutUntil, maxFailedAttempts, lockoutSeconds)
    }

    constructor (maxFailed: byte, lockSeconds: int)
      ensures Value() == Access(EMPTY_TABLE, false, 0, 0, maxFailed, lockSeconds)
    {
      slots := EMPTY_TABLE;
      clockTrusted := false;
      failedAttempts := 0;
      lockoutUntil := 0;
      maxFailedAttempts := maxFailed;
      lockoutSeconds := lockSeconds;
    }

    method RestoreAttempts(failed: byte, until: int)
      modifies this
      ensures Value() == old(Value()).(failedAttempts := failed, lockoutUntil := until)
    {
      failedAttempts := failed;
      lockoutUntil := until;
    }

    function IsLockedOut(now: int): bool
      reads this
    {
      lockoutUntil > now
    }

    method Tick(now: int)
      modifies this
      ensures Value() == Ticked(old(Value()), now)
    {
      if lockoutUntil != 0 && lockoutUntil <= now {
        lockoutUntil := 0;
        failedAttempts := 0;
      }
    }

    method Find(id: CString) returns (r: int)
      ensures r == FindById(slots, id)
    {
      r := -1;
      for i := 0 to 5
        invariant FindById(slots, id) == FindFrom(slots, id, i)
      {
        if slots[i].occupied && slots[i].id == id {
          return i;
        }
      }
    }

    method FindFree() returns (r: int)
      ensures r == FreeFrom(slots, 0)
    {
      r := -1;
      for i := 0 to 5
        invariant FreeFrom(slots, 0) == FreeFrom(slots, i)
      {
        if !slots[i].occupied {
          return i;
        }
      }
    }

    method Upsert(id: CString, hash: Hash, validFrom: int, validUntil: int, transient: bool) returns (idx: int)
      modifies this
      ensures (slots, idx) == Upserted(old(slots), id, hash, validFrom, validUntil, transient)
      ensures Value() == old(Value()).(slots := slots)
    {
      if id == "" || validUntil <= validFrom {
        return -1;
      }
      idx := Find(id);
      if idx < 0 {
        idx := FindFree();
      }
      if idx < 0 {
        return;
      }
      slots := slots[idx := Slot(true, transient, Truncated(id), hash, validFrom, validUntil)];
    }

    method UpsertGuest(id: CString, hash: Hash, validFrom: int, validUntil: int) returns (idx: int)
      modifies this
      ensures (slots, idx) == Upserted(old(slots), id, hash, validFrom, validUntil, false)
      ensures Value() == old(Value()).(slots := slots)
    {
      idx := Upsert(id, hash, validFrom, validUntil, false);
    }

    method UpsertTransient(id: CString, hash: Hash, validFrom: int, validUntil: int) returns (idx: int)
      modifies this
      ensures (slots, idx) == Upserted(old(slots), id, hash, validFrom, ClampedUntil(validFrom, validUntil), true)
      ensures Value() == old(Value()).(slots := slots)
    {
      var until := validUntil;
      if until > validFrom + TRANSIENT_MAX_S {
        until := validFrom + TRANSIENT_MAX_S;
      }
      idx := Upsert(id, hash, validFrom, until, true);
    }

    method Revoke(id: CString) returns (removed: bool)
      modifies this
      ensures (slots, removed) == Revoked(old(slots), id)
      ensures Value() == old(Value()).(slots := slots)
    {
      var idx := Find(id);
      if idx < 0 {
        return false;
      }
      slots := slots[idx := EMPTY];
      removed := true;
    }

    method RevokeTransient() returns (n: nat)
      modifies this
      ensures slots == ClearedWhere(old(slots), TransientMarks(old(slots)), 5)
      ensures Value() == old(Value()).(slots := slots)
      ensures n == Count(TransientMarks(old(slots)), 5)
    {
      n := 0;
      ghost var was, marks := slots, TransientMarks(slots);
      for i := 0 to 5
        invariant slots == ClearedWhere(was, marks, i)
        invariant n == Count(marks, i)
        invariant Value() == old(Value()).(slots := slots)
      {
        if slots[i].occupied && slots[i].transient {
          slots := slots[i := EMPTY];
          n := n + 1;
        }
      }
    }

    method PurgeExpired(now: int) returns (n: nat)
      modifies this
      ensures slots == ClearedWhere(old(slots), ExpiredMarks(old(slots), now), 5)
      ensures Value() == old(Value()).(slots := slots)
      ensures n == Count(ExpiredMarks(old(slots), now), 5)
    {
      n := 0;
      ghost var was, marks := slots, ExpiredMarks(slots, now);
      for i := 0 to 5
        invariant slots == ClearedWhere(was, marks, i)
        invariant n == Count(marks, i)
        invariant Value() == old(Value()).(slots := slots)
      {
        if slots[i].occupied && slots[i].validUntil < now {
          slots := slots[i := EMPTY];
          n := n + 1;
        }
      }
    }

    method RegisterFailure(now: int)
      modifies this
      ensures Value() == FailureRegistered(old(Value()), now)
    {
      if failedAttempts < 255 {
        failedAttempts := failedAttempts + 1;
      }
      if maxFailedAttempts > 0 && failedAttempts >= maxFailedAttempts {
        lockoutUntil := now + lockoutSeconds;
      }
    }

    method Match(hash: Hash) returns (m: int)
      ensures m == LastMatch(slots, hash, 5)
    {
      m := -1;
      for i := 0 to 5
        invariant m == LastMatch(slots, hash, i)
      {
        var same := CtEqual(slots[i].hash, hash, HASH_LEN);
        assert slots[i].hash[..HASH_LEN] == slots[i].hash && hash[..HASH_LEN] == hash;
        if slots[i].occupied && same {
          m := i;
        }
      }
    }

    method Evaluate(hash: Hash, now: int) returns (v: Verdict, matched: int)
      modifies this
      ensures (Value(), v, matched) == Evaluated(old(Value()), hash, now)
    {
      matched := -1;
      if !clockTrusted {
        return NoClock, -1;
      }
      Tick(now);
      if IsLockedOut(now) {
        return Lockout, -1;
      }
      var m := Match(hash);
      if m < 0 {
        RegisterFailure(now);
        return Unknown, -1;
      }
      if now < slots[m].validFrom {
        return NotYet, -1;
      }
      if now > slots[m].validUntil {
        return Expired, -1;
      }
      failedAttempts := 0;
      lockoutUntil := 0;
      return Granted, m;
    }
  }
}
