/** Debounce, ghost blocking and long press for the 4x4 keypad matrix. */
module KeypadLogic {
  import opened Bytes
  import opened Clock32

  const DEBOUNCE_MS := 15
  const LONGPRESS_MS := 1500

  /** A 16-bit scan bitmap, as the set of the bits that are on. */
  type Bitmap = s: set<nat> | forall k :: k in s ==> k < 16 witness {}

  datatype Event = Press(key: char) | LongPress(key: char)

  const KEYS := "123A456B789C*0#D"

  function KeyChar(k: nat): char
    requires k < 16
  {
    KEYS[k]
  }

  lemma KeyCharInjective(a: nat, b: nat)
    requires a < 16 && b < 16 && KeyChar(a) == KeyChar(b)
    ensures a == b
  {
  }

  /** The layout of the pad: the digits in rows of three, the letters down the right, and the bottom row. */
  lemma KeyCharLayout(row: nat, col: nat)
    requires row < 4 && col < 4
    ensures KeyChar(4 * row + col) ==
            if col == 3 then ('A' as int + row) as char
            else if row < 3 then ('1' as int + 3 * row + col) as char
            else if col == 0 then '*' else if col == 1 then '0' else '#'
  {
  }

  /** `kp_logic_t`.  `held` is -1 when no key is held. */
  datatype Keypad = Keypad(
    stable: Bitmap,
    candidate: Bitmap,
    candidateSinceMs: u32,
    pending: bool,
    pressStartedMs: u32,
    held: int,
    longFired: bool,
    ghostBlocked: bool)

  const RELEASED := Keypad({}, {}, 0, false, 0, -1, false, false)

  /** The lowest bit set at or above `i`, or -1. */
  function LowestFrom(v: Bitmap, i: nat): (r: int)
    requires i <= 16
    ensures -1 <= r < 16
    ensures 0 <= r ==> r in v
    ensures forall k :: i <= k < 16 && k in v ==> 0 <= r <= k
    decreases 16 - i
  {
    if i == 16 then -1 else if i in v then i else LowestFrom(v, i + 1)
  }

  /** Ghosting: more than one key blocks interpretation until everything is released. */
  function GhostChecked(st: Keypad, raw: Bitmap): Keypad {
    if |raw| > 1 then st.(ghostBlocked := true) else if raw == {} then st.(ghostBlocked := false) else st
  }

  /** The bitmap just accepted: press the lowest newly-down key, or note the release. */
  function Accepted(st: Keypad, now: u32): (Keypad, seq<Event>) {
    var down: Bitmap := st.candidate - st.stable;
    var idx := LowestFrom(down, 0);
    var t := st.(stable := st.candidate, pending := false);
    var u := if down == {} then t else t.(held := idx, pressStartedMs := now, longFired := false);
    (if u.stable == {} then u.(held := -1, longFired := false) else u,
     if 0 <= idx then [Press(KeyChar(idx))] else [])
  }

  /** Debounce: a bitmap must hold steady before it is accepted. */
  function Debounced(st: Keypad, raw: Bitmap, now: u32): (Keypad, seq<Event>) {
    if raw == st.stable then (st.(pending := false), [])
    else if !st.pending || raw != st.candidate then
      (st.(candidate := raw, candidateSinceMs := now, pending := true), [])
    else if Elapsed(now, st.candidateSinceMs, DEBOUNCE_MS) then Accepted(st, now)
    else (st, [])
  }

  /** The long press of the held key, once. */
  function LongChecked(st: Keypad, now: u32): (Keypad, seq<Event>) {
    if 0 <= st.held < 16 && !st.longFired && Elapsed(now, st.pressStartedMs, LONGPRESS_MS)
    then (st.(longFired := true), [LongPress(KeyChar(st.held))])
    else (st, [])
  }

  /** One scan, the event buffer being large enough. */
  function Updated(st: Keypad, raw: Bitmap, now: u32): (Keypad, seq<Event>) {
    var g := GhostChecked(st, raw);
    var seen: Bitmap := if g.ghostBlocked then {} else raw;
    var (d, e) := Debounced(g, seen, now);
    var (l, f) := LongChecked(d, now);
    (l, e + f)
  }

  class KeypadMachine {
    var stable: Bitmap
    var candidate: Bitmap
    var candidateSinceMs: u32
    var pending: bool
    var pressStartedMs: u32
    var held: int
    var longFired: bool
    var ghostBlocked: bool

    function Value(): Keypad
      reads this
    {
      Keypad(stable, candidate, candidateSinceMs, pending, pressStartedMs, held, longFired, ghostBlocked)
    }

    ghost predicate Valid()
      reads this
    {
      -1 <= held < 16
    }

    constructor ()
      ensures Valid() && Value() == RELEASED
    {
      stable, candidate, candidateSinceMs, pending := {}, {}, 0, false;
      pressStartedMs, held, longFired, ghostBlocked := 0, -1, false, false;
    }

    /** `popcount16`: clear the lowest set bit until none is left. */
    static method PopCount(v: Bitmap) returns (n: nat)
      ensures n == |v|
    {
      n := 0;
      var rest := v;
      while rest != {}
        invariant n + |rest| == |v|
        decreases rest
      {
        var low := LowestSetIndex(rest);
        rest := rest - {low};
        n := n + 1;
      }
    }

    static method LowestSetIndex(v: Bitmap) returns (r: int)
      ensures r == LowestFrom(v, 0)
      ensures v != {} ==> r in v
    {
      r := -1;
      for i := 0 to 16
        invariant LowestFrom(v, 0) == LowestFrom(v, i)
        invariant forall k :: 0 <= k < i ==> k !in v
      {
        if i in v {
          return i;
        }
      }
    }

    /** `kp_logic_update`: events are written while there is room for them. */
    method Update(scan: Bitmap, now: u32, cap: nat) returns (out: seq<Event>)
      requires Valid()
      modifies this
      ensures Valid()
      ensures cap == 0 ==> out == [] && Value() == old(Value())
      ensures cap > 0 ==> (Value(), out) == Updated(old(Value()), scan, now)
    {
      out := [];
      if cap == 0 {
        return;
      }
      var raw: Bitmap := scan;
      var count := PopCount(raw);
      if count > 1 {
        ghostBlocked := true;
      } else if raw == {} {
        ghostBlocked := false;
      }
      if ghostBlocked {
        raw := {};
      }
      assert Value() == GhostChecked(old(Value()), scan);
      out := Debounce(raw, now, cap);
      assert !Elapsed(now, now, LONGPRESS_MS);
      assert out + [] == out;
      if 0 <= held && !longFired && Elapsed(now, pressStartedMs, LONGPRESS_MS) {
        longFired := true;
        if |out| < cap {
          out := out + [LongPress(KeyChar(held))];
        }
      }
    }

    method Debounce(raw: Bitmap, now: u32, cap: nat) returns (out: seq<Event>)
      requires Valid() && cap > 0
      modifies this
      ensures Valid()
      ensures (Value(), out) == Debounced(old(Value()), raw, now)
      ensures |out| <= 1 && (out != [] ==> held >= 0 && !longFired && pressStartedMs == now)
    {
      out := [];
      if raw != stable {
        if !pending || raw != candidate {
          candidate := raw;
          candidateSinceMs := now;
          pending := true;
        } else if Elapsed(now, candidateSinceMs, DEBOUNCE_MS) {
          var previous := stable;
          stable := candidate;
          pending := false;
          var newlyDown: Bitmap := stable - previous;
          if newlyDown != {} {
            var idx := LowestSetIndex(newlyDown);
            held := idx;
            pressStartedMs := now;
            longFired := false;
            out := [Press(KeyChar(idx))];
          }
          if stable == {} {
            held := -1;
            longFired := false;
          }
        }
      } else {
        pending := false;
      }
    }
  }
}
