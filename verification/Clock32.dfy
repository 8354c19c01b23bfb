/** The 32-bit millisecond clock against real time, which never wraps. */
module Clock32 {
  import opened Bytes

  /** What the clock reads at a real time. */
  function Clock(t: nat): u32 {
    t % WORD
  }

  /** `(uint32_t)(now - since) >= span`. */
  predicate Elapsed(now: u32, since: u32, span: nat) {
    (now - since) % WORD >= span
  }

  /** `(int32_t)(deadline - now) <= 0`. */
  predicate Reached(deadline: u32, now: u32) {
    !Ahead(deadline, now)
  }

  /** A deadline `d` milliseconds from a reading. */
  function Later(now: u32, d: nat): u32 {
    (now + d) % WORD
  }

  lemma ModShift(x: int, k: int)
    ensures (x + WORD * k) % WORD == x % WORD
  {
    var r, m := x % WORD, x / WORD;
    assert x + WORD * k == WORD * (m + k) + r;
  }

  /** The 32-bit difference of two readings is their real difference, modulo the wrap. */
  lemma Difference(a: nat, b: nat)
    ensures (Clock(b) - Clock(a)) % WORD == (b - a) % WORD
  {
    var p, q := a / WORD, b / WORD;
    assert a == WORD * p + Clock(a) && b == WORD * q + Clock(b);
    ModShift(Clock(b) - Clock(a), q - p);
  }

  lemma LaterIsClock(t: nat, d: nat)
    ensures Later(Clock(t), d) == Clock(t + d)
  {
    assert t == WORD * (t / WORD) + Clock(t);
    ModShift(Clock(t) + d, t / WORD);
  }

  lemma Residue(d: nat)
    ensures d % WORD <= d
    ensures d < WORD ==> d % WORD == d
  {
  }

  /** A 32-bit span that long is a real span that long. */
  lemma ElapsedIsReal(a: nat, b: nat, span: nat)
    requires a <= b && Elapsed(Clock(b), Clock(a), span)
    ensures b - a >= span
  {
    Difference(a, b);
    Residue(b - a);
  }

  /** And conversely, until the clock has gone all the way round. */
  lemma ElapsedExactly(a: nat, b: nat, span: nat)
    requires a <= b < a + WORD
    ensures Elapsed(Clock(b), Clock(a), span) <==> b - a >= span
  {
    Difference(a, b);
    Residue(b - a);
  }

  /** A deadline `d` milliseconds after `t` reads as still to come at `u`. */
  predicate ReadsAhead(t: nat, d: nat, u: nat) {
    0 < (t + d - u) % WORD < HALF_WORD
  }

  /** At any time, a deadline reads as reached unless it reads as still to come. */
  lemma ReachedAlways(t: nat, d: nat, u: nat)
    ensures Reached(Later(Clock(t), d), Clock(u)) <==> !ReadsAhead(t, d, u)
  {
    LaterIsClock(t, d);
    Difference(u, t + d);
  }

  /** A deadline less than half the circle away reads as reached exactly when it is, for half a
      circle after it. */
  lemma ReachedExactly(t: nat, d: nat, u: nat)
    requires t <= u <= t + d + HALF_WORD && d < HALF_WORD
    ensures Reached(Later(Clock(t), d), Clock(u)) <==> u - t >= d
  {
    ReachedAlways(t, d, u);
    var x := t + d - u;
    if x < 0 {
      ModShift(x, 1);
    }
  }

  /** However long it has been, a deadline cannot read as reached before its time. */
  lemma NotReachedEarly(t: nat, d: nat, u: nat)
    requires t <= u && d < HALF_WORD
    requires Reached(Later(Clock(t), d), Clock(u))
    ensures u >= t + d
  {
    if u < t + d {
      ReachedExactly(t, d, u);
      assert false;
    }
  }

  /** For half a turn of the clock past the deadline, "still to come" is the truth. */
  lemma ReadsAheadInTime(t: nat, d: nat, r: nat)
    requires t <= r <= t + d + HALF_WORD && d < HALF_WORD
    ensures ReadsAhead(t, d, r) <==> r < t + d
  {
    ReachedAlways(t, d, r);
    ReachedExactly(t, d, r);
  }

  /** One millisecond later, and for the other half turn, it is not. */
  lemma ReadsAheadAgain(t: nat, d: nat)
    ensures ReadsAhead(t, d, t + d + HALF_WORD + 1)
  {
    ModShift(-HALF_WORD - 1, 1);
  }
}
