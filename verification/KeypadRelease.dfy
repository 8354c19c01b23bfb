/** What a steady reading leads to from any reached state: keys let go, held on to, or rolled over. */
module KeypadRelease {
  import opened Bytes
  import opened Clock32
  import opened KeypadLogic
  import opened KeypadTrace

  /** Scans `n` to `i` all read `bits`. */
  ghost predicate Steady(scans: seq<Scan>, n: nat, i: nat, bits: Bitmap) {
    n <= i < |scans| && forall m :: n <= m <= i ==> scans[m].raw == bits
  }

  /** Since when a reading of `bits` that starts `now` counts as steady: since then, unless it was
      already the candidate. */
  function Since(st: Keypad, bits: Bitmap, now: u32): u32 {
    if st.pending && st.candidate == bits then st.candidateSinceMs else now
  }

  /** At some scan from `n` to `i` the debounce time after `since` reads as over. */
  ghost predicate SteadyLongEnough(scans: seq<Scan>, n: nat, i: nat, since: u32)
    requires i < |scans|
  {
    exists m :: n <= m <= i && Elapsed(Clock(scans[m].at), since, DEBOUNCE_MS)
  }

  /** What the debouncing sees of a scan: nothing while several keys block it. */
  function Sees(st: Keypad, raw: Bitmap): Bitmap {
    if |raw| > 1 || (st.ghostBlocked && raw != {}) then {} else raw
  }

  /** At each scan from `n` to `i` the debouncing sees `bits`. */
  ghost predicate SeesOnly(scans: seq<Scan>, n: nat, i: nat, bits: Bitmap) {
    n <= i < |scans| && forall m :: n <= m <= i ==> Sees(After(scans[..m]), scans[m].raw) == bits
  }

  lemma OneDebounce(g: Keypad, bits: Bitmap, now: u32)
    requires Shape(g)
    ensures var (d, e) := Debounced(g, bits, now);
            if g.stable == bits || Elapsed(now, Since(g, bits, now), DEBOUNCE_MS)
            then d.stable == bits && !d.pending
                 && (g.stable != bits && bits != {} ==>
                       0 <= d.held < 16 && e == [Press(KeyChar(d.held))] && d.pressStartedMs == now)
            else d.stable == g.stable && d.pending && d.candidate == bits
                 && d.candidateSinceMs == Since(g, bits, now)
  {
    hide LowestFrom;
    JustNow(now);
    if g.stable != bits && g.pending && g.candidate == bits && Elapsed(now, g.candidateSinceMs, DEBOUNCE_MS) {
      assert Debounced(g, bits, now) == Accepted(g, now);
      AcceptedShape(g, now);
      if bits != {} {
        assert Accepted(g, now).0.stable == bits;
      }
    }
  }

  lemma OneScan(st: Keypad, raw: Bitmap, now: u32)
    requires Shape(st)
    ensures var (u, e) := Updated(st, raw, now);
            var bits := Sees(st, raw);
            if st.stable == bits || Elapsed(now, Since(st, bits, now), DEBOUNCE_MS)
            then u.stable == bits && !u.pending
                 && (st.stable != bits && bits != {} ==> 0 <= u.held < 16 && e == [Press(KeyChar(u.held))])
            else u.stable == st.stable && u.pending && u.candidate == bits
                 && u.candidateSinceMs == Since(st, bits, now)
  {
    hide Debounced, Shape;
    var g := GhostChecked(st, raw);
    var bits := Sees(st, raw);
    assert Shape(g) by {
      GhostKeepsShape(st, raw);
    }
    OneDebounce(g, bits, now);
    JustNow(now);
    var (d, e) := Debounced(g, bits, now);
    var (l, f) := LongChecked(d, now);
    assert Updated(st, raw, now) == (l, e + f);
    assert e + [] == e;
  }

  lemma GhostKeepsShape(st: Keypad, raw: Bitmap)
    requires Shape(st)
    ensures Shape(GhostChecked(st, raw))
  {
  }

  /** From any reached state, a steady reading is accepted exactly when it was already, or has been
      steady for the debounce time as the clock reads it. */
  lemma {:induction false} SteadyIsAccepted(scans: seq<Scan>, n: nat, i: nat, bits: Bitmap)
    requires SeesOnly(scans, n, i, bits)
    ensures var was, st := After(scans[..n]), After(scans[..i + 1]);
            var since := Since(was, bits, Clock(scans[n].at));
            if was.stable == bits || SteadyLongEnough(scans, n, i, since)
            then st.stable == bits && !st.pending
            else st.stable == was.stable && st.pending && st.candidate == bits && st.candidateSinceMs == since
    decreases i
  {
    hide Updated, Shape, Elapsed, Sees;
    var was := After(scans[..n]);
    var now := Clock(scans[i].at);
    AcceptedAtMostOneKey(scans[..i]);
    assert scans[..i + 1][..i] == scans[..i];
    OneScan(After(scans[..i]), scans[i].raw, now);
    if i == n {
    } else {
      SteadyIsAccepted(scans, n, i - 1, bits);
    }
  }

  /** Scans that read nothing are seen as nothing, and lift a block. */
  lemma EmptyIsSeen(scans: seq<Scan>, n: nat, i: nat)
    requires Steady(scans, n, i, {})
    ensures SeesOnly(scans, n, i, {}) && !After(scans[..i + 1]).ghostBlocked
  {
    hide Updated;
    assert scans[..i + 1][..i] == scans[..i];
    UpdatedBlocked(After(scans[..i]), {}, Clock(scans[i].at));
  }

  /** Scans that read one key are seen as that key, unless a block was in force. */
  lemma {:induction false} KeyIsSeen(scans: seq<Scan>, n: nat, i: nat, k: nat)
    requires k < 16 && Steady(scans, n, i, {k}) && !After(scans[..n]).ghostBlocked
    ensures SeesOnly(scans, n, i, {k}) && !After(scans[..i + 1]).ghostBlocked
    decreases i
  {
    hide Updated, After;
    var bits: Bitmap := {k};
    assert |bits| == 1;
    OneMore(scans, i);
    UpdatedBlocked(After(scans[..i]), bits, Clock(scans[i].at));
    if i == n {
    } else {
      KeyIsSeen(scans, n, i - 1, k);
    }
  }

  lemma OneMore(scans: seq<Scan>, i: nat)
    requires i < |scans|
    ensures After(scans[..i + 1]) == Updated(After(scans[..i]), scans[i].raw, Clock(scans[i].at)).0
  {
    hide Updated;
    assert scans[..i + 1][..i] == scans[..i];
  }

  /** In real time: a reading steady for the debounce time has been so as the clock reads it too,
      short of a whole turn. */
  lemma SteadyInTime(scans: seq<Scan>, n: nat, i: nat, since: u32)
    requires InOrder(scans) && n <= i < |scans|
    requires DEBOUNCE_MS <= scans[i].at - scans[n].at < WORD
    requires since == Clock(scans[n].at) || scans[i].at - scans[n].at <= WORD - DEBOUNCE_MS
    ensures SteadyLongEnough(scans, n, i, since)
  {
    var a, b := scans[n].at, scans[i].at;
    if since == Clock(a) {
      ElapsedExactly(a, b, DEBOUNCE_MS);
    } else if !Elapsed(Clock(a), since, DEBOUNCE_MS) {
      StillElapses(a, b, since);
    }
  }

  lemma StillElapses(a: nat, b: nat, since: u32)
    requires !Elapsed(Clock(a), since, DEBOUNCE_MS) && DEBOUNCE_MS <= b - a <= WORD - DEBOUNCE_MS
    ensures Elapsed(Clock(b), since, DEBOUNCE_MS)
  {
    var r := (Clock(a) - since) % WORD;
    Difference(a, b);
    Residue(b - a);
    var p, q := (Clock(a) - since) / WORD, (Clock(b) - Clock(a)) / WORD;
    assert Clock(a) - since == WORD * p + r && Clock(b) - Clock(a) == WORD * q + (b - a);
    ModShift(r + (b - a), p + q);
    Residue(r + (b - a));
  }

  // ---- letting go ----

  /** From any reached state, scans that read nothing free the keypad exactly when nothing was
      accepted before, or the debounce time has passed as the clock reads it. */
  lemma ReleasedExactly(scans: seq<Scan>, n: nat, i: nat)
    requires Steady(scans, n, i, {})
    ensures Free(After(scans[..i + 1])) <==>
            || After(scans[..n]).stable == {}
            || SteadyLongEnough(scans, n, i, Since(After(scans[..n]), {}, Clock(scans[n].at)))
  {
    hide Updated, Elapsed, After, Since, SteadyLongEnough, SeesOnly;
    EmptyIsSeen(scans, n, i);
    SteadyIsAccepted(scans, n, i, {});
    AcceptedAtMostOneKey(scans[..i + 1]);
  }

  /** In real time: fifteen milliseconds of nothing free it, whatever came before. */
  lemma ReleaseIsAccepted(scans: seq<Scan>, n: nat, i: nat)
    requires InOrder(scans) && Steady(scans, n, i, {})
    requires 15 <= scans[i].at - scans[n].at <= WORD - 15
    ensures Free(After(scans[..i + 1]))
  {
    hide Updated, Elapsed, After, Free;
    ReleasedExactly(scans, n, i);
    SteadyInTime(scans, n, i, Since(After(scans[..n]), {}, Clock(scans[n].at)));
  }

  /** And up to a whole turn of the clock, when the scan before still read the key. */
  lemma FreshReleaseIsAccepted(scans: seq<Scan>, n: nat, i: nat)
    requires InOrder(scans) && Steady(scans, n, i, {})
    requires !(After(scans[..n]).pending && After(scans[..n]).candidate == {})
    requires 15 <= scans[i].at - scans[n].at < WORD
    ensures Free(After(scans[..i + 1]))
  {
    hide Updated, Elapsed, After, Free;
    ReleasedExactly(scans, n, i);
    SteadyInTime(scans, n, i, Clock(scans[n].at));
  }

  /** Several keys at once count as letting go: from any reached state, if a scan reads more than one
      key and none reads nothing for the debounce time, no key is held any more, so no long press
      comes of it. */
  lemma SeveralKeysRelease(scans: seq<Scan>, n: nat, i: nat)
    requires InOrder(scans) && n <= i < |scans| && |scans[n].raw| > 1
    requires forall m :: n <= m <= i ==> scans[m].raw != {}
    requires DEBOUNCE_MS <= scans[i].at - scans[n].at <= WORD - DEBOUNCE_MS
    ensures After(scans[..i + 1]).stable == {} && After(scans[..i + 1]).held < 0
  {
    hide Updated, Elapsed, After;
    forall m | n <= m <= i
      ensures Sees(After(scans[..m]), scans[m].raw) == {}
    {
      if n < m {
        StaysBlocked(scans[..m], n);
      }
    }
    SteadyIsAccepted(scans, n, i, {});
    SteadyInTime(scans, n, i, Since(After(scans[..n]), {}, Clock(scans[n].at)));
    AcceptedAtMostOneKey(scans[..i + 1]);
  }

  /** Nothing but a press can make a free keypad hold a key. */
  lemma {:induction false} HoldsNothing(scans: seq<Scan>, m: nat, i: nat)
    requires m <= i <= |scans| && After(scans[..m]).held < 0
    requires forall j :: m <= j < i ==> EventsAt(scans, j) == []
    ensures After(scans[..i]).held < 0
    decreases i
  {
    hide Updated, Shape, Elapsed;
    if m == i {
    } else {
      HoldsNothing(scans, m, i - 1);
      AcceptedAtMostOneKey(scans[..i - 1]);
      var last := scans[i - 1];
      assert scans[..i][..i - 1] == scans[..i - 1] && scans[..i][i - 1] == last;
      assert EventsAt(scans, i - 1) == [];
      EventsAre(After(scans[..i - 1]), last.raw, Clock(last.at));
    }
  }

  /** A long press means the key was not let go: between its press and itself there is no steady
      empty reading of the debounce time or more. */
  lemma NotReleasedBeforeLongPress(scans: seq<Scan>, p: nat, i: nat, n: nat, m: nat, c: char)
    requires InOrder(scans) && p < n <= m <= i < |scans|
    requires EventsAt(scans, p) == [Press(c)] && LongPress(c) in EventsAt(scans, i)
    requires forall j :: p < j < i ==> EventsAt(scans, j) == []
    requires Steady(scans, n, m, {})
    ensures !(15 <= scans[m].at - scans[n].at <= WORD - 15)
  {
    hide Updated, Elapsed, After, Steady;
    if DEBOUNCE_MS <= scans[m].at - scans[n].at <= WORD - DEBOUNCE_MS {
      ReleaseIsAccepted(scans, n, m);
      if m < i {
        HoldsNothing(scans, m + 1, i);
      }
      NoLongPressUnheld(scans, i, c);
    }
  }

  /** A long press needs a key held before the scan and still held after it. */
  lemma NoLongPressUnheld(scans: seq<Scan>, i: nat, c: char)
    requires i < |scans| && LongPress(c) in EventsAt(scans, i)
    ensures 0 <= After(scans[..i]).held && 0 <= After(scans[..i + 1]).held
  {
    hide Elapsed, LowestFrom;
    AcceptedAtMostOneKey(scans[..i]);
    assert scans[..i + 1][..i] == scans[..i];
    var st := After(scans[..i]);
    var g := GhostChecked(st, scans[i].raw);
    var seen: Bitmap := if g.ghostBlocked then {} else scans[i].raw;
    EventsAre(st, scans[i].raw, Clock(scans[i].at));
    DebouncedAre(g, seen, Clock(scans[i].at));
  }

  // ---- and the next press ----

  /** After a release the next clean press is reported, that of the same key included. */
  lemma PressAfterRelease(scans: seq<Scan>, n: nat, r: nat, i: nat, k: nat)
    requires InOrder(scans) && k < 16 && r + 1 < i < |scans|
    requires Steady(scans, n, r, {}) && Steady(scans, r + 1, i, {k})
    requires DEBOUNCE_MS <= scans[r].at - scans[n].at <= WORD - DEBOUNCE_MS
    requires scans[i - 1].at - scans[r + 1].at < DEBOUNCE_MS <= scans[i].at - scans[r + 1].at < WORD
    ensures EventsAt(scans, i) == [Press(KeyChar(k))]
  {
    hide Updated, Elapsed, After, Free;
    ReleaseIsAccepted(scans, n, r);
    CleanPressIsReported(scans, r + 1, i, k);
  }

  /** From any reached state that is not blocked, a key other than the accepted one is reported at
      the first scan at which it has been steady for the debounce time, another key's release or not. */
  lemma SteadyKeyIsReported(scans: seq<Scan>, n: nat, i: nat, k: nat)
    requires k < 16 && Steady(scans, n, i, {k})
    requires !After(scans[..n]).ghostBlocked && After(scans[..n]).stable != {k}
    requires var since := Since(After(scans[..n]), {k}, Clock(scans[n].at));
             && Elapsed(Clock(scans[i].at), since, DEBOUNCE_MS)
             && forall m :: n <= m < i ==> !Elapsed(Clock(scans[m].at), since, DEBOUNCE_MS)
    ensures EventsAt(scans, i) == [Press(KeyChar(k))] && After(scans[..i + 1]).stable == {k}
  {
    hide Updated, Elapsed, After;
    var bits: Bitmap := {k};
    KeyIsSeen(scans, n, i, k);
    AcceptedAtMostOneKey(scans[..i]);
    AcceptedAtMostOneKey(scans[..i + 1]);
    OneMore(scans, i);
    if n < i {
      SteadyIsAccepted(scans, n, i - 1, bits);
    }
    OneScan(After(scans[..i]), bits, Clock(scans[i].at));
    assert Sees(After(scans[..i]), scans[i].raw) == bits;
    var u := After(scans[..i + 1]);
    assert u.held as nat in bits;
  }

  lemma {:induction false} HeldKeyStays(scans: seq<Scan>, p: nat, i: nat, k: nat)
    requires InOrder(scans) && k < 16 && Steady(scans, p, i, {k}) && p < i
    requires EventsAt(scans, p) == [Press(KeyChar(k))]
    requires scans[i - 1].at - scans[p].at < LONGPRESS_MS
    ensures var st := After(scans[..i]);
            && st.stable == {k} && st.held == k && !st.longFired && !st.ghostBlocked
            && st.pressStartedMs == Clock(scans[p].at)
    ensures forall j :: p < j < i ==> EventsAt(scans, j) == []
    decreases i
  {
    hide Updated, Elapsed;
    if i == p + 1 {
      PressedState(scans, p, k);
    } else {
      HeldKeyStays(scans, p, i - 1, k);
      assert scans[..i][..i - 1] == scans[..i - 1];
      HeldStep(After(scans[..i - 1]), k, Clock(scans[i - 1].at));
      ElapsedExactly(scans[p].at, scans[i - 1].at, LONGPRESS_MS);
    }
  }

  lemma PressedState(scans: seq<Scan>, p: nat, k: nat)
    requires k < 16 && p < |scans| && scans[p].raw == {k} && EventsAt(scans, p) == [Press(KeyChar(k))]
    ensures var st := After(scans[..p + 1]);
            && st.stable == {k} && st.held == k && !st.longFired && !st.ghostBlocked
            && st.pressStartedMs == Clock(scans[p].at)
  {
    hide Updated, Elapsed, Shape;
    var was := After(scans[..p]);
    AcceptedAtMostOneKey(scans[..p]);
    AcceptedAtMostOneKey(scans[..p + 1]);
    assert scans[..p + 1][..p] == scans[..p];
    EventsAre(was, scans[p].raw, Clock(scans[p].at));
    UpdatedBlocked(was, scans[p].raw, Clock(scans[p].at));
    var bits: Bitmap := {k};
    assert |bits| == 1;
    if was.ghostBlocked {
      BlockedReportsNoPress(was, scans[p].raw, Clock(scans[p].at), KeyChar(k));
    }
    var u := After(scans[..p + 1]);
    ShapeHeld(u);
    KeyCharInjective(u.held, k);
  }

  lemma ShapeHeld(st: Keypad)
    requires Shape(st)
    ensures st.held < 16
    ensures 0 <= st.held ==> st.stable == {st.held as nat}
  {
  }

  lemma HeldStep(st: Keypad, k: nat, now: u32)
    requires k < 16 && st.stable == {k} && st.held == k && !st.longFired && !st.ghostBlocked
    ensures var (u, e) := Updated(st, {k}, now);
            if Elapsed(now, st.pressStartedMs, LONGPRESS_MS) then e == [LongPress(KeyChar(k))]
            else e == [] && u == st.(pending := false)
  {
    var bits: Bitmap := {k};
    assert |bits| == 1;
  }

  /** A key pressed and kept down reports nothing more until its long press, which comes at the
      first scan 1500 ms or more after the press. */
  lemma HeldKeyLongPresses(scans: seq<Scan>, p: nat, i: nat, k: nat)
    requires InOrder(scans) && k < 16 && Steady(scans, p, i, {k}) && p < i
    requires EventsAt(scans, p) == [Press(KeyChar(k))]
    requires scans[i - 1].at - scans[p].at < 1500 <= scans[i].at - scans[p].at < WORD
    ensures EventsAt(scans, i) == [LongPress(KeyChar(k))]
    ensures forall j :: p < j < i ==> EventsAt(scans, j) == []
  {
    hide Updated, Elapsed, After;
    HeldKeyStays(scans, p, i, k);
    HeldStep(After(scans[..i]), k, Clock(scans[i].at));
    ElapsedExactly(scans[p].at, scans[i].at, LONGPRESS_MS);
  }

  /** A release that reads as no time at all, because the last scan came a whole turn of the clock
      after the first, is not accepted, though the last two scans are almost that far apart. */
  lemma ReleaseAWholeTurnLater()
    ensures var s := [Scan({1}, 0), Scan({1}, 15), Scan({}, 30), Scan({}, 44), Scan({}, 30 + WORD)];
            && Steady(s, 3, 4, {}) && s[4].at - s[3].at == WORD - DEBOUNCE_MS + 1
            && !Free(After(s))
  {
    hide Updated;
    var s := [Scan({1}, 0), Scan({1}, 15), Scan({}, 30), Scan({}, 44), Scan({}, 30 + WORD)];
    assert s[..5] == s && s[..0] == [] && s[..2][..2] == s[..2];
    assert Clock(30 + WORD) == 30 by {
      ModShift(30, 1);
    }
    var two := s[..2];
    assert two[..0] == [];
    var bits: Bitmap := {1};
    assert |bits| == 1;
    KeyIsSeen(s, 0, 1, 1);
    SteadyIsAccepted(s, 0, 1, bits);
    assert Elapsed(15, 0, DEBOUNCE_MS) && !Elapsed(30, 30, DEBOUNCE_MS) && !Elapsed(44, 30, DEBOUNCE_MS);
    assert SteadyLongEnough(s, 0, 1, 0);
    assert After(s[..2]).stable == {1} && !After(s[..2]).pending;
    ReleasedExactly(s, 2, 4);
  }
}
