/** What a boot whose ring read fails costs: the cursor stays at "none", so the next save starts over. */
module RingFailedRead {
  import Bytes
  import opened PersistStore
  import opened RingSafety
  import Ring = PersistRing

  /** The chip after a boot that could not read the ring and one acknowledged save. */
  function BlindSaved(chip: Chip, s: Ring.RingState): Chip {
    RingSaved(Booted(chip, false), s, Acked).chip
  }

  lemma BlindOnPages(chip: Chip, s: Ring.RingState)
    ensures PagesOf(BlindSaved(chip, s)) == PagesOf(chip)[0 := Bytes.Some(Ring.Record(s, 1))]
  {
    hide PagesOf, AfterWrite, Ring.Image, Ring.Scan, Ring.Decode;
    SaveOnPages(Booted(chip, false), s, Acked);
  }

  /** If the boot read fails the cursor stays at "none", and an acknowledged save starts over in
      slot 0 with number 1.  The next good boot finds it if and only if no other slot holds a
      number above 1. */
  lemma FailedReadExactly(chip: Chip, s: Ring.RingState)
    ensures var b := Booted(BlindSaved(chip, s), true);
            && (b.cursor == Ring.Cursor(0, 1) <==>
                  forall i :: 0 < i < 64 && PagesOf(chip)[i].Some? ==> PagesOf(chip)[i].value.seqNo <= 1)
            && (b.cursor == Ring.Cursor(0, 1) ==> b.found == Bytes.Some(s))
  {
    hide PagesOf, Booted, BlindSaved;
    var after := BlindSaved(chip, s);
    BlindOnPages(chip, s);
    BootIsLatest(after);
    if forall i :: 0 < i < 64 && PagesOf(chip)[i].Some? ==> PagesOf(chip)[i].value.seqNo <= 1 {
      BootFindsFirstNewest(after, Ring.Cursor(0, 1), s);
    } else {
      var i :| 0 < i < 64 && PagesOf(chip)[i].Some? && PagesOf(chip)[i].value.seqNo > 1;
      assert PagesOf(after)[i] == PagesOf(chip)[i];
    }
  }

  /** The same for a run of saves: a boot that could not read the ring, then these, all acknowledged. */
  function BlindRun(chip: Chip, states: seq<Ring.RingState>): (st: Store)
    ensures InRing(st)
  {
    if states == [] then Booted(chip, false)
    else RingSaved(BlindRun(chip, states[..|states| - 1]), states[|states| - 1], Acked)
  }

  /** They fill the first slots in order, numbered from 1, and leave the others as they were. */
  lemma {:induction false} BlindRunOnPages(chip: Chip, states: seq<Ring.RingState>, i: nat)
    requires |states| <= 64 && i < 64
    ensures var st, k := BlindRun(chip, states), |states|;
            && st.cursor == (if k == 0 then Ring.NO_RECORD else Ring.Cursor(k - 1, k))
            && PagesOf(st.chip)[i] == if i < k then Bytes.Some(Ring.Record(states[i], i + 1)) else PagesOf(chip)[i]
  {
    hide PagesOf, RingSaved, PagesSaved, Booted;
    if states == [] {
      BlindStart(chip);
    } else {
      var k := |states| - 1;
      var front := states[..k];
      BlindRunOnPages(chip, front, i);
      SaveOnPages(BlindRun(chip, front), states[k], Acked);
      BlindCursor(BlindRun(chip, front), states[k], k);
      BlindPage(PagesOf(BlindRun(chip, front).chip), BlindRun(chip, front).cursor, states[k], k);
    }
  }

  lemma BlindPage(pages: Pages, cur: Ring.Cursor, s: Ring.RingState, k: nat)
    requires k < 64 && cur == if k == 0 then Ring.NO_RECORD else Ring.Cursor(k - 1, k)
    ensures PagesSaved(pages, cur, s, Acked) == pages[k := Bytes.Some(Ring.Record(s, k + 1))]
  {
  }

  lemma BlindStart(chip: Chip)
    ensures BlindRun(chip, []).cursor == Ring.NO_RECORD && BlindRun(chip, []).chip == chip
  {
  }

  lemma BlindCursor(st: Store, s: Ring.RingState, k: nat)
    requires k < 64 && st.cursor == if k == 0 then Ring.NO_RECORD else Ring.Cursor(k - 1, k)
    ensures RingSaved(st, s, Acked).cursor == Ring.Cursor(k, k + 1) == Ring.Advance(st.cursor, Ring.SLOTS)
  {
    hide AfterWrite, Ring.Image, Ring.Decode;
  }

  /** The next good boot finds the last of them if and only if no slot they have not reached holds a
      higher number than theirs. */
  lemma BlindRunExactly(chip: Chip, states: seq<Ring.RingState>)
    requires 0 < |states| <= 64
    ensures var k := |states|;
            var b := Booted(BlindRun(chip, states).chip, true);
            && (b.cursor == Ring.Cursor(k - 1, k) <==>
                  forall i :: k <= i < 64 && PagesOf(chip)[i].Some? ==> PagesOf(chip)[i].value.seqNo <= k)
            && (b.cursor == Ring.Cursor(k - 1, k) ==> b.found == Bytes.Some(states[k - 1]))
  {
    hide PagesOf, Booted, BlindRun;
    var k, after := |states|, BlindRun(chip, states).chip;
    forall i | 0 <= i < 64
      ensures PagesOf(after)[i] == if i < k then Bytes.Some(Ring.Record(states[i], i + 1)) else PagesOf(chip)[i]
    {
      BlindRunOnPages(chip, states, i);
    }
    BootIsLatest(after);
    if forall i :: k <= i < 64 && PagesOf(chip)[i].Some? ==> PagesOf(chip)[i].value.seqNo <= k {
      BootFindsFirstNewest(after, Ring.Cursor(k - 1, k), states[k - 1]);
    } else {
      var i :| k <= i < 64 && PagesOf(chip)[i].Some? && PagesOf(chip)[i].value.seqNo > k;
      assert PagesOf(after)[i] == PagesOf(chip)[i];
    }
  }

  /** If the boot read fails the cursor stays at "none": an acknowledged save then starts over in
      slot 0 with number 1, and the next good boot still reports the older record. */
  lemma FailedReadHidesSave(st: Store, j: Journal, saves: seq<Event>, s: Ring.RingState)
    requires InRing(st) && Refines(PagesOf(st.chip), st.cursor, j, saves) && j.pending < 0
    requires st.cursor.slot > 0 && st.cursor.seqNo > 1
    ensures var blind := Booted(st.chip, false);
            Booted(RingSaved(blind, s, Acked).chip, true).found == Bytes.Some(saves[j.current].state)
  {
    hide PagesOf, AfterWrite, Ring.Scan, Ring.Image, Ring.Decode, Ring.DecodeAt;
    var blind := Booted(st.chip, false);
    SaveOnPages(blind, s, Acked);
    var before := PagesOf(st.chip);
    assert forall i :: 0 <= i < 64 && i != st.cursor.slot ==> Older(before, st.cursor, i);
    var chip := RingSaved(blind, s, Acked).chip;
    forall i | 0 <= i < 64 && i != st.cursor.slot
      ensures Older(PagesOf(chip), st.cursor, i)
    {
      assert Older(before, st.cursor, i);
    }
    BootFindsNewest(chip, st.cursor, saves[j.current].state);
  }

  /** With the newest record in slot 0 it is worse: the blind save overwrites that very record, and
      the next good boot goes back to an older one. */
  lemma FailedReadLosesNewest(st: Store, j: Journal, saves: seq<Event>, s: Ring.RingState, i: nat)
    requires InRing(st) && Refines(PagesOf(st.chip), st.cursor, j, saves) && j.pending < 0
    requires st.cursor.slot == 0 && 0 < i < 64
    requires PagesOf(st.chip)[i].Some? && PagesOf(st.chip)[i].value.seqNo > 1
    ensures var b := Booted(BlindSaved(st.chip, s), true);
            b.found.Some? && b.cursor.slot > 0 && 1 < b.cursor.seqNo < st.cursor.seqNo
  {
    hide PagesOf, Booted, BlindSaved;
    var after := BlindSaved(st.chip, s);
    BlindOnPages(st.chip, s);
    BootIsLatest(after);
    var b := Booted(after, true);
    assert PagesOf(after)[i] == PagesOf(st.chip)[i];
    assert Older(PagesOf(st.chip), st.cursor, b.cursor.slot);
  }

  /** The latest of `n` saves that went to slot `i`. */
  function LastIn(n: nat, i: nat): (m: int)
    ensures i < n ==> 1 <= m <= n
  {
    n - (n - 1 - i) % 64
  }

  /** What slot `i` holds after acknowledged saves only. */
  function AckedRecord(events: seq<Event>, i: nat): Bytes.Option<Ring.Record>
    requires AllAcked(events) && |events| < Bytes.WORD
  {
    var m := LastIn(|events|, i);
    if i < |events| then Bytes.Some(Ring.Record(events[m - 1].state, m)) else Bytes.None
  }

  lemma LastSave(events: seq<Event>)
    requires LegalRun(events) && events != [] && events[|events| - 1].Save?
    ensures var front, e := events[..|events| - 1], events[|events| - 1];
            && LegalRun(front) && Legal(Run(front), e)
            && Run(events) == RingSaved(Run(front), e.state, e.write)
  {
    hide RingSaved, Booted;
  }

  /** One more acknowledged save fills the next slot in turn. */
  lemma AckedTurn(events: seq<Event>)
    requires LegalRun(events) && 0 < |events| < Bytes.WORD && AllAcked(events)
    ensures var n := |events| - 1;
            && LegalRun(events[..n])
            && PagesOf(Run(events).chip) ==
               PagesOf(Run(events[..n]).chip)[n % 64 := Bytes.Some(Ring.Record(events[n].state, n + 1))]
  {
    hide PagesOf, RingSaved, Booted, PagesSaved, Run, LegalRun, Legal;
    var n := |events| - 1;
    var front, e := events[..n], events[n];
    LastSave(events);
    AckedSavesRotate(front);
    SaveOnPages(Run(front), e.state, Acked);
    NextInTurn(PagesOf(Run(front).chip), Run(front).cursor, e.state, n);
  }

  lemma NextInTurn(pages: Pages, cur: Ring.Cursor, s: Ring.RingState, n: nat)
    requires n + 1 < Bytes.WORD && cur == if n == 0 then Ring.NO_RECORD else Ring.Cursor((n - 1) % 64, n)
    ensures PagesSaved(pages, cur, s, Acked) == pages[n % 64 := Bytes.Some(Ring.Record(s, n + 1))]
  {
    if n > 0 {
      NextTurn(n);
    }
  }

  lemma {:induction false} AckedPage(events: seq<Event>, i: nat)
    requires LegalRun(events) && |events| < Bytes.WORD && i < 64 && AllAcked(events)
    ensures PagesOf(Run(events).chip)[i] == AckedRecord(events, i)
  {
    hide PagesOf, AckedRecord, RingSaved, Legal;
    if events == [] {
      BlankPages(i);
      AckedRecordOf([], i);
    } else {
      AckedTurn(events);
      AckedPage(events[..|events| - 1], i);
      AckedRecordStep(events, i);
    }
  }

  lemma BlankPages(i: nat)
    requires i < 64
    ensures PagesOf(BLANK_CHIP)[i] == Bytes.None
  {
    hide Ring.DecodeAt;
    BlankPage(i);
  }

  lemma AckedRecordOf(events: seq<Event>, i: nat)
    requires AllAcked(events) && |events| < Bytes.WORD
    ensures var m := LastIn(|events|, i);
            AckedRecord(events, i) ==
            if i < |events| then Bytes.Some(Ring.Record(events[m - 1].state, m)) else Bytes.None
  {
  }

  lemma SlotTurns(n: nat, i: nat)
    requires i < 64
    ensures n % 64 == i ==> i < n + 1 && LastIn(n + 1, i) == n + 1
    ensures n % 64 != i && i < n + 1 ==> i < n && LastIn(n + 1, i) == LastIn(n, i)
  {
  }

  lemma AckedRecordStep(events: seq<Event>, i: nat)
    requires AllAcked(events) && 0 < |events| < Bytes.WORD && i < 64
    ensures var n := |events| - 1;
            AckedRecord(events, i) ==
            if n % 64 == i then Bytes.Some(Ring.Record(events[n].state, n + 1)) else AckedRecord(events[..n], i)
  {
    hide LastIn;
    SlotTurns(|events| - 1, i);
  }

  /** What a failed read costs after `n` acknowledged saves: the new save when the newest record is
      not in slot 0, the newest record itself when it is, nothing when there was at most one. */
  lemma FailedReadAfterSaves(events: seq<Event>, s: Ring.RingState)
    requires LegalRun(events) && |events| < Bytes.WORD && AllAcked(events)
    ensures Booted(BlindSaved(Run(events).chip, s), true).found == Bytes.Some(FoundAfter(events, s))
  {
    hide PagesOf, Booted, BlindSaved, Run, LegalRun, AckedRecord, AllAcked, FoundAfter;
    var chip := Run(events).chip;
    BlindOnPages(chip, s);
    forall i | 0 < i < 64
      ensures PagesOf(BlindSaved(chip, s))[i] == AckedRecord(events, i)
    {
      AckedPage(events, i);
    }
    NewestIsFound(BlindSaved(chip, s), events, s);
  }

  function FoundAfter(events: seq<Event>, s: Ring.RingState): Ring.RingState
    requires AllAcked(events)
  {
    var n := |events|;
    if n <= 1 then s else if n % 64 == 1 then events[n - 2].state else events[n - 1].state
  }

  lemma NewestIsFound(after: Chip, events: seq<Event>, s: Ring.RingState)
    requires |events| < Bytes.WORD && AllAcked(events)
    requires PagesOf(after)[0] == Bytes.Some(Ring.Record(s, 1))
    requires forall i :: 0 < i < 64 ==> PagesOf(after)[i] == AckedRecord(events, i)
    ensures Booted(after, true).found == Bytes.Some(FoundAfter(events, s))
  {
    hide PagesOf, Booted, LastIn;
    if |events| <= 1 {
      BootFindsFirstNewest(after, Ring.Cursor(0, 1), s);
    } else {
      hide AckedRecord;
      var top, r := NewestBeside(events);
      BootFindsFirstNewest(after, Ring.Cursor(top, r.seqNo), r.state);
    }
  }

  /** Leaving slot 0 aside, the newest record is the last one, or the one before it. */
  lemma NewestBeside(events: seq<Event>) returns (top: nat, r: Ring.Record)
    requires AllAcked(events) && 1 < |events| < Bytes.WORD
    ensures 0 < top < 64 && AckedRecord(events, top) == Bytes.Some(r)
    ensures r.seqNo > 1 && r.state == FoundAfter(events, r.state)
    ensures forall i :: 0 < i < 64 && i != top && AckedRecord(events, i).Some? ==>
            AckedRecord(events, i).value.seqNo < r.seqNo
  {
    hide LastIn;
    var n := |events|;
    top := NewestSlot(n);
    r := AckedRecord(events, top).value;
    forall i | 0 < i < 64 && i != top && AckedRecord(events, i).Some?
      ensures AckedRecord(events, i).value.seqNo < r.seqNo
    {
      assert LastIn(n, i) < LastIn(n, top);
    }
  }

  lemma NewestSlot(n: nat) returns (top: nat)
    requires n > 1
    ensures 0 < top < 64 && top < n
    ensures LastIn(n, top) == if n % 64 == 1 then n - 1 else n
    ensures forall i :: 0 < i < 64 && i < n && i != top ==> LastIn(n, i) < LastIn(n, top)
  {
    hide LastIn;
    var r := (n - 1) % 64;
    top := if r == 0 then 63 else r;
    assert n % 64 == 1 <==> r == 0;
    LastInIs(n, top);
    forall i | 0 < i < 64 && i < n && i != top
      ensures LastIn(n, i) < LastIn(n, top)
    {
      LastInIs(n, i);
    }
  }

  lemma LastInIs(n: nat, i: nat)
    requires n > 0 && 0 < i < 64
    ensures var r := (n - 1) % 64; LastIn(n, i) == n - if i <= r then r - i else r - i + 64
  {
    var q, r := (n - 1) / 64, (n - 1) % 64;
    assert n - 1 - i == 64 * q + (r - i);
    Residue64(q, r - i);
  }

  lemma Residue64(q: int, x: int)
    requires -64 < x < 64
    ensures (64 * q + x) % 64 == if x < 0 then x + 64 else x
  {
  }
}
