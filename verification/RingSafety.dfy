/** Crash safety of the attempt-counter ring, over whole runs. */
module RingSafety {
  import opened Bytes
  import opened PersistStore
  import Ring = PersistRing

  /** What can happen to the chip: a save that ends one way or another, a reset whose ring read
      succeeds, or any change to the region above the ring. */
  datatype Event =
    | Save(state: Ring.RingState, write: PageWrite)
    | Reboot
    | CodeRegion(after: Chip)

  function RingImage(chip: Chip): (b: seq<byte>)
    ensures |b| == 2048
  {
    chip[..2048]
  }

  /** What each of the 64 slots decodes to. */
  type Pages = p: seq<Option<Ring.Record>> | |p| == 64 witness seq(64, _ => None)

  function PagesOf(chip: Chip): (p: Pages)
    ensures forall i :: 0 <= i < 64 ==> p[i] == Ring.DecodeAt(RingImage(chip), i)
  {
    seq(64, i requires 0 <= i < 64 => Ring.DecodeAt(RingImage(chip), i))
  }

  /** A torn page must not decode; a change above the ring must stay above it. */
  ghost predicate Legal(st: Store, e: Event) {
    match e
    case Save(_, w) => Fits(w, Ring.SLOT_SIZE) && (w.Torn? ==> Ring.Decode(w.left) == None)
    case Reboot => true
    case CodeRegion(after) => RingImage(after) == RingImage(st.chip)
  }

  ghost function Step(st: Store, e: Event): (r: Store)
    requires InRing(st) && Legal(st, e)
    ensures InRing(r)
  {
    match e
    case Save(s, w) => RingSaved(st, s, w)
    case Reboot => Booted(st.chip, true)
    case CodeRegion(after) => st.(chip := after)
  }

  const FACTORY := Store(BLANK_CHIP, Ring.NO_RECORD, None)

  ghost predicate LegalRun(events: seq<Event>)
    decreases |events|, 0
  {
    events != [] ==>
      && LegalRun(events[..|events| - 1])
      && Legal(Run(events[..|events| - 1]), events[|events| - 1])
  }

  /** The store after a run from a blank chip. */
  ghost function Run(events: seq<Event>): (st: Store)
    requires LegalRun(events)
    ensures InRing(st)
    decreases |events|, 1
  {
    if events == [] then FACTORY else Step(Run(events[..|events| - 1]), events[|events| - 1])
  }

  /** The saves attempted in a run, in order. */
  function Saves(events: seq<Event>): (s: seq<Event>)
    ensures forall k :: 0 <= k < |s| ==> s[k].Save?
  {
    if events == [] then []
    else
      var e := events[|events| - 1];
      Saves(events[..|events| - 1]) + if e.Save? then [e] else []
  }

  /** Index of the last acknowledged save, -1 when there is none. */
  function LastAcked(saves: seq<Event>): (k: int)
    requires forall k :: 0 <= k < |saves| ==> saves[k].Save?
    ensures -1 <= k < |saves|
    ensures 0 <= k ==> saves[k].write.Acked?
    ensures forall i :: k < i < |saves| ==> !saves[i].write.Acked?
  {
    if saves == [] then -1
    else if saves[|saves| - 1].write.Acked? then |saves| - 1
    else LastAcked(saves[..|saves| - 1])
  }

  /** The record of this save landed whole, whether or not success was reported. */
  predicate Landed(e: Event) {
    e.Save? && (e.write.Acked? || e.write.Landed?)
  }

  // ---- an abstract journal that the bytes refine ----

  /** Which attempt the cursor's record is, and which unreported one sits whole in the slot after it; -1 for neither. */
  datatype Journal = Journal(current: int, pending: int)

  function JournalStep(j: Journal, n: nat, e: Event): Journal {
    match e
    case Save(_, Acked) => Journal(n, -1)
    case Save(_, Landed) => j.(pending := n)
    case Save(_, Untouched) => j
    case Save(_, Torn(_)) => j.(pending := -1)
    case Reboot => if j.pending < 0 then j else Journal(j.pending, -1)
    case CodeRegion(_) => j
  }

  function JournalOf(events: seq<Event>): Journal {
    if events == [] then Journal(-1, -1)
    else
      var front := events[..|events| - 1];
      JournalStep(JournalOf(front), |Saves(front)|, events[|events| - 1])
  }

  /** Slot `i` holds nothing, or something older than the cursor's record. */
  predicate Older(pages: Pages, cur: Ring.Cursor, i: nat)
    requires i < 64
  {
    pages[i].Some? ==> pages[i].value.seqNo < cur.seqNo
  }

  /** The slots and the cursor say what the journal says. */
  ghost predicate Refines(pages: Pages, cur: Ring.Cursor, j: Journal, saves: seq<Event>) {
    && (forall k :: 0 <= k < |saves| ==> saves[k].Save?)
    && -1 <= j.current < |saves| && -1 <= j.pending < |saves|
    && -1 <= cur.slot < 64
    && (cur.slot < 0 <==> j.current < 0)
    && (cur.slot < 0 ==> cur.seqNo == 0)
    && cur.seqNo + (if j.pending < 0 then 0 else 1) <= |saves|
    && (0 <= cur.slot ==> pages[cur.slot] == Some(Ring.Record(saves[j.current].state, cur.seqNo)))
    && (0 <= j.pending ==>
          cur.seqNo + 1 < WORD &&
          pages[Ring.NextSlot(cur, 64)] == Some(Ring.Record(saves[j.pending].state, cur.seqNo + 1)))
    && (forall i :: 0 <= i < 64 && i != cur.slot && (i == Ring.NextSlot(cur, 64) ==> j.pending < 0) ==>
       Older(pages, cur, i))
  }

  /** The slots after a save. */
  function PagesSaved(pages: Pages, cur: Ring.Cursor, s: Ring.RingState, w: PageWrite): Pages
    requires -1 <= cur.slot < 64
  {
    var next := Ring.Advance(cur, 64);
    match w
    case Untouched => pages
    case Torn(_) => pages[next.slot := None]
    case _ => pages[next.slot := Some(Ring.Record(s, next.seqNo))]
  }

  lemma PageOfChip(chip: Chip, i: nat)
    requires i < 64
    ensures Ring.Page(RingImage(chip), i) == chip[32 * i..32 * i + 32]
  {
    var a, b := RingImage(chip)[32 * i..32 * i + 32], chip[32 * i..32 * i + 32];
    assert forall k :: 0 <= k < 32 ==> a[k] == b[k];
  }

  lemma PagesAfterWrite(chip: Chip, slot: nat, data: seq<byte>, w: PageWrite, i: nat)
    requires slot < 64 && |data| == Ring.SLOT_SIZE && Fits(w, Ring.SLOT_SIZE) && i < 64
    ensures var page := Ring.Page(RingImage(AfterWrite(chip, 32 * slot, data, w)), i);
            page ==
            if i != slot || w.Untouched? then Ring.Page(RingImage(chip), i) else if w.Torn? then w.left else data
  {
    var after := AfterWrite(chip, 32 * slot, data, w);
    PageOfChip(after, i);
    PageOfChip(chip, i);
    if i != slot || w.Untouched? {
      assert forall k :: 32 * i <= k < 32 * i + 32 ==> after[k] == chip[k];
    }
  }

  lemma SaveOnPages(st: Store, s: Ring.RingState, w: PageWrite)
    requires InRing(st) && Legal(st, Save(s, w))
    ensures PagesOf(RingSaved(st, s, w).chip) == PagesSaved(PagesOf(st.chip), st.cursor, s, w)
  {
    hide Ring.Decode, Ring.Image, AfterWrite, PagesOf;
    var next := Ring.Advance(st.cursor, Ring.SLOTS);
    var r := Ring.Record(s, next.seqNo);
    Ring.DecodeImage(r);
    forall i | 0 <= i < 64
      ensures PagesOf(RingSaved(st, s, w).chip)[i] == PagesSaved(PagesOf(st.chip), st.cursor, s, w)[i]
    {
      PagesAfterWrite(st.chip, next.slot, Ring.Image(r), w, i);
    }
  }

  lemma SaveRefines(pages: Pages, cur: Ring.Cursor, j: Journal, saves: seq<Event>, s: Ring.RingState, w: PageWrite)
    requires Refines(pages, cur, j, saves) && |saves| + 1 < WORD
    ensures Refines(PagesSaved(pages, cur, s, w), if w.Acked? then Ring.Advance(cur, 64) else cur,
                    JournalStep(j, |saves|, Save(s, w)), saves + [Save(s, w)])
  {
    var after := PagesSaved(pages, cur, s, w);
    var next := Ring.Advance(cur, 64);
    if w.Acked? {
      forall i | 0 <= i < 64 && i != next.slot
        ensures Older(after, next, i)
      {
        assert i != cur.slot ==> Older(pages, cur, i);
      }
    } else {
      var k := JournalStep(j, |saves|, Save(s, w));
      forall i | 0 <= i < 64 && i != cur.slot && (i == Ring.NextSlot(cur, 64) ==> k.pending < 0)
        ensures Older(after, cur, i)
      {
        assert i != next.slot ==> Older(pages, cur, i);
      }
    }
  }

  /** The newest of the slots, when one stands out. */
  lemma BootFindsNewest(chip: Chip, cur: Ring.Cursor, s: Ring.RingState)
    requires 0 <= cur.slot < 64 && PagesOf(chip)[cur.slot] == Some(Ring.Record(s, cur.seqNo))
    requires forall i :: 0 <= i < 64 && i != cur.slot ==> Older(PagesOf(chip), cur, i)
    ensures Booted(chip, true) == Store(chip, cur, Some(s))
  {
    hide Ring.DecodeAt, Ring.Scan;
    forall i | 0 <= i < 64
      ensures Ring.DecodeAt(RingImage(chip), i) == PagesOf(chip)[i]
      ensures i != cur.slot && Ring.DecodeAt(RingImage(chip), i).Some? ==>
              Ring.DecodeAt(RingImage(chip), i).value.seqNo < cur.seqNo
    {
      assert i != cur.slot ==> Older(PagesOf(chip), cur, i);
    }
    Ring.LatestUnique(RingImage(chip), Ring.SLOTS, Some(s), cur);
  }

  lemma NoneIsLatest(chip: Chip)
    requires forall i :: 0 <= i < 64 ==> PagesOf(chip)[i] == None
    ensures Booted(chip, true) == Store(chip, Ring.NO_RECORD, None)
  {
    hide Ring.DecodeAt, Ring.Scan;
    forall i | 0 <= i < 64
      ensures Ring.DecodeAt(RingImage(chip), i) == None
    {
      assert PagesOf(chip)[i] == None;
    }
    Ring.LatestUnique(RingImage(chip), Ring.SLOTS, None, Ring.NO_RECORD);
  }

  /** What a boot must find: the pending record if there is one, else the cursor's. */
  function LoadedIndex(j: Journal): int {
    if j.pending < 0 then j.current else j.pending
  }

  function LoadedCursor(cur: Ring.Cursor, j: Journal): Ring.Cursor
    requires -1 <= cur.slot < 64
  {
    if j.pending < 0 then cur else Ring.Advance(cur, 64)
  }

  lemma BootFinds(chip: Chip, cur: Ring.Cursor, j: Journal, saves: seq<Event>)
    requires Refines(PagesOf(chip), cur, j, saves)
    ensures Booted(chip, true) ==
            Store(chip, LoadedCursor(cur, j), if LoadedIndex(j) < 0 then None else Some(saves[LoadedIndex(j)].state))
  {
    hide Ring.DecodeAt, Ring.Scan;
    var pages := PagesOf(chip);
    var now := LoadedCursor(cur, j);
    var found := if LoadedIndex(j) < 0 then None else Some(saves[LoadedIndex(j)].state);
    forall i | 0 <= i < 64 && i != now.slot
      ensures Older(pages, now, i)
    {
      assert i != cur.slot && (i == Ring.NextSlot(cur, 64) ==> j.pending < 0) ==> Older(pages, cur, i);
    }
    assert forall i :: 0 <= i < 64 && i != now.slot ==> Older(pages, now, i);
    if now.slot < 0 {
      forall i | 0 <= i < 64
        ensures pages[i] == None
      {
        assert Older(pages, now, i);
      }
      NoneIsLatest(chip);
    } else {
      BootFindsNewest(chip, now, found.value);
    }
  }

  lemma BootRefines(pages: Pages, cur: Ring.Cursor, j: Journal, saves: seq<Event>)
    requires Refines(pages, cur, j, saves)
    ensures Refines(pages, LoadedCursor(cur, j), JournalStep(j, |saves|, Reboot), saves)
  {
    var now := LoadedCursor(cur, j);
    forall i | 0 <= i < 64 && i != now.slot
      ensures Older(pages, now, i)
    {
      assert i != cur.slot && (i == Ring.NextSlot(cur, 64) ==> j.pending < 0) ==> Older(pages, cur, i);
    }
  }

  lemma BlankRefines()
    ensures Refines(PagesOf(BLANK_CHIP), Ring.NO_RECORD, Journal(-1, -1), [])
  {
    hide Ring.DecodeAt;
    forall i | 0 <= i < 64
      ensures PagesOf(BLANK_CHIP)[i] == None
    {
      BlankPage(i);
    }
  }

  lemma BlankPage(i: nat)
    requires i < 64
    ensures Ring.DecodeAt(RingImage(BLANK_CHIP), i) == None
  {
    assert Ring.Page(RingImage(BLANK_CHIP), i)[8] == 0xFF;
  }

  /** The bytes refine the journal, along every run. */
  lemma {:induction false} RunRefines(events: seq<Event>)
    requires LegalRun(events) && |Saves(events)| < WORD
    ensures Refines(PagesOf(Run(events).chip), Run(events).cursor, JournalOf(events), Saves(events))
  {
    hide Refines, PagesOf, Ring.Decode, Ring.Image, Ring.Scan, AfterWrite;
    if events == [] {
      BlankRefines();
    } else {
      var front, e := events[..|events| - 1], events[|events| - 1];
      RunRefines(front);
      var st, j := Run(front), JournalOf(front);
      match e {
        case Save(s, w) =>
          SaveOnPages(st, s, w);
          SaveRefines(PagesOf(st.chip), st.cursor, j, Saves(front), s, w);
        case Reboot =>
          BootFinds(st.chip, st.cursor, j, Saves(front));
          BootRefines(PagesOf(st.chip), st.cursor, j, Saves(front));
          assert Saves(events) == Saves(front);
        case CodeRegion(after) =>
          SameRegionSamePages(st.chip, after);
          assert Saves(events) == Saves(front);
      }
    }
  }

  lemma SameRegionSamePages(chip: Chip, after: Chip)
    requires RingImage(after) == RingImage(chip)
    ensures PagesOf(after) == PagesOf(chip)
  {
    hide Ring.DecodeAt;
  }

  /** The journal is not behind the last acknowledged save, and only points at whole records. */
  ghost predicate Safe(j: Journal, saves: seq<Event>) {
    && (forall k :: 0 <= k < |saves| ==> saves[k].Save?)
    && LastAcked(saves) <= j.current < |saves|
    && (0 <= j.current ==> Landed(saves[j.current]))
    && (0 <= j.pending ==> j.current < j.pending < |saves| && Landed(saves[j.pending]))
  }

  lemma SafeStep(j: Journal, saves: seq<Event>, e: Event)
    requires Safe(j, saves)
    ensures Safe(JournalStep(j, |saves|, e), if e.Save? then saves + [e] else saves)
  {
    if e.Save? {
      var more := saves + [e];
      assert more[..|more| - 1] == saves;
      assert forall k :: 0 <= k < |saves| ==> more[k] == saves[k];
    }
  }

  /** The journal never falls behind an acknowledged save, and only ever points at whole records. */
  lemma {:induction false} JournalIsSafe(events: seq<Event>)
    ensures Safe(JournalOf(events), Saves(events))
  {
    hide Safe, JournalStep;
    if events == [] {
      NothingSafe();
    } else {
      var front, e := events[..|events| - 1], events[|events| - 1];
      JournalIsSafe(front);
      SafeStep(JournalOf(front), Saves(front), e);
      assert Saves(events) == if e.Save? then Saves(front) + [e] else Saves(front);
    }
  }

  lemma NothingSafe()
    ensures Safe(Journal(-1, -1), [])
  {
  }

  /** The ring's promise.  After any run, a reset loads the last acknowledged state or a later
      attempted one that landed whole; it loads nothing only if nothing was ever acknowledged. */
  lemma RingCrashSafety(events: seq<Event>)
    requires LegalRun(events) && |Saves(events)| < WORD
    ensures var saves, loaded := Saves(events), Booted(Run(events).chip, true).found;
            match loaded
            case None => LastAcked(saves) == -1
            case Some(s) =>
              exists k :: 0 <= k < |saves| && LastAcked(saves) <= k && Landed(saves[k]) && saves[k].state == s
  {
    hide PagesOf, Booted;
    RunRefines(events);
    JournalIsSafe(events);
    BootFinds(Run(events).chip, Run(events).cursor, JournalOf(events), Saves(events));
    var k := LoadedIndex(JournalOf(events));
    if 0 <= k {
      assert Landed(Saves(events)[k]);
    }
  }

  lemma {:induction false} SavesPrefix(events: seq<Event>, n: nat)
    requires n <= |events|
    ensures Saves(events[..n]) <= Saves(events)
    decreases |events|
  {
    if n == |events| {
      assert events[..n] == events;
    } else {
      var front := events[..|events| - 1];
      assert events[..n] == front[..n];
      SavesPrefix(front, n);
    }
  }

  /** What a reset has once loaded is a floor: from there on the journal's current entry never goes below it. */
  lemma {:induction false} LoadedIsFloor(events: seq<Event>, n: nat)
    requires n < |events| && events[n] == Reboot
    ensures LoadedIndex(JournalOf(events[..n])) <= JournalOf(events).current
    decreases |events|
  {
    JournalIsSafe(events[..n]);
    var front := events[..|events| - 1];
    JournalIsSafe(front);
    if n == |events| - 1 {
      assert events[..n] == front;
    } else {
      assert events[..n] == front[..n];
      LoadedIsFloor(front, n);
    }
  }

  lemma RefinesBounds(pages: Pages, cur: Ring.Cursor, j: Journal, saves: seq<Event>)
    requires Refines(pages, cur, j, saves)
    ensures LoadedIndex(j) < |saves| && cur.seqNo <= |saves|
    ensures |saves| < WORD ==> cur.seqNo <= LoadedCursor(cur, j).seqNo
  {
  }

  /** The cursor's number only grows: no event of a run takes it back. */
  lemma CursorGrows(events: seq<Event>)
    requires LegalRun(events) && |Saves(events)| < WORD && events != []
    ensures Run(events[..|events| - 1]).cursor.seqNo <= Run(events).cursor.seqNo
  {
    hide PagesOf, Refines, RingSaved, Booted, JournalOf, Legal;
    var front, e := events[..|events| - 1], events[|events| - 1];
    RunRefines(front);
    StepGrows(Run(front), e, JournalOf(front), Saves(front));
  }

  lemma StepGrows(st: Store, e: Event, j: Journal, saves: seq<Event>)
    requires InRing(st) && Legal(st, e) && Refines(PagesOf(st.chip), st.cursor, j, saves)
    requires |saves| + (if e.Save? then 1 else 0) < WORD
    ensures st.cursor.seqNo <= Step(st, e).cursor.seqNo
  {
    hide PagesOf, Booted, AfterWrite, Ring.Image, Ring.Decode, Refines;
    RefinesBounds(PagesOf(st.chip), st.cursor, j, saves);
    if e == Reboot {
      BootFinds(st.chip, st.cursor, j, saves);
    }
  }

  /** What a reset has once loaded is a floor for the number too. */
  lemma {:induction false} LoadedNumberIsFloor(events: seq<Event>, n: nat)
    requires LegalRun(events) && |Saves(events)| < WORD
    requires n < |events| && events[n] == Reboot && LegalRun(events[..n])
    ensures Booted(Run(events[..n]).chip, true).cursor.seqNo <= Run(events).cursor.seqNo
    decreases |events|
  {
    hide PagesOf, Booted, Legal, Saves;
    var front := events[..|events| - 1];
    if n == |events| - 1 {
      assert events[..n] == front;
    } else {
      assert events[..n] == front[..n];
      SavesPrefix(events, |events| - 1);
      LoadedNumberIsFloor(front, n);
      CursorGrows(events);
    }
  }

  function StateAt(saves: seq<Event>, k: int): Option<Ring.RingState>
    requires k < |saves| && forall i :: 0 <= i < |saves| ==> saves[i].Save?
  {
    if k < 0 then None else Some(saves[k].state)
  }

  /** What a reset would load is the journal's latest whole record, its number not below the cursor's. */
  lemma BootLoads(events: seq<Event>)
    requires LegalRun(events) && |Saves(events)| < WORD
    ensures var b, k := Booted(Run(events).chip, true), LoadedIndex(JournalOf(events));
            && k < |Saves(events)| && b.found == StateAt(Saves(events), k)
            && Run(events).cursor.seqNo <= b.cursor.seqNo
  {
    hide PagesOf, Booted, Run, LegalRun, JournalOf, Saves, Refines;
    RunRefines(events);
    BootFinds(Run(events).chip, Run(events).cursor, JournalOf(events), Saves(events));
    RefinesBounds(PagesOf(Run(events).chip), Run(events).cursor, JournalOf(events), Saves(events));
  }

  /** Loads never go back: of two resets in one run, the later one loads a record with the same
      number or a higher one, written by the same attempt or a later one. */
  lemma LoadsNeverGoBack(events: seq<Event>, n: nat)
    requires LegalRun(events) && |Saves(events)| < WORD
    requires n < |events| && events[n] == Reboot && LegalRun(events[..n])
    ensures var first, second := Booted(Run(events[..n]).chip, true), Booted(Run(events).chip, true);
            var k, l := LoadedIndex(JournalOf(events[..n])), LoadedIndex(JournalOf(events));
            && first.cursor.seqNo <= second.cursor.seqNo
            && k <= l < |Saves(events)|
            && first.found == StateAt(Saves(events), k) && second.found == StateAt(Saves(events), l)
  {
    hide PagesOf, Booted, Run, LegalRun, JournalOf, Saves;
    SavesPrefix(events, n);
    BootLoads(events[..n]);
    BootLoads(events);
    LoadedIsFloor(events, n);
    JournalIsSafe(events);
    LoadedNumberIsFloor(events, n);
  }

  ghost predicate AllAcked(events: seq<Event>) {
    forall k :: 0 <= k < |events| ==> events[k].Save? && events[k].write.Acked?
  }

  /** Wear is even: acknowledged saves go round the slots in order, so any 64 in a row hit each slot once. */
  lemma {:induction false} AckedSavesRotate(events: seq<Event>)
    requires LegalRun(events) && |events| < WORD && AllAcked(events)
    ensures Run(events).cursor == if events == [] then Ring.NO_RECORD else Ring.Cursor((|events| - 1) % 64, |events|)
  {
    hide AfterWrite, Ring.Image, Ring.Decode, Booted, PagesOf;
    if events == [] {
    } else {
      var front := events[..|events| - 1];
      AckedSavesRotate(front);
      assert events[|front|].Save?;
      if front != [] {
        NextTurn(|front|);
      }
    }
  }

  lemma NextTurn(n: nat)
    requires n > 0
    ensures ((n - 1) % 64 + 1) % 64 == n % 64
  {
  }

  // ---- the edges of the promise ----

  /** An acknowledged save is what the next reset finds exactly as long as the sequence number
      does not wrap: at 2^32 - 1 the new record counts as the oldest. */
  lemma AckedSaveIsFound(st: Store, j: Journal, saves: seq<Event>, s: Ring.RingState)
    requires InRing(st) && Refines(PagesOf(st.chip), st.cursor, j, saves)
    ensures Booted(RingSaved(st, s, Acked).chip, true).cursor == Ring.Advance(st.cursor, Ring.SLOTS) <==>
            st.cursor.seqNo != WORD - 1
  {
    hide PagesOf, Booted, AfterWrite, Ring.Image, Ring.Decode, Ring.DecodeAt;
    SaveOnPages(st, s, Acked);
    var chip, next := RingSaved(st, s, Acked).chip, Ring.Advance(st.cursor, 64);
    var before := PagesOf(st.chip);
    assert forall i :: 0 <= i < 64 && i != next.slot && i != st.cursor.slot ==> Older(before, st.cursor, i);
    if st.cursor.seqNo != WORD - 1 {
      forall i | 0 <= i < 64 && i != next.slot
        ensures Older(PagesOf(chip), next, i)
      {
        assert i != st.cursor.slot ==> Older(before, st.cursor, i);
      }
      BootFindsNewest(chip, next, s);
    } else {
      forall i | 0 <= i < 64 && i != st.cursor.slot
        ensures Older(PagesOf(chip), st.cursor, i)
      {
        assert i != next.slot ==> Older(before, st.cursor, i);
      }
      BootFindsNewest(chip, st.cursor, saves[j.current].state);
    }
  }

  /** The first slot carrying the highest number, whatever else the ring holds, is what a boot finds. */
  lemma BootFindsFirstNewest(chip: Chip, cur: Ring.Cursor, s: Ring.RingState)
    requires 0 <= cur.slot < 64 && PagesOf(chip)[cur.slot] == Some(Ring.Record(s, cur.seqNo))
    requires forall i :: 0 <= i < 64 && i != cur.slot && PagesOf(chip)[i].Some? ==>
               PagesOf(chip)[i].value.seqNo < cur.seqNo || (i > cur.slot && PagesOf(chip)[i].value.seqNo == cur.seqNo)
    ensures Booted(chip, true) == Store(chip, cur, Some(s))
  {
    hide Ring.DecodeAt, Ring.Scan;
    forall i | 0 <= i < 64
      ensures Ring.DecodeAt(RingImage(chip), i) == PagesOf(chip)[i]
    {
    }
    Ring.LatestUnique(RingImage(chip), Ring.SLOTS, Some(s), cur);
  }

  /** What a boot finds, page by page. */
  lemma BootIsLatest(chip: Chip)
    ensures var pages, b := PagesOf(chip), Booted(chip, true);
            && b.chip == chip
            && if b.cursor.slot < 0 then
                 b.cursor == Ring.NO_RECORD && b.found == None && forall i :: 0 <= i < 64 ==> pages[i] == None
               else
                 && b.cursor.slot < 64 && b.found.Some?
                 && pages[b.cursor.slot] == Some(Ring.Record(b.found.value, b.cursor.seqNo))
                 && forall i :: 0 <= i < 64 && pages[i].Some? ==> pages[i].value.seqNo <= b.cursor.seqNo
  {
    hide Ring.DecodeAt, Ring.Scan;
    Ring.ScanIsLatest(RingImage(chip), Ring.SLOTS);
    var b := Booted(chip, true);
    assert forall i :: 0 <= i < 64 ==> PagesOf(chip)[i] == Ring.DecodeAt(RingImage(chip), i);
  }

  /** When the record decoded from a torn page changes nothing about the next boot: on an empty ring
      when there is none; over an unreported record when it is that very record; otherwise when there
      is none, or it is older, or as old in a slot the scan reaches later. */
  predicate Harmless(pages: Pages, cur: Ring.Cursor, j: Journal, r: Option<Ring.Record>)
    requires -1 <= cur.slot < 64
  {
    var at := Ring.NextSlot(cur, Ring.SLOTS);
    if 0 <= j.pending then r == pages[at]
    else if cur.slot < 0 then r == None
    else r == None || r.value.seqNo < cur.seqNo || (r.value.seqNo == cur.seqNo && at > cur.slot)
  }

  /** A torn page leaves what a reset finds as it was exactly when what it holds is harmless: nothing
      but the CRC makes it so, and an unreported record it overwrites is lost even then. */
  lemma TornPageExactly(st: Store, j: Journal, saves: seq<Event>, s: Ring.RingState, left: seq<byte>)
    requires InRing(st) && Refines(PagesOf(st.chip), st.cursor, j, saves) && |left| == Ring.SLOT_SIZE
    ensures var after := RingSaved(st, s, Torn(left)).chip;
            Booted(after, true) == Booted(st.chip, true).(chip := after) <==>
            Harmless(PagesOf(st.chip), st.cursor, j, Ring.Decode(left))
  {
    hide PagesOf, Booted, AfterWrite, Ring.Image, Ring.Decode, Ring.DecodeAt, Refines;
    var at, r := Ring.NextSlot(st.cursor, Ring.SLOTS), Ring.Decode(left);
    var after := RingSaved(st, s, Torn(left)).chip;
    TornOnPages(st, s, left);
    BootFinds(st.chip, st.cursor, j, saves);
    BootIsLatest(st.chip);
    BootIsLatest(after);
    AtIsNext(PagesOf(st.chip), st.cursor, j, saves);
    if j.pending < 0 && 0 <= st.cursor.slot {
      TornBesideRecord(st, j, saves, s, left);
    } else if r == PagesOf(st.chip)[at] {
      SamePagesSameBoot(st.chip, after);
    } else if 0 <= j.pending {
      assert PagesOf(after)[at] == r;
      assert Booted(st.chip, true).cursor.slot == at;
    } else {
      assert r.Some? && PagesOf(after)[at].Some?;
      assert Booted(st.chip, true).cursor.slot < 0;
    }
  }

  /** With nothing on the ring, or with an unreported record, the slot to be written decides. */
  lemma AtIsNext(pages: Pages, cur: Ring.Cursor, j: Journal, saves: seq<Event>)
    requires -1 <= cur.slot < 64 && Refines(pages, cur, j, saves)
    ensures cur.slot < 0 && j.pending < 0 ==> forall i :: 0 <= i < 64 ==> pages[i] == None
    ensures 0 <= j.pending ==> LoadedCursor(cur, j).slot == Ring.NextSlot(cur, Ring.SLOTS)
  {
    if cur.slot < 0 && j.pending < 0 {
      forall i | 0 <= i < 64
        ensures pages[i] == None
      {
        assert Older(pages, cur, i);
      }
    }
  }

  lemma SamePagesSameBoot(chip: Chip, after: Chip)
    requires PagesOf(after) == PagesOf(chip)
    ensures Booted(after, true) == Booted(chip, true).(chip := after)
  {
    hide Ring.DecodeAt, Ring.Scan;
    Ring.ScanIsLatest(RingImage(chip), Ring.SLOTS);
    var (found, cur) := Ring.Scan(RingImage(chip), Ring.SLOTS);
    forall i | 0 <= i < 64
      ensures Ring.DecodeAt(RingImage(after), i) == Ring.DecodeAt(RingImage(chip), i)
    {
      assert PagesOf(after)[i] == PagesOf(chip)[i];
    }
    Ring.LatestUnique(RingImage(after), Ring.SLOTS, found, cur);
  }

  /** Beside the cursor's record, no unreported one in the way. */
  lemma TornBesideRecord(st: Store, j: Journal, saves: seq<Event>, s: Ring.RingState, left: seq<byte>)
    requires InRing(st) && Refines(PagesOf(st.chip), st.cursor, j, saves) && |left| == Ring.SLOT_SIZE
    requires j.pending < 0 && 0 <= st.cursor.slot
    ensures var after, r := RingSaved(st, s, Torn(left)).chip, Ring.Decode(left);
            if Harmless(PagesOf(st.chip), st.cursor, j, r)
                then Booted(after, true) == Store(after, st.cursor, Some(saves[j.current].state))
            else Booted(after, true).cursor.slot == Ring.NextSlot(st.cursor, Ring.SLOTS) != st.cursor.slot
  {
    hide PagesOf, Booted, AfterWrite, Ring.Image, Ring.Decode, Ring.DecodeAt;
    var cur, before := st.cursor, PagesOf(st.chip);
    var at, r := Ring.NextSlot(cur, Ring.SLOTS), Ring.Decode(left);
    var chip := RingSaved(st, s, Torn(left)).chip;
    var after := PagesOf(chip);
    TornOnPages(st, s, left);
    forall i | 0 <= i < 64 && i != at && i != cur.slot
      ensures Older(after, cur, i)
    {
      assert Older(before, cur, i);
    }
    assert forall i :: 0 <= i < 64 && i != at && i != cur.slot && after[i].Some? ==> Older(after, cur, i);
    if Harmless(before, cur, j, r) {
      BootFindsFirstNewest(chip, cur, saves[j.current].state);
    } else {
      BootFindsFirstNewest(chip, Ring.Cursor(at, r.value.seqNo), r.value.state);
    }
  }

  lemma TornOnPages(st: Store, s: Ring.RingState, left: seq<byte>)
    requires InRing(st) && |left| == Ring.SLOT_SIZE
    ensures var at := Ring.NextSlot(st.cursor, Ring.SLOTS);
            PagesOf(RingSaved(st, s, Torn(left)).chip) == PagesOf(st.chip)[at := Ring.Decode(left)]
  {
    hide Ring.Decode, Ring.Image, AfterWrite, PagesOf;
    var next := Ring.Advance(st.cursor, Ring.SLOTS);
    forall i | 0 <= i < 64
      ensures PagesOf(RingSaved(st, s, Torn(left)).chip)[i] == PagesOf(st.chip)[next.slot := Ring.Decode(left)][i]
    {
      PagesAfterWrite(st.chip, next.slot, Ring.Image(Ring.Record(s, next.seqNo)), Torn(left), i);
    }
  }
}
