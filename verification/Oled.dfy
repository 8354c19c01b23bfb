/** The display driver's shadow copy: only pages that differ are sent, yet the panel shows the frame. */
module Oled {
  import opened Bytes

  const PAGES := 8

  type Frame = f: seq<byte> | |f| == 1024 witness Run(0, 1024)

  /** A mask with one bit for each page, as the set of the bits that are on. */
  type Mask = s: set<nat> | forall p :: p in s ==> p < 8 witness {}

  const ALL_PAGES: Mask := set p | 0 <= p < 8

  function Page(f: Frame, p: nat): (b: seq<byte>)
    requires p < 8
    ensures |b| == 128
  {
    f[128 * p..128 * p + 128]
  }

  function WithPage(f: Frame, p: nat, b: seq<byte>): (g: Frame)
    requires p < 8 && |b| == 128
  {
    f[..128 * p] + b + f[128 * p + 128..]
  }

  /** Pages that differ between two frames. */
  function DirtyPages(prev: Frame, next: Frame): Mask {
    set p | 0 <= p < 8 && Page(prev, p) != Page(next, p)
  }

  /** The loop of `oled_fb_dirty_pages`. */
  method FindDirtyPages(prev: Frame, next: Frame) returns (mask: Mask)
    ensures mask == DirtyPages(prev, next)
  {
    mask := {};
    for p := 0 to PAGES
      invariant mask == set q | 0 <= q < p && Page(prev, q) != Page(next, q)
    {
      if prev[128 * p..128 * p + 128] != next[128 * p..128 * p + 128] {
        mask := mask + {p as nat};
      }
    }
  }

  /** How sending one page ends: acknowledged, or failed with the page left holding anything. */
  datatype Send = Sent | Failed(left: seq<byte>)

  type Sends = s: seq<Send> | |s| == 8 && forall p :: 0 <= p < 8 && s[p].Failed? ==> |s[p].left| == 128
    witness [Sent, Sent, Sent, Sent, Sent, Sent, Sent, Sent]

  const NO_FAULTS: Sends := [Sent, Sent, Sent, Sent, Sent, Sent, Sent, Sent]

  /** The panel's memory and the driver's statics. */
  datatype Driver = Driver(panel: Frame, shadow: Frame, shadowValid: bool)

  /** The page loop from `p` on: the panel, whether every page went through, and the pages put on the bus. */
  function SentFrom(panel: Frame, fb: Frame, dirty: Mask, sends: Sends, p: nat): (Frame, bool, set<nat>)
    requires p <= 8
    decreases 8 - p
  {
    if p == 8 then (panel, true, {})
    else if p !in dirty then SentFrom(panel, fb, dirty, sends, p + 1)
    else
      match sends[p]
      case Failed(left) => (WithPage(panel, p, left), false, {p})
      case Sent =>
        var (r, ok, bus) := SentFrom(WithPage(panel, p, Page(fb, p)), fb, dirty, sends, p + 1);
        (r, ok, {p} + bus)
  }

  /** Which pages `ssd1306_flush` decides to send. */
  function ToSend(d: Driver, fb: Frame): Mask {
    if d.shadowValid then DirtyPages(d.shadow, fb) else ALL_PAGES
  }

  /** `ssd1306_flush`: the driver afterwards, the reported result, and the pages put on the bus. */
  function Flushed(d: Driver, fb: Frame, sends: Sends): (Driver, bool, set<nat>) {
    if ToSend(d, fb) == {} then (d, true, {})
    else
      var (panel, ok, bus) := SentFrom(d.panel, fb, ToSend(d, fb), sends, 0);
      (if ok then Driver(panel, fb, true) else d.(panel := panel, shadowValid := false), ok, bus)
  }

  class Display {
    var panel: Frame
    var shadow: Frame
    var shadowValid: bool

    function Value(): Driver
      reads this
    {
      Driver(panel, shadow, shadowValid)
    }

    constructor (memory: Frame)
      ensures Value() == Driver(memory, Run(0, 1024), false)
    {
      panel, shadow, shadowValid := memory, Run(0, 1024), false;
    }

    method FlushPage(fb: Frame, p: nat, send: Send) returns (ok: bool)
      requires p < 8 && (send.Failed? ==> |send.left| == 128)
      modifies this`panel
      ensures ok <==> send.Sent?
      ensures panel == WithPage(old(panel), p, if ok then Page(fb, p) else send.left)
    {
      match send {
        case Sent => panel := WithPage(panel, p, Page(fb, p));
        case Failed(left) => panel := WithPage(panel, p, left);
      }
      ok := send.Sent?;
    }

    method Flush(fb: Frame, sends: Sends) returns (ok: bool, ghost bus: set<nat>)
      modifies this
      ensures (Value(), ok, bus) == Flushed(old(Value()), fb, sends)
    {
      bus := {};
      var dirty := ALL_PAGES;
      if shadowValid {
        dirty := FindDirtyPages(shadow, fb);
      }
      if dirty == {} {
        return true, {};
      }
      ghost var whole := SentFrom(panel, fb, dirty, sends, 0);
      assert bus + whole.2 == whole.2;
      for p := 0 to PAGES
        invariant Value() == old(Value()).(panel := panel)
        invariant var rest := SentFrom(panel, fb, dirty, sends, p);
                  whole == (rest.0, rest.1, bus + rest.2)
      {
        if p in dirty {
          ghost var before := panel;
          var sent := FlushPage(fb, p, sends[p]);
          ghost var rest := SentFrom(before, fb, dirty, sends, p);
          ghost var was := bus;
          bus := bus + {p as nat};
          if !sent {
            shadowValid := false;
            return false, bus;
          }
          assert was + rest.2 == bus + SentFrom(panel, fb, dirty, sends, p + 1).2;
        }
      }
      assert bus + {} == bus;
      shadow := fb;
      shadowValid := true;
      ok := true;
    }

    method Invalidate()
      modifies this
      ensures Value() == old(Value()).(shadowValid := false)
    {
      shadowValid := false;
    }
  }

  // ---- the panel after a flush ----

  lemma PageOfWithPage(f: Frame, p: nat, b: seq<byte>, q: nat)
    requires p < 8 && q < 8 && |b| == 128
    ensures Page(WithPage(f, p, b), q) == if q == p then b else Page(f, q)
  {
    var g := WithPage(f, p, b);
    if q != p {
      assert forall k :: 128 * q <= k < 128 * q + 128 ==> g[k] == f[k];
    }
  }

  /** Page by page: what was sent shows the frame, what was not is as it was. */
  lemma {:induction false} PagesAfterSend(panel: Frame, fb: Frame, dirty: Mask, sends: Sends, p: nat, q: nat)
    requires p <= 8 && q < 8
    ensures var (r, ok, bus) := SentFrom(panel, fb, dirty, sends, p);
            && (forall k :: k in bus ==> k in dirty)
            && (q !in bus ==> Page(r, q) == Page(panel, q))
            && (ok ==> Page(r, q) == if p <= q && q in dirty then Page(fb, q) else Page(panel, q))
            && (ok ==> (q in bus <==> p <= q && q in dirty))
    decreases 8 - p
  {
    hide Page, WithPage;
    if p == 8 {
    } else {
      if p !in dirty {
        PagesAfterSend(panel, fb, dirty, sends, p + 1, q);
      } else {
        match sends[p] {
          case Failed(left) => PageOfWithPage(panel, p, left, q);
          case Sent =>
            PageOfWithPage(panel, p, Page(fb, p), q);
            PagesAfterSend(WithPage(panel, p, Page(fb, p)), fb, dirty, sends, p + 1, q);
        }
      }
    }
  }

  lemma FrameIsItsPages(f: Frame, g: Frame)
    requires forall p :: 0 <= p < 8 ==> Page(f, p) == Page(g, p)
    ensures f == g
  {
    forall k | 0 <= k < 1024
      ensures f[k] == g[k]
    {
      var p, c := k / 128, k % 128;
      assert Page(f, p)[c] == f[128 * p + c] && Page(g, p)[c] == g[128 * p + c];
    }
  }

  /** The shadow, while valid, is what the panel holds. */
  predicate Agrees(d: Driver) {
    d.shadowValid ==> d.shadow == d.panel
  }

  /** A flush keeps the shadow honest; when it reports success the panel holds exactly the given
      frame, and what went over the bus is exactly what differed, or everything when the shadow
      could not be trusted. */
  lemma FlushIsRight(d: Driver, fb: Frame, sends: Sends)
    requires Agrees(d)
    ensures var (e, ok, bus) := Flushed(d, fb, sends);
            && Agrees(e)
            && (ok ==> e.panel == fb && bus == if d.shadowValid then DirtyPages(d.panel, fb) else ALL_PAGES)
            && (d.shadowValid ==> bus <= DirtyPages(d.panel, fb))
  {
    hide Page, WithPage, SentFrom;
    var dirty := ToSend(d, fb);
    var (panel, ok, bus) := SentFrom(d.panel, fb, dirty, sends, 0);
    forall q | 0 <= q < 8
      ensures q in bus ==> q in dirty
      ensures ok ==> Page(panel, q) == Page(fb, q)
      ensures ok ==> (q in bus <==> q in dirty)
    {
      PagesAfterSend(d.panel, fb, dirty, sends, 0, q);
      assert q !in dirty ==> Page(d.panel, q) == Page(fb, q);
    }
    PagesAfterSend(d.panel, fb, dirty, sends, 0, 0);
    if dirty == {} {
      forall p | 0 <= p < 8
        ensures Page(d.panel, p) == Page(fb, p)
      {
        assert p !in dirty;
      }
      FrameIsItsPages(d.panel, fb);
    }
    if ok {
      FrameIsItsPages(panel, fb);
    }
  }

  /** Sending only the pages that differ leaves the same driver and the same panel as sending all of them. */
  lemma DirtyFlushIsFullFlush(d: Driver, fb: Frame)
    requires Agrees(d)
    ensures var full := Flushed(d.(shadowValid := false), fb, NO_FAULTS).0;
            Flushed(d, fb, NO_FAULTS).0 == full && full == Driver(fb, fb, true)
  {
    hide SentFrom;
    FlushIsRight(d, fb, NO_FAULTS);
    FlushIsRight(d.(shadowValid := false), fb, NO_FAULTS);
    NoFaultsSucceed(d.panel, fb, ToSend(d, fb), 0);
    NoFaultsSucceed(d.panel, fb, ALL_PAGES, 0);
    assert 0 in ALL_PAGES;
  }

  lemma {:induction false} NoFaultsSucceed(panel: Frame, fb: Frame, dirty: Mask, p: nat)
    requires p <= 8
    ensures SentFrom(panel, fb, dirty, NO_FAULTS, p).1
    decreases 8 - p
  {
    hide Page, WithPage;
    if p == 8 {
    } else {
      NoFaultsSucceed(panel, fb, dirty, p + 1);
      NoFaultsSucceed(WithPage(panel, p, Page(fb, p)), fb, dirty, p + 1);
    }
  }

  /** Page `p` is the first of those to send whose transfer fails. */
  ghost predicate FirstFailure(dirty: Mask, sends: Sends, p: nat, from: nat) {
    from <= p < 8 && p in dirty && sends[p].Failed? && forall q :: from <= q < p && q in dirty ==> sends[q].Sent?
  }

  lemma {:induction false} SendsStop(panel: Frame, fb: Frame, dirty: Mask, sends: Sends, from: nat)
    requires from <= 8
    ensures SentFrom(panel, fb, dirty, sends, from).1 <==>
            forall q :: from <= q < 8 && q in dirty ==> sends[q].Sent?
    ensures forall p: nat :: FirstFailure(dirty, sends, p, from) ==>
              forall q :: q in SentFrom(panel, fb, dirty, sends, from).2 <==> from <= q <= p && q in dirty
    decreases 8 - from
  {
    hide Page, WithPage;
    if from == 8 {
    } else {
      SendsStop(panel, fb, dirty, sends, from + 1);
      SendsStop(WithPage(panel, from, Page(fb, from)), fb, dirty, sends, from + 1);
      forall p: nat | FirstFailure(dirty, sends, p, from)
        ensures forall q :: q in SentFrom(panel, fb, dirty, sends, from).2 <==> from <= q <= p && q in dirty
      {
        if from in dirty && sends[from].Failed? {
          assert p == from;
        } else {
          assert FirstFailure(dirty, sends, p, from + 1);
        }
      }
    }
  }

  /** A flush reports success exactly when every page it has to send is acknowledged.  Otherwise it
      stops at the first that is not, and the next flush sends everything. */
  lemma FlushSucceedsExactly(d: Driver, fb: Frame, sends: Sends)
    ensures var (e, ok, bus) := Flushed(d, fb, sends);
            && (ok <==> forall q :: 0 <= q < 8 && q in ToSend(d, fb) ==> sends[q].Sent?)
            && (!ok ==> ToSend(e, fb) == ALL_PAGES && e.shadow == d.shadow)
            && (forall p: nat :: FirstFailure(ToSend(d, fb), sends, p, 0) ==>
                  forall q :: q in bus <==> q <= p && q in ToSend(d, fb))
  {
    hide SentFrom, FirstFailure, DirtyPages;
    SendsStop(d.panel, fb, ToSend(d, fb), sends, 0);
    if ToSend(d, fb) == {} {
      NothingFails(sends);
    }
  }

  lemma NothingFails(sends: Sends)
    ensures forall p: nat :: !FirstFailure({}, sends, p, 0)
  {
  }

  // ---- runs ----

  /** Flushes, successful or not; invalidations; and a panel whose memory is lost and re-initialised. */
  datatype Event = Flush(fb: Frame, sends: Sends) | Invalidate | Reinit(memory: Frame)

  function Step(d: Driver, e: Event): Driver {
    match e
    case Flush(fb, sends) => Flushed(d, fb, sends).0
    case Invalidate => d.(shadowValid := false)
    case Reinit(memory) => d.(panel := memory, shadowValid := false)
  }

  function After(d: Driver, events: seq<Event>): Driver {
    if events == [] then d else Step(After(d, events[..|events| - 1]), events[|events| - 1])
  }

  lemma {:induction false} RunAgrees(d: Driver, events: seq<Event>)
    requires !d.shadowValid
    ensures Agrees(After(d, events))
  {
    hide Flushed;
    if events == [] {
    } else {
      var front := events[..|events| - 1];
      RunAgrees(d, front);
      match events[|events| - 1] {
        case Flush(fb, sends) => FlushIsRight(After(d, front), fb, sends);
        case Invalidate =>
        case Reinit(memory) =>
      }
    }
  }

  /** After any run, a flush that reports success leaves the panel showing its frame. */
  lemma SuccessShowsFrame(d: Driver, events: seq<Event>, fb: Frame, sends: Sends)
    requires !d.shadowValid
    ensures var (e, ok, _) := Flushed(After(d, events), fb, sends); ok ==> e.panel == fb
  {
    RunAgrees(d, events);
    FlushIsRight(After(d, events), fb, sends);
  }
}
