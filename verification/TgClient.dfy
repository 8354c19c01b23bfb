/** The courier's update loop: consume, parse, apply, and only then move the counter. */
module TgClient {
  import opened Bytes
  import opened AccessCore
  import opened SyncLogic
  import opened Text
  import opened TgProto

  /** One element of a response: something without a numeric id, or an update, with or without text. */
  datatype Update = Ignored | Update(id: u64, text: Option<string>)

  /** The shared table, the replay counter, and the acknowledged offset. */
  datatype Courier = Courier(table: Table, counter: u64, offset: u64)

  function AppliedTo(t: Table, m: Message): Table {
    match m.op
    case Add => Upserted(t, m.id, m.hash, m.validFrom, m.validUntil, false).0
    case Revoke => Revoked(t, m.id).0
  }

  /** What the loop makes of one update: the message it accepts, if any. */
  function Taken(c: Courier, u: Update, mac: Mac): Option<Message> {
    match u
    case Ignored => None
    case Update(_, None) => None
    case Update(_, Some(text)) =>
      if |text| >= LINE_MAX then None
      else
        match Parse(text, c.counter, mac)
        case Ok(m) => Some(m)
        case Err(_) => None
  }

  function Consumed(c: Courier, u: Update): Courier {
    if u.Update? && u.id > c.offset then c.(offset := u.id) else c
  }

  function One(c: Courier, u: Update, mac: Mac): Courier {
    match Taken(c, u, mac)
    case None => Consumed(c, u)
    case Some(m) => Consumed(c, u).(table := AppliedTo(c.table, m), counter := m.counter)
  }

  /** The loop over a batch: the courier afterwards, and the messages accepted, in order. */
  function Handled(c: Courier, batch: seq<Update>, mac: Mac): (Courier, seq<Message>) {
    if batch == [] then (c, [])
    else
      var (d, taken) := Handled(c, batch[..|batch| - 1], mac);
      var u := batch[|batch| - 1];
      (One(d, u, mac), match Taken(d, u, mac) case None => taken case Some(m) => taken + [m])
  }

  /** How many elements carried an update id. */
  function Updates(batch: seq<Update>): nat {
    if batch == [] then 0 else Updates(batch[..|batch| - 1]) + if batch[|batch| - 1].Update? then 1 else 0
  }

  /** That is the number of elements with an id. */
  lemma {:induction false} UpdatesIsSize(batch: seq<Update>)
    ensures Updates(batch) == |set k | 0 <= k < |batch| && batch[k].Update?|
  {
    var some := set k | 0 <= k < |batch| && batch[k].Update?;
    if batch == [] {
      assert some == {};
    } else {
      var n := |batch| - 1;
      UpdatesIsSize(batch[..n]);
      var fewer := set k | 0 <= k < |batch[..n]| && batch[..n][k].Update?;
      assert some == if batch[n].Update? then fewer + {n} else fewer;
    }
  }

  class TgContext {
    const table: AccessContext
    var counter: u64
    var offset: u64

    function Value(): Courier
      reads this, table
    {
      Courier(table.slots, counter, offset)
    }

    constructor (t: AccessContext, storedCounter: u64, storedOffset: u64)
      ensures table == t && Value() == Courier(t.slots, storedCounter, storedOffset)
    {
      table, counter, offset := t, storedCounter, storedOffset;
    }

    /** `apply`. */
    method Apply(m: Message)
      modifies table
      ensures table.Value() == old(table.Value()).(slots := AppliedTo(old(table.slots), m))
    {
      if m.op == Add {
        var slot := table.UpsertGuest(m.id, m.hash, m.validFrom, m.validUntil);
      } else {
        var removed := table.Revoke(m.id);
      }
    }

    /** The loop of `handle_body`. */
    method HandleBody(batch: seq<Update>, mac: Mac) returns (consumed: nat, ghost taken: seq<Message>)
      modifies this, table
      ensures (Value(), taken) == Handled(old(Value()), batch, mac)
      ensures consumed == Updates(batch)
    {
      consumed, taken := 0, [];
      for i := 0 to |batch|
        invariant (Value(), taken) == Handled(old(Value()), batch[..i], mac)
        invariant consumed == Updates(batch[..i])
      {
        assert batch[..i + 1][..i] == batch[..i];
        var m := HandleOne(batch[i], mac);
        if batch[i].Update? {
          consumed := consumed + 1;
        }
        if m.Some? {
          taken := taken + [m.value];
        }
      }
      assert batch[..|batch|] == batch;
    }

    /** One turn of the loop. */
    method HandleOne(u: Update, mac: Mac) returns (taken: Option<Message>)
      modifies this, table
      ensures Value() == One(old(Value()), u, mac)
      ensures taken == Taken(old(Value()), u, mac)
    {
      taken := None;
      if u.Ignored? {
        return;
      }
      if u.id > offset {
        offset := u.id;
      }
      if u.text.None? || |u.text.value| >= LINE_MAX {
        return;
      }
      var r := ParseLine(u.text.value, counter, mac);
      if r.Err? {
        return;
      }
      Apply(r.msg);
      counter := r.msg.counter;
      taken := Some(r.msg);
    }
  }

  // ---- at most once ----

  /** A refused or ignored update changes neither the table nor the counter. */
  lemma RefusedChangesNothing(c: Courier, u: Update, mac: Mac)
    requires Taken(c, u, mac).None?
    ensures One(c, u, mac).table == c.table && One(c, u, mac).counter == c.counter
  {
  }

  /** Counters that rise strictly from above `low`, the last one being `high`. */
  ghost predicate Rising(ms: seq<Message>, low: u64, high: u64) {
    && (forall i :: 0 <= i < |ms| ==> low < ms[i].counter <= high)
    && (forall i, j :: 0 <= i < j < |ms| ==> ms[i].counter < ms[j].counter)
    && (if ms == [] then high == low else ms[|ms| - 1].counter == high)
  }

  lemma RisingConcat(a: seq<Message>, b: seq<Message>, low: u64, mid: u64, high: u64)
    requires Rising(a, low, mid) && Rising(b, mid, high)
    ensures Rising(a + b, low, high)
  {
    if a == [] {
      assert a + b == b;
    } else if b == [] {
      assert a + b == a;
    }
  }

  lemma TakenRises(c: Courier, u: Update, mac: Mac)
    requires Taken(c, u, mac).Some?
    ensures One(c, u, mac).counter == Taken(c, u, mac).value.counter > c.counter
  {
    AcceptedIsMonotone(u.text.value, c.counter, c.counter, mac);
  }

  /** Within one batch accepted counters rise strictly, and the held counter is the last of them. */
  lemma {:induction false} BatchRises(c: Courier, batch: seq<Update>, mac: Mac)
    ensures Rising(Handled(c, batch, mac).1, c.counter, Handled(c, batch, mac).0.counter)
  {
    hide Taken, One, Rising;
    if batch == [] {
      NothingRises(c.counter);
    } else {
      var front, u := batch[..|batch| - 1], batch[|batch| - 1];
      BatchRises(c, front, mac);
      var (d, taken) := Handled(c, front, mac);
      OneRises(d, u, mac);
      if Taken(d, u, mac).Some? {
        RisingConcat(taken, [Taken(d, u, mac).value], c.counter, d.counter, One(d, u, mac).counter);
      }
    }
  }

  lemma NothingRises(low: u64)
    ensures Rising([], low, low)
  {
  }

  lemma OneRises(c: Courier, u: Update, mac: Mac)
    ensures match Taken(c, u, mac)
            case None => One(c, u, mac).counter == c.counter
            case Some(m) => Rising([m], c.counter, One(c, u, mac).counter)
  {
    hide Parse;
    if Taken(c, u, mac).Some? {
      TakenRises(c, u, mac);
    }
  }

  /** Whatever a batch contains, a courier whose counter is already at or above the one that batch
      led to takes nothing from it. */
  lemma {:induction false} SeenBatchTakesNothing(c: Courier, batch: seq<Update>, mac: Mac, late: Courier)
    requires Handled(c, batch, mac).0.counter <= late.counter
    ensures var (d, taken) := Handled(late, batch, mac);
            taken == [] && d.table == late.table && d.counter == late.counter
  {
    hide Parse, AppliedTo;
    if batch == [] {
    } else {
      var front, u := batch[..|batch| - 1], batch[|batch| - 1];
      var before := Handled(c, front, mac).0;
      OnlyRises(before, u, mac);
      SeenBatchTakesNothing(c, front, mac, late);
      var d := Handled(late, front, mac).0;
      if Taken(d, u, mac).Some? {
        AcceptedIsMonotone(u.text.value, d.counter, before.counter, mac);
        assert false;
      }
    }
  }

  lemma OnlyRises(c: Courier, u: Update, mac: Mac)
    ensures c.counter <= One(c, u, mac).counter
  {
    if Taken(c, u, mac).Some? {
      TakenRises(c, u, mac);
    }
  }

  /** What happens to a courier: batches arrive, and resets reload the stored counter over a rebuilt table. */
  datatype Event = Batch(updates: seq<Update>) | Reset(table: Table, offset: u64)

  function Step(c: Courier, e: Event, mac: Mac): (Courier, seq<Message>) {
    match e
    case Batch(updates) => Handled(c, updates, mac)
    case Reset(table, offset) => (Courier(table, c.counter, offset), [])
  }

  function Run(c: Courier, events: seq<Event>, mac: Mac): (Courier, seq<Message>) {
    if events == [] then (c, [])
    else
      var (d, taken) := Run(c, events[..|events| - 1], mac);
      var (e, more) := Step(d, events[|events| - 1], mac);
      (e, taken + more)
  }

  /** Accepted counters rise strictly over the whole run, across batches and resets. */
  lemma {:induction false} CountersRise(c: Courier, events: seq<Event>, mac: Mac)
    ensures Rising(Run(c, events, mac).1, c.counter, Run(c, events, mac).0.counter)
  {
    hide Handled, Rising;
    if events == [] {
      NothingRises(c.counter);
    } else {
      var front, e := events[..|events| - 1], events[|events| - 1];
      CountersRise(c, front, mac);
      var (d, taken) := Run(c, front, mac);
      match e {
        case Batch(updates) => BatchRises(d, updates, mac);
        case Reset(_, _) => NothingRises(d.counter);
      }
      RisingConcat(taken, Step(d, e, mac).1, c.counter, d.counter, Step(d, e, mac).0.counter);
    }
  }

  /** A batch delivered earlier in a run, delivered again at any later point, changes neither the
      table nor the counter. */
  lemma {:induction false} RedeliveryIsHarmless(c: Courier, events: seq<Event>, i: nat, mac: Mac)
    requires i < |events| && events[i].Batch?
    ensures var d := Run(c, events, mac).0;
            var (e, taken) := Step(d, events[i], mac);
            taken == [] && e.table == d.table && e.counter == d.counter
  {
    hide Handled;
    CounterFloor(c, events, i, mac);
    SeenBatchTakesNothing(Run(c, events[..i], mac).0, events[i].updates, mac, Run(c, events, mac).0);
  }

  lemma {:induction false} CounterFloor(c: Courier, events: seq<Event>, i: nat, mac: Mac)
    requires i < |events|
    ensures Step(Run(c, events[..i], mac).0, events[i], mac).0.counter <= Run(c, events, mac).0.counter
    decreases |events|
  {
    hide Handled;
    var front, e := events[..|events| - 1], events[|events| - 1];
    if i == |front| {
    } else {
      assert front[..i] == events[..i];
      CounterFloor(c, front, i, mac);
      match e {
        case Batch(updates) => BatchRises(Run(c, front, mac).0, updates, mac);
        case Reset(_, _) =>
      }
    }
  }

  /** Every update of a batch is acknowledged, whatever became of it: the offset ends at the
      highest id seen. */
  lemma {:induction false} OffsetIsHighest(c: Courier, batch: seq<Update>, mac: Mac)
    ensures var d := Handled(c, batch, mac).0;
            && (forall i :: 0 <= i < |batch| && batch[i].Update? ==> batch[i].id <= d.offset)
            && c.offset <= d.offset
            && (d.offset == c.offset || exists i :: 0 <= i < |batch| && batch[i].Update? && batch[i].id == d.offset)
  {
    hide Taken, AppliedTo;
    if batch == [] {
    } else {
      var n := |batch| - 1;
      var front := batch[..n];
      OffsetIsHighest(c, front, mac);
      var d, e := Handled(c, front, mac).0, Handled(c, batch, mac).0;
      assert forall i :: 0 <= i < n ==> batch[i] == front[i];
      if e.offset != d.offset {
        assert batch[n].Update? && batch[n].id == e.offset;
      } else if d.offset != c.offset {
        var i :| 0 <= i < n && front[i].Update? && front[i].id == d.offset;
        assert batch[i].Update? && batch[i].id == e.offset;
      }
    }
  }
}
