/** What one operation touches, slot by slot: on the table, and through a courier line. */
module TableFrames {
  import opened AccessCore
  import opened AccessTable
  import Courier = TgClient
  import Line = TgProto
  import opened Bytes
  import opened Text

  predicate Holds(s: Slot, id: CString) {
    s.occupied && s.id == id
  }

  /** Slot `i` is the first one holding `id`. */
  ghost predicate IsFirst(t: Table, id: CString, i: nat) {
    i < 5 && Holds(t[i], id) && forall k :: 0 <= k < i ==> !Holds(t[k], id)
  }

  /** Slot `i` is where an upsert of `id` goes: the first holder, else the first free slot. */
  ghost predicate Lands(t: Table, id: CString, i: nat) {
    || IsFirst(t, id, i)
    || (i < 5 && !t[i].occupied && (forall k :: 0 <= k < 5 ==> !Holds(t[k], id))
        && forall k :: 0 <= k < i ==> t[k].occupied)
  }

  /** A revoke empties the first slot holding the id and touches no other. */
  lemma RevokeTouchesOneSlot(t: Table, id: CString)
    ensures forall i :: 0 <= i < 5 ==> Do(t, Revoke(id))[i] == if IsFirst(t, id, i) then EMPTY else t[i]
    ensures !EMPTY.occupied && EMPTY.id == "" && EMPTY.hash == ZERO_HASH
  {
    forall i | 0 <= i < 5
      ensures Do(t, Revoke(id))[i] == if IsFirst(t, id, i) then EMPTY else t[i]
    {
    }
  }

  /** An upsert of either kind writes exactly one slot, the one it reports, and nothing when the id
      is empty, the window is empty or no slot is left. */
  lemma UpsertTouchesOneSlot(t: Table, id: CString, h: Hash, from: int, until: int, transient: bool)
    ensures var (u, idx) := Upserted(t, id, h, from, until, transient);
            && (idx == -1 <==> id == "" || until <= from || !exists i: nat :: Lands(t, id, i))
            && (0 <= idx ==> Lands(t, id, idx))
            && forall i :: 0 <= i < 5 ==>
                 u[i] == if i == idx then Slot(true, transient, if |id| <= 8 then id else id[..8], h, from, until)
                         else t[i]
  {
    var held, free := FindById(t, id), FreeFrom(t, 0);
    if 0 <= held {
      assert Lands(t, id, held);
    } else if 0 <= free {
      assert Lands(t, id, free);
    }
  }

  /** A dev code never outlives fifteen minutes: its window ends when asked or 900 seconds after it
      opens, whichever is first. */
  lemma DevCodeIsShort(t: Table, id: CString, h: Hash, from: int, until: int, i: nat)
    requires Lands(t, id, i) && id != ""
    ensures var u := Do(t, UpsertTransient(id, h, from, until));
            if until <= from then u == t
            else u[i].occupied && u[i].transient && u[i].hash == h && u[i].validFrom == from
                 && u[i].validUntil <= until && u[i].validUntil <= from + 900
                 && (u[i].validUntil == until || u[i].validUntil == from + 900)
                 && forall k :: 0 <= k < 5 && k != i ==> u[k] == t[k]
  {
    UpsertTouchesOneSlot(t, id, h, from, ClampedUntil(from, until), true);
    assert Lands(t, id, i);
  }

  /** The number a clearing reports is the number of slots it marked. */
  lemma {:induction false} CountIsSize(marks: seq<bool>, n: nat)
    requires n <= |marks|
    ensures Count(marks, n) == |set k | 0 <= k < n && marks[k]|
  {
    var some := set k | 0 <= k < n && marks[k];
    if n == 0 {
      assert some == {};
    } else {
      CountIsSize(marks, n - 1);
      var fewer := set k | 0 <= k < n - 1 && marks[k];
      assert some == if marks[n - 1] then fewer + {n - 1} else fewer;
    }
  }

  /** An update is taken exactly when it carries a text of fewer than 256 characters that is a signed
      line of seven good fields. */
  lemma TakenExactly(c: Courier.Courier, u: Courier.Update, mac: Mac, m: Line.Message)
    ensures Courier.Taken(c, u, mac) == Some(m) <==>
            && u.Update? && u.text.Some? && |u.text.value| < 256
            && exists g: seq<string> :: Line.SignedFields(g, c.counter, m) && mac(Join(g, '|')).Some?
                 && u.text.value == Join(g, '|') + "|" + mac(Join(g, '|')).value
  {
    hide Line.Parse, Line.SignedFields, Join;
    if u.Update? && u.text.Some? {
      Line.AcceptedExactly(u.text.value, c.counter, mac, m);
    }
  }

  /** A courier line adds or removes one code: an add writes one guest slot with what the line says,
      a revoke empties one, and every other slot is as it was. */
  lemma CourierTouchesOneSlot(c: Courier.Courier, u: Courier.Update, mac: Mac, i: nat)
    requires Courier.Taken(c, u, mac).Some? && i < 5
    ensures var m, d := Courier.Taken(c, u, mac).value, Courier.One(c, u, mac);
            && d.counter == m.counter
            && (m.op == Line.Revoke ==> d.table[i] == if IsFirst(c.table, m.id, i) then EMPTY else c.table[i])
            && (m.op == Line.Add ==>
                  d.table[i] == if m.validFrom < m.validUntil && Lands(c.table, m.id, i)
                                then Slot(true, false, m.id, m.hash, m.validFrom, m.validUntil) else c.table[i])
  {
    hide FindFrom, FreeFrom;
    var m := Courier.Taken(c, u, mac).value;
    assert m.id != "" by {
      TakenHasId(c, u, mac);
    }
    RevokeTouchesOneSlot(c.table, m.id);
    UpsertTouchesOneSlot(c.table, m.id, m.hash, m.validFrom, m.validUntil, false);
  }

  lemma TakenHasId(c: Courier.Courier, u: Courier.Update, mac: Mac)
    requires Courier.Taken(c, u, mac).Some?
    ensures Courier.Taken(c, u, mac).value.id != ""
  {
    hide Line.U64, Line.I64, Split;
  }
}
