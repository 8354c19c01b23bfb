/** End to end: what the tools print is what the door then opens for. */
module Delivery {
  import opened Bytes
  import opened AccessCore
  import opened SyncLogic
  import opened SyncInstall
  import opened Text
  import Decision = AccessTable
  import Courier = TgClient
  import LineTool = MakeTgLine
  import SetParser = SyncParse
  import SetTool = MakeSyncFile
  import Line = TgProto

  /** A printed set, delivered to the gate it is for, is installed as it stands: the guests are then
      exactly the codes on the command line, the last one winning for a repeated id. */
  lemma PrintedSetIsInstalled(gate: string, generation: u64, codes: seq<SetTool.CodeArg>, tag: Tag, s: Sync,
                              t: Table, now: u32)
    requires SetTool.GoodGate(gate) && SetTool.GoodIds(codes) && SetTool.GoodSet(generation, codes)
    requires TransientsApart(t) && generation > s.generation
    requires var e := SetTool.SetOf(generation, codes).entries;
             NoEmptyWindow(e) && Transients(t) + |Ids(e)| <= 5
    ensures var r := SetParser.Parse(SetTool.BodyOf(gate, generation, codes, tag), gate, x => Some(tag(x)));
            && r.Ok? && r.codes == SetTool.SetOf(generation, codes)
            && var (p, u, out) := Installed(s, t, r.codes, now);
               out == Applied && p.generation == generation && GuestsAre(u, t, r.codes.entries)
  {
    hide SetParser.Parse, SetTool.BodyOf, SetTool.GoodGate, Installed, GuestsAre;
    SetTool.SetRoundTrip(gate, generation, codes, tag);
    var printed := SetTool.SetOf(generation, codes);
    forall k | 0 <= k < |printed.entries|
      ensures Valid(printed.entries[k])
    {
      assert printed.entries[k] == SetTool.EntryFor(codes[k]);
    }
    AppliedExactlyWhen(s, t, printed, now);
    AppliedMeansExactlyTheSet(s, t, printed, now);
  }

  /** Once a set is in, a code on it opens the door exactly during its own window, provided no slot
      further up the table repeats its hash. */
  lemma SetCodeOpensInWindow(a: Access, base: Table, entries: seq<Entry>, i: nat, now: int)
    requires i < 5 && GuestsAre(a.slots, base, entries) && a.clockTrusted && Decision.NoLockout(a, now)
    requires IsGuest(a.slots[i]) && Decision.IsLastMatch(a.slots, a.slots[i].hash, i)
    ensures var k := LastFor(entries, a.slots[i].id);
            && 0 <= k && entries[k].hash == a.slots[i].hash
            && (Evaluated(a, a.slots[i].hash, now).1 == Granted <==>
               entries[k].validFrom <= now <= entries[k].validUntil)
  {
    hide Evaluated;
    assert CarriesEntry(a.slots[i], entries);
    Decision.GrantExactly(a, a.slots[i].hash, now);
    forall m: nat | Decision.IsLastMatch(a.slots, a.slots[i].hash, m)
      ensures m == i
    {
    }
  }

  /** A code left out of the set is revoked: a hash that no entry and no dev code carries is unknown. */
  lemma AbsentCodeIsUnknown(a: Access, base: Table, entries: seq<Entry>, h: Hash, now: int)
    requires GuestsAre(a.slots, base, entries) && a.clockTrusted && Decision.NoLockout(a, now)
    requires forall k :: 0 <= k < |entries| ==> entries[k].hash != h
    requires forall i :: 0 <= i < 5 && IsTransient(base[i]) ==> base[i].hash != h
    ensures Evaluated(a, h, now).1 == Unknown
  {
    hide Evaluated;
    Decision.UnknownExactly(a, h, now);
    forall i | 0 <= i < 5 && a.slots[i].occupied
      ensures a.slots[i].hash != h
    {
      if IsGuest(a.slots[i]) {
        assert CarriesEntry(a.slots[i], entries);
      } else {
        assert IsTransient(a.slots[i]);
      }
    }
  }

  /** A printed courier line, with a counter above the one held, lands in the table: an add puts the
      code where its id is or in a free slot, a revoke leaves no slot with the id. */
  lemma PrintedLineIsApplied(counter: u64, r: LineTool.Request, tag: Tag, c: Courier.Courier, update: u64)
    requires IsBackendId(r.id) && counter > c.counter && Decision.Distinct(c.table)
    requires r.AddCode? ==> -I64_MAX <= r.validFrom < r.validUntil <= I64_MAX && Target(c.table, r.id) >= 0
    ensures LineTool.LineOf(counter, r, tag).Some?
    ensures var d := Courier.One(c, Courier.Update(update, LineTool.LineOf(counter, r, tag)), x => Some(tag(x)));
            && d.counter == counter
            && (r.AddCode? ==>
                  exists i :: 0 <= i < 5 && d.table[i] == Slot(true, false, r.id, r.digest, r.validFrom, r.validUntil))
            && (r.RevokeCode? ==> forall i :: 0 <= i < 5 && d.table[i].occupied ==> d.table[i].id != r.id)
  {
    hide Line.Parse, LineTool.LineOf;
    LineTool.CourierRoundTrip(counter, r, tag, c.counter);
    if r.AddCode? {
      var (t, i) := Upserted(c.table, r.id, r.digest, r.validFrom, r.validUntil, false);
      assert t[i] == Slot(true, false, r.id, r.digest, r.validFrom, r.validUntil);
    }
  }
}
