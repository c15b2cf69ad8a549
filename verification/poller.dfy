/** The poller: every cycle it stats each watch entry again, stores a
    changed modification time and emits a change event for every entry whose
    time changed or whose stat failed, then sleeps for the poll interval. */
module Poller {
  import opened Results
  import opened Registry

  /** Whether observing `o` for entry `e` emits a change event: a failed
      stat always does, a successful one when its time differs from the
      stored one (in either direction). */
  predicate Fires(e: Entry, o: Stat)
  {
    o.StatFailed? || o.modTime != e.modifyTime
  }

  /** `e'` is `e` with nothing but possibly its time changed. */
  predicate SameTarget(e': Entry, e: Entry)
  {
    e'.filePath == e.filePath && e'.command == e.command
  }

  predicate StrictlyIncreasing(xs: seq<nat>)
  {
    forall a, b :: 0 <= a < b < |xs| ==> xs[a] < xs[b]
  }

  /** The entries after one sweep, and the positions of the entries that
      emitted an event, in the order they were visited. */
  datatype SweepResult = SweepResult(entries: seq<Entry>, events: seq<nat>)

  /** One sweep over the entries of a group, `observed[k]` being what stat
      returned for entry `k` during this sweep. */
  function Sweep(entries: seq<Entry>, observed: seq<Stat>): (r: SweepResult)
    requires |observed| == |entries|
    ensures |r.entries| == |entries|
    ensures forall k :: 0 <= k < |entries| ==> SameTarget(r.entries[k], entries[k])
    ensures forall k :: 0 <= k < |entries| && observed[k].StatFailed? ==> r.entries[k] == entries[k]
    ensures forall k :: 0 <= k < |entries| && observed[k].StatOk? ==>
              r.entries[k].modifyTime == observed[k].modTime
    ensures forall k :: 0 <= k < |entries| ==> (k in r.events <==> Fires(entries[k], observed[k]))
    ensures forall n :: 0 <= n < |r.events| ==> r.events[n] < |entries|
    ensures StrictlyIncreasing(r.events)
    decreases |entries|
  {
    if |entries| == 0 then SweepResult([], [])
    else
      var n := |entries| - 1;
      var before := Sweep(entries[..n], observed[..n]);
      var e, o := entries[n], observed[n];
      SweepEntriesStep(entries, observed, before.entries);
      SweepEventsStep(entries, observed, before.events);
      SweepResult(before.entries + [Observe(e, o)], before.events + if Fires(e, o) then [n] else [])
  }

  /** The entry as a sweep leaves it after observing `o`. */
  function Observe(e: Entry, o: Stat): Entry
  {
    if o.StatFailed? then e
    else if o.modTime != e.modifyTime then e.(modifyTime := o.modTime)
    else e
  }

  /** Extending a sweep by one entry keeps the per-entry rules. */
  lemma SweepEntriesStep(entries: seq<Entry>, observed: seq<Stat>, before: seq<Entry>)
    requires |observed| == |entries| > 0
    requires |before| == |entries| - 1
    requires forall k :: 0 <= k < |before| ==> SameTarget(before[k], entries[k])
    requires forall k :: 0 <= k < |before| && observed[k].StatFailed? ==> before[k] == entries[k]
    requires forall k :: 0 <= k < |before| && observed[k].StatOk? ==>
               before[k].modifyTime == observed[k].modTime
    ensures var after := before + [Observe(entries[|before|], observed[|before|])];
            && (forall k :: 0 <= k < |entries| ==> SameTarget(after[k], entries[k]))
            && (forall k :: 0 <= k < |entries| && observed[k].StatFailed? ==> after[k] == entries[k])
            && (forall k :: 0 <= k < |entries| && observed[k].StatOk? ==>
                  after[k].modifyTime == observed[k].modTime)
  {
  }

  /** Extending a sweep by one entry emits its event, if any, last. */
  lemma SweepEventsStep(entries: seq<Entry>, observed: seq<Stat>, events: seq<nat>)
    requires |observed| == |entries| > 0
    requires forall k :: 0 <= k < |entries| - 1 ==> (k in events <==> Fires(entries[k], observed[k]))
    requires forall i :: 0 <= i < |events| ==> events[i] < |entries| - 1
    requires StrictlyIncreasing(events)
    ensures var n := |entries| - 1;
            var after := events + if Fires(entries[n], observed[n]) then [n] else [];
            && (forall k :: 0 <= k < |entries| ==> (k in after <==> Fires(entries[k], observed[k])))
            && (forall i :: 0 <= i < |after| ==> after[i] < |entries|)
            && StrictlyIncreasing(after)
  {
  }

  /** An entry emits at most one event per sweep, exactly when it fires. */
  lemma OneEventPerFiring(entries: seq<Entry>, observed: seq<Stat>, k: nat)
    requires |observed| == |entries|
    requires k < |entries|
    ensures multiset(Sweep(entries, observed).events)[k] == if Fires(entries[k], observed[k]) then 1 else 0
  {
    var events := Sweep(entries, observed).events;
    CountInIncreasing(events, k);
  }

  /** A strictly increasing sequence holds every value at most once. */
  lemma {:induction false} CountInIncreasing(xs: seq<nat>, x: nat)
    requires StrictlyIncreasing(xs)
    ensures multiset(xs)[x] == if x in xs then 1 else 0
    decreases |xs|
  {
    if |xs| > 0 {
      var n := |xs| - 1;
      assert xs == xs[..n] + [xs[n]];
      CountInIncreasing(xs[..n], x);
      if xs[n] == x {
        assert x !in xs[..n];
      }
    }
  }

  /** Sweeping again with the same successful observations changes nothing
      and emits nothing. */
  lemma SweepSettles(entries: seq<Entry>, observed: seq<Stat>)
    requires |observed| == |entries|
    requires forall k :: 0 <= k < |observed| ==> observed[k].StatOk?
    ensures var once := Sweep(entries, observed).entries;
            Sweep(once, observed) == SweepResult(once, [])
  {
    var once := Sweep(entries, observed).entries;
    ResweepKeepsEntries(entries, observed);
    QuietSweep(once, observed);
  }

  lemma ResweepKeepsEntries(entries: seq<Entry>, observed: seq<Stat>)
    requires |observed| == |entries|
    requires forall k :: 0 <= k < |observed| ==> observed[k].StatOk?
    ensures var once := Sweep(entries, observed).entries;
            Sweep(once, observed).entries == once
  {
    var once := Sweep(entries, observed).entries;
    var twice := Sweep(once, observed).entries;
    forall k | 0 <= k < |once|
      ensures twice[k] == once[k]
    {
      assert twice[k].modifyTime == observed[k].modTime == once[k].modifyTime;
    }
  }

  /** A sweep in which no entry fires emits nothing. */
  lemma QuietSweep(entries: seq<Entry>, observed: seq<Stat>)
    requires |observed| == |entries|
    requires forall k :: 0 <= k < |entries| ==> !Fires(entries[k], observed[k])
    ensures Sweep(entries, observed).events == []
  {
  }

  /** A reference to entry `index` of group `group`. */
  datatype EntryRef = EntryRef(group: nat, index: nat)

  /** `a` is visited before `b` in a sweep of the registry. */
  predicate VisitedBefore(a: EntryRef, b: EntryRef)
  {
    a.group < b.group || (a.group == b.group && a.index < b.index)
  }

  /** The events of one group's sweep, as references into the registry. */
  function InGroup(g: nat, events: seq<nat>): seq<EntryRef>
  {
    seq(|events|, n requires 0 <= n < |events| => EntryRef(g, events[n]))
  }

  predicate Observes(groups: seq<Group>, observed: seq<seq<Stat>>)
  {
    && |observed| == |groups|
    && forall g :: 0 <= g < |groups| ==> |observed[g]| == |groups[g].entries|
  }

  datatype RegistrySweep = RegistrySweep(groups: seq<Group>, events: seq<EntryRef>)

  /** One sweep over every group of the registry, groups in registry order. */
  function SweepRegistry(groups: seq<Group>, observed: seq<seq<Stat>>): (r: RegistrySweep)
    requires Observes(groups, observed)
    ensures |r.groups| == |groups|
    ensures forall g :: 0 <= g < |groups| ==>
              && r.groups[g].name == groups[g].name
              && r.groups[g].entries == Sweep(groups[g].entries, observed[g]).entries
    ensures forall g, i :: 0 <= g < |groups| && 0 <= i < |groups[g].entries| ==>
              (EntryRef(g, i) in r.events <==> Fires(groups[g].entries[i], observed[g][i]))
    ensures forall n :: 0 <= n < |r.events| ==>
              r.events[n].group < |groups| && r.events[n].index < |groups[r.events[n].group].entries|
    ensures forall a, b :: 0 <= a < b < |r.events| ==> VisitedBefore(r.events[a], r.events[b])
    decreases |groups|
  {
    if |groups| == 0 then RegistrySweep([], [])
    else
      var m := |groups| - 1;
      var before := SweepRegistry(groups[..m], observed[..m]);
      var swept := Sweep(groups[m].entries, observed[m]);
      RegistryGroupsStep(groups, observed, before.groups);
      RegistryEventsStep(groups, observed, before.events);
      RegistrySweep(before.groups + [Group(groups[m].name, swept.entries)],
                    before.events + InGroup(m, swept.events))
  }

  /** Extending a registry sweep by one group sweeps that group. */
  lemma RegistryGroupsStep(groups: seq<Group>, observed: seq<seq<Stat>>, before: seq<Group>)
    requires Observes(groups, observed) && |groups| > 0
    requires |before| == |groups| - 1
    requires forall g :: 0 <= g < |before| ==>
               && before[g].name == groups[g].name
               && before[g].entries == Sweep(groups[g].entries, observed[g]).entries
    ensures var m := |groups| - 1;
            var after := before + [Group(groups[m].name, Sweep(groups[m].entries, observed[m]).entries)];
            forall g :: 0 <= g < |groups| ==>
              && after[g].name == groups[g].name
              && after[g].entries == Sweep(groups[g].entries, observed[g]).entries
  {
  }

  /** Extending a registry sweep by one group appends that group's events,
      which come after every earlier group's. */
  lemma RegistryEventsStep(groups: seq<Group>, observed: seq<seq<Stat>>, events: seq<EntryRef>)
    requires Observes(groups, observed) && |groups| > 0
    requires forall g, i :: 0 <= g < |groups| - 1 && 0 <= i < |groups[g].entries| ==>
               (EntryRef(g, i) in events <==> Fires(groups[g].entries[i], observed[g][i]))
    requires forall n :: 0 <= n < |events| ==>
               events[n].group < |groups| - 1 && events[n].index < |groups[events[n].group].entries|
    requires forall a, b :: 0 <= a < b < |events| ==> VisitedBefore(events[a], events[b])
    ensures var m := |groups| - 1;
            var after := events + InGroup(m, Sweep(groups[m].entries, observed[m]).events);
            && (forall g, i :: 0 <= g < |groups| && 0 <= i < |groups[g].entries| ==>
                  (EntryRef(g, i) in after <==> Fires(groups[g].entries[i], observed[g][i])))
            && (forall n :: 0 <= n < |after| ==>
                  after[n].group < |groups| && after[n].index < |groups[after[n].group].entries|)
            && (forall a, b :: 0 <= a < b < |after| ==> VisitedBefore(after[a], after[b]))
  {
    var m := |groups| - 1;
    var swept := Sweep(groups[m].entries, observed[m]).events;
    var tagged := InGroup(m, swept);
    InGroupRefs(m, swept);
    var after := events + tagged;
    forall g, i | 0 <= g < |groups| && 0 <= i < |groups[g].entries|
      ensures EntryRef(g, i) in after <==> Fires(groups[g].entries[i], observed[g][i])
    {
      if g == m {
        assert EntryRef(g, i) !in events;
        InGroupMember(m, swept, i);
      } else {
        assert EntryRef(g, i) !in tagged;
      }
    }
  }

  lemma InGroupRefs(g: nat, events: seq<nat>)
    ensures |InGroup(g, events)| == |events|
    ensures forall n :: 0 <= n < |events| ==> InGroup(g, events)[n] == EntryRef(g, events[n])
  {
  }

  /** A group's tagged events name exactly its entries that emitted one. */
  lemma InGroupMember(g: nat, events: seq<nat>, i: nat)
    ensures EntryRef(g, i) in InGroup(g, events) <==> i in events
  {
    InGroupRefs(g, events);
    if i in events {
      var n :| 0 <= n < |events| && events[n] == i;
      assert InGroup(g, events)[n] == EntryRef(g, i);
    }
  }

  /** The entries and the per-sweep events after a series of sweeps of one
      group. */
  datatype History = History(entries: seq<Entry>, events: seq<seq<nat>>)

  predicate Rounds(entries: seq<Entry>, rounds: seq<seq<Stat>>)
  {
    forall s :: 0 <= s < |rounds| ==> |rounds[s]| == |entries|
  }

  /** Sweep `s` observes `rounds[s]`. */
  function RunSweeps(entries: seq<Entry>, rounds: seq<seq<Stat>>): (r: History)
    requires Rounds(entries, rounds)
    ensures |r.entries| == |entries|
    ensures |r.events| == |rounds|
    ensures forall k :: 0 <= k < |entries| ==> SameTarget(r.entries[k], entries[k])
    decreases |rounds|
  {
    if |rounds| == 0 then History(entries, [])
    else
      var m := |rounds| - 1;
      var before := RunSweeps(entries, rounds[..m]);
      var swept := Sweep(before.entries, rounds[m]);
      History(swept.entries, before.events + [swept.events])
  }

  /** The modification time last observed for entry `k` over `rounds`, or
      `initial` when no stat of it has succeeded. */
  function LastObserved(initial: Timestamp, rounds: seq<seq<Stat>>, k: nat): Timestamp
    requires forall s :: 0 <= s < |rounds| ==> k < |rounds[s]|
    decreases |rounds|
  {
    if |rounds| == 0 then initial
    else
      var o := rounds[|rounds| - 1][k];
      if o.StatOk? then o.modTime else LastObserved(initial, rounds[..|rounds| - 1], k)
  }

  /** A stored time is always the last one the poller observed. */
  lemma {:induction false} StoredTimeIsLastObserved(entries: seq<Entry>, rounds: seq<seq<Stat>>, k: nat)
    requires Rounds(entries, rounds)
    requires k < |entries|
    ensures RunSweeps(entries, rounds).entries[k].modifyTime
         == LastObserved(entries[k].modifyTime, rounds, k)
    decreases |rounds|
  {
    if |rounds| > 0 {
      var m := |rounds| - 1;
      assert Rounds(entries, rounds[..m]);
      StoredTimeIsLastObserved(entries, rounds[..m], k);
    }
  }

  /** The last sweep of a series appends its events to those of the
      sweeps before it. */
  lemma RunStep(entries: seq<Entry>, rounds: seq<seq<Stat>>)
    requires Rounds(entries, rounds) && |rounds| > 0
    ensures Rounds(entries, rounds[..|rounds| - 1])
    ensures var before := RunSweeps(entries, rounds[..|rounds| - 1]);
            RunSweeps(entries, rounds).events
              == before.events + [Sweep(before.entries, rounds[|rounds| - 1]).events]
  {
    assert Rounds(entries, rounds[..|rounds| - 1]);
  }

  /** The events of sweep `s` depend only on the sweeps before it. */
  lemma {:induction false} RunPrefix(entries: seq<Entry>, rounds: seq<seq<Stat>>, s: nat)
    requires Rounds(entries, rounds)
    requires s < |rounds|
    ensures Rounds(entries, rounds[..s])
    ensures RunSweeps(entries, rounds).events[s]
         == Sweep(RunSweeps(entries, rounds[..s]).entries, rounds[s]).events
    decreases |rounds|
  {
    var m := |rounds| - 1;
    RunStep(entries, rounds);
    var before := RunSweeps(entries, rounds[..m]);
    if s < m {
      RunPrefix(entries, rounds[..m], s);
      assert rounds[..m][..s] == rounds[..s];
      assert rounds[..m][s] == rounds[s];
      assert RunSweeps(entries, rounds).events[s] == before.events[s];
    } else {
      assert rounds[..m] == rounds[..s];
    }
  }

  /** Sweep `s` emits an event for entry `k` exactly when its stat fails or
      observes a time other than the last one observed before. */
  lemma FiresOnTransition(entries: seq<Entry>, rounds: seq<seq<Stat>>, s: nat, k: nat)
    requires Rounds(entries, rounds)
    requires s < |rounds| && k < |entries|
    ensures k in RunSweeps(entries, rounds).events[s]
        <==> (rounds[s][k].StatFailed?
              || rounds[s][k].modTime != LastObserved(entries[k].modifyTime, rounds[..s], k))
  {
    RunPrefix(entries, rounds, s);
    StoredTimeIsLastObserved(entries, rounds[..s], k);
  }

  /** An entry whose file cannot be stat'ed fires on every sweep while it
      stays so, and keeps the time it had. */
  lemma {:induction false} MissingFileFiresEverySweep(entries: seq<Entry>, rounds: seq<seq<Stat>>, k: nat)
    requires Rounds(entries, rounds)
    requires k < |entries|
    requires forall s :: 0 <= s < |rounds| ==> rounds[s][k].StatFailed?
    ensures forall s :: 0 <= s < |rounds| ==> k in RunSweeps(entries, rounds).events[s]
    ensures RunSweeps(entries, rounds).entries[k] == entries[k]
    decreases |rounds|
  {
    if |rounds| > 0 {
      var m := |rounds| - 1;
      assert Rounds(entries, rounds[..m]);
      MissingFileFiresEverySweep(entries, rounds[..m], k);
    }
  }

  /** One millisecond, as a count of nanoseconds. */
  const Millisecond: int := 1_000_000

  /** The poll interval, in nanoseconds: 100 ms when the `sleep` setting is
      empty, otherwise the setting parsed as a duration; a setting that does
      not parse stops the program. */
  function PollInterval(sleep: string, parseDuration: string -> Option<int>): (r: Result<int>)
    ensures sleep == "" ==> r == Ok(100 * Millisecond)
    ensures sleep != "" ==> (r.Ok? <==> parseDuration(sleep).Some?)
    ensures sleep != "" && r.Ok? ==> r.value == parseDuration(sleep).value
    ensures r.Err? ==> r.error == BadDuration(sleep)
  {
    if sleep != "" then
      match parseDuration(sleep)
      case Some(d) => Ok(d)
      case None => Err(BadDuration(sleep))
    else
      Ok(100 * Millisecond)
  }
}
