/** The older per-stream tracker of lib/logstash/inputs/last_event_tracker.rb:
    for every group and stream it remembers only the latest timestamp seen
    and the event ids seen at that timestamp. */
module LastEventTracker {
  import opened Common
  import opened RubyText

  /** The timestamp and event ids a `LastEvents` holds. */
  datatype Snapshot = Snapshot(timestamp: int, events: seq<string>)

  /** A `LastEvents` as `LastEvents.new` with no arguments leaves it. */
  const Fresh: Snapshot := Snapshot(0, [])

  /** `check_event_already_processed(timestamp, event_id)`: whether the
      event was already seen, and the snapshot afterwards. An event at the
      snapshot's timestamp is reported once and then remembered; an event at
      any other timestamp, earlier or later, replaces the whole snapshot. */
  function Checked(s: Snapshot, ts: int, id: string): (r: (bool, Snapshot))
    ensures r.1.timestamp == ts && id in r.1.events
    ensures r.0 <==> ts == s.timestamp && id in s.events
    ensures r.0 ==> r.1 == s
    ensures ts == s.timestamp && id !in s.events ==> r.1.events == s.events + [id]
    ensures ts != s.timestamp ==> r.1.events == [id]
    ensures NoDuplicates(s.events) ==> NoDuplicates(r.1.events)
  {
    if ts == s.timestamp then
      if id in s.events then (true, s) else (false, Snapshot(s.timestamp, s.events + [id]))
    else (false, Snapshot(ts, [id]))
  }

  /** Checking the same event twice in a row: the second check reports it as
      processed and changes nothing. */
  lemma CheckIsIdempotent(s: Snapshot, ts: int, id: string)
    ensures var first := Checked(s, ts, id).1;
      Checked(first, ts, id) == (true, first)
  {
  }

  /** Once the snapshot has moved to a later timestamp, an event of the
      earlier timestamp is reported as new, even if it had been seen. */
  lemma EarlierEventsAreForgotten(s: Snapshot, ts: int, id: string, later: int, other: string)
    requires later != ts
    ensures var moved := Checked(Checked(s, ts, id).1, later, other).1;
      !Checked(moved, ts, id).0
  {
  }

  /** The test scenarios: one event; three events at one timestamp; the same
      event twice; and a third event at a new timestamp. */
  lemma CheckExamples()
    ensures Checked(Fresh, 1, "event1") == (false, Snapshot(1, ["event1"]))
    ensures var s1 := Checked(Fresh, 1, "event1").1;
      var s2 := Checked(s1, 1, "event2").1;
      Checked(s2, 1, "event3") == (false, Snapshot(1, ["event1", "event2", "event3"]))
    ensures var s1 := Checked(Fresh, 1, "event1").1;
      Checked(s1, 1, "event1") == (true, s1)
    ensures var s1 := Checked(Fresh, 1, "event1").1;
      var s2 := Checked(s1, 1, "event2").1;
      Checked(s2, 2, "event3") == (false, Snapshot(2, ["event3"]))
  {
    var s1 := Checked(Fresh, 1, "event1").1;
    assert s1 == Snapshot(1, ["event1"]);
    assert "event2" !in ["event1"];
    var s2 := Checked(s1, 1, "event2").1;
    assert s2 == Snapshot(1, ["event1", "event2"]);
    assert "event3" !in s2.events;
    assert s2.events + ["event3"] == ["event1", "event2", "event3"];
  }

  /** One stream's latest timestamp and the event ids seen at it. */
  class LastEvents {
    /** The key this object is stored under, as a proof aid: the source keeps
        it only as the key of the table. */
    ghost const key: string
    var timestamp: int
    var events: seq<string>

    function Snap(): Snapshot
      reads this
    {
      Snapshot(timestamp, events)
    }

    constructor(ghost key: string, timestamp: int, events: seq<string>)
      ensures this.key == key && Snap() == Snapshot(timestamp, events)
    {
      this.key := key;
      this.timestamp := timestamp;
      this.events := events;
    }

    method CheckEventAlreadyProcessed(ts: int, id: string) returns (processed: bool)
      modifies this
      ensures (processed, Snap()) == Checked(old(Snap()), ts, id)
    {
      if ts == timestamp {
        if id in events {
          return true;
        }
        events := events + [id];
        return false;
      } else {
        timestamp := ts;
        events := [];
        events := events + [id];
        assert events == [id];
        return false;
      }
    }
  }

  /** `identify(log_group, log_event)`: "<group>.<stream>". */
  function Identify(group: string, stream: string): string {
    group + "." + stream
  }

  /** Two different group/stream pairs share a key when a group name holds a
      '.': group "a.b" with stream "c" and group "a" with stream "b.c". */
  lemma IdentifyCollides()
    ensures Identify("a.b", "c") == Identify("a", "b.c")
  {
  }

  /** When group names hold no '.', keys tell group/stream pairs apart. */
  lemma {:induction false} IdentifyInjective(g1: string, s1: string, g2: string, s2: string)
    requires '.' !in g1 && '.' !in g2
    ensures Identify(g1, s1) == Identify(g2, s2) <==> g1 == g2 && s1 == s2
  {
    IndexOfAfterPrefix(g1, '.', s1);
    IndexOfAfterPrefix(g2, '.', s2);
    assert Identify(g1, s1) == g1 + ['.'] + s1;
    assert Identify(g2, s2) == g2 + ['.'] + s2;
    if Identify(g1, s1) == Identify(g2, s2) {
      assert |g1| == |g2|;
      assert g1 == Identify(g1, s1)[..|g1|] == Identify(g2, s2)[..|g2|] == g2;
      assert s1 == Identify(g1, s1)[|g1| + 1..] == Identify(g2, s2)[|g2| + 1..] == s2;
    }
  }

  /** The snapshot of key `id`, or that of a new `LastEvents` when there is none. */
  function SnapshotOf(m: map<string, Snapshot>, id: string): Snapshot {
    if id in m then m[id] else Fresh
  }

  /** What `load` finds at the data path: no file; the parsed JSON document,
      each key with its "timestamp" and "events"; or a file that cannot be
      read or parsed. */
  datatype StoredFile = NoFile | Parsed(streams: map<string, Snapshot>) | Unreadable

  /** The snapshots `load` leaves behind. */
  function LoadedSnapshots(file: StoredFile): (m: map<string, Snapshot>)
    ensures file.Parsed? ==> m == file.streams
    ensures !file.Parsed? ==> m == map[]
  {
    if file.Parsed? then file.streams else map[]
  }

  /** The latest events of every group/stream key, created on first use. */
  class LastEventTracker {
    const pruneMinutes: int
    var lastEventsByStream: map<string, LastEvents>
    /** The snapshot each key's object holds. */
    ghost var snapshots: map<string, Snapshot>

    /** Every object is stored under its own key and holds that key's snapshot. */
    ghost predicate Valid()
      reads this, lastEventsByStream.Values
    {
      && snapshots.Keys == lastEventsByStream.Keys
      && forall k :: k in lastEventsByStream ==>
           lastEventsByStream[k].key == k && lastEventsByStream[k].Snap() == snapshots[k]
    }

    constructor(pruneMinutes: int)
      ensures this.pruneMinutes == pruneMinutes
      ensures Valid() && snapshots == map[]
    {
      this.pruneMinutes := pruneMinutes;
      lastEventsByStream := map[];
      snapshots := map[];
    }

    /** `check_event_already_processed(log_group, log_event)`. */
    method CheckEventAlreadyProcessed(group: string, e: FilteredLogEvent) returns (processed: bool)
      requires Valid()
      modifies this, lastEventsByStream.Values
      ensures Valid()
      ensures var id := Identify(group, e.logStreamName);
        var r := Checked(SnapshotOf(old(snapshots), id), e.timestamp, e.eventId);
        processed == r.0 && snapshots == old(snapshots)[id := r.1]
    {
      var id := Identify(group, e.logStreamName);
      if id !in lastEventsByStream {
        var created := new LastEvents(id, 0, []);
        lastEventsByStream := lastEventsByStream[id := created];
        snapshots := snapshots[id := Fresh];
      }
      var t := lastEventsByStream[id];
      processed := t.CheckEventAlreadyProcessed(e.timestamp, e.eventId);
      snapshots := snapshots[id := t.Snap()];
    }

    /** `get(log_group, log_event)`: the key's object, or nothing when the key
        was never checked or loaded. */
    function Get(group: string, e: FilteredLogEvent): (r: Option<LastEvents>)
      requires Valid()
      reads this, lastEventsByStream.Values
      ensures r.Some? <==> Identify(group, e.logStreamName) in snapshots
      ensures r.Some? ==> r.value.Snap() == snapshots[Identify(group, e.logStreamName)]
    {
      var id := Identify(group, e.logStreamName);
      if id in lastEventsByStream then Some(lastEventsByStream[id]) else None
    }

    /** `save`, before the JSON encoding: each key's "timestamp" and "events". */
    function SaveModel(): (saved: map<string, Snapshot>)
      requires Valid()
      reads this, lastEventsByStream.Values
      ensures saved == snapshots
    {
      map k | k in lastEventsByStream :: Snapshot(lastEventsByStream[k].timestamp, lastEventsByStream[k].events)
    }

    /** `load`: the table is emptied, then rebuilt from the parsed file. */
    method Load(file: StoredFile)
      requires Valid()
      modifies this
      ensures Valid()
      ensures snapshots == LoadedSnapshots(file)
    {
      lastEventsByStream, snapshots := map[], map[];
      if file.Parsed? {
        var pending := file.streams.Keys;
        while pending != {}
          invariant Valid()
          invariant pending <= file.streams.Keys
          invariant snapshots == map k | k in file.streams && k !in pending :: file.streams[k]
          decreases pending
        {
          SomeString(pending);
          var k :| k in pending;
          var v := file.streams[k];
          var created := new LastEvents(k, v.timestamp, v.events);
          lastEventsByStream := lastEventsByStream[k := created];
          snapshots := snapshots[k := v];
          pending := pending - {k};
        }
      }
    }
  }

  /** Saving the tracker and loading what was saved gives back every key's
      snapshot, so each later check answers as it would have without the
      restart, and `get` finds the same keys. Without a readable file every
      key starts over as a new `LastEvents`. */
  lemma SavedTrackerReloads(t: LastEventTracker, f: StoredFile, id: string, ts: int, eventId: string)
    requires t.Valid()
    ensures LoadedSnapshots(Parsed(t.SaveModel())) == t.snapshots
    ensures Checked(SnapshotOf(LoadedSnapshots(Parsed(t.SaveModel())), id), ts, eventId)
         == Checked(SnapshotOf(t.snapshots, id), ts, eventId)
    ensures !f.Parsed? ==> LoadedSnapshots(f) == map[] && SnapshotOf(LoadedSnapshots(f), id) == Fresh
  {
  }
}
