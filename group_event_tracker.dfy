/** The windowed de-duplication table of lib/logstash/inputs/group_event_tracker.rb.

    A `Window` is the value a `GroupEventTracker` holds in `@min_time`,
    `@max_time` and `@events_by_ms`; the functions on windows say what each
    operation does, the lemmas say what the source promises of them, and the
    two classes are the source's objects, whose methods are proved to change
    their fields exactly as those functions say. */
module GroupEventTracker {
  import opened Common
  import opened RubyText

  // ---------------------------------------------------------------------------
  // Event identity
  // ---------------------------------------------------------------------------

  /** `identify`: an event's identity within its group, "<stream>:<event_id>". */
  function Identify(e: FilteredLogEvent): string {
    e.logStreamName + ":" + e.eventId
  }

  /** Stream names cannot hold ':', so two events share an identity exactly
      when they share both their stream and their event id. */
  lemma {:induction false} IdentifyInjective(a: FilteredLogEvent, b: FilteredLogEvent)
    requires ':' !in a.logStreamName && ':' !in b.logStreamName
    ensures Identify(a) == Identify(b) <==> a.logStreamName == b.logStreamName && a.eventId == b.eventId
  {
    var x, y := a.logStreamName, b.logStreamName;
    IndexOfAfterPrefix(x, ':', a.eventId);
    IndexOfAfterPrefix(y, ':', b.eventId);
    assert Identify(a) == x + [':'] + a.eventId;
    assert Identify(b) == y + [':'] + b.eventId;
    if Identify(a) == Identify(b) {
      assert |x| == |y|;
      assert x == Identify(a)[..|x|] == Identify(b)[..|y|] == y;
      assert a.eventId == Identify(a)[|x| + 1..] == Identify(b)[|y| + 1..] == b.eventId;
    }
  }

  // ---------------------------------------------------------------------------
  // One group's window, as a value
  // ---------------------------------------------------------------------------

  /** `@min_time`, `@max_time` and `@events_by_ms` of one group. Buckets are
      Ruby arrays: recording pushes without looking for an equal entry. */
  datatype Window = Window(minTime: Option<int>, maxTime: Option<int>, eventsByMs: map<int, seq<string>>)

  /** A tracker as `GroupEventTracker.new` leaves it. */
  const EmptyWindow: Window := Window(None, None, map[])

  /** What every window the operations below produce satisfies: a maximum is
      only ever set together with a minimum, and every bucket lies within
      [minTime, maxTime]. */
  ghost predicate Wf(w: Window) {
    && (w.minTime.None? ==> w.maxTime.None?)
    && (forall k :: k in w.eventsByMs ==>
          w.minTime.Some? && w.maxTime.Some? && w.minTime.value <= k <= w.maxTime.value)
  }

  /** minTime <= maxTime whenever both are set. Every operation keeps it,
      except a purge with a negative window length. */
  ghost predicate RangeOrdered(w: Window) {
    w.minTime.Some? && w.maxTime.Some? ==> w.minTime.value <= w.maxTime.value
  }

  /** The identities recorded at `ts` (none when there is no bucket). */
  function Bucket(w: Window, ts: int): seq<string> {
    if ts in w.eventsByMs then w.eventsByMs[ts] else []
  }

  /** `min_time(default_time)`. */
  function MinTimeOr(w: Window, default: Option<int>): Option<int> {
    if w.minTime.None? then default else w.minTime
  }

  /** The window after `get_or_set_min_time(default_time)`, which returns the
      new `minTime`. */
  function WithDefaultMinTime(w: Window, default: Option<int>): (r: Window)
    ensures r.minTime == MinTimeOr(w, default)
    ensures r.maxTime == w.maxTime && r.eventsByMs == w.eventsByMs
    ensures Wf(w) ==> Wf(r)
  {
    if w.minTime.None? then w.(minTime := default) else w
  }

  /** `is_new_event`. */
  function IsNew(w: Window, e: FilteredLogEvent): bool {
    if w.minTime.None? then true
    else if e.timestamp < w.minTime.value then false
    else if e.timestamp !in w.eventsByMs then true
    else Identify(e) !in w.eventsByMs[e.timestamp]
  }

  /** The three answers of `is_new_event`: with no minimum every event is new;
      below the minimum no event is new, whatever its stream and id; at or
      above it, an event is new exactly when its identity is missing from the
      bucket of its timestamp. */
  lemma IsNewCases(w: Window, e: FilteredLogEvent)
    ensures w.minTime.None? ==> IsNew(w, e)
    ensures w.minTime.Some? && e.timestamp < w.minTime.value ==>
      forall stream, id :: !IsNew(w, FilteredLogEvent(e.timestamp, stream, id))
    ensures w.minTime.Some? && e.timestamp >= w.minTime.value ==>
      (IsNew(w, e) <==> Identify(e) !in Bucket(w, e.timestamp))
  {
  }

  /** `update_ranges(timestamp)`: the new minimum is the lesser of the old one
      and `ts`, the new maximum the greater. */
  function WidenedTo(w: Window, ts: int): (r: Window)
    ensures r.eventsByMs == w.eventsByMs
    ensures r.minTime.Some? && r.minTime.value <= ts
    ensures w.minTime.Some? ==> r.minTime.value <= w.minTime.value
    ensures r.minTime == Some(ts) || r.minTime == w.minTime
    ensures r.maxTime.Some? && ts <= r.maxTime.value
    ensures w.maxTime.Some? ==> w.maxTime.value <= r.maxTime.value
    ensures r.maxTime == Some(ts) || r.maxTime == w.maxTime
    ensures Wf(w) ==> Wf(r)
    ensures RangeOrdered(w) ==> RangeOrdered(r)
  {
    Window(if w.minTime.None? || w.minTime.value > ts then Some(ts) else w.minTime,
           if w.maxTime.None? || w.maxTime.value < ts then Some(ts) else w.maxTime,
           w.eventsByMs)
  }

  /** `record_processed_event`: widen the range to the event's timestamp and
      push its identity onto that timestamp's bucket. Afterwards the event is
      no longer new; every other bucket is untouched, no bucket loses an
      entry, and the range is exactly the old one widened to the timestamp. */
  function Recorded(w: Window, e: FilteredLogEvent): (r: Window)
    ensures !IsNew(r, e)
    ensures r.eventsByMs.Keys == w.eventsByMs.Keys + {e.timestamp}
    ensures forall k :: k in w.eventsByMs ==> w.eventsByMs[k] <= r.eventsByMs[k]
    ensures forall k :: k in w.eventsByMs && k != e.timestamp ==> r.eventsByMs[k] == w.eventsByMs[k]
    ensures Bucket(r, e.timestamp) == Bucket(w, e.timestamp) + [Identify(e)]
    ensures r.minTime == WidenedTo(w, e.timestamp).minTime
    ensures r.maxTime == WidenedTo(w, e.timestamp).maxTime
    ensures r.minTime.Some? && r.minTime.value <= e.timestamp
    ensures r.maxTime.Some? && e.timestamp <= r.maxTime.value
    ensures w.minTime.Some? ==> r.minTime.value <= w.minTime.value
    ensures w.maxTime.Some? ==> w.maxTime.value <= r.maxTime.value
    ensures Wf(w) ==> Wf(r)
    ensures RangeOrdered(r)
  {
    var v := WidenedTo(w, e.timestamp);
    v.(eventsByMs := v.eventsByMs[e.timestamp := Bucket(v, e.timestamp) + [Identify(e)]])
  }

  /** The bound `purge` cuts at: `max_time - 60 * 1000 * minutes`. */
  function PurgeBefore(maxTime: int, minutes: int): int {
    maxTime - 60 * 1000 * minutes
  }

  /** `purge`. Nothing happens when no maximum is set or the minimum is already
      above the bound; otherwise the minimum becomes the bound and exactly the
      buckets below it go. The maximum never changes, and no event that was
      not new becomes new. The source needs a minimum whenever it has a
      maximum (`nil > Integer` would raise). */
  function Purged(w: Window, minutes: int): (r: Window)
    requires w.maxTime.Some? ==> w.minTime.Some?
    ensures r.maxTime == w.maxTime
    ensures w.maxTime.None? ==> r == w
    ensures w.maxTime.Some? && w.minTime.value > PurgeBefore(w.maxTime.value, minutes) ==> r == w
    ensures w.maxTime.Some? && w.minTime.value <= PurgeBefore(w.maxTime.value, minutes) ==>
      var bound := PurgeBefore(w.maxTime.value, minutes);
      && r.minTime == Some(bound)
      && (forall k :: k in r.eventsByMs <==> k in w.eventsByMs && bound <= k)
      && (forall k :: k in r.eventsByMs ==> r.eventsByMs[k] == w.eventsByMs[k])
    ensures forall e :: IsNew(r, e) ==> IsNew(w, e)
    ensures Wf(w) ==> Wf(r)
    ensures minutes >= 0 && RangeOrdered(w) ==> RangeOrdered(r)
  {
    if w.maxTime.None? then w
    else
      var bound := PurgeBefore(w.maxTime.value, minutes);
      if w.minTime.value > bound then w
      else Window(Some(bound), w.maxTime, map k | k in w.eventsByMs && !(k < bound) :: w.eventsByMs[k])
  }

  /** `set_to_tail`: when a maximum is set, the window shrinks to it and
      forgets every bucket. */
  function AtTail(w: Window): Window {
    if w.maxTime.Some? then Window(w.maxTime, w.maxTime, map[]) else w
  }

  /** The least element of a non-empty set of timestamps. */
  ghost function Least(s: set<int>): (m: int)
    requires s != {}
    ensures m in s && forall x :: x in s ==> m <= x
  {
    SomeInt(s);
    var x :| x in s;
    if s == {x} then x
    else
      var y := Least(s - {x});
      assert forall z :: z in s ==> z == x || z in s - {x};
      if x <= y then x else y
  }

  /** The greatest element of a non-empty set of timestamps. */
  ghost function Greatest(s: set<int>): (m: int)
    requires s != {}
    ensures m in s && forall x :: x in s ==> x <= m
  {
    SomeInt(s);
    var x :| x in s;
    if s == {x} then x
    else
      var y := Greatest(s - {x});
      assert forall z :: z in s ==> z == x || z in s - {x};
      if y <= x then x else y
  }

  /** `lo` lowered to every timestamp of `s`. */
  ghost function LowerTo(lo: Option<int>, s: set<int>): Option<int> {
    if s == {} then lo
    else if lo.Some? && lo.value <= Least(s) then lo
    else Some(Least(s))
  }

  /** `hi` raised to every timestamp of `s`. */
  ghost function RaisedTo(hi: Option<int>, s: set<int>): Option<int> {
    if s == {} then hi
    else if hi.Some? && Greatest(s) <= hi.value then hi
    else Some(Greatest(s))
  }

  /** `from_save_model(saved)`: the buckets become exactly the saved ones and
      the range widens over every saved timestamp, whatever order the saved
      hash is walked in. */
  ghost function Restored(w: Window, saved: map<int, seq<string>>): Window {
    Window(LowerTo(w.minTime, saved.Keys), RaisedTo(w.maxTime, saved.Keys), saved)
  }

  lemma LowerToStep(lo: Option<int>, s: set<int>, k: int)
    ensures LowerTo(lo, s + {k}) == WidenedTo(Window(LowerTo(lo, s), None, map[]), k).minTime
  {
    var t := s + {k};
    if s != {} {
      assert Least(s) in t;
      assert Least(t) == Least(s) || Least(t) == k;
    }
  }

  lemma RaisedToStep(hi: Option<int>, s: set<int>, k: int)
    ensures RaisedTo(hi, s + {k}) == WidenedTo(Window(None, RaisedTo(hi, s), map[]), k).maxTime
  {
    var t := s + {k};
    if s != {} {
      assert Greatest(s) in t;
      assert Greatest(t) == Greatest(s) || Greatest(t) == k;
    }
  }

  /** Restoring keeps the invariants: every saved timestamp lies in the widened range. */
  lemma RestoredWf(w: Window, saved: map<int, seq<string>>)
    requires Wf(w)
    ensures Wf(Restored(w, saved))
    ensures RangeOrdered(w) ==> RangeOrdered(Restored(w, saved))
  {
    if saved != map[] {
      var s := saved.Keys;
      assert Least(s) <= Greatest(s);
    }
  }

  /** Saving a window and restoring it into a fresh tracker gives back the same
      buckets; the range comes back as the least and greatest saved
      timestamps, inside the original range; and every event at or above the
      least saved timestamp is judged as before. A window without buckets
      comes back empty. */
  lemma SaveLoadRoundTrip(w: Window)
    requires Wf(w)
    ensures Restored(EmptyWindow, w.eventsByMs).eventsByMs == w.eventsByMs
    ensures w.eventsByMs == map[] ==> Restored(EmptyWindow, w.eventsByMs) == EmptyWindow
    ensures w.eventsByMs != map[] ==>
      var r := Restored(EmptyWindow, w.eventsByMs);
      var keys := w.eventsByMs.Keys;
      && r.minTime == Some(Least(keys)) && r.maxTime == Some(Greatest(keys))
      && w.minTime.value <= r.minTime.value && r.maxTime.value <= w.maxTime.value
      && (forall e: FilteredLogEvent :: e.timestamp >= Least(keys) ==> IsNew(r, e) == IsNew(w, e))
  {
    if w.eventsByMs != map[] {
      var keys := w.eventsByMs.Keys;
      assert Least(keys) in keys && Greatest(keys) in keys;
    }
  }

  /** The persisted form holds buckets only, so a group whose window has a
      minimum but no buckets (as the legacy loader leaves every group) comes
      back from a save and a load with no watermark: events below its old
      minimum are new again. */
  lemma TailWatermarkLostOnReload()
    ensures var w := Window(Some(5), Some(5), map[]);
      var e := FilteredLogEvent(4, "s", "e");
      && Wf(w) && !IsNew(w, e)
      && Restored(EmptyWindow, w.eventsByMs) == EmptyWindow
      && IsNew(Restored(EmptyWindow, w.eventsByMs), e)
  {
  }

  // ---------------------------------------------------------------------------
  // Properties of recording and asking
  // ---------------------------------------------------------------------------

  /** Recording an event leaves another identity at the same timestamp new
      exactly when it was not already in that bucket, even when the record
      lowered the minimum. */
  lemma RecordKeepsOtherIdentitiesNew(w: Window, e: FilteredLogEvent, other: FilteredLogEvent)
    requires Wf(w)
    requires other.timestamp == e.timestamp && Identify(other) != Identify(e)
    ensures IsNew(Recorded(w, e), other) <==> Identify(other) !in Bucket(w, e.timestamp)
    ensures w.minTime.None? || w.minTime.value <= e.timestamp ==>
      IsNew(Recorded(w, e), other) == IsNew(w, other)
  {
  }

  /** Recording an event changes nothing about events at other timestamps at
      or above the old minimum. */
  lemma RecordOnlyTouchesItsTimestamp(w: Window, e: FilteredLogEvent, other: FilteredLogEvent)
    requires w.minTime.Some? && other.timestamp >= w.minTime.value
    requires other.timestamp != e.timestamp
    ensures IsNew(Recorded(w, e), other) == IsNew(w, other)
  {
  }

  /** Once `get_or_set_min_time` has stored a value, later calls return that
      value whatever default they pass. */
  lemma DefaultMinTimeSticks(w: Window, first: Option<int>, later: Option<int>)
    requires WithDefaultMinTime(w, first).minTime.Some?
    ensures WithDefaultMinTime(WithDefaultMinTime(w, first), later) == WithDefaultMinTime(w, first)
    ensures MinTimeOr(WithDefaultMinTime(w, first), later) == MinTimeOr(w, first)
  {
  }

  /** The purge case from the tests: a three-minute window over events at 1,
      60001 and 180002 drops the bucket at 1 and keeps the other two. */
  lemma PurgeExample()
    ensures var e1 := FilteredLogEvent(1, "streamX", "event1");
      var e2 := FilteredLogEvent(60001, "streamX", "event2");
      var e3 := FilteredLogEvent(180002, "streamX", "event3");
      var w := Purged(Recorded(Recorded(Recorded(EmptyWindow, e1), e2), e3), 3);
      && w.eventsByMs.Keys == {60001, 180002}
      && w.minTime == Some(2) && w.maxTime == Some(180002)
  {
    var e1 := FilteredLogEvent(1, "streamX", "event1");
    var e2 := FilteredLogEvent(60001, "streamX", "event2");
    var e3 := FilteredLogEvent(180002, "streamX", "event3");
    var w := Recorded(Recorded(Recorded(EmptyWindow, e1), e2), e3);
    assert w.minTime == Some(1) && w.maxTime == Some(180002);
    assert w.eventsByMs.Keys == {1, 60001, 180002};
    assert PurgeBefore(180002, 3) == 2;
  }

  // ---------------------------------------------------------------------------
  // The legacy "<identifier> <position>" format
  // ---------------------------------------------------------------------------

  /** The group of a legacy identifier: the part before its first ':'. When the
      ':' comes first, `identity[0..-1]` is the whole identifier. */
  function GroupOfIdentifier(id: string): string {
    var i := IndexOf(id, ':');
    if i == |id| || i == 0 then id else id[..i]
  }

  /** The group and position one legacy line names; a missing position reads as 0. */
  function LegacyEntry(line: string): (string, int)
    requires line != []
  {
    var f := SplitFirst(line);
    (GroupOfIdentifier(f.first), OptToI(f.rest))
  }

  /** The window of `group`, or a fresh one when the group has none yet (`ensure_group`). */
  function WindowOf(ws: map<string, Window>, group: string): Window {
    if group in ws then ws[group] else EmptyWindow
  }

  /** The entries of the lines of a legacy file, in file order. */
  function LegacyEntries(lines: seq<string>): (es: seq<(string, int)>)
    requires forall i :: 0 <= i < |lines| ==> lines[i] != []
    ensures |es| == |lines|
    ensures forall i :: 0 <= i < |lines| ==> es[i] == LegacyEntry(lines[i])
  {
    if lines == [] then [] else [LegacyEntry(lines[0])] + LegacyEntries(lines[1..])
  }

  /** Applying legacy entries in order: each widens its group's range to its
      position and then sets the group to its tail. */
  function LoadEntries(ws: map<string, Window>, es: seq<(string, int)>): map<string, Window>
    decreases |es|
  {
    if es == [] then ws
    else
      var g := es[0].0;
      LoadEntries(ws[g := AtTail(WidenedTo(WindowOf(ws, g), es[0].1))], es[1..])
  }

  /** `load_old_format` over the lines of the file. */
  function LegacyLoaded(ws: map<string, Window>, lines: seq<string>): map<string, Window>
    requires forall i :: 0 <= i < |lines| ==> lines[i] != []
  {
    LoadEntries(ws, LegacyEntries(lines))
  }

  lemma LoadEntriesStep(ws: map<string, Window>, es: seq<(string, int)>, i: nat)
    requires i < |es|
    ensures LoadEntries(ws, es[i..])
         == LoadEntries(ws[es[i].0 := AtTail(WidenedTo(WindowOf(ws, es[i].0), es[i].1))], es[i + 1..])
  {
    assert es[i..][1..] == es[i + 1..];
  }

  /** The greatest position among the entries of `group`. */
  function Watermark(es: seq<(string, int)>, group: string): Option<int>
    decreases |es|
  {
    if es == [] then None
    else
      var rest := Watermark(es[1..], group);
      if es[0].0 != group then rest
      else if rest.Some? && rest.value > es[0].1 then rest
      else Some(es[0].1)
  }

  function MaxOpt(a: Option<int>, b: Option<int>): Option<int> {
    if a.None? then b else if b.None? then a else if a.value < b.value then b else a
  }

  /** A window pinned at `p`, as the legacy loader leaves a group: minimum and
      maximum both `p`, no buckets. */
  function TailWindow(p: Option<int>): Window {
    if p.None? then EmptyWindow else Window(p, p, map[])
  }

  lemma {:induction false} LoadEntriesFrom(ws: map<string, Window>, es: seq<(string, int)>, group: string)
    requires forall g :: g in ws ==> ws[g].maxTime.Some? && ws[g] == TailWindow(ws[g].maxTime)
    ensures var r := LoadEntries(ws, es);
      && (forall g :: g in r ==> r[g].maxTime.Some? && r[g] == TailWindow(r[g].maxTime))
      && WindowOf(r, group) == TailWindow(MaxOpt(WindowOf(ws, group).maxTime, Watermark(es, group)))
      && (group in r <==> group in ws || Watermark(es, group).Some?)
    decreases |es|
  {
    if es != [] {
      var (g, pos) := es[0];
      var ws' := ws[g := AtTail(WidenedTo(WindowOf(ws, g), pos))];
      assert ws'[g] == TailWindow(MaxOpt(WindowOf(ws, g).maxTime, Some(pos)));
      LoadEntriesFrom(ws', es[1..], group);
    }
  }

  /** Loading a legacy file leaves exactly the groups its lines name, each
      pinned at the greatest position among its lines (not the last one read)
      with no buckets. */
  lemma LegacyLoadKeepsGreatestPosition(lines: seq<string>, group: string)
    requires forall i :: 0 <= i < |lines| ==> lines[i] != []
    ensures group in LegacyLoaded(map[], lines) <==> Watermark(LegacyEntries(lines), group).Some?
    ensures WindowOf(LegacyLoaded(map[], lines), group) == TailWindow(Watermark(LegacyEntries(lines), group))
  {
    LoadEntriesFrom(map[], LegacyEntries(lines), group);
  }

  /** A line of the legacy file: an identifier, a blank and a position. */
  function LegacyLine(id: string, position: int): string {
    id + " " + IntToS(position) + "\n"
  }

  lemma LegacyEntryOf(id: string, n: int)
    requires id != [] && NoSpace(id)
    ensures LegacyEntry(LegacyLine(id, n)) == (GroupOfIdentifier(id), n)
  {
    assert LegacyLine(id, n) == id + " " + (IntToS(n) + "\n");
    SplitFirstOfWordAndRest(id, IntToS(n) + "\n");
    ToIOfIntToS(n, "\n");
  }

  lemma GroupOfStreamIdentifier(group: string, stream: string)
    requires group != [] && ':' !in group
    ensures GroupOfIdentifier(group + ":" + stream) == group
  {
    IndexOfAfterPrefix(group, ':', stream);
    assert group + ":" + stream == group + [':'] + stream;
  }

  /** The entry of a legacy line naming a stream of `group`. */
  lemma StreamEntryOf(group: string, stream: string, n: int)
    requires group != [] && ':' !in group && NoSpace(group) && NoSpace(stream)
    ensures LegacyEntry(LegacyLine(group + ":" + stream, n)) == (group, n)
  {
    var id := group + ":" + stream;
    assert NoSpace(id) by {
      forall i | 0 <= i < |id| ensures !IsSpace(id[i]) {
        if i < |group| { assert id[i] == group[i]; }
        else if i > |group| { assert id[i] == stream[i - |group| - 1]; }
      }
    }
    LegacyEntryOf(id, n);
    GroupOfStreamIdentifier(group, stream);
  }

  /** The entry of a legacy line naming a whole group. */
  lemma GroupEntryOf(group: string, n: int)
    requires group != [] && ':' !in group && NoSpace(group)
    ensures LegacyEntry(LegacyLine(group, n)) == (group, n)
  {
    LegacyEntryOf(group, n);
  }

  /** The legacy file from the tests, line by line: "g1:s1 1", "g1:s2 2",
      "g1 3", "g2 4" and "g2:s1 5" (with "group1", "group2", "stream1" and
      "stream2" in the test). Loading it pins the first group at 3 and the
      second at 5, with no buckets. */
  lemma LegacyExample(g1: string, g2: string, s1: string, s2: string)
    requires g1 != g2 && g1 != [] && g2 != [] && ':' !in g1 && ':' !in g2
    requires NoSpace(g1) && NoSpace(g2) && NoSpace(s1) && NoSpace(s2)
    ensures var lines := ExampleLines(g1, g2, s1, s2);
      && (forall i :: 0 <= i < |lines| ==> lines[i] != [])
      && WindowOf(LegacyLoaded(map[], lines), g1) == Window(Some(3), Some(3), map[])
      && WindowOf(LegacyLoaded(map[], lines), g2) == Window(Some(5), Some(5), map[])
  {
    var lines := ExampleLines(g1, g2, s1, s2);
    ExampleEntries(g1, g2, s1, s2);
    var es := [(g1, 1), (g1, 2), (g1, 3), (g2, 4), (g2, 5)];
    ExampleWatermarks(g1, g2);
    LoadEntriesFrom(map[], es, g1);
    LoadEntriesFrom(map[], es, g2);
  }

  /** The lines of the legacy file in the tests. */
  function ExampleLines(g1: string, g2: string, s1: string, s2: string): seq<string> {
    [LegacyLine(g1 + ":" + s1, 1), LegacyLine(g1 + ":" + s2, 2),
     LegacyLine(g1, 3), LegacyLine(g2, 4), LegacyLine(g2 + ":" + s1, 5)]
  }

  lemma ExampleEntries(g1: string, g2: string, s1: string, s2: string)
    requires g1 != [] && g2 != [] && ':' !in g1 && ':' !in g2
    requires NoSpace(g1) && NoSpace(g2) && NoSpace(s1) && NoSpace(s2)
    ensures var lines := ExampleLines(g1, g2, s1, s2);
      && (forall i :: 0 <= i < |lines| ==> lines[i] != [])
      && LegacyEntries(lines) == [(g1, 1), (g1, 2), (g1, 3), (g2, 4), (g2, 5)]
  {
    var lines := ExampleLines(g1, g2, s1, s2);
    var es := [(g1, 1), (g1, 2), (g1, 3), (g2, 4), (g2, 5)];
    forall i | 0 <= i < |lines| ensures lines[i] != [] && LegacyEntry(lines[i]) == es[i] {
      if i == 0 { StreamEntryOf(g1, s1, 1); }
      else if i == 1 { StreamEntryOf(g1, s2, 2); }
      else if i == 2 { GroupEntryOf(g1, 3); }
      else if i == 3 { GroupEntryOf(g2, 4); }
      else { StreamEntryOf(g2, s1, 5); }
    }
    EntriesOfLines(lines, es);
  }

  /** Lines whose entries are known one by one give exactly those entries. */
  lemma EntriesOfLines(lines: seq<string>, es: seq<(string, int)>)
    requires |lines| == |es|
    requires forall i :: 0 <= i < |lines| ==> lines[i] != [] && LegacyEntry(lines[i]) == es[i]
    ensures LegacyEntries(lines) == es
  {
    var r := LegacyEntries(lines);
    assert forall i :: 0 <= i < |r| ==> r[i] == es[i];
  }

  lemma ExampleWatermarks(g1: string, g2: string)
    requires g1 != g2
    ensures Watermark([(g1, 1), (g1, 2), (g1, 3), (g2, 4), (g2, 5)], g1) == Some(3)
    ensures Watermark([(g1, 1), (g1, 2), (g1, 3), (g2, 4), (g2, 5)], g2) == Some(5)
  {
    var es: seq<(string, int)> := [(g1, 1), (g1, 2), (g1, 3), (g2, 4), (g2, 5)];
    assert es[4..] == [(g2, 5)] && |es[4..][1..]| == 0;
    assert Watermark(es[4..], g1) == None && Watermark(es[4..], g2) == Some(5);
    assert es[3..][1..] == es[4..];
    assert Watermark(es[3..], g1) == None && Watermark(es[3..], g2) == Some(5);
    assert es[2..][1..] == es[3..];
    assert Watermark(es[2..], g1) == Some(3) && Watermark(es[2..], g2) == Some(5);
    assert es[1..][1..] == es[2..];
    assert Watermark(es[1..], g1) == Some(3) && Watermark(es[1..], g2) == Some(5);
  }
  // ---------------------------------------------------------------------------
  // The objects
  // ---------------------------------------------------------------------------

  /** One group's window, updated in place. */
  class GroupEventTracker {
    const pruneMinutes: int
    var minTime: Option<int>
    var maxTime: Option<int>
    var eventsByMs: map<int, seq<string>>

    /** The window the fields hold. */
    function Model(): Window
      reads this
    {
      Window(minTime, maxTime, eventsByMs)
    }

    ghost predicate Valid()
      reads this
    {
      Wf(Model())
    }

    constructor(pruneMinutes: int)
      ensures this.pruneMinutes == pruneMinutes
      ensures Model() == EmptyWindow && Valid()
    {
      this.pruneMinutes := pruneMinutes;
      minTime := None;
      maxTime := None;
      eventsByMs := map[];
    }

    function MinTime(default: Option<int>): Option<int>
      reads this
    {
      MinTimeOr(Model(), default)
    }

    method GetOrSetMinTime(default: Option<int>) returns (r: Option<int>)
      requires Valid()
      modifies this
      ensures Valid()
      ensures Model() == WithDefaultMinTime(old(Model()), default)
      ensures r == MinTimeOr(old(Model()), default)
    {
      if minTime.None? {
        minTime := default;
      }
      r := minTime;
    }

    function IsNewEvent(e: FilteredLogEvent): bool
      reads this
    {
      IsNew(Model(), e)
    }

    method RecordProcessedEvent(e: FilteredLogEvent)
      requires Valid()
      modifies this
      ensures Valid()
      ensures Model() == Recorded(old(Model()), e)
    {
      UpdateRanges(e.timestamp);
      if e.timestamp !in eventsByMs {
        eventsByMs := eventsByMs[e.timestamp := []];
      }
      eventsByMs := eventsByMs[e.timestamp := eventsByMs[e.timestamp] + [Identify(e)]];
    }

    method Purge()
      requires Valid()
      modifies this
      ensures Valid()
      ensures Model() == Purged(old(Model()), pruneMinutes)
    {
      if maxTime.None? {
        return;
      }
      var purgeBefore := maxTime.value - 60 * 1000 * pruneMinutes;
      if minTime.value > purgeBefore {
        return;
      }
      minTime := Some(purgeBefore);
      var snapshot := eventsByMs;
      var pending := snapshot.Keys;
      while pending != {}
        invariant pending <= snapshot.Keys
        invariant eventsByMs == map k | k in snapshot && (k in pending || k >= purgeBefore) :: snapshot[k]
        invariant minTime == Some(purgeBefore) && maxTime == old(maxTime)
        decreases pending
      {
        SomeInt(pending);
        var k :| k in pending;
        if k < purgeBefore {
          eventsByMs := eventsByMs - {k};
        }
        pending := pending - {k};
      }
    }

    function ToSaveModel(): map<int, seq<string>>
      reads this
    {
      eventsByMs
    }

    method FromSaveModel(saved: map<int, seq<string>>)
      requires Valid()
      modifies this
      ensures Valid()
      ensures Model() == Restored(old(Model()), saved)
    {
      eventsByMs := map[];
      var pending := saved.Keys;
      ghost var done: set<int> := {};
      while pending != {}
        invariant pending + done == saved.Keys && pending !! done
        invariant eventsByMs == map k | k in done :: saved[k]
        invariant minTime == LowerTo(old(minTime), done)
        invariant maxTime == RaisedTo(old(maxTime), done)
        decreases pending
      {
        SomeInt(pending);
        var ts :| ts in pending;
        LowerToStep(old(minTime), done, ts);
        RaisedToStep(old(maxTime), done, ts);
        UpdateRanges(ts);
        eventsByMs := eventsByMs[ts := saved[ts]];
        pending := pending - {ts};
        done := done + {ts};
      }
      RestoredWf(old(Model()), saved);
    }

    method UpdateRanges(ts: int)
      modifies this
      ensures Model() == WidenedTo(old(Model()), ts)
    {
      if minTime.None? || minTime.value > ts {
        minTime := Some(ts);
      }
      if maxTime.None? || maxTime.value < ts {
        maxTime := Some(ts);
      }
    }

    method SetToTail()
      requires Valid()
      modifies this
      ensures Model() == AtTail(old(Model()))
      ensures Valid()
    {
      if maxTime.Some? {
        minTime := maxTime;
        eventsByMs := map[];
      }
    }
  }

  /** What `load` finds at the data path: no file; a JSON document mapping
      each group to its saved buckets (the JSON text and the string keys it
      gives timestamps are not modelled); text that is not JSON, read as the
      legacy format; or a file that cannot be read. */
  datatype StoredFile =
    | NoFile
    | Json(groups: map<string, map<int, seq<string>>>)
    | NotJson(text: string)
    | Unreadable

  /** The windows `load` leaves behind. */
  ghost function LoadedWindows(file: StoredFile): map<string, Window> {
    match file
    case NoFile => map[]
    case Json(groups) => map g | g in groups :: Restored(EmptyWindow, groups[g])
    case NotJson(text) => LegacyLoaded(map[], Lines(text))
    case Unreadable => map[]
  }

  /** The trackers of every group, created on first use. Each group's
      tracker is held as the window it would hold. */
  class LogEventTracker {
    const pruneMinutes: int
    var groupTrackers: map<string, Window>

    ghost predicate Valid()
      reads this
    {
      forall g :: g in groupTrackers ==> Wf(groupTrackers[g])
    }

    constructor(pruneMinutes: int)
      ensures this.pruneMinutes == pruneMinutes
      ensures Valid() && groupTrackers == map[]
    {
      this.pruneMinutes := pruneMinutes;
      groupTrackers := map[];
    }

    /** `ensure_group`: the group gets a fresh window when it has none. */
    method EnsureGroup(group: string) returns (w: Window)
      requires Valid()
      modifies this
      ensures Valid()
      ensures group in groupTrackers && w == groupTrackers[group]
      ensures w == WindowOf(old(groupTrackers), group)
      ensures groupTrackers == old(groupTrackers)[group := w]
    {
      if group !in groupTrackers {
        groupTrackers := groupTrackers[group := EmptyWindow];
      }
      w := groupTrackers[group];
    }

    method IsNewEvent(group: string, e: FilteredLogEvent) returns (r: bool)
      requires Valid()
      modifies this
      ensures Valid()
      ensures r == IsNew(WindowOf(old(groupTrackers), group), e)
      ensures groupTrackers == old(groupTrackers)[group := WindowOf(old(groupTrackers), group)]
    {
      var w := EnsureGroup(group);
      r := IsNew(w, e);
    }

    method MinTime(group: string, default: Option<int>) returns (r: Option<int>)
      requires Valid()
      modifies this
      ensures Valid()
      ensures r == MinTimeOr(WindowOf(old(groupTrackers), group), default)
      ensures groupTrackers == old(groupTrackers)[group := WindowOf(old(groupTrackers), group)]
    {
      var w := EnsureGroup(group);
      r := MinTimeOr(w, default);
    }

    method RecordProcessedEvent(group: string, e: FilteredLogEvent)
      requires Valid()
      modifies this
      ensures Valid()
      ensures groupTrackers == old(groupTrackers)[group := Recorded(WindowOf(old(groupTrackers), group), e)]
    {
      var w := EnsureGroup(group);
      groupTrackers := groupTrackers[group := Recorded(w, e)];
    }

    method Purge(group: string)
      requires Valid()
      modifies this
      ensures Valid()
      ensures groupTrackers == old(groupTrackers)[group := Purged(WindowOf(old(groupTrackers), group), pruneMinutes)]
    {
      var w := EnsureGroup(group);
      groupTrackers := groupTrackers[group := Purged(w, pruneMinutes)];
    }

    method GetOrSetMinTime(group: string, default: Option<int>) returns (r: Option<int>)
      requires Valid()
      modifies this
      ensures Valid()
      ensures r == MinTimeOr(WindowOf(old(groupTrackers), group), default)
      ensures groupTrackers == old(groupTrackers)[group := WithDefaultMinTime(WindowOf(old(groupTrackers), group), default)]
    {
      var w := EnsureGroup(group);
      groupTrackers := groupTrackers[group := WithDefaultMinTime(w, default)];
      r := groupTrackers[group].minTime;
    }

    /** `save`, before the JSON encoding: each group's buckets. */
    function SaveModel(): (saved: map<string, map<int, seq<string>>>)
      reads this
      ensures saved.Keys == groupTrackers.Keys
      ensures forall g :: g in saved ==> saved[g] == groupTrackers[g].eventsByMs
    {
      map g | g in groupTrackers :: groupTrackers[g].eventsByMs
    }

    /** `load`: the new format when the file is JSON, the legacy format when
        it is not, and no groups at all when there is no file or it cannot be
        read. */
    method Load(file: StoredFile)
      requires Valid()
      modifies this
      ensures Valid()
      ensures groupTrackers == LoadedWindows(file)
    {
      match file
      case NoFile =>
        groupTrackers := map[];
      case Json(groups) =>
        LoadNewFormat(groups);
      case NotJson(text) =>
        LoadOldFormat(Lines(text));
      case Unreadable =>
        groupTrackers := map[];
    }

    /** `load_new_format` once the JSON is parsed. */
    method LoadNewFormat(groups: map<string, map<int, seq<string>>>)
      modifies this
      ensures Valid()
      ensures groupTrackers == map g | g in groups :: Restored(EmptyWindow, groups[g])
    {
      groupTrackers := map[];
      var pending := groups.Keys;
      while pending != {}
        invariant pending <= groups.Keys
        invariant groupTrackers == map g | g in groups && g !in pending :: Restored(EmptyWindow, groups[g])
        invariant Valid()
        decreases pending
      {
        SomeString(pending);
        var g :| g in pending;
        var t := new GroupEventTracker(pruneMinutes);
        t.FromSaveModel(groups[g]);
        groupTrackers := groupTrackers[g := t.Model()];
        pending := pending - {g};
      }
    }

    /** `load_old_format` over the lines of the file. */
    method LoadOldFormat(lines: seq<string>)
      requires forall i :: 0 <= i < |lines| ==> lines[i] != []
      modifies this
      ensures Valid()
      ensures groupTrackers == LegacyLoaded(map[], lines)
    {
      groupTrackers := map[];
      ghost var es := LegacyEntries(lines);
      for i := 0 to |lines|
        invariant Valid()
        invariant LoadEntries(groupTrackers, es[i..]) == LegacyLoaded(map[], lines)
      {
        var (group, pos) := LegacyEntry(lines[i]);
        LoadEntriesStep(groupTrackers, es, i);
        groupTrackers := groupTrackers[group := AtTail(WidenedTo(WindowOf(groupTrackers, group), pos))];
      }
    }
  }

  /** Saving a tracker and loading what was saved gives back exactly its
      groups. Each group gets its own buckets back; its range shrinks to the
      least and greatest bucket timestamps, inside the old range; and every
      event at or above the least one is judged as before. A group without
      buckets comes back empty. */
  lemma SavedTrackerReloads(t: LogEventTracker, g: string)
    requires t.Valid()
    ensures LoadedWindows(Json(t.SaveModel())).Keys == t.groupTrackers.Keys
    ensures g in t.groupTrackers ==>
      var w := t.groupTrackers[g];
      var r := LoadedWindows(Json(t.SaveModel()))[g];
      && r.eventsByMs == w.eventsByMs
      && (w.eventsByMs == map[] ==> r == EmptyWindow)
      && (w.eventsByMs != map[] ==>
            var keys := w.eventsByMs.Keys;
            && r.minTime == Some(Least(keys)) && r.maxTime == Some(Greatest(keys))
            && w.minTime.value <= r.minTime.value && r.maxTime.value <= w.maxTime.value
            && forall e: FilteredLogEvent :: e.timestamp >= Least(keys) ==> IsNew(r, e) == IsNew(w, e))
  {
    if g in t.groupTrackers {
      SaveLoadRoundTrip(t.groupTrackers[g]);
    }
  }
}
