/** The watermark logic of the input plugin in
    lib/logstash/inputs/cloudwatch_logs.rb: the `start_position` setting, the
    flat "sincedb" hash from log group to the millisecond position to resume
    from, the order in which groups are polled, and the "group pos" text the
    sincedb is saved as. */
module CloudWatchLogs {
  import opened Common
  import opened RubyText

  // ---------------------------------------------------------------------------
  // start_position
  // ---------------------------------------------------------------------------

  /** What the `start_position` setting can hold: nothing (`nil` or `false`),
      a string, an Integer, or any other value (a Float, an array, `true`). */
  datatype ConfigValue = Unset | Text(s: string) | Whole(n: int) | OtherValue

  /** The two `LogStash::ConfigurationError`s the check raises. */
  datatype ConfigError = NoStartPosition | InvalidStartPosition

  /** The pieces of `s` between its "\n" characters: what the anchors `^` and
      `$` of a Ruby regular expression treat as lines. */
  function LinePieces(s: string): (r: seq<string>)
    ensures r != []
    ensures '\n' !in s ==> r == [s]
    decreases |s|
  {
    var i := IndexOf(s, '\n');
    if i == |s| then [s] else [s[..i]] + LinePieces(s[i + 1..])
  }

  /** `s =~ /^(beginning|end)$/`: some line of `s` is exactly "beginning" or "end". */
  predicate LineAnchoredMatch(s: string) {
    "beginning" in LinePieces(s) || "end" in LinePieces(s)
  }

  /** `check_start_position_validity` as written: a missing value is refused,
      a string passes when one of its lines is "beginning" or "end", an
      Integer passes, and anything else is refused. */
  function StartPositionValidityAsWritten(v: ConfigValue): (r: Option<ConfigError>)
    ensures r == Some(NoStartPosition) <==> v.Unset?
    ensures v.Whole? ==> r == None
  {
    match v
    case Unset => Some(NoStartPosition)
    case Text(s) => if LineAnchoredMatch(s) then None else Some(InvalidStartPosition)
    case Whole(_) => None
    case OtherValue => Some(InvalidStartPosition)
  }

  /** The check as its error message describes it: exactly `beginning`,
      exactly `end`, or an Integer. */
  function CheckStartPositionValidity(v: ConfigValue): (r: Option<ConfigError>)
    ensures r == Some(NoStartPosition) <==> v.Unset?
    ensures r == None ==> StartPositionValidityAsWritten(v) == None
  {
    match v
    case Unset => Some(NoStartPosition)
    case Text(s) =>
      if s == "beginning" || s == "end" then None
      else
        assert s != "beginning" && s != "end";
        Some(InvalidStartPosition)
    case Whole(_) => None
    case OtherValue => Some(InvalidStartPosition)
  }

  /** A sincedb position. `Millis` is an Integer; `MillisText` is the same
      number held as the decimal string `strftime('%Q')` produced, which is
      what `determine_start_position` stores for `end`. */
  datatype Position = Millis(ms: int) | MillisText(ms: int)

  /** The branches of the `case @start_position` in `determine_start_position`
      that complete: `when 'beginning'`, `when 'end'`, and the `else` branch
      for an Integer number of seconds. */
  datatype StartPosition = Beginning | End | SecondsBack(n: int)

  /** Which branch the `case` takes for `v`, or `None` when it reaches the
      `else` branch with something other than an Integer. There a String is
      repeated by `* 1000` and the subtraction from an Integer raises; other
      values (a Float, say) would give a position of a kind this model does
      not have. */
  function CaseOf(v: ConfigValue): Option<StartPosition> {
    match v
    case Text(s) =>
      if s == "beginning" then Some(Beginning)
      else if s == "end" then Some(End)
      else None
    case Whole(n) => Some(SecondsBack(n))
    case _ => None
  }

  /** The position an unseen group gets when the clock reads `nowMs`. */
  function DefaultPosition(sp: StartPosition, nowMs: nat): Position {
    match sp
    case Beginning => Millis(0)
    case End => MillisText(nowMs)
    case SecondsBack(n) => Millis(nowMs - n * 1000)
  }

  /** The corrected check accepts exactly the values `determine_start_position`
      can turn into a position, and each accepted value gives the position its
      documentation describes: 0 for `beginning`, the current time for `end`,
      `n` seconds before now for an Integer `n`. */
  lemma AcceptedStartPositionResolves(v: ConfigValue, nowMs: nat)
    ensures CheckStartPositionValidity(v) == None <==> CaseOf(v).Some?
    ensures v == Text("beginning") ==> DefaultPosition(CaseOf(v).value, nowMs) == Millis(0)
    ensures v == Text("end") ==> DefaultPosition(CaseOf(v).value, nowMs) == MillisText(nowMs)
    ensures v.Whole? ==> DefaultPosition(CaseOf(v).value, nowMs) == Millis(nowMs - v.n * 1000)
  {
    if v.Text? && v.s != "beginning" && v.s != "end" {
      assert CheckStartPositionValidity(v) == Some(InvalidStartPosition);
    }
  }

  /** On a value without "\n" the check as written and the corrected one agree. */
  lemma SingleLineChecksAgree(s: string)
    requires '\n' !in s
    ensures StartPositionValidityAsWritten(Text(s)) == CheckStartPositionValidity(Text(s))
  {
    assert LinePieces(s) == [s];
    if s != "beginning" && s != "end" {
      assert "beginning" !in [s] && "end" !in [s];
    }
  }

  /** "end\n" passes the check as written, since its first line is "end", yet
      `determine_start_position` has no position for it: it is not equal to
      'end', so it falls into the `else` branch, where `"end\n" * 1000` is a
      String and subtracting it from an Integer raises. */
  lemma LineAnchorsAdmitUnresolvable()
    ensures StartPositionValidityAsWritten(Text("end\n")) == None
    ensures CheckStartPositionValidity(Text("end\n")) == Some(InvalidStartPosition)
    ensures CaseOf(Text("end\n")) == None
  {
    var s := "end\n";
    assert IndexOf(s, '\n') == 3;
    assert s[..3] == "end";
    assert LinePieces(s)[0] == "end";
  }

  // ---------------------------------------------------------------------------
  // The sincedb hash
  // ---------------------------------------------------------------------------

  /** The `@sincedb` hash: its keys in insertion order (the order Ruby
      iterates a hash in) and the position of each. */
  datatype SinceDb = SinceDb(keys: seq<string>, values: map<string, Position>)

  const EmptySinceDb: SinceDb := SinceDb([], map[])

  /** Every key is listed once, and exactly the keys of the map are listed. */
  ghost predicate Wf(db: SinceDb) {
    && NoDuplicates(db.keys)
    && forall k :: k in db.values <==> k in db.keys
  }

  /** `sincedb[k] = v`: the key maps to `v` and every other key keeps its
      value; the existing keys keep their places in the iteration order, and
      a new key goes after them. Every key stays listed once. */
  function Put(db: SinceDb, k: string, v: Position): (r: SinceDb)
    ensures r.values == db.values[k := v]
    ensures k in db.values ==> r.keys == db.keys
    ensures k !in db.values ==> r.keys == db.keys + [k]
    ensures Wf(db) ==> Wf(r)
  {
    if k in db.values then SinceDb(db.keys, db.values[k := v])
    else
      var r := SinceDb(db.keys + [k], db.values[k := v]);
      assert Wf(db) ==> NoDuplicates(r.keys) by {
        if Wf(db) {
          forall i, j | 0 <= i < j < |r.keys| ensures r.keys[i] != r.keys[j] {
            if j == |db.keys| { assert r.keys[i] == db.keys[i]; }
          }
        }
      }
      r
  }

  // ---------------------------------------------------------------------------
  // determine_start_position
  // ---------------------------------------------------------------------------

  /** The sincedb after `determine_start_position(groups, sincedb)`, where
      `nows[i]` is what the clock reads while group `groups[i]` is handled. */
  function DefaultsAssigned(db: SinceDb, groups: seq<string>, nows: seq<nat>, sp: StartPosition): (r: SinceDb)
    requires |nows| == |groups|
    decreases |groups|
  {
    if groups == [] then db
    else
      var n := |groups| - 1;
      var prev := DefaultsAssigned(db, groups[..n], nows[..n], sp);
      if groups[n] in prev.values then prev
      else Put(prev, groups[n], DefaultPosition(sp, nows[n]))
  }

  /** `determine_start_position` never touches a group the sincedb already
      holds and adds exactly the listed groups it lacks, after the existing
      ones. */
  lemma {:induction false} DefaultsKeepExisting(db: SinceDb, groups: seq<string>, nows: seq<nat>, sp: StartPosition)
    requires |nows| == |groups|
    ensures var r := DefaultsAssigned(db, groups, nows, sp);
      && |db.keys| <= |r.keys| && r.keys[..|db.keys|] == db.keys
      && (forall k :: k in db.values ==> k in r.values && r.values[k] == db.values[k])
      && (forall k :: k in r.values <==> k in db.values || k in groups)
    decreases |groups|
  {
    if groups != [] {
      var n := |groups| - 1;
      var prev := DefaultsAssigned(db, groups[..n], nows[..n], sp);
      DefaultsKeepExisting(db, groups[..n], nows[..n], sp);
      var r := DefaultsAssigned(db, groups, nows, sp);
      assert groups == groups[..n] + [groups[n]];
      forall k | k in r.values
        ensures k in db.values || k in groups
      {
        if k != groups[n] {
          assert k in prev.values;
        }
      }
    }
  }

  /** Each group the sincedb lacked gets the default position for the moment
      it was first listed. */
  lemma {:induction false} DefaultsForFirstListing(db: SinceDb, groups: seq<string>, nows: seq<nat>, sp: StartPosition)
    requires |nows| == |groups|
    ensures var r := DefaultsAssigned(db, groups, nows, sp);
      forall i :: 0 <= i < |groups| && groups[i] !in db.values && groups[i] !in groups[..i] ==>
        groups[i] in r.values && r.values[groups[i]] == DefaultPosition(sp, nows[i])
    decreases |groups|
  {
    if groups != [] {
      var n := |groups| - 1;
      var prev := DefaultsAssigned(db, groups[..n], nows[..n], sp);
      DefaultsForFirstListing(db, groups[..n], nows[..n], sp);
      DefaultsKeepExisting(db, groups[..n], nows[..n], sp);
      var r := DefaultsAssigned(db, groups, nows, sp);
      forall i | 0 <= i < |groups| && groups[i] !in db.values && groups[i] !in groups[..i]
        ensures groups[i] in r.values && r.values[groups[i]] == DefaultPosition(sp, nows[i])
      {
        if i < n {
          assert groups[..n][..i] == groups[..i];
          assert groups[i] in prev.values;
        } else {
          assert groups[n] !in prev.values;
        }
      }
    }
  }

  // ---------------------------------------------------------------------------
  // process_group and process_log
  // ---------------------------------------------------------------------------

  /** One event of a `filter_log_events` page: its timestamp and how many
      Logstash events the codec decoded from its message. */
  datatype Log = Log(timestamp: int, decoded: nat)

  /** The timestamp of the last log in `logs` that the codec turned into at
      least one event. */
  function LastEmitted(logs: seq<Log>): Option<int> {
    if logs == [] then None
    else
      var n := |logs| - 1;
      if logs[n].decoded > 0 then Some(logs[n].timestamp) else LastEmitted(logs[..n])
  }

  /** Where a group starting at `start` stands after `logs`: one past the last
      emitted event's timestamp, or `start` when nothing was emitted. */
  function Watermark(start: Position, logs: seq<Log>): Position {
    match LastEmitted(logs)
    case None => start
    case Some(t) => Millis(t + 1)
  }

  lemma {:induction false} WatermarkConcat(start: Position, a: seq<Log>, b: seq<Log>)
    ensures Watermark(Watermark(start, a), b) == Watermark(start, a + b)
    decreases |b|
  {
    if b != [] {
      var n := |b| - 1;
      assert (a + b)[..|a| + n] == a + b[..n];
      WatermarkConcat(start, a, b[..n]);
    } else {
      assert a + b == a;
    }
  }

  /** The group's position before a page is fetched: its sincedb entry, or 0. */
  function StartOf(db: SinceDb, group: string): Position {
    if group in db.values then db.values[group] else Millis(0)
  }

  /** `process_log(log, group)`: every event the codec yields moves the group
      to one past the log's timestamp. */
  function Logged(db: SinceDb, group: string, log: Log): SinceDb {
    if log.decoded == 0 then db else Put(db, group, Millis(log.timestamp + 1))
  }

  /** One pass of the loop in `process_group`: a group missing from the
      sincedb is put at 0, then each log of the page is processed. */
  function PageProcessed(db: SinceDb, group: string, page: seq<Log>): (r: SinceDb)
    decreases |page|
  {
    if page == [] then (if group in db.values then db else Put(db, group, Millis(0)))
    else
      var n := |page| - 1;
      Logged(PageProcessed(db, group, page[..n]), group, page[n])
  }

  /** The sincedb after `process_group` has gone through `pages`. */
  function GroupProcessed(db: SinceDb, group: string, pages: seq<seq<Log>>): (r: SinceDb)
    decreases |pages|
  {
    if pages == [] then db
    else
      var n := |pages| - 1;
      PageProcessed(GroupProcessed(db, group, pages[..n]), group, pages[n])
  }

  /** All logs of all pages, in the order they are processed. */
  function Flatten(pages: seq<seq<Log>>): seq<Log>
    decreases |pages|
  {
    if pages == [] then [] else
      var n := |pages| - 1;
      Flatten(pages[..n]) + pages[n]
  }

  /** A page changes only the group's own entry, which ends one past the last
      emitted event (or where it started), and adds the group at the end of
      the sincedb when it was missing. */
  lemma {:induction false} PageProcessedSpec(db: SinceDb, group: string, page: seq<Log>)
    ensures PageProcessed(db, group, page) ==
      SinceDb(if group in db.values then db.keys else db.keys + [group],
              db.values[group := Watermark(StartOf(db, group), page)])
    decreases |page|
  {
    if page != [] {
      var n := |page| - 1;
      PageProcessedSpec(db, group, page[..n]);
      WatermarkConcat(StartOf(db, group), page[..n], [page[n]]);
      assert page[..n] + [page[n]] == page;
      var prev := PageProcessed(db, group, page[..n]);
      assert prev.values[group] == Watermark(StartOf(db, group), page[..n]);
      assert LastEmitted([page[n]]) == if page[n].decoded > 0 then Some(page[n].timestamp) else None by {
        assert [page[n]][..0] == [];
      }
    } else {
      assert LastEmitted(page) == None;
    }
  }

  /** After `process_group`, the group's position is one past the timestamp of
      the last event emitted across all pages, or where it stood before (0
      for a group the sincedb lacked, whatever `start_position` says); no
      other group's position changes. */
  lemma {:induction false} WatermarkIsLastEmitted(db: SinceDb, group: string, pages: seq<seq<Log>>)
    requires pages != []
    ensures GroupProcessed(db, group, pages) ==
      SinceDb(if group in db.values then db.keys else db.keys + [group],
              db.values[group := Watermark(StartOf(db, group), Flatten(pages))])
    decreases |pages|
  {
    var n := |pages| - 1;
    var prev := GroupProcessed(db, group, pages[..n]);
    PageProcessedSpec(prev, group, pages[n]);
    if n == 0 {
      assert pages[..n] == [];
      assert prev == db;
      assert Flatten(pages[..n]) == [];
      assert Flatten(pages) == pages[0];
    } else {
      WatermarkIsLastEmitted(db, group, pages[..n]);
      WatermarkConcat(StartOf(db, group), Flatten(pages[..n]), pages[n]);
    }
  }

  // ---------------------------------------------------------------------------
  // Polling order
  // ---------------------------------------------------------------------------

  /** `priority_of(group)`: the group's index in `@priority`, or -1. */
  function PriorityOf(priority: seq<string>, group: string): (r: int)
    ensures -1 <= r < |priority|
  {
    if priority == [] then -1
    else if priority[0] == group then 0
    else
      var i := PriorityOf(priority[1..], group);
      if i == -1 then -1 else i + 1
  }

  /** `Array#index`: -1 exactly for an absent group, otherwise the position of
      its first occurrence. */
  lemma {:induction false} PriorityOfSpec(priority: seq<string>, group: string)
    ensures var r := PriorityOf(priority, group);
      && (r == -1 <==> group !in priority)
      && (r >= 0 ==> priority[r] == group && group !in priority[..r])
    decreases |priority|
  {
    if priority != [] && priority[0] != group {
      PriorityOfSpec(priority[1..], group);
      var i := PriorityOf(priority[1..], group);
      assert priority == [priority[0]] + priority[1..];
      if i >= 0 {
        assert priority[..i + 1] == [priority[0]] + priority[1..][..i];
      }
    }
  }

  /** `@priority.delete(group)`: every occurrence of the group removed, the
      rest in their order. */
  function Removed(s: seq<string>, x: string): (r: seq<string>)
    ensures x !in r
    ensures forall y :: y != x ==> multiset(r)[y] == multiset(s)[y]
    ensures NoDuplicates(s) ==> NoDuplicates(r)
  {
    if s == [] then []
    else
      var tail := Removed(s[1..], x);
      assert s == [s[0]] + s[1..];
      assert NoDuplicates(s) ==> NoDuplicates(s[1..]) && s[0] !in s[1..] by {
        if NoDuplicates(s) {
          forall i | 0 <= i < |s[1..]| ensures s[1..][i] != s[0] {
            assert s[1..][i] == s[i + 1];
          }
        }
      }
      if s[0] == x then tail
      else
        assert NoDuplicates(s) ==> s[0] !in tail by {
          if NoDuplicates(s) {
            assert multiset(tail)[s[0]] == multiset(s[1..])[s[0]] == 0;
          }
        }
        [s[0]] + tail
  }

  /** `Array#delete` keeps the other elements in their order: deleting from
      a concatenation deletes from each part, and a one-element list keeps
      its element exactly when it is not the deleted one. Together these fix
      the result for every list. */
  lemma RemovedKeepsOrder(a: seq<string>, b: seq<string>, x: string)
    ensures Removed(a + b, x) == Removed(a, x) + Removed(b, x)
    ensures forall y :: Removed([y], x) == if y == x then [] else [y]
  {
    RemovedConcat(a, b, x);
    forall y ensures Removed([y], x) == if y == x then [] else [y] {
      assert [y][1..] == [];
    }
  }

  lemma {:induction false} RemovedConcat(a: seq<string>, b: seq<string>, x: string)
    ensures Removed(a + b, x) == Removed(a, x) + Removed(b, x)
    decreases |a|
  {
    if a == [] {
      assert a + b == b;
    } else {
      var ab := a + b;
      assert ab[0] == a[0] && ab[1..] == a[1..] + b;
      RemovedConcat(a[1..], b, x);
      if a[0] != x {
        assert [a[0]] + (Removed(a[1..], x) + Removed(b, x))
            == ([a[0]] + Removed(a[1..], x)) + Removed(b, x);
      }
    }
  }

  /** After `@priority.delete(group); @priority << group` the group is listed
      exactly once, last, with a higher priority than any other group; every
      other group keeps its count. */
  lemma MovedToEnd(priority: seq<string>, group: string)
    ensures var r := Removed(priority, group) + [group];
      && multiset(r)[group] == 1
      && r[|r| - 1] == group
      && (forall y :: y != group ==> multiset(r)[y] == multiset(priority)[y])
      && PriorityOf(r, group) == |r| - 1
      && (forall h :: h != group ==> PriorityOf(r, h) < PriorityOf(r, group))
  {
    var rest := Removed(priority, group);
    var r := rest + [group];
    assert r[..|r| - 1] == rest;
    assert multiset(r) == multiset(rest) + multiset{group};
    PriorityOfSpec(r, group);
    forall h | h != group
      ensures PriorityOf(r, h) < PriorityOf(r, group)
    {
      PriorityOfSpec(r, h);
    }
  }

  /** `s` in nondecreasing `key`. */
  ghost predicate SortedBy<T>(key: T -> int, s: seq<T>) {
    forall i, j :: 0 <= i < j < |s| ==> key(s[i]) <= key(s[j])
  }

  function InsertBy<T>(key: T -> int, x: T, s: seq<T>): (r: seq<T>)
    requires SortedBy(key, s)
    ensures SortedBy(key, r)
    ensures multiset(r) == multiset(s) + multiset{x}
    ensures |r| == |s| + 1
    ensures r[0] == x || (s != [] && r[0] == s[0])
  {
    if s == [] || key(x) <= key(s[0]) then [x] + s
    else
      assert s == [s[0]] + s[1..];
      [s[0]] + InsertBy(key, x, s[1..])
  }

  /** An insertion sort: the same elements, in nondecreasing `key`. */
  function SortBy<T>(key: T -> int, s: seq<T>): (r: seq<T>)
    ensures SortedBy(key, r)
    ensures multiset(r) == multiset(s)
    ensures |r| == |s|
  {
    if s == [] then []
    else
      assert s == [s[0]] + s[1..];
      InsertBy(key, s[0], SortBy(key, s[1..]))
  }

  /** `priority_of` as the sort key. */
  function PriorityKey(priority: seq<string>): string -> int {
    (g: string) => PriorityOf(priority, g)
  }

  /** `groups.sort { |a, b| priority_of(a) <=> priority_of(b) }`: the same
      groups, in nondecreasing priority. Ruby does not promise an order among
      groups of equal priority; this definition keeps their listed order. */
  function SortByPriority(priority: seq<string>, groups: seq<string>): (r: seq<string>)
    ensures multiset(r) == multiset(groups)
    ensures forall i, j :: 0 <= i < j < |r| ==> PriorityOf(priority, r[i]) <= PriorityOf(priority, r[j])
  {
    var r := SortBy(PriorityKey(priority), groups);
    assert forall i, j :: 0 <= i < j < |r| ==> PriorityKey(priority)(r[i]) <= PriorityKey(priority)(r[j]);
    r
  }

  /** The group `process_group` just handled sorts last the next time the
      groups are ordered, whatever else is listed. */
  lemma RecentlyProcessedGroupSortsLast(priority: seq<string>, group: string, listed: seq<string>)
    requires group in listed
    ensures var s := SortByPriority(Removed(priority, group) + [group], listed);
      s[|s| - 1] == group
  {
    var p := Removed(priority, group) + [group];
    var s := SortByPriority(p, listed);
    assert group in multiset(s);
    var i :| 0 <= i < |s| && s[i] == group;
    assert s[|s| - 1] == group by {
      MovedToEnd(priority, group);
      HighestSortsLast(p, s, i);
    }
  }

  /** In a sequence ordered by priority, an element whose priority exceeds
      that of every other group is the last one. */
  lemma HighestSortsLast(p: seq<string>, s: seq<string>, i: nat)
    requires i < |s|
    requires forall i, j :: 0 <= i < j < |s| ==> PriorityOf(p, s[i]) <= PriorityOf(p, s[j])
    requires forall h :: h != s[i] ==> PriorityOf(p, h) < PriorityOf(p, s[i])
    ensures s[|s| - 1] == s[i]
  {
    var last := |s| - 1;
    assert PriorityOf(p, s[i]) <= PriorityOf(p, s[last]) by {
      if i < last {
        assert PriorityOf(p, s[i]) <= PriorityOf(p, s[last]);
      }
    }
  }

  // ---------------------------------------------------------------------------
  // The sincedb file
  // ---------------------------------------------------------------------------

  /** `[group, pos].join(" ")`. A position held as text is already the
      decimal digits of its value. */
  function RenderLine(group: string, p: Position): string {
    group + " " + IntToS(p.ms)
  }

  /** One rendered line per key, in iteration order. */
  function RenderLines(keys: seq<string>, values: map<string, Position>): (r: seq<string>)
    requires forall i :: 0 <= i < |keys| ==> keys[i] in values
    ensures |r| == |keys|
    decreases |keys|
  {
    if keys == [] then []
    else
      var n := |keys| - 1;
      RenderLines(keys[..n], values) + [RenderLine(keys[n], values[keys[n]])]
  }

  lemma {:induction false} RenderLinesAt(keys: seq<string>, values: map<string, Position>, i: nat)
    requires forall i :: 0 <= i < |keys| ==> keys[i] in values
    requires i < |keys|
    ensures RenderLines(keys, values)[i] == RenderLine(keys[i], values[keys[i]])
    decreases |keys|
  {
    var n := |keys| - 1;
    if i < n {
      RenderLinesAt(keys[..n], values, i);
    }
  }

  /** `serialize_sincedb`: the lines joined with "\n", plus a final "\n". */
  function SerializeSinceDb(db: SinceDb): string
    requires Wf(db)
  {
    JoinWith(RenderLines(db.keys, db.values), "\n") + "\n"
  }

  /** The group and position `_sincedb_open` takes from one line:
      `group, pos = line.split(" ", 2)` and `pos.to_i`. */
  function ParseLine(line: string): (string, int)
    requires line != []
  {
    var f := SplitFirst(line);
    (f.first, OptToI(f.rest))
  }

  /** The group and position of every line. */
  function ParseLines(lines: seq<string>): (es: seq<(string, int)>)
    requires forall i :: 0 <= i < |lines| ==> lines[i] != []
    ensures |es| == |lines|
    decreases |lines|
  {
    if lines == [] then []
    else
      var n := |lines| - 1;
      ParseLines(lines[..n]) + [ParseLine(lines[n])]
  }

  /** Each entry sets its group, so a later entry for a group overrides an
      earlier one. */
  function ReadEntries(db: SinceDb, es: seq<(string, int)>): SinceDb
    decreases |es|
  {
    if es == [] then db
    else
      var n := |es| - 1;
      Put(ReadEntries(db, es[..n]), es[n].0, Millis(es[n].1))
  }

  /** The sincedb after `_sincedb_open` has read `lines` into `db`. */
  function ReadInto(db: SinceDb, lines: seq<string>): SinceDb
    requires forall i :: 0 <= i < |lines| ==> lines[i] != []
  {
    ReadEntries(db, ParseLines(lines))
  }

  /** What `_sincedb_open` finds at the sincedb path. */
  datatype SinceDbFile = MissingFile | FileText(text: string)

  /** A rendered group name never holds white space, so it can be read back. */
  predicate GroupNameOk(g: string) {
    g != [] && NoSpace(g)
  }

  lemma RenderedLineReadsBack(g: string, p: Position)
    requires GroupNameOk(g)
    ensures '\n' !in RenderLine(g, p)
    ensures ParseLine(RenderLine(g, p) + "\n") == (g, p.ms)
  {
    var t := IntToS(p.ms);
    var line := RenderLine(g, p);
    forall i | 0 <= i < |line|
      ensures line[i] != '\n'
    {
      if i < |g| { assert line[i] == g[i]; }
      else if i > |g| { assert line[i] == t[i - |g| - 1]; }
    }
    assert line + "\n" == g + " " + (t + "\n");
    SplitFirstOfWordAndRest(g, t + "\n");
    ToIOfIntToS(p.ms, "\n");
  }

  /** Splitting off the last key of a duplicate-free list. */
  lemma LastKeyIsNew(keys: seq<string>, values: map<string, Position>)
    requires NoDuplicates(keys) && keys != []
    requires forall i :: 0 <= i < |keys| ==> keys[i] in values
    ensures var n := |keys| - 1;
      && keys[n] !in keys[..n]
      && keys[..n] + [keys[n]] == keys
      && NoDuplicates(keys[..n])
      && (map k | k in keys[..n] :: Millis(values[k].ms))[keys[n] := Millis(values[keys[n]].ms)]
         == (map k | k in keys :: Millis(values[k].ms))
  {
    var n := |keys| - 1;
    var pre := keys[..n];
    forall i | 0 <= i < n
      ensures pre[i] != keys[n]
    {
      assert pre[i] == keys[i];
    }
    assert pre + [keys[n]] == keys;
    assert forall k :: k in keys <==> k in pre || k == keys[n];
  }

  lemma ReadIntoSnoc(db: SinceDb, ls: seq<string>, line: string)
    requires forall i :: 0 <= i < |ls| ==> ls[i] != []
    requires line != []
    ensures forall i :: 0 <= i < |ls + [line]| ==> (ls + [line])[i] != []
    ensures ReadInto(db, ls + [line]) == Put(ReadInto(db, ls), ParseLine(line).0, Millis(ParseLine(line).1))
  {
    assert (ls + [line])[..|ls|] == ls;
    var es := ParseLines(ls + [line]);
    assert es[..|ls|] == ParseLines(ls);
  }

  lemma RenderedSnoc(keys: seq<string>, values: map<string, Position>)
    requires keys != []
    requires forall i :: 0 <= i < |keys| ==> keys[i] in values
    ensures var n := |keys| - 1;
      Terminated(RenderLines(keys, values))
        == Terminated(RenderLines(keys[..n], values)) + [RenderLine(keys[n], values[keys[n]]) + "\n"]
  {
    var n := |keys| - 1;
    TerminatedSnoc(RenderLines(keys[..n], values), RenderLine(keys[n], values[keys[n]]));
  }

  lemma {:induction false} ReadRendered(keys: seq<string>, values: map<string, Position>)
    requires NoDuplicates(keys)
    requires forall i :: 0 <= i < |keys| ==> keys[i] in values && GroupNameOk(keys[i])
    ensures forall i :: 0 <= i < |keys| ==> Terminated(RenderLines(keys, values))[i] != []
    ensures ReadInto(EmptySinceDb, Terminated(RenderLines(keys, values)))
      == SinceDb(keys, map k | k in keys :: Millis(values[k].ms))
    decreases |keys|
  {
    if keys != [] {
      var n := |keys| - 1;
      var pre := keys[..n];
      var line := RenderLine(keys[n], values[keys[n]]) + "\n";
      LastKeyIsNew(keys, values);
      ReadRendered(pre, values);
      RenderedSnoc(keys, values);
      RenderedLineReadsBack(keys[n], values[keys[n]]);
      ReadIntoSnoc(EmptySinceDb, Terminated(RenderLines(pre, values)), line);
    }
  }

  /** Reading back what `serialize_sincedb` wrote gives every group back, in
      the same order, with the number of its position (a position held as
      text comes back as an Integer), provided there is at least one group
      and no group name holds white space. */
  lemma SinceDbRoundTrip(db: SinceDb)
    requires Wf(db) && db.keys != []
    requires forall k :: k in db.values ==> GroupNameOk(k)
    ensures forall i :: 0 <= i < |Lines(SerializeSinceDb(db))| ==> Lines(SerializeSinceDb(db))[i] != []
    ensures ReadInto(EmptySinceDb, Lines(SerializeSinceDb(db)))
      == SinceDb(db.keys, map k | k in db.values :: Millis(db.values[k].ms))
  {
    SerializedLines(db);
    ListedKeys(db);
    ReadRendered(db.keys, db.values);
  }

  lemma ListedKeys(db: SinceDb)
    requires Wf(db)
    requires forall k :: k in db.values ==> GroupNameOk(k)
    ensures forall i :: 0 <= i < |db.keys| ==> db.keys[i] in db.values && GroupNameOk(db.keys[i])
    ensures (map k | k in db.keys :: Millis(db.values[k].ms)) == (map k | k in db.values :: Millis(db.values[k].ms))
  {
    forall i | 0 <= i < |db.keys|
      ensures db.keys[i] in db.values
    {
      assert db.keys[i] in db.keys;
    }
  }

  /** The file `serialize_sincedb` writes reads back, line by line, as the
      rendered lines each with its "\n". */
  lemma SerializedLines(db: SinceDb)
    requires Wf(db) && db.keys != []
    requires forall k :: k in db.values ==> GroupNameOk(k)
    ensures Lines(SerializeSinceDb(db)) == Terminated(RenderLines(db.keys, db.values))
  {
    var ls := RenderLines(db.keys, db.values);
    JoinThenNewline(ls);
    forall i | 0 <= i < |ls|
      ensures '\n' !in ls[i]
    {
      RenderLinesAt(db.keys, db.values, i);
      RenderedLineReadsBack(db.keys[i], db.values[db.keys[i]]);
    }
    LinesOfTerminated(ls);
  }

  /** An empty sincedb is written as a lone "\n", which reads back as a group
      named "" at position 0. The plugin writes only after `process_group`
      has given its group an entry, so it never writes an empty sincedb. */
  lemma EmptySinceDbReadsBackPhantomGroup()
    ensures Lines(SerializeSinceDb(EmptySinceDb)) == ["\n"]
    ensures ReadInto(EmptySinceDb, ["\n"]) == SinceDb([""], map["" := Millis(0)])
  {
    assert SerializeSinceDb(EmptySinceDb) == "\n";
    assert FirstLineLength("\n") == 1;
    assert "\n"[..1] == "\n";
    assert Lines("\n") == ["\n"] + Lines([]);
    assert "\n"[1..] == [];
    assert DropSpace("\n"[1..]) == [];
    assert SplitFirst("\n") == Fields("", None);
  }

  // ---------------------------------------------------------------------------
  // The plugin
  // ---------------------------------------------------------------------------

  /** The plugin's settings and the state its watermark logic keeps. */
  class CloudWatchLogsInput {
    /** `log_group`: the group names, or prefixes when `log_group_prefix` is set. */
    const logGroups: seq<string>
    const logGroupPrefix: bool
    const startPosition: ConfigValue
    var sincedb: SinceDb
    /** Groups in the order they were last processed, least recent first. */
    var priority: seq<string>

    ghost predicate Valid()
      reads this
    {
      Wf(sincedb) && NoDuplicates(priority)
    }

    constructor(logGroups: seq<string>, logGroupPrefix: bool, startPosition: ConfigValue)
      ensures this.logGroups == logGroups && this.logGroupPrefix == logGroupPrefix
      ensures this.startPosition == startPosition
      ensures sincedb == EmptySinceDb && priority == []
      ensures Valid()
    {
      this.logGroups := logGroups;
      this.logGroupPrefix := logGroupPrefix;
      this.startPosition := startPosition;
      sincedb := EmptySinceDb;
      priority := [];
    }

    /** `register`, without the AWS clients and the sincedb path: the sincedb
        is emptied, then the start position is checked. */
    method Register() returns (err: Option<ConfigError>)
      requires Valid()
      modifies this
      ensures Valid()
      ensures sincedb == EmptySinceDb && priority == old(priority)
      ensures err == CheckStartPositionValidity(startPosition)
    {
      sincedb := EmptySinceDb;
      err := CheckStartPositionValidity(startPosition);
    }

    /** `_sincedb_open`: each line of the file sets its group's position; a
        missing or unreadable file leaves the sincedb as it was. */
    method SincedbOpen(file: SinceDbFile)
      requires Valid()
      modifies this
      ensures Valid() && priority == old(priority)
      ensures file.MissingFile? ==> sincedb == old(sincedb)
      ensures file.FileText? ==> sincedb == ReadInto(old(sincedb), Lines(file.text))
    {
      if file.FileText? {
        var es := ParseLines(Lines(file.text));
        var i := 0;
        while i < |es|
          invariant 0 <= i <= |es|
          invariant Valid() && priority == old(priority)
          invariant sincedb == ReadEntries(old(sincedb), es[..i])
        {
          assert es[..i + 1][..i] == es[..i];
          sincedb := Put(sincedb, es[i].0, Millis(es[i].1));
          i := i + 1;
        }
        assert es[..|es|] == es;
      }
    }

    /** `find_log_groups`: the configured groups, or the groups the service
        lists for the prefixes (`found`), ordered by `priority_of`. Groups never
        processed come before every processed one. */
    function FindLogGroups(found: seq<string>): (r: seq<string>)
      reads this
      ensures multiset(r) == multiset(if logGroupPrefix then found else logGroups)
      ensures forall i, j :: 0 <= i < j < |r| ==> PriorityOf(priority, r[i]) <= PriorityOf(priority, r[j])
      ensures forall i, j :: 0 <= i < |r| && 0 <= j < |r| && r[i] !in priority && r[j] in priority ==> i < j
    {
      var groups := if logGroupPrefix then found else logGroups;
      var r := SortByPriority(priority, groups);
      assert forall i, j :: 0 <= i < |r| && 0 <= j < |r| && r[i] !in priority && r[j] in priority ==> i < j by {
        forall i, j | 0 <= i < |r| && 0 <= j < |r| && r[i] !in priority && r[j] in priority
          ensures i < j
        {
          PriorityOfSpec(priority, r[i]);
          PriorityOfSpec(priority, r[j]);
        }
      }
      r
    }

    /** `determine_start_position(groups, @sincedb)`; `nows[i]` is the clock
        reading taken for `groups[i]`. The `case` runs only for a group the
        sincedb lacks, so the start position must be one the `case` can
        handle (what the corrected check in `register` admits, see
        `AcceptedStartPositionResolves`) unless every listed group is
        already present, in which case nothing changes. */
    method DetermineStartPosition(groups: seq<string>, nows: seq<nat>)
      requires Valid() && |nows| == |groups|
      requires CaseOf(startPosition).Some? || forall g :: g in groups ==> g in sincedb.values
      modifies this
      ensures Valid() && priority == old(priority)
      ensures CaseOf(startPosition).Some? ==>
        sincedb == DefaultsAssigned(old(sincedb), groups, nows, CaseOf(startPosition).value)
      ensures CaseOf(startPosition).None? ==> sincedb == old(sincedb)
    {
      var i := 0;
      while i < |groups|
        invariant 0 <= i <= |groups|
        invariant Valid() && priority == old(priority)
        invariant CaseOf(startPosition).Some? ==>
          sincedb == DefaultsAssigned(old(sincedb), groups[..i], nows[..i], CaseOf(startPosition).value)
        invariant CaseOf(startPosition).None? ==> sincedb == old(sincedb)
      {
        assert groups[..i + 1][..i] == groups[..i] && nows[..i + 1][..i] == nows[..i];
        if groups[i] !in sincedb.values {
          var p := DefaultPosition(CaseOf(startPosition).value, nows[i]);
          sincedb := Put(sincedb, groups[i], p);
        }
        i := i + 1;
      }
      assert groups[..|groups|] == groups && nows[..|nows|] == nows;
    }

    /** `process_log(log, group)`: the codec's block runs once per decoded
        event, and each run sets the group one past the log's timestamp. */
    method ProcessLog(log: Log, group: string)
      requires Valid()
      modifies this
      ensures Valid() && priority == old(priority)
      ensures sincedb == Logged(old(sincedb), group, log)
    {
      var k := 0;
      while k < log.decoded
        invariant 0 <= k <= log.decoded
        invariant Valid() && priority == old(priority)
        invariant sincedb == if k == 0 then old(sincedb) else Put(old(sincedb), group, Millis(log.timestamp + 1))
      {
        sincedb := Put(sincedb, group, Millis(log.timestamp + 1));
        k := k + 1;
      }
    }

    /** `process_group(group)`, given the pages `filter_log_events` answers
        with (there is always at least one): each page first puts a missing
        group at 0, then processes its logs; finally the group is moved to
        the end of `@priority`. */
    method ProcessGroup(group: string, pages: seq<seq<Log>>)
      requires Valid() && pages != []
      modifies this
      ensures Valid()
      ensures sincedb == GroupProcessed(old(sincedb), group, pages)
      ensures priority == Removed(old(priority), group) + [group]
    {
      var p := 0;
      while p < |pages|
        invariant 0 <= p <= |pages|
        invariant Valid() && priority == old(priority)
        invariant sincedb == GroupProcessed(old(sincedb), group, pages[..p])
      {
        assert pages[..p + 1][..p] == pages[..p];
        ghost var before := sincedb;
        if group !in sincedb.values {
          sincedb := Put(sincedb, group, Millis(0));
        }
        var page := pages[p];
        var i := 0;
        while i < |page|
          invariant 0 <= i <= |page|
          invariant Valid() && priority == old(priority)
          invariant sincedb == PageProcessed(before, group, page[..i])
        {
          assert page[..i + 1][..i] == page[..i];
          ProcessLog(page[i], group);
          i := i + 1;
        }
        assert page[..|page|] == page;
        p := p + 1;
      }
      assert pages[..|pages|] == pages;
      priority := Removed(priority, group) + [group];
    }
  }
}
