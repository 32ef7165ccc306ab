/** Values shared by the trackers and the input plugin. */
module Common {

  /** Ruby's `nil`-or-value, as it appears in the trackers' optional fields. */
  datatype Option<+T> = None | Some(value: T)

  /** The part of a CloudWatch Logs `FilteredLogEvent` that the trackers read:
      its timestamp in milliseconds, the stream it came from and the id the
      service gave it. */
  datatype FilteredLogEvent = FilteredLogEvent(timestamp: int, logStreamName: string, eventId: string)

  /** A non-empty set of integers has an element. */
  lemma SomeInt(s: set<int>)
    requires s != {}
    ensures exists x :: x in s
  {
    if forall x :: x !in s {
      assert false;
    }
  }

  /** A non-empty set of strings has an element. */
  lemma SomeString(s: set<string>)
    requires s != {}
    ensures exists x :: x in s
  {
    if forall x :: x !in s {
      assert false;
    }
  }

  /** No element of `s` occurs twice. */
  ghost predicate NoDuplicates<T>(s: seq<T>) {
    forall i, j :: 0 <= i < j < |s| ==> s[i] != s[j]
  }
}
