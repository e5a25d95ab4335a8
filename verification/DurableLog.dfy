/** Values that are present or absent, and the search that returns one. */
module Options {
  datatype Option<+T> = None | Some(value: T)

  /** The first position whose element has the property. */
  function Search<T>(s: seq<T>, p: T -> bool): (r: Option<nat>)
    ensures r.Some? ==> r.value < |s| && p(s[r.value]) && forall j | 0 <= j < r.value :: !p(s[j])
    ensures r.None? ==> forall j | 0 <= j < |s| :: !p(s[j])
  {
    if s == [] then None
    else if p(s[0]) then Some(0)
    else
      var r := Search(s[1..], p);
      assert forall j | 0 < j < |s| :: s[j] == s[1..][j - 1];
      if r.Some? then Some(r.value + 1) else None
  }
}

/**
 The durable event log behind both server-sent-event streams: an append-only sequence of
 events whose sequence numbers increase, read with `list_since`.
 */
module DurableLog {
  import opened Options

  /** One stored event: its sequence number, its event type (or activity kind) and its payload. */
  datatype Event = Event(id: int, kind: string, payload: string)

  /** A resume position; `None` reads from the beginning. */
  type Cursor = Option<int>

  predicate Above(c: Cursor, id: int) {
    c.None? || c.value < id
  }

  predicate Increasing(s: seq<Event>) {
    forall i, j | 0 <= i < j < |s| :: s[i].id < s[j].id
  }

  /** `list_since`: the stored events above the cursor, in stored order. */
  function Since(log: seq<Event>, c: Cursor): seq<Event> {
    if log == [] then []
    else (if Above(c, log[0].id) then [log[0]] else []) + Since(log[1..], c)
  }

  /** The cursor a reader holds after having received `out` from position `start`. */
  function CursorAfter(start: Cursor, out: seq<Event>): Cursor {
    if out == [] then start else Some(out[|out| - 1].id)
  }

  /** How many leading events of an increasing log are at or below the cursor. */
  function Split(log: seq<Event>, c: Cursor): (k: nat)
    ensures k <= |log|
  {
    if log == [] || Above(c, log[0].id) then 0 else 1 + Split(log[1..], c)
  }

  lemma {:induction false} SplitSeparates(log: seq<Event>, c: Cursor)
    requires Increasing(log)
    ensures forall i | 0 <= i < |log| :: Above(c, log[i].id) <==> Split(log, c) <= i
  {
    if log != [] && !Above(c, log[0].id) {
      SplitSeparates(log[1..], c);
      forall i | 0 <= i < |log|
        ensures Above(c, log[i].id) <==> Split(log, c) <= i
      {
        if i > 0 {
          assert log[i] == log[1..][i - 1];
        }
      }
    }
  }

  /** The split point is the only place where the cursor condition turns true. */
  lemma SplitIs(log: seq<Event>, c: Cursor, k: nat)
    requires Increasing(log) && k <= |log|
    requires k == 0 || !Above(c, log[k - 1].id)
    requires k == |log| || Above(c, log[k].id)
    ensures Split(log, c) == k
  {
    SplitSeparates(log, c);
  }

  lemma TailIncreasing(log: seq<Event>)
    requires Increasing(log) && log != []
    ensures Increasing(log[1..])
    ensures log[1..] != [] ==> log[0].id < log[1..][0].id
  {
  }

  lemma DropOneMore(log: seq<Event>, k: nat)
    requires k < |log|
    ensures log[1..][k..] == log[k + 1..]
  {
  }

  /** On an increasing log, `list_since` is a suffix of the log. */
  lemma {:induction false} SinceIsSuffix(log: seq<Event>, c: Cursor)
    requires Increasing(log)
    ensures Since(log, c) == log[Split(log, c)..]
  {
    if log != [] {
      var rest := log[1..];
      TailIncreasing(log);
      SinceIsSuffix(rest, c);
      if Above(c, log[0].id) {
        SplitIs(rest, c, 0);
        assert log == [log[0]] + rest;
      } else {
        DropOneMore(log, Split(rest, c));
      }
    }
  }

  lemma {:induction false} SinceMember(log: seq<Event>, c: Cursor, e: Event)
    ensures e in Since(log, c) <==> e in log && Above(c, e.id)
  {
    if log != [] {
      SinceMember(log[1..], c, e);
      assert log == [log[0]] + log[1..];
    }
  }

  lemma SinceIncreasing(log: seq<Event>, c: Cursor)
    requires Increasing(log)
    ensures Increasing(Since(log, c))
  {
    SinceIsSuffix(log, c);
  }

  /** Two positions of an increasing log with the same number are the same position. */
  lemma SameIdSameEvent(log: seq<Event>, a: Event, b: Event)
    requires Increasing(log) && a in log && b in log && a.id == b.id
    ensures a == b
  {
    var i :| 0 <= i < |log| && log[i] == a;
    var j :| 0 <= j < |log| && log[j] == b;
    assert i == j;
  }

  /** Reading on from the last received event continues exactly where the output stops. */
  lemma ContinueAfterPrefix(log: seq<Event>, start: Cursor, out: seq<Event>)
    requires Increasing(log) && out <= Since(log, start)
    ensures Since(log, start) == out + Since(log, CursorAfter(start, out))
  {
    SinceIsSuffix(log, start);
    var k := Split(log, start);
    var c := CursorAfter(start, out);
    if out != [] {
      var n := k + |out|;
      assert log[k..][|out| - 1] == log[n - 1];
      SplitIs(log, c, n);
      SinceIsSuffix(log, c);
      assert log[k..][|out|..] == log[n..];
    }
  }

  lemma PrefixIncreasing(log: seq<Event>, more: seq<Event>)
    requires Increasing(log + more)
    ensures Increasing(log)
  {
    var all := log + more;
    forall i, j | 0 <= i < j < |log| ensures log[i].id < log[j].id {
      assert all[i].id < all[j].id;
    }
  }

  /** A longer log gives a longer answer with the old one as its prefix. */
  lemma SinceGrows(log: seq<Event>, more: seq<Event>, c: Cursor)
    requires Increasing(log + more)
    ensures Increasing(log)
    ensures Since(log, c) <= Since(log + more, c)
  {
    PrefixIncreasing(log, more);
    SinceConcat(log, more, c);
  }

  lemma {:induction false} SinceConcat(log: seq<Event>, more: seq<Event>, c: Cursor)
    ensures Since(log + more, c) == Since(log, c) + Since(more, c)
  {
    if log == [] {
      assert log + more == more;
    } else {
      var all, head := log + more, if Above(c, log[0].id) then [log[0]] else [];
      assert all[0] == log[0] && all[1..] == log[1..] + more;
      SinceConcat(log[1..], more, c);
      assert head + (Since(log[1..], c) + Since(more, c)) == head + Since(log[1..], c) + Since(more, c);
    }
  }
}
