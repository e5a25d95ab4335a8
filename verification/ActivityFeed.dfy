/**
 The project activity feed: a stream that only polls the durable log in bounded pages, and a paged
 listing whose kind filter is applied after the page is cut.
 */
module ActivityFeed {
  import opened Options
  import opened DurableLog

  const STREAM_PAGE := 1000

  function Take(s: seq<Event>, n: nat): seq<Event> {
    if n <= |s| then s[..n] else s
  }

  /** `list_since` with a limit. */
  function Page(log: seq<Event>, c: Cursor, limit: nat): seq<Event> {
    Take(Since(log, c), limit)
  }

  // ---------------------------------------------------------------------------------------
  // The stream
  // ---------------------------------------------------------------------------------------

  /** A gap-free output stays gap-free when the log grows. */
  lemma StillPrefix(log: seq<Event>, later: seq<Event>, c: Cursor, out: seq<Event>)
    requires Increasing(later) && log <= later && out <= Since(log, c)
    ensures out <= Since(later, c)
  {
    assert later == log + later[|log|..];
    SinceConcat(log, later[|log|..], c);
  }

  /** One read keeps the output contiguous and moves it by a full page or to the end of the log. */
  lemma ReadStep(log: seq<Event>, after: Cursor, out: seq<Event>)
    requires Increasing(log) && out <= Since(log, after)
    ensures var more := out + Page(log, CursorAfter(after, out), STREAM_PAGE);
            && more <= Since(log, after)
            && (|more| == |out| + STREAM_PAGE || more == Since(log, after))
  {
    ContinueAfterPrefix(log, after, out);
  }

  /** Sends a page event by event, moving the cursor along. */
  method SendPage(page: seq<Event>, after: Cursor, sent: seq<Event>) returns (out: seq<Event>, last: Cursor)
    ensures out == sent + page && last == CursorAfter(after, out)
  {
    out, last := sent, CursorAfter(after, sent);
    for k := 0 to |page|
      invariant out == sent + page[..k] && last == CursorAfter(after, out)
    {
      out := out + [page[k]];
      last := Some(page[k].id);
    }
    assert page[..|page|] == page;
  }

  /** Where the stream stands after n reads if read k came to the end of the log and the later ones did not. */
  function EndThenPages(logs: seq<seq<Event>>, after: Cursor, k: nat, n: nat): int
    requires k < |logs|
  {
    |Since(logs[k], after)| + STREAM_PAGE * (n - 1 - k)
  }

  /** How many events n reads send: as many as every read's page and log allow, and no fewer. */
  predicate Reached(logs: seq<seq<Event>>, after: Cursor, n: nat, sent: nat)
    requires n <= |logs|
  {
    && sent <= STREAM_PAGE * n
    && (forall k | 0 <= k < n :: sent <= EndThenPages(logs, after, k, n))
    && (sent == STREAM_PAGE * n || exists k | 0 <= k < n :: sent == EndThenPages(logs, after, k, n))
  }

  /**
   The replay and any number of polls, with appends in between: the output is one contiguous
   in-order piece of the log just after the cursor, and exactly as long as one page per read allows,
   each read seeing what was stored by then.
   */
  method StreamActivity(logs: seq<seq<Event>>, after: Cursor) returns (out: seq<Event>)
    requires logs != []
    requires forall i | 0 <= i < |logs| :: Increasing(logs[i])
    requires forall i | 0 < i < |logs| :: logs[i - 1] <= logs[i]
    ensures out <= Since(logs[|logs| - 1], after)
    ensures forall k | 0 <= k < |logs| :: |out| >= STREAM_PAGE * (|logs| - k) || |out| >= |Since(logs[k], after)|
    ensures |out| <= STREAM_PAGE * |logs| && forall k | 0 <= k < |logs| :: |out| <= EndThenPages(logs, after, k, |logs|)
    ensures |out| == STREAM_PAGE * |logs| || exists k | 0 <= k < |logs| :: |out| == EndThenPages(logs, after, k, |logs|)
  {
    out := ReadAll(logs, after);
    LowerBound(logs, after, |out|);
  }

  method ReadAll(logs: seq<seq<Event>>, after: Cursor) returns (out: seq<Event>)
    requires logs != []
    requires forall i | 0 <= i < |logs| :: Increasing(logs[i])
    requires forall i | 0 < i < |logs| :: logs[i - 1] <= logs[i]
    ensures out <= Since(logs[|logs| - 1], after) && Reached(logs, after, |logs|, |out|)
  {
    var last;
    out, last := SendPage(Page(logs[0], after, STREAM_PAGE), after, []);
    FirstRead(logs, after);
    for i := 1 to |logs|
      invariant last == CursorAfter(after, out)
      invariant out <= Since(logs[i - 1], after) && Reached(logs, after, i, |out|)
    {
      PollStep(logs, after, i, out);
      out, last := SendPage(Page(logs[i], last, STREAM_PAGE), after, out);
    }
  }

  lemma FirstRead(logs: seq<seq<Event>>, after: Cursor)
    requires logs != [] && Increasing(logs[0])
    ensures var out := [] + Page(logs[0], after, STREAM_PAGE);
            out <= Since(logs[0], after) && Reached(logs, after, 1, |out|)
  {
    ReadStep(logs[0], after, []);
    var out := [] + Page(logs[0], after, STREAM_PAGE);
    assert |out| == STREAM_PAGE || |out| == EndThenPages(logs, after, 0, 1);
  }

  /** A log that grows from read to read grows from any read to any later one. */
  lemma {:induction false} Grows(logs: seq<seq<Event>>, i: nat, j: nat)
    requires i <= j < |logs| && forall k | 0 < k < |logs| :: logs[k - 1] <= logs[k]
    ensures logs[i] <= logs[j]
    decreases j
  {
    if i < j {
      Grows(logs, i, j - 1);
      assert logs[j - 1] <= logs[j];
    }
  }

  /** A poll continues the piece and keeps its length exact. */
  lemma PollStep(logs: seq<seq<Event>>, after: Cursor, i: nat, out: seq<Event>)
    requires 0 < i < |logs| && Increasing(logs[i]) && logs[i - 1] <= logs[i]
    requires out <= Since(logs[i - 1], after) && Reached(logs, after, i, |out|)
    ensures var more := out + Page(logs[i], CursorAfter(after, out), STREAM_PAGE);
            more <= Since(logs[i], after) && Reached(logs, after, i + 1, |more|)
  {
    StillPrefix(logs[i - 1], logs[i], after, out);
    ReadStep(logs[i], after, out);
    LengthStep(logs, after, i, i + 1, |out|, |out + Page(logs[i], CursorAfter(after, out), STREAM_PAGE)|);
  }

  /** One read: a full page more, or up to the end of the log it reads. */
  lemma LengthStep(logs: seq<seq<Event>>, after: Cursor, i: nat, n: nat, before: nat, now: nat)
    requires n == i + 1 <= |logs| && now <= before + STREAM_PAGE && now <= |Since(logs[i], after)|
    requires now == before + STREAM_PAGE || now == |Since(logs[i], after)|
    requires Reached(logs, after, i, before)
    ensures Reached(logs, after, n, now)
  {
    forall k | 0 <= k < n ensures now <= EndThenPages(logs, after, k, n) {
      assert k < i ==> before <= EndThenPages(logs, after, k, i);
    }
    if now == |Since(logs[i], after)| {
      assert now == EndThenPages(logs, after, i, n);
    } else if before != STREAM_PAGE * i {
      var k :| 0 <= k < i && before == EndThenPages(logs, after, k, i);
      assert now == EndThenPages(logs, after, k, n);
    }
  }

  /** Whatever was stored at some read has been sent by the end, unless every read since sent a full page. */
  lemma LowerBound(logs: seq<seq<Event>>, after: Cursor, n: nat)
    requires forall i | 0 <= i < |logs| :: Increasing(logs[i])
    requires forall i | 0 < i < |logs| :: logs[i - 1] <= logs[i]
    requires Reached(logs, after, |logs|, n)
    ensures forall k | 0 <= k < |logs| :: n >= STREAM_PAGE * (|logs| - k) || n >= |Since(logs[k], after)|
  {
    if n != STREAM_PAGE * |logs| {
      var e :| 0 <= e < |logs| && n == EndThenPages(logs, after, e, |logs|);
      forall k | 0 <= k < |logs| ensures n >= STREAM_PAGE * (|logs| - k) || n >= |Since(logs[k], after)| {
        if k < e {
          Grows(logs, k, e);
          StillPrefix(logs[k], logs[e], after, Since(logs[k], after));
        }
      }
    }
  }

  // ---------------------------------------------------------------------------------------
  // The paged listing
  // ---------------------------------------------------------------------------------------

  /** The kinds asked for; `None` asks for all. */
  type Kinds = Option<set<string>>

  predicate Matches(e: Event, kinds: Kinds) {
    kinds.None? || e.kind in kinds.value
  }

  function Filter(s: seq<Event>, kinds: Kinds): seq<Event> {
    if s == [] then []
    else Filter(s[..|s| - 1], kinds) + if Matches(s[|s| - 1], kinds) then [s[|s| - 1]] else []
  }

  datatype Listing = Listing(items: seq<Event>, nextCursor: Cursor)

  /** One request: cut the page, then filter it; the next cursor is the last item that survived. */
  function ListActivity(log: seq<Event>, after: Cursor, limit: nat, kinds: Kinds): Listing {
    var items := Filter(Page(log, after, limit), kinds);
    Listing(items, if items == [] then None else Some(items[|items| - 1].id))
  }

  /** There is a next cursor exactly if there is an item, and it is that of the last. */
  lemma NextCursorMeans(log: seq<Event>, after: Cursor, limit: nat, kinds: Kinds)
    ensures var r := ListActivity(log, after, limit, kinds);
            && (r.nextCursor.None? <==> r.items == [])
            && (r.items != [] ==> r.nextCursor == Some(r.items[|r.items| - 1].id))
  {
  }

  lemma {:induction false} FilterMember(s: seq<Event>, kinds: Kinds, e: Event)
    ensures e in Filter(s, kinds) <==> e in s && Matches(e, kinds)
  {
    if s != [] {
      FilterMember(s[..|s| - 1], kinds, e);
      assert s == s[..|s| - 1] + [s[|s| - 1]];
    }
  }

  lemma {:induction false} FilterConcat(a: seq<Event>, b: seq<Event>, kinds: Kinds)
    ensures Filter(a + b, kinds) == Filter(a, kinds) + Filter(b, kinds)
    decreases |b|
  {
    if b == [] {
      assert a + b == a;
    } else {
      assert (a + b)[..|a + b| - 1] == a + b[..|b| - 1];
      FilterConcat(a, b[..|b| - 1], kinds);
    }
  }

  lemma {:induction false} FilterAll(s: seq<Event>)
    ensures Filter(s, None) == s
  {
    if s != [] {
      FilterAll(s[..|s| - 1]);
    }
  }

  /** How many leading events of `s` reach up to its last match; 0 if nothing matches. */
  function UpToLastMatch(s: seq<Event>, kinds: Kinds): (n: nat)
    ensures n <= |s|
    ensures n > 0 ==> Matches(s[n - 1], kinds)
    ensures forall i | n <= i < |s| :: !Matches(s[i], kinds)
  {
    if s == [] then 0
    else if Matches(s[|s| - 1], kinds) then |s|
    else UpToLastMatch(s[..|s| - 1], kinds)
  }

  lemma {:induction false} FilterNone(s: seq<Event>, kinds: Kinds)
    requires forall i | 0 <= i < |s| :: !Matches(s[i], kinds)
    ensures Filter(s, kinds) == []
  {
    if s != [] {
      FilterNone(s[..|s| - 1], kinds);
    }
  }

  /** What a page returns is what matches up to its last match, which is also where it ends. */
  lemma {:induction false} FilterUpToLastMatch(s: seq<Event>, kinds: Kinds)
    ensures var n := UpToLastMatch(s, kinds);
            && Filter(s, kinds) == Filter(s[..n], kinds)
            && (Filter(s, kinds) == [] <==> n == 0)
            && (n > 0 ==> Filter(s, kinds)[|Filter(s, kinds)| - 1] == s[n - 1])
  {
    var n := UpToLastMatch(s, kinds);
    var head, tail := s[..n], s[n..];
    assert s == head + tail;
    FilterConcat(head, tail, kinds);
    FilterNone(tail, kinds);
    assert Filter(head, kinds) + [] == Filter(head, kinds);
    if n > 0 {
      FilterEndsInMatch(head, kinds);
    }
  }

  lemma FilterEndsInMatch(s: seq<Event>, kinds: Kinds)
    requires s != [] && Matches(s[|s| - 1], kinds)
    ensures Filter(s, kinds) == Filter(s[..|s| - 1], kinds) + [s[|s| - 1]]
  {
  }

  /** The items a client collects by following `next_cursor` until a page comes back empty. */
  function Enumerate(log: seq<Event>, after: Cursor, limit: nat, kinds: Kinds): seq<Event>
    requires Increasing(log)
    decreases |Since(log, after)|
  {
    var page := ListActivity(log, after, limit, kinds);
    if page.items == [] then []
    else
      NextPageIsShorter(log, after, limit, kinds);
      page.items + Enumerate(log, page.nextCursor, limit, kinds)
  }

  /** The next cursor continues right after the last match of the page. */
  lemma NextPageIsShorter(log: seq<Event>, after: Cursor, limit: nat, kinds: Kinds)
    requires Increasing(log) && ListActivity(log, after, limit, kinds).items != []
    ensures var rest := Since(log, after);
            var n := UpToLastMatch(Take(rest, limit), kinds);
            && 0 < n <= |rest|
            && Since(log, ListActivity(log, after, limit, kinds).nextCursor) == rest[n..]
            && ListActivity(log, after, limit, kinds).items == Filter(rest[..n], kinds)
  {
    var rest := Since(log, after);
    var page := Take(rest, limit);
    var n := UpToLastMatch(page, kinds);
    FilterUpToLastMatch(page, kinds);
    assert page[..n] == rest[..n];
    ContinueAfterPrefix(log, after, rest[..n]);
    assert rest == rest[..n] + rest[n..];
  }

  /** A stretch of at least `limit` events that do not match comes before one that does. */
  ghost predicate Stranded(s: seq<Event>, limit: nat, kinds: Kinds) {
    exists i, j | 0 <= i && i + limit <= j < |s| :: Desert(s, i, limit, kinds) && Matches(s[j], kinds)
  }

  predicate Desert(s: seq<Event>, i: nat, limit: nat, kinds: Kinds)
    requires i + limit <= |s|
  {
    forall k | i <= k < i + limit :: !Matches(s[k], kinds)
  }

  /** A page without a match is the end exactly when nothing matching follows. */
  lemma EmptyPage(s: seq<Event>, limit: nat, kinds: Kinds)
    requires UpToLastMatch(Take(s, limit), kinds) == 0
    ensures Filter(s, kinds) == [] <==> !Stranded(s, limit, kinds)
  {
    if Stranded(s, limit, kinds) {
      var i, j :| 0 <= i && i + limit <= j < |s| && Desert(s, i, limit, kinds) && Matches(s[j], kinds);
      FilterMember(s, kinds, s[j]);
    } else {
      forall j | 0 <= j < |s| ensures !Matches(s[j], kinds) {
        assert Take(s, limit) == if limit <= |s| then s[..limit] else s;
        if limit <= j {
          assert Desert(s, 0, limit, kinds);
        } else {
          assert Take(s, limit)[j] == s[j];
        }
      }
      FilterNone(s, kinds);
    }
  }

  /** Dropping the events up to the last match of a page keeps every later stretch. */
  lemma StrandedAfterMatch(s: seq<Event>, n: nat, limit: nat, kinds: Kinds)
    requires 0 < n <= |s| && n <= limit && Matches(s[n - 1], kinds)
    ensures Stranded(s, limit, kinds) <==> Stranded(s[n..], limit, kinds)
  {
    var t := s[n..];
    if Stranded(s, limit, kinds) {
      var i, j :| 0 <= i && i + limit <= j < |s| && Desert(s, i, limit, kinds) && Matches(s[j], kinds);
      assert i >= n;
      forall k | i - n <= k < i - n + limit ensures !Matches(t[k], kinds) {
        assert t[k] == s[k + n];
      }
      assert Desert(t, i - n, limit, kinds) && t[j - n] == s[j];
    }
    if Stranded(t, limit, kinds) {
      var i, j :| 0 <= i && i + limit <= j < |t| && Desert(t, i, limit, kinds) && Matches(t[j], kinds);
      forall k | i + n <= k < i + n + limit ensures !Matches(s[k], kinds) {
        assert s[k] == t[k - n];
      }
      assert Desert(s, i + n, limit, kinds) && s[j + n] == t[j];
    }
  }

  /** One page splits both the enumeration and the list of matches at the same place. */
  lemma OnePage(log: seq<Event>, after: Cursor, limit: nat, kinds: Kinds, n: nat)
    requires Increasing(log) && n == UpToLastMatch(Take(Since(log, after), limit), kinds) && n > 0
    ensures var rest := Since(log, after);
            var next := ListActivity(log, after, limit, kinds).nextCursor;
            && n <= |rest| && n <= limit && Matches(rest[n - 1], kinds)
            && Since(log, next) == rest[n..]
            && Enumerate(log, after, limit, kinds) == Filter(rest[..n], kinds) + Enumerate(log, next, limit, kinds)
            && Filter(rest, kinds) == Filter(rest[..n], kinds) + Filter(rest[n..], kinds)
  {
    var rest := Since(log, after);
    assert Filter(rest, kinds) == Filter(rest[..n], kinds) + Filter(rest[n..], kinds) by {
      assert rest == rest[..n] + rest[n..];
      FilterConcat(rest[..n], rest[n..], kinds);
    }
    assert ListActivity(log, after, limit, kinds).items != [] by {
      FilterUpToLastMatch(Take(rest, limit), kinds);
    }
    NextPageIsShorter(log, after, limit, kinds);
  }

  lemma PrefixUnderHead(head: seq<Event>, a: seq<Event>, b: seq<Event>)
    requires a <= b
    ensures head + a <= head + b
    ensures head + a == head + b <==> a == b
  {
    assert (head + a)[|head|..] == a && (head + b)[|head|..] == b;
  }

  /**
   Following the cursor never repeats or reorders: the result is the first so many of the matching
   events. It is all of them if and only if no stretch of at least `limit` non-matching events
   comes before a matching one.
   */
  lemma {:induction false} PagingIff(log: seq<Event>, after: Cursor, limit: nat, kinds: Kinds)
    requires Increasing(log) && limit > 0
    ensures Enumerate(log, after, limit, kinds) <= Filter(Since(log, after), kinds)
    ensures Enumerate(log, after, limit, kinds) == Filter(Since(log, after), kinds)
            <==> !Stranded(Since(log, after), limit, kinds)
    decreases |Since(log, after)|
  {
    var rest := Since(log, after);
    var n := UpToLastMatch(Take(rest, limit), kinds);
    if n == 0 {
      FilterUpToLastMatch(Take(rest, limit), kinds);
      EmptyPage(rest, limit, kinds);
    } else {
      OnePage(log, after, limit, kinds, n);
      var next := ListActivity(log, after, limit, kinds).nextCursor;
      PagingIff(log, next, limit, kinds);
      StrandedAfterMatch(rest, n, limit, kinds);
      PrefixUnderHead(Filter(rest[..n], kinds), Enumerate(log, next, limit, kinds), Filter(rest[n..], kinds));
    }
  }

  /**
   What a client collects, told from the events: only stored events above the cursor that are of one
   of the kinds asked for; and all of those, if no stretch of `limit` others comes before one.
   */
  lemma {:induction false} CollectedEvents(log: seq<Event>, after: Cursor, limit: nat, kinds: Kinds, e: Event)
    requires Increasing(log) && limit > 0
    ensures e in Enumerate(log, after, limit, kinds) ==>
              e in log && Above(after, e.id) && (kinds.Some? ==> e.kind in kinds.value)
    ensures !Stranded(Since(log, after), limit, kinds) && e in log && Above(after, e.id) && (kinds.Some? ==> e.kind in kinds.value) ==>
              e in Enumerate(log, after, limit, kinds)
  {
    PagingIff(log, after, limit, kinds);
    FilterMember(Since(log, after), kinds, e);
    SinceMember(log, after, e);
    var out, all := Enumerate(log, after, limit, kinds), Filter(Since(log, after), kinds);
    assert out == all[..|out|];
  }

  /** Without a filter, paging lists the whole log after the cursor exactly once. */
  lemma UnfilteredPagingIsComplete(log: seq<Event>, after: Cursor, limit: nat)
    requires Increasing(log) && limit > 0
    ensures Enumerate(log, after, limit, None) == Since(log, after)
  {
    PagingIff(log, after, limit, None);
    FilterAll(Since(log, after));
    if Stranded(Since(log, after), limit, None) {
      var s := Since(log, after);
      var i, j :| 0 <= i && i + limit <= j < |s| && Desert(s, i, limit, None) && Matches(s[j], None);
      assert Matches(s[i], None);
    }
  }
}
