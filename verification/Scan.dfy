/** The batch scan over all enabled channels: each query asks for the next ids after a
    cursor, and a short batch ends the scan. */
module Scan {

  ghost predicate Increasing(s: seq<int>) {
    forall i, j :: 0 <= i < j < |s| ==> s[i] < s[j]
  }

  /** An id passes the cursor; a cursor of zero means there is no condition yet. */
  predicate After(x: int, cursor: int) {
    cursor > 0 ==> x > cursor
  }

  /** What a query over an unchanging table returns: at most `limit` enabled ids after
      the cursor, in order, leaving out only larger ones. */
  ghost predicate IsPage(enabled: set<int>, cursor: int, limit: nat, page: seq<int>) {
    && Increasing(page) && |page| <= limit
    && (forall x :: x in page ==> x in enabled && After(x, cursor))
    && (forall x :: x in enabled && After(x, cursor) && x !in page ==>
          |page| == limit && forall y :: y in page ==> y < x)
  }

  /** The enabled ids up to the cursor were visited, and nothing else. */
  ghost predicate VisitedUpTo(enabled: set<int>, cursor: int, visited: seq<int>) {
    && Increasing(visited)
    && (forall x :: x in visited <==> x in enabled && x <= cursor)
  }

  ghost function Rest(enabled: set<int>, cursor: int): set<int> {
    set x | x in enabled && x > cursor
  }

  lemma VisitNext(enabled: set<int>, cursor: int, visited: seq<int>, x: int)
    requires VisitedUpTo(enabled, cursor, visited) && x in enabled && x > cursor
    requires forall y :: y in enabled && y > cursor ==> y >= x
    ensures VisitedUpTo(enabled, x, visited + [x])
  {
    forall i | 0 <= i < |visited| ensures visited[i] < x {
      assert visited[i] in visited;
    }
  }

  /** The i-th id of a page is the smallest enabled id after the ones before it. */
  lemma PageHasNoGaps(enabled: set<int>, cursor: int, limit: nat, page: seq<int>, i: nat, y: int)
    requires IsPage(enabled, cursor, limit, page) && cursor >= 0 && i < |page|
    requires forall x :: x in enabled ==> x > 0
    requires y in enabled && y > (if i == 0 then cursor else page[i - 1])
    ensures y >= page[i]
  {
    assert i > 0 ==> page[0] <= page[i - 1] && page[0] in page && After(page[0], cursor);
    if y in page {
      var j :| 0 <= j < |page| && page[j] == y;
    } else {
      assert page[i] in page;
    }
  }

  /** Visits every enabled channel exactly once, in increasing order of id, whatever the
      size of the table; a cancelled scan has visited an initial part. */
  method ScanChannels(ghost enabled: set<int>, query: int -> seq<int>, batch: nat, cancelled: nat -> bool)
    returns (visited: seq<int>, stopped: bool)
    requires batch > 0 && forall x :: x in enabled ==> x > 0
    requires forall cursor :: cursor >= 0 ==> IsPage(enabled, cursor, batch, query(cursor))
    ensures Increasing(visited)
    ensures forall x :: x in visited ==> x in enabled
    ensures forall x, y :: x in enabled && y in visited && x <= y ==> x in visited
    ensures !stopped ==> forall x :: x in enabled ==> x in visited
    ensures stopped ==> exists n :: cancelled(n)
  {
    visited, stopped := [], false;
    var lastID, checks := 0, 0;
    assert VisitedUpTo(enabled, 0, []);
    while true
      invariant lastID >= 0 && VisitedUpTo(enabled, lastID, visited)
      decreases Rest(enabled, lastID)
    {
      if cancelled(checks) {
        stopped := true;
        return;
      }
      checks := checks + 1;
      var channels := query(lastID);
      ghost var cursor := lastID;
      assert IsPage(enabled, cursor, batch, channels);
      if |channels| == 0 {
        return;
      }
      lastID := channels[|channels| - 1];
      assert channels[|channels| - 1] in channels && channels[0] in channels;
      for i := 0 to |channels|
        invariant VisitedUpTo(enabled, if i == 0 then cursor else channels[i - 1], visited)
      {
        if cancelled(checks) {
          stopped := true;
          return;
        }
        checks := checks + 1;
        assert channels[i] in channels && After(channels[i], cursor);
        forall y | y in enabled && y > (if i == 0 then cursor else channels[i - 1]) ensures y >= channels[i] {
          PageHasNoGaps(enabled, cursor, batch, channels, i, y);
        }
        VisitNext(enabled, if i == 0 then cursor else channels[i - 1], visited, channels[i]);
        visited := visited + [channels[i]];
      }
      if |channels| < batch {
        forall x | x in enabled ensures x in visited {
          if x > cursor { assert x in channels; }
        }
        return;
      }
      assert lastID in Rest(enabled, cursor) && lastID !in Rest(enabled, lastID);
    }
  }
}
