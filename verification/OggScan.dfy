/** The length of an Ogg/Opus file: the largest granule position of its pages (section 6
    of RFC 3533 for the page layout, section 4 of RFC 7845 for the granule position). */
module OggScan {

  type byte = x: int | 0 <= x < 256

  const HEADER: nat := 27

  function Sum(segments: seq<byte>): nat {
    if segments == [] then 0 else Sum(segments[..|segments| - 1]) + segments[|segments| - 1]
  }

  function LittleEndian(bytes: seq<byte>): nat {
    if bytes == [] then 0 else bytes[0] + 256 * LittleEndian(bytes[1..])
  }

  /** An unsigned 64-bit value read as a signed one. */
  function Signed64(u: nat): int {
    if u >= 0x8000_0000_0000_0000 then u - 0x1_0000_0000_0000_0000 else u
  }

  predicate HasHeader(data: seq<byte>, pos: nat) {
    pos + HEADER <= |data|
  }

  /** The page header at a position carries the capture pattern "OggS". */
  predicate IsPage(data: seq<byte>, pos: nat) {
    && HasHeader(data, pos)
    && data[pos] == 0x4F && data[pos + 1] == 0x67 && data[pos + 2] == 0x67 && data[pos + 3] == 0x53
  }

  function Granule(data: seq<byte>, pos: nat): int
    requires HasHeader(data, pos)
  {
    Signed64(LittleEndian(data[pos + 6..pos + 14]))
  }

  /** Where the scan continues after a page header, or nothing if its table is cut off. */
  datatype Next = At(pos: nat) | CutOff

  function AfterPage(data: seq<byte>, pos: nat): (n: Next)
    requires HasHeader(data, pos)
    ensures n.At? ==> n.pos >= pos + HEADER
  {
    var segments := data[pos + 26];
    var table := pos + HEADER;
    if table + segments > |data| then CutOff
    else At(table + segments + Sum(data[table..table + segments]))
  }

  /** The positions at which a scan from `pos` recognizes pages. */
  function Stops(data: seq<byte>, pos: nat): seq<nat>
    decreases |data| + HEADER - pos
  {
    if !HasHeader(data, pos) then []
    else if !IsPage(data, pos) then Stops(data, pos + 1)
    else
      var next := AfterPage(data, pos);
      [pos] + if next.At? then Stops(data, next.pos) else []
  }

  function Largest(data: seq<byte>, stops: seq<nat>, least: int): int {
    if stops == [] then least
    else
      var p := stops[0];
      Largest(data, stops[1..], if HasHeader(data, p) then Larger(least, Granule(data, p)) else least)
  }

  /** What is recognized behind a page header. */
  function Behind(data: seq<byte>, pos: nat): seq<nat>
    requires HasHeader(data, pos)
  {
    if AfterPage(data, pos).At? then Stops(data, AfterPage(data, pos).pos) else []
  }

  function Larger(a: int, b: int): int {
    if b > a then b else a
  }

  lemma StopsBehind(data: seq<byte>, pos: nat)
    requires IsPage(data, pos)
    ensures Stops(data, pos) == [pos] + Behind(data, pos)
  {
  }

  /** One recognized page: its granule position counts and the scan goes on behind it. */
  lemma StopsOnPage(data: seq<byte>, pos: nat, total: int)
    requires IsPage(data, pos)
    ensures Largest(data, Stops(data, pos), total) ==
            Largest(data, Behind(data, pos), Larger(total, Granule(data, pos)))
  {
    StopsBehind(data, pos);
    assert ([pos] + Behind(data, pos))[1..] == Behind(data, pos);
  }

  lemma GranuleOfWindow(data: seq<byte>, pos: nat)
    requires HasHeader(data, pos)
    ensures Granule(data[pos..pos + HEADER], 0) == Granule(data, pos)
  {
    var window := data[pos..pos + HEADER];
    forall i | 0 <= i < 8 ensures window[6..14][i] == data[pos + 6..pos + 14][i] {
      assert window[6 + i] == data[pos + 6 + i];
    }
    assert window[6..14] == data[pos + 6..pos + 14];
  }

  method PageSize(segments: seq<byte>) returns (size: nat)
    ensures size == Sum(segments)
  {
    size := 0;
    for i := 0 to |segments|
      invariant size == Sum(segments[..i])
    {
      assert segments[..i + 1][..i] == segments[..i];
      size := size + segments[i];
    }
    assert segments[..|segments|] == segments;
  }

  /** Reads headers, skips page by page, and moves on byte by byte where there is none.
      A position behind the end is reached by seeking and found out by the next read. */
  method Scan(data: seq<byte>) returns (total: int, seconds: real)
    ensures total == Largest(data, Stops(data, 0), 0)
    ensures seconds == total as real / 48000.0
  {
    var pos: nat := 0;
    total := 0;
    while pos <= |data| && HEADER <= |data| - pos
      invariant Largest(data, Stops(data, pos), total) == Largest(data, Stops(data, 0), 0)
      decreases |data| + HEADER - pos
    {
      var buf := data[pos..pos + HEADER];
      if !IsPage(buf, 0) {
        pos := pos + HEADER - 26;
        continue;
      }
      StopsOnPage(data, pos, total);
      GranuleOfWindow(data, pos);
      var granulePos := Granule(buf, 0);
      if granulePos > total {
        total := granulePos;
      }
      var table := pos + HEADER;
      var segments: nat := buf[26];
      if table + segments > |data| {
        return total, total as real / 48000.0;
      }
      var size := PageSize(data[table..table + segments]);
      pos := table + segments + size;
    }
    seconds := total as real / 48000.0;
  }

  // ---------------------------------------------------------------------------
  // Well-formed files
  // ---------------------------------------------------------------------------

  /** A page: the fixed header, one byte per segment, and the segments themselves. */
  datatype Page = Page(header: seq<byte>, segments: seq<byte>, payload: seq<byte>) {
    ghost predicate Valid() {
      && |header| == HEADER && IsPage(header, 0)
      && header[26] == |segments| && |payload| == Sum(segments)
    }

    function Bytes(): seq<byte> {
      header + segments + payload
    }
  }

  ghost predicate AllValid(pages: seq<Page>) {
    forall i :: 0 <= i < |pages| ==> pages[i].Valid()
  }

  function Concat(pages: seq<Page>): seq<byte> {
    if pages == [] then [] else pages[0].Bytes() + Concat(pages[1..])
  }

  function Starts(base: nat, pages: seq<Page>): seq<nat>
    decreases |pages|
  {
    if pages == [] then [] else [base] + Starts(base + |pages[0].Bytes()|, pages[1..])
  }

  /** The largest signed granule position, or `least` if none is larger. */
  ghost function LargestGranule(pages: seq<Page>, least: int): int
    requires AllValid(pages)
  {
    if pages == [] then least
    else
      LargestGranule(pages[1..], Larger(least, Granule(pages[0].header, 0)))
  }

  lemma PageAt(data: seq<byte>, pos: nat, page: Page, after: seq<byte>)
    requires page.Valid() && pos <= |data| && data[pos..] == page.Bytes() + after
    ensures Finds(data, pos, page)
    ensures pos + |page.Bytes()| <= |data| && data[pos + |page.Bytes()|..] == after
  {
    var tail := data[pos..];
    var n := |page.segments|;
    assert tail[..HEADER] == page.header;
    assert forall k :: 0 <= k < HEADER ==> data[pos + k] == tail[k] == page.header[k];
    assert data[pos + 6..pos + 14] == page.header[6..14];
    assert data[pos + HEADER..pos + HEADER + n] == tail[HEADER..HEADER + n] == page.segments;
    assert data[pos + |page.Bytes()|..] == tail[|page.Bytes()|..];
  }

  /** The scan finds this page at this position. */
  ghost predicate Finds(data: seq<byte>, pos: nat, page: Page) {
    && IsPage(data, pos) && AfterPage(data, pos) == At(pos + |page.Bytes()|)
    && |page.header| == HEADER && Granule(data, pos) == Granule(page.header, 0)
  }

  /** The pages lie one behind the other from `pos` to the end. */
  ghost predicate LaidOut(data: seq<byte>, pos: nat, pages: seq<Page>)
    decreases |pages|
  {
    if pages == [] then pos == |data|
    else Finds(data, pos, pages[0]) && LaidOut(data, pos + |pages[0].Bytes()|, pages[1..])
  }

  lemma ConcatParts(pages: seq<Page>)
    requires AllValid(pages) && pages != []
    ensures Concat(pages) == pages[0].Bytes() + Concat(pages[1..])
    ensures pages[0].Valid() && AllValid(pages[1..])
  {
  }

  lemma LaidOutCons(data: seq<byte>, pos: nat, pages: seq<Page>)
    requires pages != [] && Finds(data, pos, pages[0]) && LaidOut(data, pos + |pages[0].Bytes()|, pages[1..])
    ensures LaidOut(data, pos, pages)
  {
  }

  lemma {:induction false} ConcatIsLaidOut(data: seq<byte>, pos: nat, pages: seq<Page>)
    requires AllValid(pages) && pos <= |data| && data[pos..] == Concat(pages)
    ensures LaidOut(data, pos, pages)
    decreases |pages|
  {
    if pages == [] {
      assert |data| == pos;
    } else {
      ConcatParts(pages);
      var next := PageFound(data, pos, pages[0], pages[1..]);
      ConcatIsLaidOut(data, next, pages[1..]);
      LaidOutCons(data, pos, pages);
    }
  }

  lemma PageFound(data: seq<byte>, pos: nat, page: Page, rest: seq<Page>) returns (next: nat)
    requires page.Valid() && pos <= |data| && data[pos..] == page.Bytes() + Concat(rest)
    ensures Finds(data, pos, page) && next == pos + |page.Bytes()| <= |data| && data[next..] == Concat(rest)
  {
    PageAt(data, pos, page, Concat(rest));
    next := pos + |page.Bytes()|;
  }

  lemma BehindFound(data: seq<byte>, pos: nat, page: Page)
    requires Finds(data, pos, page)
    ensures Stops(data, pos) == [pos] + Stops(data, pos + |page.Bytes()|)
  {
    StopsBehind(data, pos);
  }

  /** Started on a page boundary, the scan stops at exactly the starts of the pages. */
  lemma {:induction false} StopsAtPages(data: seq<byte>, pos: nat, pages: seq<Page>)
    requires LaidOut(data, pos, pages)
    ensures Stops(data, pos) == Starts(pos, pages)
    decreases |pages|
  {
    if pages == [] {
      assert !HasHeader(data, pos);
    } else {
      var next := pos + |pages[0].Bytes()|;
      BehindFound(data, pos, pages[0]);
      StopsAtPages(data, next, pages[1..]);
    }
  }

  lemma LargestStep(data: seq<byte>, pos: nat, page: Page, least: int)
    requires page.Valid() && Finds(data, pos, page)
    ensures Largest(data, Stops(data, pos), least) ==
            Largest(data, Stops(data, pos + |page.Bytes()|), Larger(least, Granule(page.header, 0)))
  {
    StopsOnPage(data, pos, least);
  }

  lemma {:induction false} LargestOfPages(data: seq<byte>, pos: nat, pages: seq<Page>, least: int)
    requires AllValid(pages) && LaidOut(data, pos, pages)
    ensures Largest(data, Stops(data, pos), least) == LargestGranule(pages, least)
    decreases |pages|
  {
    if pages == [] {
      assert Stops(data, pos) == [];
    } else {
      ConcatParts(pages);
      var next, larger := pos + |pages[0].Bytes()|, Larger(least, Granule(pages[0].header, 0));
      LargestStep(data, pos, pages[0], least);
      LargestOfPages(data, next, pages[1..], larger);
      assert LargestGranule(pages, least) == LargestGranule(pages[1..], larger);
    }
  }

  /** Bytes that are no page are skipped one by one. */
  lemma {:induction false} SkipsJunk(data: seq<byte>, pos: nat, first: nat)
    requires pos <= first <= |data|
    requires forall p :: pos <= p < first ==> !IsPage(data, p)
    requires first < |data| ==> HasHeader(data, first)
    ensures Stops(data, pos) == Stops(data, first)
    decreases first - pos
  {
    if pos < first {
      if HasHeader(data, pos) {
        SkipsJunk(data, pos + 1, first);
      }
    }
  }

  /** The scan stops no later than at the first page. */
  lemma {:induction false} StopsByPage(data: seq<byte>, pos: nat, page: nat)
    requires pos <= page && IsPage(data, page)
    ensures Stops(data, pos) != [] && Stops(data, pos)[0] <= page
    decreases page - pos
  {
    if IsPage(data, pos) {
      StopsBehind(data, pos);
    } else {
      StopsByPage(data, pos + 1, page);
    }
  }

  /** Whether a page is recognized that starts in the first `n` bytes. */
  ghost predicate PageBefore(data: seq<byte>, n: nat) {
    exists p :: 0 <= p < n && IsPage(data, p)
  }

  /** On any concatenation of pages, after any bytes, the scan stops at exactly the page
      starts if and only if no page is recognized among those bytes.  The duration is then
      the largest signed granule position, at least 0, in samples of 48 kHz. */
  lemma DurationOfPages(junk: seq<byte>, pages: seq<Page>)
    requires AllValid(pages)
    ensures var data := junk + Concat(pages);
            && (Stops(data, 0) == Starts(|junk|, pages) <==> !PageBefore(data, |junk|))
            && (!PageBefore(data, |junk|) ==> Largest(data, Stops(data, 0), 0) == LargestGranule(pages, 0))
  {
    var data := junk + Concat(pages);
    if PageBefore(data, |junk|) {
      var p :| 0 <= p < |junk| && IsPage(data, p);
      StopsByPage(data, 0, p);
    } else {
      DurationWithoutJunk(junk, pages);
    }
  }

  lemma DurationWithoutJunk(junk: seq<byte>, pages: seq<Page>)
    requires AllValid(pages) && !PageBefore(junk + Concat(pages), |junk|)
    ensures var data := junk + Concat(pages);
            && Stops(data, 0) == Starts(|junk|, pages)
            && Largest(data, Stops(data, 0), 0) == LargestGranule(pages, 0)
  {
    var data := junk + Concat(pages);
    assert data[|junk|..] == Concat(pages);
    if pages != [] {
      PageAt(data, |junk|, pages[0], Concat(pages[1..]));
    }
    SkipsJunk(data, 0, |junk|);
    ConcatIsLaidOut(data, |junk|, pages);
    StopsAtPages(data, |junk|, pages);
    LargestOfPages(data, |junk|, pages, 0);
  }

  /** The largest granule is one of the pages' or 0, and no page exceeds it. */
  lemma {:induction false} LargestGranuleIsMaximum(pages: seq<Page>, least: int)
    requires AllValid(pages)
    ensures var m := LargestGranule(pages, least);
            && m >= least && (forall i :: 0 <= i < |pages| ==> Granule(pages[i].header, 0) <= m)
            && (m == least || exists i :: 0 <= i < |pages| && Granule(pages[i].header, 0) == m)
  {
    if pages != [] {
      var next := Larger(least, Granule(pages[0].header, 0));
      LargestGranuleIsMaximum(pages[1..], next);
      var m := LargestGranule(pages, least);
      forall i | 0 <= i < |pages| ensures Granule(pages[i].header, 0) <= m {
        if i > 0 { assert pages[1..][i - 1] == pages[i]; }
      }
      if m != next {
        var i :| 0 <= i < |pages| - 1 && Granule(pages[1..][i].header, 0) == m;
        assert pages[i + 1] == pages[1..][i];
      }
    }
  }

  /** Recognized pages lie apart, each with its magic number and a whole header. */
  /** Page headers from `pos` on, none inside another. */
  ghost predicate Spaced(data: seq<byte>, pos: nat, stops: seq<nat>) {
    && (forall i :: 0 <= i < |stops| ==> stops[i] >= pos && IsPage(data, stops[i]))
    && (forall i :: 0 < i < |stops| ==> stops[i] >= stops[i - 1] + HEADER)
  }

  lemma SpacedCons(data: seq<byte>, pos: nat, next: nat, stops: seq<nat>)
    requires IsPage(data, pos) && next >= pos + HEADER && Spaced(data, next, stops)
    ensures Spaced(data, pos, [pos] + stops)
  {
    var all := [pos] + stops;
    forall i | 0 <= i < |all| ensures all[i] >= pos && IsPage(data, all[i]) {
      assert i > 0 ==> all[i] == stops[i - 1];
    }
    forall i | 0 < i < |all| ensures all[i] >= all[i - 1] + HEADER {
      assert all[i] == stops[i - 1] && (i > 1 ==> all[i - 1] == stops[i - 2]);
    }
  }

  lemma {:induction false} StopsArePages(data: seq<byte>, pos: nat)
    ensures Spaced(data, pos, Stops(data, pos))
    decreases |data| + HEADER - pos
  {
    if IsPage(data, pos) {
      var next := AfterPage(data, pos);
      StopsBehind(data, pos);
      if next.At? {
        StopsArePages(data, next.pos);
      }
      SpacedCons(data, pos, if next.At? then next.pos else pos + HEADER, Behind(data, pos));
    } else if HasHeader(data, pos) {
      StopsArePages(data, pos + 1);
    }
  }
}
