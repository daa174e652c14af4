/** The stores a request body is kept in, in memory or in a cache file, and the request
    context that owns one of them at a time. */
module BodyStorage {

  import O = BodyOwnership
  import opened Options

  type Bytes = O.Bytes

  datatype Outcome<T> = Ok(value: T) | EndOfFile | StorageClosed | BadSeek | TooLarge | DiskFailed | ReadFailed

  datatype Whence = Start | Current | End

  // ---------------------------------------------------------------------------
  // What a storage means, whatever backs it
  // ---------------------------------------------------------------------------

  datatype Body = Body(contents: Bytes, cursor: nat, open: bool)

  function Min(a: int, b: int): int {
    if a <= b then a else b
  }

  /** The next bytes a read of at most `n` gives. */
  function Chunk(contents: Bytes, cursor: nat, n: nat): Bytes {
    if cursor >= |contents| then [] else contents[cursor..Min(cursor + n, |contents|)]
  }

  function Target(contents: Bytes, cursor: nat, offset: int, whence: Whence): int {
    offset + match whence case Start => 0 case Current => cursor case End => |contents|
  }

  function Sought(b: Body, offset: int, whence: Whence): Body {
    var to := Target(b.contents, b.cursor, offset, whence);
    if b.open && to >= 0 then b.(cursor := to) else b
  }

  function SeekResult(b: Body, offset: int, whence: Whence): Outcome<int> {
    var to := Target(b.contents, b.cursor, offset, whence);
    if !b.open then StorageClosed else if to < 0 then BadSeek else Ok(to)
  }

  function Advanced(b: Body, n: nat): Body {
    if b.open then b.(cursor := b.cursor + |Chunk(b.contents, b.cursor, n)|) else b
  }

  /** A read of no bytes at the end is an end of file in memory and not in a file. */
  predicate ReadMeans(b: Body, n: nat, disk: bool, r: Outcome<Bytes>) {
    if !b.open then r == StorageClosed
    else if b.cursor >= |b.contents| && (n > 0 || !disk) then r == EndOfFile
    else r == Ok(Chunk(b.contents, b.cursor, n))
  }

  // ---------------------------------------------------------------------------
  // Readers
  // ---------------------------------------------------------------------------

  /** A position in bytes that do not change: a byte reader or an open file. */
  class Reader {
    const contents: Bytes
    const isFile: bool
    var pos: nat

    constructor (contents: Bytes, isFile: bool)
      ensures this.contents == contents && this.isFile == isFile && pos == 0
    {
      this.contents, this.isFile, pos := contents, isFile, 0;
    }

    method Read(n: nat) returns (r: Outcome<Bytes>)
      modifies this
      ensures ReadMeans(Body(contents, old(pos), true), n, isFile, r)
      ensures pos == old(pos) + |Chunk(contents, old(pos), n)|
    {
      if pos >= |contents| {
        r := if n > 0 || !isFile then EndOfFile else Ok([]);
      } else {
        var end := Min(pos + n, |contents|);
        r := Ok(contents[pos..end]);
        pos := end;
      }
    }

    method Seek(offset: int, whence: Whence) returns (r: Outcome<int>)
      modifies this
      ensures r == SeekResult(Body(contents, old(pos), true), offset, whence)
      ensures pos == Sought(Body(contents, old(pos), true), offset, whence).cursor
    {
      var to := Target(contents, pos, offset, whence);
      if to < 0 { return BadSeek; }
      pos := to;
      r := Ok(to);
    }

    /** Reading chunk after chunk gives what is left, once, in order, and never more than
        was asked for. */
    method ReadUpTo(limit: nat, chunk: nat) returns (data: Bytes)
      requires chunk > 0
      modifies this
      ensures data == Chunk(contents, old(pos), limit)
      ensures pos == old(pos) + |data|
    {
      data := [];
      while |data| < limit
        invariant |data| <= limit && pos == old(pos) + |data|
        invariant data == Chunk(contents, old(pos), |data|)
        invariant |data| == 0 || pos <= |contents|
      {
        var r := Read(Min(chunk, limit - |data|));
        if r.EndOfFile? { break; }
        data := data + r.value;
      }
    }
  }

  // ---------------------------------------------------------------------------
  // Usage counters
  // ---------------------------------------------------------------------------

  class Stats {
    var diskFiles: int
    var diskBytes: int
    var memoryBuffers: int
    var memoryBytes: int

    function View(): O.Counters
      reads this
    {
      O.Counters(diskFiles, diskBytes, memoryBuffers, memoryBytes)
    }

    method Opened(disk: bool, size: nat)
      modifies this
      ensures View() == O.Opened(old(View()), disk, size)
    {
      if disk {
        diskFiles, diskBytes := diskFiles + 1, diskBytes + size;
      } else {
        memoryBuffers, memoryBytes := memoryBuffers + 1, memoryBytes + size;
      }
    }

    method Closed(disk: bool, size: nat)
      modifies this
      ensures View() == O.Closed(old(View()), disk, size)
    {
      if disk {
        diskFiles := diskFiles - 1;
        if diskFiles < 0 { diskFiles := 0; }
        diskBytes := diskBytes - size;
        if diskBytes < 0 { diskBytes := 0; }
      } else {
        memoryBuffers, memoryBytes := memoryBuffers - 1, memoryBytes - size;
      }
    }
  }

  // ---------------------------------------------------------------------------
  // The two storages
  // ---------------------------------------------------------------------------

  class MemoryStorage {
    const data: Bytes
    const reader: Reader
    var closed: bool

    ghost predicate Valid() {
      reader.contents == data && !reader.isFile
    }

    function View(): Body
      reads this, reader
    {
      Body(data, reader.pos, !closed)
    }

    constructor (data: Bytes)
      ensures Valid() && fresh(reader) && View() == Body(data, 0, true)
    {
      this.data := data;
      reader := new Reader(data, false);
      closed := false;
    }

    method Read(n: nat) returns (r: Outcome<Bytes>)
      requires Valid()
      modifies reader
      ensures ReadMeans(old(View()), n, false, r) && View() == Advanced(old(View()), n)
    {
      if closed { return StorageClosed; }
      r := reader.Read(n);
    }

    method Seek(offset: int, whence: Whence) returns (r: Outcome<int>)
      requires Valid()
      modifies reader
      ensures r == SeekResult(old(View()), offset, whence) && View() == Sought(old(View()), offset, whence)
    {
      if closed { return StorageClosed; }
      r := reader.Seek(offset, whence);
    }

    method Close(stats: Stats)
      modifies this, stats
      ensures View() == old(View()).(open := false)
      ensures stats.View() == if old(closed) then old(stats.View()) else O.Closed(old(stats.View()), false, |data|)
    {
      if !closed {
        closed := true;
        stats.Closed(false, |data|);
      }
    }

    method GetBytes() returns (r: Outcome<Bytes>)
      ensures r == if View().open then Ok(View().contents) else StorageClosed
    {
      r := if closed then StorageClosed else Ok(data);
    }

    method NewReader() returns (r: Outcome<Reader>)
      ensures r.Ok? <==> View().open
      ensures r.Ok? ==> fresh(r.value) && r.value.contents == View().contents && r.value.pos == 0
    {
      if closed { return StorageClosed; }
      var fork := new Reader(data, false);
      r := Ok(fork);
    }
  }

  class DiskStorage {
    const file: Reader
    const size: nat
    var closed: bool

    ghost predicate Valid() {
      size == |file.contents| && file.isFile
    }

    function View(): Body
      reads this, file
    {
      Body(file.contents, file.pos, !closed)
    }

    constructor (data: Bytes)
      ensures Valid() && fresh(file) && View() == Body(data, 0, true)
    {
      file := new Reader(data, true);
      size := |data|;
      closed := false;
    }

    method Read(n: nat) returns (r: Outcome<Bytes>)
      requires Valid()
      modifies file
      ensures ReadMeans(old(View()), n, true, r) && View() == Advanced(old(View()), n)
    {
      if closed { return StorageClosed; }
      r := file.Read(n);
    }

    method Seek(offset: int, whence: Whence) returns (r: Outcome<int>)
      requires Valid()
      modifies file
      ensures r == SeekResult(old(View()), offset, whence) && View() == Sought(old(View()), offset, whence)
    {
      if closed { return StorageClosed; }
      r := file.Seek(offset, whence);
    }

    method Close(stats: Stats)
      requires Valid()
      modifies this, stats
      ensures View() == old(View()).(open := false)
      ensures stats.View() ==
              if old(closed) then old(stats.View()) else O.Closed(old(stats.View()), true, |View().contents|)
    {
      if !closed {
        closed := true;
        stats.Closed(true, size);
      }
    }

    /** All bytes, wherever the cursor stands; the cursor moves away and comes back. */
    method GetBytes() returns (r: Outcome<Bytes>)
      requires Valid()
      modifies file
      ensures r == if old(View()).open then Ok(old(View()).contents) else StorageClosed
      ensures View() == old(View())
    {
      if closed { return StorageClosed; }
      var position := file.Seek(0, Current);
      var _ := file.Seek(0, Start);
      var data := file.ReadUpTo(size, Min(size + 1, 32768));
      assert file.contents[0..size] == file.contents;
      var _ := file.Seek(position.value, Start);
      r := Ok(data);
    }

    /** `opens`: whether the cache file can be opened once more. */
    method NewReader(opens: bool) returns (r: Outcome<Reader>)
      ensures r.Ok? <==> View().open && opens
      ensures r.StorageClosed? <==> !View().open
      ensures r.Ok? ==> fresh(r.value) && r.value.contents == View().contents && r.value.pos == 0
    {
      if closed { return StorageClosed; }
      if !opens { return DiskFailed; }
      var fork := new Reader(file.contents, true);
      r := Ok(fork);
    }
  }

  datatype Storage = Memory(memory: MemoryStorage) | Disk(disk: DiskStorage) {
    ghost predicate Valid() {
      match this case Memory(m) => m.Valid() case Disk(d) => d.Valid()
    }

    ghost function Objects(): set<object> {
      match this case Memory(m) => {m, m.reader} case Disk(d) => {d, d.file}
    }

    function View(): Body
      reads Objects()
    {
      match this case Memory(m) => m.View() case Disk(d) => d.View()
    }

    method Close(stats: Stats)
      requires Valid()
      modifies Objects(), stats
      ensures View() == old(View()).(open := false)
      ensures stats.View() == if old(View()).open then O.Closed(old(stats.View()), Disk?, |View().contents|)
                              else old(stats.View())
    {
      match this
      case Memory(m) => m.Close(stats);
      case Disk(d) => d.Close(stats);
    }

    method Rewind() returns (r: Outcome<int>)
      requires Valid()
      modifies Objects()
      ensures r == SeekResult(old(View()), 0, Start) && View() == Sought(old(View()), 0, Start)
    {
      match this
      case Memory(m) => r := m.Seek(0, Start);
      case Disk(d) => r := d.Seek(0, Start);
    }
  }

  // ---------------------------------------------------------------------------
  // Making a storage
  // ---------------------------------------------------------------------------

  method CreateDisk(stats: Stats, data: Bytes) returns (s: Storage)
    modifies stats
    ensures s.Disk? && s.Valid() && fresh(s.Objects()) && s.View() == Body(data, 0, true)
    ensures stats.View() == O.Opened(old(stats.View()), true, |data|)
  {
    var d := new DiskStorage(data);
    stats.Opened(true, |data|);
    s := Disk(d);
  }

  method CreateMemory(stats: Stats, data: Bytes) returns (s: Storage)
    modifies stats
    ensures s.Memory? && s.Valid() && fresh(s.Objects()) && s.View() == Body(data, 0, true)
    ensures stats.View() == O.Opened(old(stats.View()), false, |data|)
  {
    var m := new MemoryStorage(data);
    stats.Opened(false, |data|);
    s := Memory(m);
  }

  /** Where `CreateBodyStorage` keeps the bytes. */
  predicate OnDisk(config: O.Config, c: O.Counters, luck: O.Luck, size: nat) {
    config.enabled && size >= config.thresholdMB * O.MB && O.Available(config, c, size) && luck.diskOk
  }

  method Create(stats: Stats, config: O.Config, luck: O.Luck, data: Bytes) returns (s: Storage)
    modifies stats
    ensures s.Valid() && fresh(s.Objects()) && s.View() == Body(data, 0, true)
    ensures s.Disk? <==> OnDisk(config, old(stats.View()), luck, |data|)
    ensures stats.View() == O.Opened(old(stats.View()), s.Disk?, |data|)
  {
    if OnDisk(config, stats.View(), luck, |data|) {
      s := CreateDisk(stats, data);
    } else {
      s := CreateMemory(stats, data);
    }
  }

  /** Whether the declared length sends the stream straight to a cache file. */
  predicate Streams(config: O.Config, c: O.Counters, declared: int) {
    && config.enabled && declared > 0 && declared >= config.thresholdMB * O.MB
    && O.Available(config, c, declared)
  }

  /** A body is kept, byte for byte, exactly when it is no longer than allowed and can be
      read and written; one byte past the limit is all that is ever read too much, and on
      failure nothing is counted. */
  method CreateFromReader(stats: Stats, config: O.Config, luck: O.Luck, input: Reader, declared: int, maxBytes: nat)
    returns (r: Outcome<Storage>)
    requires input.pos == 0
    modifies stats, input
    ensures r.Ok? <==> && luck.readOk && |input.contents| <= maxBytes
                       && (Streams(config, old(stats.View()), declared) ==> luck.diskOk)
    ensures r.Ok? ==> && r.value.Valid() && fresh(r.value.Objects())
                      && r.value.View() == Body(input.contents, 0, true)
                      && stats.View() == O.Opened(old(stats.View()), r.value.Disk?, |input.contents|)
    ensures r.Ok? ==> (r.value.Disk? <==> || Streams(config, old(stats.View()), declared)
                                          || OnDisk(config, old(stats.View()), luck, |input.contents|))
    ensures !r.Ok? ==> stats.View() == old(stats.View())
    ensures r.TooLarge? <==> && luck.readOk && |input.contents| > maxBytes
                             && (Streams(config, old(stats.View()), declared) ==> luck.diskOk)
    ensures input.pos <= maxBytes + 1 && input.pos <= |input.contents|
  {
    if Streams(config, stats.View(), declared) && !luck.diskOk { return DiskFailed; }
    if !luck.readOk { return ReadFailed; }
    var data := input.ReadUpTo(maxBytes + 1, 32768);
    if |data| > maxBytes { return TooLarge; }
    var s: Storage;
    if Streams(config, stats.View(), declared) {
      s := CreateDisk(stats, data);
    } else {
      s := Create(stats, config, luck, data);
    }
    r := Ok(s);
  }

  // ---------------------------------------------------------------------------
  // The request context
  // ---------------------------------------------------------------------------

  class Context {
    var slot: Option<Storage>
    var cached: Option<Bytes>
    var failed: Option<Outcome<Storage>>
    var body: Option<Reader>
    var declared: int

    ghost predicate Valid()
      reads this, if body.Some? then {body.value} else {}
    {
      && (slot.Some? ==> slot.value.Valid())
      && (body.Some? ==> body.value.pos == 0 && (O.Bodiless(declared) ==> body.value.contents == []))
      && (failed.Some? ==> !failed.value.Ok?)
    }

    ghost function Objects(): set<object>
      reads this
    {
      (if slot.Some? then slot.value.Objects() else {}) + (if body.Some? then {body.value} else {})
    }

    /** The context is request `r` of the world, its storage the one in that slot, and the
        counters are those of the world. */
    ghost predicate Is(w: O.World, r: nat, stats: Stats)
      reads this, Objects(), stats
    {
      && r < |w.requests| && w.counters == stats.View()
      && var q := w.requests[r];
      && q.cached == cached && q.failed == failed.Some? && q.declared == declared
      && q.body == (if body.Some? then Some(body.value.contents) else None)
      && q.slot.Some? == slot.Some?
      && (slot.Some? ==> q.slot.value < |w.stored| && w.stored[q.slot.value] == AsStored(slot.value))
    }

    ghost function AsStored(s: Storage): O.Stored
      reads s.Objects()
    {
      O.Stored(s.View().contents, s.Disk?, s.View().open)
    }

    constructor (body: Reader, declared: int)
      requires body.pos == 0 && (O.Bodiless(declared) ==> body.contents == [])
      ensures Valid() && slot.None? && cached.None? && failed.None? && this.body == Some(body)
      ensures this.declared == declared
    {
      slot, cached, failed, this.body, this.declared := None, None, None, Some(body), declared;
    }

    /** Reads the stream, once, unless the request came without a body. */
    method ReadBody(stats: Stats, config: O.Config, luck: O.Luck, maxBytes: nat, ghost w: O.World, ghost q: nat)
      returns (r: Outcome<Storage>)
      requires Valid() && Is(w, q, stats) && slot.None? && cached.None? && failed.None?
      modifies this, stats, Objects()
      ensures Valid() && Is(O.ReadBody(w, config, luck, q, maxBytes), q, stats)
      ensures if r.Ok? then slot == Some(r.value) && r.value.View().open && r.value.View().cursor == 0
              else slot.None? && failed == Some(r)
    {
      var sure := O.Luck(luck.diskOk, luck.readOk || O.Bodiless(declared));
      if body.None? {
        r := ReadFailed;
      } else {
        r := CreateFromReader(stats, config, sure, body.value, declared, maxBytes);
        if !O.Bodiless(declared) { body := None; }
      }
      if r.Ok? { slot := Some(r.value); } else { failed := Some(r); }
    }

    /** An open storage is handed out again from its start, whatever was read from it
        before; a failed read is reported again as it was.  The context moves as the request
        does. */
    method GetBody(stats: Stats, config: O.Config, luck: O.Luck, maxMB: int, ghost w: O.World, ghost q: nat)
      returns (r: Outcome<Storage>)
      requires Valid() && Is(w, q, stats)
      modifies this, stats, Objects()
      ensures Valid() && Is(O.GetBody(w, config, luck, q, maxMB), q, stats)
      ensures r.Ok? <==> slot.Some? && slot.value.View().open
      ensures r.Ok? ==> slot == Some(r.value) && r.value.View().cursor == 0
      ensures old(slot.Some?) ==> slot == old(slot)
      ensures old(slot.None? && cached.None? && failed.Some?) ==> r == old(failed.value)
    {
      if slot.Some? {
        var at := slot.value.Rewind();
        return if at.Ok? then Ok(slot.value) else StorageClosed;
      }
      if cached.Some? {
        var s := Create(stats, config, luck, cached.value);
        slot := Some(s);
        return Ok(s);
      }
      if failed.Some? { return failed.value; }
      r := ReadBody(stats, config, luck, O.MaxBytes(maxMB), w, q);
    }

    /** The new storage is made before the old one is closed. */
    method Exchange(stats: Stats, config: O.Config, luck: O.Luck, data: Bytes) returns (s: Storage)
      requires Valid()
      modifies stats, if slot.Some? then slot.value.Objects() else {}
      ensures s.Valid() && fresh(s.Objects()) && s.View() == Body(data, 0, true)
      ensures s.Disk? <==> OnDisk(config, old(stats.View()), luck, |data|)
      ensures slot.Some? ==> slot.value.View() == old(slot.value.View()).(open := false)
      ensures var made := O.Opened(old(stats.View()), s.Disk?, |data|);
              stats.View() == if slot.Some? && old(slot.value.View()).open
                              then O.Closed(made, slot.value.Disk?, |slot.value.View().contents|) else made
    {
      s := Create(stats, config, luck, data);
      if slot.Some? { slot.value.Close(stats); }
    }

    /** Puts a storage into the slot. */
    method Install(stats: Stats, s: Storage, data: Bytes, ghost w: O.World, ghost q: nat)
      requires s.Valid() && (failed.Some? ==> !failed.value.Ok?)
      requires q < |w.requests| && w.counters == stats.View()
      requires var r := w.requests[q];
               && r.cached == Some(data) && r.failed == failed.Some? && r.declared == |data| && r.body.None?
               && r.slot.Some? && r.slot.value < |w.stored| && w.stored[r.slot.value] == AsStored(s)
      modifies this
      ensures Valid() && Is(w, q, stats) && slot == Some(s)
    {
      slot, cached, body, declared := Some(s), Some(data), None, |data|;
    }

    /** The old storage is closed, the new one takes its place, and only the new one stays
        on the counters. */
    method ReplaceBody(stats: Stats, config: O.Config, luck: O.Luck, data: Bytes, ghost w: O.World, ghost q: nat)
      requires Valid() && Is(w, q, stats)
      modifies this, stats, Objects()
      ensures Valid() && Is(O.ReplaceBody(w, config, luck, q, data), q, stats)
      ensures slot.Some? && fresh(slot.value.Objects()) && slot.value.View() == Body(data, 0, true)
      ensures old(slot).Some? ==> !old(slot).value.View().open
    {
      O.ReplaceParts(w, config, luck, q, data);
      var s := Exchange(stats, config, luck, data);
      Install(stats, s, data, O.ReplaceBody(w, config, luck, q, data), q);
    }

    method Cleanup(stats: Stats, ghost w: O.World, ghost q: nat)
      requires Valid() && Is(w, q, stats)
      modifies this, stats, Objects()
      ensures Valid() && Is(O.CleanupBody(w, q), q, stats) && slot.None?
      ensures old(slot).Some? ==> !old(slot).value.View().open
    {
      if slot.Some? {
        slot.value.Close(stats);
        slot := None;
      }
    }
  }
}
