/** The channel object behind the key actions, loaded from the database, changed in place
    and saved again. */
module MultiKeyChannel {
  import opened KeyText
  import opened MultiKey
  import opened Options
  import opened Text

  datatype Reply = Done | IndexMissing | IndexOutOfRange | NothingToDisable | LastKey | NothingAutoDisabled

  /** The entries added once the first `n` keys were looked at. */
  function DisabledBelow(s: State, n: int): map<int, int> {
    map i | 0 <= i < n && StatusOf(s, i) == ENABLED :: MANUALLY_DISABLED
  }

  lemma DisabledNext(s: State, n: nat)
    ensures s.statuses + DisabledBelow(s, n + 1) ==
            if StatusOf(s, n) == ENABLED then (s.statuses + DisabledBelow(s, n))[n := MANUALLY_DISABLED]
            else s.statuses + DisabledBelow(s, n)
  {
  }

  lemma DisabledEnd(s: State, n: nat)
    requires n == s.size || (n == 0 && s.size < 0)
    ensures s.statuses + DisabledBelow(s, n) == AllDisabled(s)
  {
  }

  lemma NothingDisabled(s: State)
    requires forall i :: 0 <= i < s.size ==> StatusOf(s, i) != ENABLED
    ensures AllDisabled(s) == s.statuses
  {
  }

  class Channel {
    const p: Parser
    /** The key column in the database. */
    var stored: string
    var key: string
    var size: int
    var statuses: map<int, int>
    var times: map<int, int>
    var reasons: map<int, string>
    var status: int
    var reason: string

    function View(): State
      reads this
    {
      State(key, size, statuses, times, reasons, status, reason)
    }

    constructor (p: Parser, s: State)
      ensures this.p == p && View() == s && stored == key
    {
      this.p, stored := p, s.key;
      key, size, statuses, times, reasons := s.key, s.size, s.statuses, s.times, s.reasons;
      status, reason := s.status, s.reason;
    }

    method HasEnabledMultiKey() returns (found: bool)
      ensures found == HasEnabled(p, View())
    {
      var keys := Read(p, key);
      for i := 0 to |keys|
        invariant forall j :: 0 <= j < i ==> StatusIn(statuses, j) != ENABLED
      {
        if i !in statuses || statuses[i] == ENABLED {
          assert StatusIn(statuses, i) == ENABLED;
          return true;
        }
      }
      return false;
    }

    method DisableIfUnavailable() returns (unavailable: bool)
      modifies this`status, this`reason
      ensures View() == OffIfUnavailable(p, old(View()))
      ensures unavailable == !HasEnabled(p, old(View()))
    {
      var available := HasEnabledMultiKey();
      if available {
        return false;
      }
      if status != ENABLED {
        return true;
      }
      status := MANUALLY_DISABLED;
      reason := ALL_KEYS_DISABLED;
      return true;
    }

    method RestoreIfAvailable()
      modifies this`status, this`reason
      ensures View() == OnIfAvailable(p, old(View()))
    {
      var available := HasEnabledMultiKey();
      if status != MANUALLY_DISABLED || !available {
        return;
      }
      if reason != ALL_KEYS_DISABLED {
        return;
      }
      status := ENABLED;
      reason := "";
    }

    /** Writes the channel back.  An empty key field is left out, so the stored one stays. */
    method Update()
      modifies this
      ensures View() == Saved(p, old(stored), old(View())) && stored == key
    {
      var text := if key != "" then key else stored;
      size := Size(p, text);
      statuses := map i | i in statuses && i < size :: statuses[i];
      stored := text;
      key := text;
    }

    method CheckIndex(index: Option<int>) returns (reply: Reply)
      ensures reply.Done? <==> InRange(View(), index)
      ensures reply.Done? || (reply.IndexMissing? && index.None?) || (reply.IndexOutOfRange? && index.Some?)
    {
      if index.None? {
        return IndexMissing;
      }
      if index.value < 0 || index.value >= size {
        return IndexOutOfRange;
      }
      return Done;
    }

    method Disable(index: Option<int>) returns (reply: Reply)
      requires stored == key
      modifies this
      ensures View() == Step(p, old(View()), Action.Disable(index)) && stored == key
      ensures reply.Done? <==> Accepts(p, old(View()), Action.Disable(index))
    {
      reply := CheckIndex(index);
      if reply.Done? {
        statuses := statuses[index.value := MANUALLY_DISABLED];
        var _ := DisableIfUnavailable();
        Update();
      }
    }

    method Enable(index: Option<int>) returns (reply: Reply)
      requires stored == key
      modifies this
      ensures View() == Step(p, old(View()), Action.Enable(index)) && stored == key
      ensures reply.Done? <==> Accepts(p, old(View()), Action.Enable(index))
    {
      reply := CheckIndex(index);
      if reply.Done? {
        statuses := statuses - {index.value};
        times := times - {index.value};
        reasons := reasons - {index.value};
        RestoreIfAvailable();
        Update();
      }
    }

    method EnableAllKeys()
      requires stored == key
      modifies this
      ensures View() == Step(p, old(View()), Action.EnableAllKeys) && stored == key
    {
      statuses := map[];
      times := map[];
      reasons := map[];
      RestoreIfAvailable();
      Update();
    }

    /** Marks every enabled key as disabled and counts them. */
    method MarkAll() returns (disabled: nat)
      modifies this`statuses
      ensures disabled > 0 <==> Accepts(p, old(View()), Action.DisableAllKeys)
      ensures statuses == AllDisabled(old(View()))
    {
      ghost var before := View();
      disabled := 0;
      var i := 0;
      while i < size
        invariant 0 <= i && (i <= size || i == 0)
        invariant statuses == before.statuses + DisabledBelow(before, i)
        invariant disabled > 0 <==> exists j :: 0 <= j < i && StatusOf(before, j) == ENABLED
      {
        var status := if i in statuses then statuses[i] else ENABLED;
        assert status == StatusOf(before, i);
        DisabledNext(before, i);
        if status == ENABLED {
          statuses := statuses[i := MANUALLY_DISABLED];
          disabled := disabled + 1;
        }
        i := i + 1;
      }
      DisabledEnd(before, i);
    }

    method DisableAllKeys() returns (reply: Reply)
      requires stored == key
      modifies this
      ensures View() == Step(p, old(View()), Action.DisableAllKeys) && stored == key
      ensures reply.Done? <==> Accepts(p, old(View()), Action.DisableAllKeys)
    {
      ghost var before := View();
      var disabled := MarkAll();
      if disabled == 0 {
        NothingDisabled(before);
        return NothingToDisable;
      }
      var _ := DisableIfUnavailable();
      Update();
      return Done;
    }

    /** Copies the entries of one surviving key to its new position, the next free one. */
    method CarryOver(i: int, hidden: bool, tables: Tables, ghost kept: seq<int>, newIndex: nat)
      returns (r: Tables)
      requires newIndex == |kept| && tables == Renumbered(View(), kept, hidden)
      ensures r == Renumbered(View(), kept + [i], hidden)
    {
      StatusCarried(View(), kept, i);
      EntryCarried(View(), times, hidden, 0, kept, i);
      EntryCarried(View(), reasons, hidden, "", kept, i);
      var st, ti, re := tables.statuses, tables.times, tables.reasons;
      var status := if i in statuses then statuses[i] else ENABLED;
      if status != ENABLED {
        st := st[newIndex := status];
      }
      if i in times && (hidden || status != ENABLED) {
        ti := ti[newIndex := times[i]];
      }
      if i in reasons && (hidden || status != ENABLED) {
        re := re[newIndex := reasons[i]];
      }
      r := Tables(st, ti, re);
    }

    /** Stores the surviving keys and their tables. */
    method Replace(remaining: seq<string>, tables: Tables, ghost kept: seq<int>, ghost hidden: bool)
      requires remaining == Pick(Keys(p, View()), kept) && |remaining| == |kept|
      requires tables == Renumbered(View(), kept, hidden)
      modifies this
      ensures View() == OffIfUnavailable(p, Compacted(p, old(View()), kept, hidden)) && stored == old(stored)
    {
      key := Join(remaining, '\n');
      size := |remaining|;
      statuses, times, reasons := tables.statuses, tables.times, tables.reasons;
      assert View() == Compacted(p, old(View()), kept, hidden);
      var _ := DisableIfUnavailable();
    }

    /** What the deletion loops know after the first `n` keys. */
    ghost predicate Survived(n: nat, stays: int -> bool, hidden: bool, remaining: seq<string>, tables: Tables,
                             kept: seq<int>)
      reads this
    {
      && kept == Kept(n, stays) && remaining == Pick(Keys(p, View()), kept) && |remaining| == |kept|
      && tables == Renumbered(View(), kept, hidden)
    }

    /** One round of the deletion loops. */
    method Survive(i: nat, stays: int -> bool, hidden: bool, k: string, remaining: seq<string>, tables: Tables,
                   ghost kept: seq<int>)
      returns (remaining': seq<string>, tables': Tables, ghost kept': seq<int>)
      requires i < |Keys(p, View())| && k == Keys(p, View())[i]
      requires Survived(i, stays, hidden, remaining, tables, kept)
      ensures Survived(i + 1, stays, hidden, remaining', tables', kept')
      ensures |kept'| == |kept| + if stays(i) then 1 else 0
    {
      remaining', tables', kept' := remaining, tables, kept;
      KeptStep(i, stays);
      if stays(i) {
        PickSnoc(Keys(p, View()), kept, i);
        tables' := CarryOver(i, hidden, tables, kept, |remaining|);
        remaining' := remaining + [k];
        kept' := kept + [i];
      } else {
        assert kept + [] == kept;
      }
    }

    /** The keys that stay, with what is known of them, renumbered. */
    method Survivors(stays: int -> bool, hidden: bool)
      returns (remaining: seq<string>, tables: Tables, deleted: nat, ghost kept: seq<int>)
      ensures Survived(|Keys(p, View())|, stays, hidden, remaining, tables, kept)
      ensures deleted == |Keys(p, View())| - |kept|
    {
      var keys := Read(p, key);
      remaining, tables, deleted, kept := [], Tables(map[], map[], map[]), 0, [];
      for i := 0 to |keys|
        invariant Survived(i, stays, hidden, remaining, tables, kept)
        invariant deleted == i - |kept|
      {
        remaining, tables, kept := Survive(i, stays, hidden, keys[i], remaining, tables, kept);
        if !stays(i) {
          deleted := deleted + 1;
        }
      }
    }

    /** Drops one key and moves the tables of the others to their new positions. */
    method Delete(index: Option<int>) returns (reply: Reply)
      requires stored == key
      modifies this
      ensures View() == Step(p, old(View()), Action.Delete(index)) && stored == key
      ensures reply.Done? <==> Accepts(p, old(View()), Action.Delete(index))
    {
      reply := CheckIndex(index);
      if !reply.Done? {
        return;
      }
      var remaining, tables, _, kept := Survivors(Others(index.value), true);
      if |remaining| == 0 {
        return LastKey;
      }
      Replace(remaining, tables, kept, true);
      Update();
    }

    /** Drops the auto-disabled keys; the others keep what they show. */
    method DeleteAutoDisabled() returns (reply: Reply, deleted: nat)
      requires stored == key
      modifies this
      ensures View() == Step(p, old(View()), Action.DeleteAutoDisabled) && stored == key
      ensures deleted == |Keys(p, old(View()))| - |Staying(p, old(View()), Action.DeleteAutoDisabled)|
      ensures reply.Done? <==> Accepts(p, old(View()), Action.DeleteAutoDisabled)
    {
      var remaining, tables, count, kept := Survivors(NotAutoDisabled(View()), false);
      deleted := count;
      if deleted == 0 {
        return NothingAutoDisabled, 0;
      }
      Replace(remaining, tables, kept, false);
      Update();
      reply := Done;
    }
  }
}
