/** The in-place table of main/blue/a2dp/bt_whitelist.c, proved against Whitelist.dfy. */
module WhitelistTable {
  import opened Nmea
  import opened Options
  import opened Whitelist

  /** How the flash calls of one operation turn out. */
  datatype NvsCalls = NvsCalls(open: bool, access: bool, commit: bool)

  lemma {:induction false} HexConcat(a: seq<u8>, b: seq<u8>)
    ensures HexText(a + b) == HexText(a) + HexText(b)
    decreases |b|
  {
    if b == [] {
      assert a + b == a;
    } else {
      var last := |b| - 1;
      assert (a + b)[..|a + b| - 1] == a + b[..last];
      HexConcat(a, b[..last]);
    }
  }

  lemma TableTextSnoc(list: seq<Address>, a: Address)
    ensures TableText(list + [a]) == TableText(list) + HexText(a)
  {
    assert (list + [a])[..|list + [a]| - 1] == list;
    HexConcat(Flat(list), a);
  }

  /** Nothing is stored, or a string that decodes to a table. */
  predicate Storable(stored: Option<seq<u8>>) {
    stored.Some? ==>
      && |stored.value| <= SIZE * ADDRESS_DIGITS
      && NoDuplicates(TextTable(stored.value))
  }

  /** What is saved can be loaded again. */
  lemma SavedIsStorable(list: seq<Address>)
    requires |list| <= SIZE && NoDuplicates(list)
    ensures Storable(Some(TableText(list)))
  {
    TableRoundTrip(list);
  }

  /** Whatever connections, restarts and reloads there have been, and whichever flash calls have failed, the
      stored string can be loaded. */
  lemma RunIsStorable(events: seq<Event>)
    ensures Storable(Run(events).flash)
  {
    TableIsMostRecent(events);
    var saved := Remembered(events).saved;
    MostRecentIsATable(saved);
    SavedIsStorable(MostRecent(saved));
  }

  class Table {
    /** `a2dp_whitelist`; entries from `size` on are stale. */
    const entries: array<Address>
    var size: nat
    /** The string stored under "whitelist", if any. */
    var flash: Option<seq<u8>>

    ghost predicate Valid()
      reads this, entries
    {
      && entries.Length == SIZE && size <= SIZE
      && NoDuplicates(entries[..size])
      && Storable(flash)
    }

    function Contents(): seq<Address>
      requires size <= entries.Length
      reads this, entries
    {
      entries[..size]
    }

    function Value(): Memory
      requires size <= entries.Length
      reads this, entries
    {
      Memory(Contents(), flash)
    }

    /** A restart, with what flash holds: the table in memory starts empty. */
    constructor (stored: Option<seq<u8>>)
      requires Storable(stored)
      ensures Valid() && fresh(entries)
      ensures Value() == Memory([], stored)
    {
      entries := new Address[SIZE](_ => [0, 0, 0, 0, 0, 0]);
      size, flash := 0, stored;
    }

    /** `bt_whitelist_last` */
    method Last() returns (a: Address)
      requires Valid() && size > 0
      ensures a == Contents()[0]
    {
      a := entries[0];
    }

    /** `bt_whitelist_rearrange`: shift entries up to `idx` down by one, freeing entry 0. */
    method Rearrange(idx: nat)
      requires entries.Length == SIZE
      modifies entries
      ensures forall k | 0 < k <= idx && k < SIZE :: entries[k] == old(entries[k - 1])
      ensures forall k | idx < k < SIZE :: entries[k] == old(entries[k])
    {
      var i := idx;
      while i > 0
        invariant 0 <= i <= idx
        invariant forall k | i < k <= idx && k < SIZE :: entries[k] == old(entries[k - 1])
        invariant forall k | 0 <= k <= i && k < SIZE :: entries[k] == old(entries[k])
        invariant forall k | idx < k < SIZE :: entries[k] == old(entries[k])
      {
        if i < SIZE {
          entries[i] := entries[i - 1];
        }
        i := i - 1;
      }
    }

    /** The search of `bt_whitelist_notify_connection`: the index of `a`, or -1. */
    method IndexOf(a: Address) returns (idx: int)
      requires Valid()
      ensures -1 <= idx < size
      ensures idx == -1 <==> a !in Contents()
      ensures idx >= 0 ==> Contents()[idx] == a
    {
      idx := -1;
      for i := 0 to size
        invariant -1 <= idx < i
        invariant idx == -1 <==> a !in entries[..i]
        invariant idx >= 0 ==> entries[idx] == a
      {
        assert entries[..i + 1] == entries[..i] + [entries[i]];
        if entries[i] == a {
          idx := i;
        }
      }
    }

    /** `bt_whitelist_notify_connection`: the result says whether the device was known. */
    method NotifyConnection(a: Address, calls: NvsCalls) returns (known: bool)
      requires Valid()
      modifies this, entries
      ensures Valid()
      ensures known == (a in old(Contents()))
      ensures Value() == Whitelist.Step(old(Value()), Connected(a, calls.open && calls.access && calls.commit))
    {
      ghost var was := Contents();
      var idx := IndexOf(a);
      if idx != -1 {
        MoveToFront(a, idx);
      } else {
        InsertAtFront(a);
      }
      ConnectKeepsDistinct(was, a);
      known := idx != -1;
      SavedIsStorable(Contents());
      NvsSave(calls);
    }

    method MoveToFront(a: Address, idx: nat)
      requires Valid() && idx < size && Contents()[idx] == a
      modifies entries
      ensures Contents() == Connect(old(Contents()), a)
    {
      ghost var was := Contents();
      Rearrange(idx);
      entries[0] := a;
      RemoveAt(was, idx);
      assert entries[..size] == [a] + (was[..idx] + was[idx + 1..]);
    }

    method InsertAtFront(a: Address)
      requires Valid() && a !in Contents()
      modifies this`size, entries
      ensures size <= SIZE && Contents() == Connect(old(Contents()), a)
    {
      ghost var was := Contents();
      Rearrange(size);
      if size < SIZE {
        size := size + 1;
      }
      entries[0] := a;
      RemoveAbsent(was, a);
      assert entries[..size] == Take([a] + was, SIZE);
    }

    /** `bt_whitelist_nvs_save` */
    method NvsSave(calls: NvsCalls)
      requires entries.Length == SIZE && size <= SIZE
      modifies this`flash
      ensures flash == if size > 0 && calls.open && calls.access && calls.commit then Some(TableText(Contents()))
                       else old(flash)
    {
      if size < 1 {
        return;
      }
      if !calls.open {
        return;
      }
      var text: seq<u8> := [];
      for i := 0 to size
        invariant text == TableText(entries[..i]) && flash == old(flash)
      {
        TableTextSnoc(entries[..i], entries[i]);
        assert entries[..i + 1] == entries[..i] + [entries[i]];
        text := text + HexText(entries[i]);
      }
      if !calls.access || !calls.commit {
        return;
      }
      flash := Some(text);
    }

    /** `bt_whitelist_nvs_load`: the table is a table again, whatever was in memory. */
    method NvsLoad(calls: NvsCalls)
      requires Valid()
      modifies this`size, entries
      ensures Valid()
      ensures Value() == Whitelist.Step(old(Value()), Reloaded(calls.open && calls.access))
    {
      if !calls.open {
        return;
      }
      if !calls.access || flash == None {
        return;
      }
      var text := flash.value;
      size := |text| / ADDRESS_DIGITS;
      for i := 0 to size
        invariant size == |text| / ADDRESS_DIGITS <= SIZE
        invariant entries[..i] == TextTable(text)[..i]
      {
        var addr := LoadAddress(text, ADDRESS_DIGITS * i);
        entries[i] := addr;
        assert entries[..i + 1] == entries[..i] + [addr];
        assert TextTable(text)[..i + 1] == TextTable(text)[..i] + [TextTable(text)[i]];
      }
      assert entries[..size] == TextTable(text);
    }

    /** The inner loop of the load: two digits at a time. */
    method LoadAddress(text: seq<u8>, at: nat) returns (a: Address)
      requires at + ADDRESS_DIGITS <= |text|
      ensures a == TextAddress(text, at)
    {
      var bytes: seq<u8> := [];
      for j := 0 to 6
        invariant bytes == TextAddress(text, at)[..j]
      {
        bytes := bytes + [TextByte(text, at + 2 * j)];
      }
      a := bytes;
    }
  }

  lemma ConnectKeepsDistinct(list: seq<Address>, a: Address)
    requires NoDuplicates(list)
    ensures NoDuplicates(Connect(list, a))
  {
    if a in list {
      var k :| 0 <= k < |list| && list[k] == a;
      RemoveAt(list, k);
    } else {
      RemoveAbsent(list, a);
    }
  }
}
