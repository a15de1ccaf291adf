/** The table of recently connected A2DP devices: main/blue/a2dp/bt_whitelist.c.

Six entries, most recent first, kept in place in a global array and saved to flash as a string of
hexadecimal digits. The functions say what the table should hold; the class follows the source's loops.
*/
module Whitelist {
  import opened Nmea
  import opened Options

  /** A Bluetooth device address (`esp_bd_addr_t`). */
  type Address = a: seq<u8> | |a| == 6 witness [0, 0, 0, 0, 0, 0]

  /** `A2DP_WHITELIST_SIZE` */
  const SIZE: nat := 6

  /** `MAC_ADDR_STR_SIZE` */
  const ADDRESS_DIGITS: nat := 12

  // ---------------------------------------------------------------- what the table should hold

  function Remove(list: seq<Address>, a: Address): seq<Address> {
    if list == [] then []
    else if list[0] == a then Remove(list[1..], a)
    else [list[0]] + Remove(list[1..], a)
  }

  function Take(list: seq<Address>, n: nat): seq<Address> {
    if |list| <= n then list else list[..n]
  }

  /** Move `a` to the front, dropping the oldest entry of a full table. */
  function Connect(list: seq<Address>, a: Address): seq<Address> {
    Take([a] + Remove(list, a), SIZE)
  }

  /** The distinct addresses of `s`, each at its first occurrence, leaving out those in `seen`. */
  function Distinct(s: seq<Address>, seen: set<Address>): seq<Address> {
    if s == [] then []
    else if s[0] in seen then Distinct(s[1..], seen)
    else [s[0]] + Distinct(s[1..], seen + {s[0]})
  }

  function Reverse(s: seq<Address>): seq<Address> {
    if s == [] then [] else [s[|s| - 1]] + Reverse(s[..|s| - 1])
  }

  /** The first six distinct addresses of the history, read backwards from the latest connection. */
  function MostRecent(history: seq<Address>): seq<Address> {
    Take(Distinct(Reverse(history), {}), SIZE)
  }

  predicate NoDuplicates(list: seq<Address>) {
    forall i, j | 0 <= i < j < |list| :: list[i] != list[j]
  }

  lemma {:induction false} RemoveAbsent(list: seq<Address>, a: Address)
    requires a !in list
    ensures Remove(list, a) == list
    decreases |list|
  {
    if list != [] {
      RemoveAbsent(list[1..], a);
      assert list == [list[0]] + list[1..];
    }
  }

  /** Removing the one occurrence, wherever it is. */
  lemma {:induction false} RemoveAt(list: seq<Address>, k: nat)
    requires k < |list| && NoDuplicates(list)
    ensures Remove(list, list[k]) == list[..k] + list[k + 1..]
    decreases |list|
  {
    if k == 0 {
      RemoveAbsent(list[1..], list[0]);
      assert list[..0] + list[1..] == list[1..];
    } else {
      RemoveAt(list[1..], k - 1);
      assert list[..k] + list[k + 1..] == [list[0]] + (list[1..][..k - 1] + list[1..][k..]);
    }
  }

  lemma {:induction false} DistinctHas(s: seq<Address>, seen: set<Address>)
    ensures NoDuplicates(Distinct(s, seen))
    ensures forall a | a in Distinct(s, seen) :: a in s && a !in seen
    decreases |s|
  {
    if s != [] {
      if s[0] in seen {
        DistinctHas(s[1..], seen);
      } else {
        DistinctHas(s[1..], seen + {s[0]});
      }
    }
  }

  /** To have seen one more address is to leave it out. */
  lemma {:induction false} DistinctWithout(s: seq<Address>, seen: set<Address>, a: Address)
    ensures Distinct(s, seen + {a}) == Remove(Distinct(s, seen), a)
    decreases |s|
  {
    if s != [] {
      var rest := s[1..];
      if s[0] in seen {
        DistinctWithout(rest, seen, a);
      } else if s[0] == a {
        DistinctHas(rest, seen + {a});
        var d := Distinct(rest, seen + {a});
        RemoveAbsent(d, a);
        assert Distinct(s, seen) == [a] + d;
        assert ([a] + d)[1..] == d;
        DistinctSeen(rest, seen, a);
      } else {
        DistinctWithout(rest, seen + {s[0]}, a);
        assert seen + {s[0]} + {a} == seen + {a} + {s[0]};
        var d := Distinct(rest, seen + {s[0]});
        assert ([s[0]] + d)[1..] == d;
      }
    }
  }

  lemma DistinctSeen(rest: seq<Address>, seen: set<Address>, a: Address)
    ensures Distinct([a] + rest, seen + {a}) == Distinct(rest, seen + {a})
  {
    assert ([a] + rest)[1..] == rest;
  }

  lemma CutAround(list: seq<Address>, k: nat)
    requires k < SIZE < |list|
    ensures ([list[k]] + (list[..k] + list[k + 1..]))[..SIZE] == [list[k]] + (list[..SIZE][..k] + list[..SIZE][k + 1..])
  {
    assert list[..k] + list[k + 1..] == (list[..SIZE][..k] + list[..SIZE][k + 1..]) + list[SIZE..];
  }

  lemma CappedPresent(list: seq<Address>, k: nat)
    requires NoDuplicates(list) && |list| > SIZE && k < SIZE
    ensures Take([list[k]] + Remove(list, list[k]), SIZE) == Connect(list[..SIZE], list[k])
  {
    RemoveAt(list, k);
    RemoveAt(list[..SIZE], k);
    CutAround(list, k);
  }

  lemma CappedAbsent(list: seq<Address>, a: Address)
    requires NoDuplicates(list) && |list| > SIZE && a !in list[..SIZE]
    ensures Take([a] + Remove(list, a), SIZE) == Connect(list[..SIZE], a)
  {
    RemoveAbsent(list[..SIZE], a);
    if a in list {
      var k :| 0 <= k < |list| && list[k] == a;
      assert forall i | 0 <= i < SIZE :: list[i] in list[..SIZE];
      RemoveAt(list, k);
    } else {
      RemoveAbsent(list, a);
    }
  }

  /** Capping the list before or after the move gives the same table. */
  lemma ConnectCapped(list: seq<Address>, a: Address)
    requires NoDuplicates(list)
    ensures Take([a] + Remove(list, a), SIZE) == Connect(Take(list, SIZE), a)
  {
    if |list| > SIZE {
      if a in list[..SIZE] {
        var k :| 0 <= k < SIZE && list[..SIZE][k] == a;
        CappedPresent(list, k);
      } else {
        CappedAbsent(list, a);
      }
    }
  }

  /** After any history of connections, moving to the front has kept the most recent distinct addresses. */
  lemma ConnectIsMostRecent(history: seq<Address>, a: Address)
    ensures MostRecent(history + [a]) == Connect(MostRecent(history), a)
  {
    var h := Reverse(history);
    assert (history + [a])[..|history|] == history;
    assert Reverse(history + [a]) == [a] + h;
    assert ([a] + h)[1..] == h;
    assert Distinct([a] + h, {}) == [a] + Distinct(h, {} + {a});
    DistinctWithout(h, {}, a);
    DistinctHas(h, {});
    ConnectCapped(Distinct(h, {}), a);
  }

  lemma MostRecentIsATable(history: seq<Address>)
    ensures |MostRecent(history)| <= SIZE && NoDuplicates(MostRecent(history))
    ensures forall a | a in MostRecent(history) :: a in history
  {
    DistinctHas(Reverse(history), {});
    ReverseHas(history);
  }

  lemma {:induction false} ReverseHas(s: seq<Address>)
    ensures forall a :: a in Reverse(s) <==> a in s
    decreases |s|
  {
    if s != [] {
      ReverseHas(s[..|s| - 1]);
      assert s == s[..|s| - 1] + [s[|s| - 1]];
    }
  }

  // ---------------------------------------------------------------- flash

  function HexText(bytes: seq<u8>): (text: seq<u8>)
    ensures |text| == 2 * |bytes|
  {
    if bytes == [] then [] else HexText(bytes[..|bytes| - 1]) + LowerHex2(bytes[|bytes| - 1])
  }

  function Flat(list: seq<Address>): (bytes: seq<u8>)
    ensures |bytes| == 6 * |list|
  {
    if list == [] then [] else Flat(list[..|list| - 1]) + list[|list| - 1]
  }

  /** The saved string: the digits of every address, most recent first. */
  function TableText(list: seq<Address>): (text: seq<u8>)
    ensures |text| == ADDRESS_DIGITS * |list|
  {
    HexText(Flat(list))
  }

  /** The byte the two digits at `at` stand for. */
  function TextByte(text: seq<u8>, at: nat): u8
    requires at + 2 <= |text|
  {
    StrtolByte(text[at..at + 2], 16)
  }

  function TextAddress(text: seq<u8>, at: nat): Address
    requires at + ADDRESS_DIGITS <= |text|
  {
    seq(6, j requires 0 <= j < 6 => TextByte(text, at + 2 * j))
  }

  /** What the load routine makes of a string: as many addresses as there are twelve digits. */
  function TextTable(text: seq<u8>): (list: seq<Address>)
    ensures |list| == |text| / ADDRESS_DIGITS
  {
    seq(|text| / ADDRESS_DIGITS, i requires 0 <= i < |text| / ADDRESS_DIGITS => TextAddress(text, ADDRESS_DIGITS * i))
  }

  lemma LowerHexRoundTrip(n: u8)
    ensures StrtolByte(LowerHex2(n), 16) == n
  {
    var s := LowerHex2(n);
    var h, l := n / 16, n % 16;
    assert Digit(s[0]) == h && Digit(s[1]) == l;
    assert SkipPrefix(SkipSign(SkipSpace(s)), 16) == s;
    assert s[1..][0] == s[1] && s[1..][1..] == [];
    assert DigitsValue(s, 16, 0) == DigitsValue(s[1..], 16, h);
    assert DigitsValue(s[1..], 16, h) == DigitsValue(s[1..][1..], 16, h * 16 + l);
  }

  lemma {:induction false} HexAt(bytes: seq<u8>, j: nat)
    requires j < |bytes|
    ensures HexText(bytes)[2 * j..2 * j + 2] == LowerHex2(bytes[j])
    decreases |bytes|
  {
    var last := |bytes| - 1;
    var front := HexText(bytes[..last]);
    if j < last {
      HexAt(bytes[..last], j);
      assert HexText(bytes)[2 * j..2 * j + 2] == front[2 * j..2 * j + 2];
    }
  }

  lemma {:induction false} FlatAt(list: seq<Address>, i: nat, j: nat)
    requires i < |list| && j < 6
    ensures Flat(list)[6 * i + j] == list[i][j]
    decreases |list|
  {
    if i < |list| - 1 {
      FlatAt(list[..|list| - 1], i, j);
    }
  }

  lemma TableByte(list: seq<Address>, i: nat, j: nat)
    requires i < |list| && j < 6
    ensures TextByte(TableText(list), ADDRESS_DIGITS * i + 2 * j) == list[i][j]
  {
    FlatAt(list, i, j);
    HexAt(Flat(list), 6 * i + j);
    LowerHexRoundTrip(list[i][j]);
  }

  /** The string that is saved decodes to the table it was made from. */
  lemma TableRoundTrip(list: seq<Address>)
    ensures TextTable(TableText(list)) == list
  {
    forall i | 0 <= i < |list|
      ensures TextAddress(TableText(list), ADDRESS_DIGITS * i) == list[i]
    {
      forall j | 0 <= j < 6
        ensures TextByte(TableText(list), ADDRESS_DIGITS * i + 2 * j) == list[i][j]
      {
        TableByte(list, i, j);
      }
    }
  }

  /** Where each address stands, and how it is spelled: entry `i` at digit 12 * i, first byte first, each byte as
      two lower-case digits, the high one first. */
  lemma TextAt(list: seq<Address>, i: nat, j: nat)
    requires i < |list| && j < 6
    ensures var at, n := ADDRESS_DIGITS * i + 2 * j, list[i][j];
            && TableText(list)[at] == (if n / 16 < 10 then 48 + n / 16 else 87 + n / 16)
            && TableText(list)[at + 1] == (if n % 16 < 10 then 48 + n % 16 else 87 + n % 16)
  {
    FlatAt(list, i, j);
    HexAt(Flat(list), 6 * i + j);
    var at := ADDRESS_DIGITS * i + 2 * j;
    assert TableText(list)[at..at + 2][0] == TableText(list)[at];
    assert TableText(list)[at..at + 2][1] == TableText(list)[at + 1];
  }

  // ---------------------------------------------------------------- runs

  /** A device connects; or the speaker restarts, losing the table in memory, and loads it from flash; or it
      loads it again with the table still in memory. The flags say whether the flash calls succeed. */
  datatype Event = Connected(a: Address, saved: bool) | Restarted(loaded: bool) | Reloaded(loaded: bool)

  datatype Memory = Memory(list: seq<Address>, flash: Option<seq<u8>>)

  function Save(m: Memory): Memory {
    m.(flash := Some(TableText(m.list)))
  }

  function Load(m: Memory): Memory {
    if m.flash.Some? then m.(list := TextTable(m.flash.value)) else m
  }

  function Step(m: Memory, e: Event): Memory {
    match e
    case Connected(a, saved) => var c := m.(list := Connect(m.list, a)); if saved then Save(c) else c
    case Restarted(loaded) => var c := m.(list := []); if loaded then Load(c) else c
    case Reloaded(loaded) => if loaded then Load(m) else m
  }

  function Run(events: seq<Event>): Memory {
    if events == [] then Memory([], None) else Step(Run(events[..|events| - 1]), events[|events| - 1])
  }

  /** The connections the table in memory goes back to, and those the one in flash does. */
  datatype Histories = Histories(live: seq<Address>, saved: seq<Address>)

  function Remembered(events: seq<Event>): Histories {
    if events == [] then Histories([], [])
    else
      var h := Remembered(events[..|events| - 1]);
      match events[|events| - 1]
      case Connected(a, saved) => Histories(h.live + [a], if saved then h.live + [a] else h.saved)
      case Restarted(loaded) => h.(live := if loaded then h.saved else [])
      case Reloaded(loaded) => h.(live := if loaded && h.saved != [] then h.saved else h.live)
  }

  /** Whichever flash calls fail, memory and flash each hold the most recent distinct addresses of the
      connections they go back to: a failed save is made good by the next one, and a restart goes back to
      the last save. */
  lemma {:induction false} TableIsMostRecent(events: seq<Event>)
    ensures var m, h := Run(events), Remembered(events);
            && m.list == MostRecent(h.live)
            && m.flash == if h.saved == [] then None else Some(TableText(MostRecent(h.saved)))
    decreases |events|
  {
    if events != [] {
      var front := events[..|events| - 1];
      TableIsMostRecent(front);
      var h := Remembered(front);
      match events[|events| - 1]
      case Connected(a, saved) => ConnectIsMostRecent(h.live, a);
      case Restarted(loaded) => TableRoundTrip(MostRecent(h.saved));
      case Reloaded(loaded) => TableRoundTrip(MostRecent(h.saved));
    }
  }

  predicate Succeeds(e: Event) {
    match e
    case Connected(_, saved) => saved
    case Restarted(loaded) => loaded
    case Reloaded(loaded) => loaded
  }

  function History(events: seq<Event>): seq<Address> {
    if events == [] then []
    else
      var last := events[|events| - 1];
      History(events[..|events| - 1]) + if last.Connected? then [last.a] else []
  }

  lemma {:induction false} AllRemembered(events: seq<Event>)
    requires forall e | e in events :: Succeeds(e)
    ensures Remembered(events) == Histories(History(events), History(events))
    decreases |events|
  {
    if events != [] {
      var front, last := events[..|events| - 1], events[|events| - 1];
      assert last in events && forall e | e in front :: e in events;
      AllRemembered(front);
    }
  }

  /** As long as flash calls succeed, whatever restarts and reloads come in between, the table holds the most
      recent distinct addresses of the whole history, and flash holds the table. */
  lemma TableSurvivesRestarts(events: seq<Event>)
    requires forall e | e in events :: Succeeds(e)
    ensures var m := Run(events);
            && m.list == MostRecent(History(events))
            && m.flash == if History(events) == [] then None else Some(TableText(m.list))
  {
    TableIsMostRecent(events);
    AllRemembered(events);
  }
}
