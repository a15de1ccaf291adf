/** The smoothing of the battery level: main/system/BatteryMan.cpp (`_mode_of_array`, `mode_of_rbuffer`).

The mode is computed by scanning a sorted copy for its longest run, but the scan starts from the first
element of the unsorted window instead of the smallest. This file states what the scan returns, how far
that can be from the mode, and exactly when it is not a mode.
*/
module Battery {

  /** How often `v` occurs. */
  function Times(a: seq<int>, v: int): nat {
    multiset(a)[v]
  }

  predicate Sorted(a: seq<int>) {
    forall i, j | 0 <= i < j < |a| :: a[i] <= a[j]
  }

  // ---------------------------------------------------------------- what the scan returns

  /** The length the scan gives to the run of `v`: the occurrences of `v` in the rest of the sorted copy, and
      one more if `v` is both the starting value and the first of that rest. */
  function Run(first: int, rest: seq<int>, v: int): nat {
    Times(rest, v) + if rest != [] && v == first == rest[0] then 1 else 0
  }

  /** `r` is the smallest value with the longest run, or the starting value if no run is longer than 1. */
  ghost predicate ScanResult(first: int, rest: seq<int>, r: int, length: nat) {
    && (forall v :: Run(first, rest, v) <= length)
    && length >= 1
    && (length == 1 ==> r == first)
    && (length > 1 ==> Run(first, rest, r) == length)
    && (length > 1 ==> forall v | v < r :: Run(first, rest, v) < length)
  }

  /** The same while the run of `number` is still being counted. */
  ghost predicate Scanning(first: int, rest: seq<int>, number: int, r: int, length: nat) {
    && (forall v | v < number :: Run(first, rest, v) <= length)
    && (forall v | v > number :: Run(first, rest, v) == 0)
    && length >= 1
    && (length == 1 ==> r == first)
    && (length > 1 ==> r < number && Run(first, rest, r) == length)
    && (length > 1 ==> forall v | v < r :: Run(first, rest, v) < length)
  }

  lemma TimesSnoc(a: seq<int>, x: int, v: int)
    ensures Times(a + [x], v) == Times(a, v) + if v == x then 1 else 0
  {
  }

  lemma RunSnoc(first: int, rest: seq<int>, x: int, v: int)
    requires rest != []
    ensures Run(first, rest + [x], v) == Run(first, rest, v) + if v == x then 1 else 0
  {
    TimesSnoc(rest, x, v);
  }

  lemma RunOne(first: int, x: int, v: int)
    ensures Run(first, [x], v) == if v != x then 0 else if x == first then 2 else 1
  {
    TimesSnoc([], x, v);
    assert [] + [x] == [x];
  }

  /** One more equal element. */
  lemma ScanSame(first: int, rest: seq<int>, number: int, r: int, length: nat)
    requires rest != [] && Scanning(first, rest, number, r, length)
    ensures Scanning(first, rest + [number], number, r, length)
    ensures Run(first, rest + [number], number) == Run(first, rest, number) + 1
  {
    forall v
      ensures Run(first, rest + [number], v) == Run(first, rest, v) + if v == number then 1 else 0
    {
      RunSnoc(first, rest, number, v);
    }
  }

  /** A run has ended: keep it if it is longer than the longest so far. */
  lemma ScanEnd(first: int, rest: seq<int>, number: int, r: int, length: nat)
    requires Scanning(first, rest, number, r, length)
    ensures var longer := Run(first, rest, number) > length;
            ScanResult(first, rest, if longer then number else r, if longer then Run(first, rest, number) else length)
  {
  }

  lemma ScanNext(first: int, rest: seq<int>, number: int, next: int, r: int, length: nat)
    requires rest != [] && number < next && Scanning(first, rest, number, r, length)
    ensures var longer := Run(first, rest, number) > length;
            && Scanning(first, rest + [next], next, if longer then number else r,
                        if longer then Run(first, rest, number) else length)
            && Run(first, rest + [next], next) == 1
  {
    forall v
      ensures Run(first, rest + [next], v) == Run(first, rest, v) + if v == next then 1 else 0
    {
      RunSnoc(first, rest, next, v);
    }
  }

  /** The variables of the scan. */
  datatype Scan = Scan(number: int, count: nat, mode: int, countMode: nat)

  /** What the variables mean once `rest` has been scanned. */
  ghost predicate Scanned(first: int, rest: seq<int>, s: Scan) {
    if rest == [] then s == Scan(first, 1, first, 1)
    else
      && s.number == rest[|rest| - 1] && s.count == Run(first, rest, s.number)
      && Scanning(first, rest, s.number, s.mode, s.countMode)
  }

  /** The end of a run. */
  function Keep(s: Scan): Scan {
    if s.count > s.countMode then s.(countMode := s.count, mode := s.number) else s
  }

  /** The body of the scanning loop. */
  function ScanStep(s: Scan, x: int): Scan {
    if x == s.number then s.(count := s.count + 1) else Keep(s).(count := 1, number := x)
  }

  lemma ScanFirst(first: int, x: int)
    ensures Scanning(first, [x], x, first, 1)
    ensures Run(first, [x], x) == if x == first then 2 else 1
  {
    forall v
      ensures Run(first, [x], v) == if v != x then 0 else if x == first then 2 else 1
    {
      RunOne(first, x, v);
    }
  }

  lemma ScanStepKeeps(first: int, rest: seq<int>, s: Scan, x: int)
    requires Scanned(first, rest, s) && (rest != [] ==> rest[|rest| - 1] <= x)
    ensures Scanned(first, rest + [x], ScanStep(s, x))
  {
    if rest == [] {
      ScanFirst(first, x);
      assert rest + [x] == [x];
    } else if x == s.number {
      ScanSame(first, rest, x, s.mode, s.countMode);
    } else {
      ScanNext(first, rest, s.number, x, s.mode, s.countMode);
    }
  }

  lemma ScanNextElement(first: int, rest: seq<int>, k: nat, s: Scan)
    requires Sorted(rest) && k < |rest| && Scanned(first, rest[..k], s)
    ensures Scanned(first, rest[..k + 1], ScanStep(s, rest[k]))
  {
    assert rest[..k + 1] == rest[..k] + [rest[k]];
    ScanStepKeeps(first, rest[..k], s, rest[k]);
  }

  lemma ScanDone(first: int, rest: seq<int>, s: Scan)
    requires Scanned(first, rest, s)
    ensures ScanResult(first, rest, Keep(s).mode, Keep(s).countMode)
  {
    if rest != [] {
      ScanEnd(first, rest, s.number, s.mode, s.countMode);
    }
  }

  // ---------------------------------------------------------------- _mode_of_array

  lemma InsertSorted(c: seq<int>, k: nat, x: int)
    requires Sorted(c) && k <= |c|
    requires (forall j | 0 <= j < k :: c[j] <= x) && (k < |c| ==> x <= c[k])
    ensures Sorted(c[..k] + [x] + c[k..])
  {
    var d := c[..k] + [x] + c[k..];
    assert forall i | 0 <= i < k :: d[i] == c[i];
    assert forall i | k < i < |d| :: d[i] == c[i - 1];
  }

  method Insert(c: seq<int>, x: int) returns (d: seq<int>)
    requires Sorted(c)
    ensures Sorted(d) && multiset(d) == multiset(c) + multiset{x}
  {
    var k := 0;
    while k < |c| && c[k] <= x
      invariant 0 <= k <= |c| && forall j | 0 <= j < k :: c[j] <= x
    {
      k := k + 1;
    }
    assert c == c[..k] + c[k..];
    InsertSorted(c, k, x);
    d := c[..k] + [x] + c[k..];
  }

  /** `std::sort` */
  method Sort(a: seq<int>) returns (c: seq<int>)
    ensures Sorted(c) && multiset(c) == multiset(a)
  {
    c := [];
    for i := 0 to |a|
      invariant Sorted(c) && multiset(c) == multiset(a[..i])
    {
      c := Insert(c, a[i]);
      assert a[..i + 1] == a[..i] + [a[i]];
    }
    assert a[..|a|] == a;
  }

  /** `_mode_of_array`: what the scan returns, and how far that is from the smallest most frequent value. */
  method ModeOfArray(a: seq<int>) returns (mode: int)
    requires a != []
    ensures ScanReturns(a, mode)
    ensures mode in a && forall v :: Times(a, v) <= Times(a, mode) + 1
    ensures MostFrequent(a, mode) <==> !Misled(a)
    ensures a[0] == Least(a) ==> forall v | MostFrequent(a, v) :: mode <= v
  {
    var copy := Sort(a);
    SortedRest(a, copy);
    mode := ScanCopy(a[0], copy);
    AtMostOneBelow(a, mode);
    MostFrequentIff(a, mode);
    if a[0] == Least(a) {
      ExactWhenNewestIsLeast(a, mode);
    }
  }

  /** The scan over the sorted copy, from its second element on. */
  method ScanCopy(first: int, copy: seq<int>) returns (mode: int)
    requires copy != [] && Sorted(copy[1..])
    ensures exists length: nat :: ScanResult(first, copy[1..], mode, length)
  {
    var number, count, countMode := first, 1, 1;
    mode := number;
    var i := 1;
    while i < |copy|
      invariant 1 <= i <= |copy|
      invariant Scanned(first, copy[1..][..i - 1], Scan(number, count, mode, countMode))
    {
      ScanNextElement(first, copy[1..], i - 1, Scan(number, count, mode, countMode));
      if copy[i] == number {
        count := count + 1;
      } else {
        if count > countMode {
          countMode := count;
          mode := number;
        }
        count := 1;
        number := copy[i];
      }
      i := i + 1;
    }
    assert copy[1..][..i - 1] == copy[1..];
    ScanDone(first, copy[1..], Scan(number, count, mode, countMode));
    if count > countMode {
      countMode := count;
      mode := number;
    }
    assert ScanResult(first, copy[1..], mode, countMode);
  }

  // ---------------------------------------------------------------- runs against frequencies

  /** The smallest value of `a`, and what is left of the sorted copy without it. */
  ghost predicate IsRest(a: seq<int>, rest: seq<int>) {
    && a != []
    && multiset(a) == multiset(rest) + multiset{Least(a)}
  }

  function Least(a: seq<int>): (m: int)
    requires a != []
    ensures m in a && forall v | v in a :: m <= v
  {
    if |a| == 1 then a[0]
    else
      var m := Least(a[1..]);
      assert a == [a[0]] + a[1..];
      if a[0] <= m then a[0] else m
  }

  /** `r` is what the scan returns on the window `a`. */
  ghost predicate ScanReturns(a: seq<int>, r: int)
    requires a != []
  {
    exists rest, length: nat :: Sorted(rest) && IsRest(a, rest) && ScanResult(a[0], rest, r, length)
  }

  lemma InMultiset(a: seq<int>, v: int)
    ensures v in a <==> v in multiset(a)
  {
  }

  lemma SortedRest(a: seq<int>, copy: seq<int>)
    requires a != [] && Sorted(copy) && multiset(copy) == multiset(a)
    ensures |copy| == |a| && Sorted(copy[1..]) && IsRest(a, copy[1..])
  {
    assert |multiset(copy)| == |copy| && |multiset(a)| == |a|;
    InMultiset(copy, copy[0]);
    InMultiset(a, copy[0]);
    InMultiset(a, Least(a));
    InMultiset(copy, Least(a));
    var k :| 0 <= k < |copy| && copy[k] == Least(a);
    assert copy[0] == Least(a);
    assert copy == [copy[0]] + copy[1..];
  }

  /** No value occurs more often. */
  ghost predicate MostFrequent(a: seq<int>, r: int) {
    forall v :: Times(a, v) <= Times(a, r)
  }

  lemma TimesOfRest(a: seq<int>, rest: seq<int>, v: int)
    requires IsRest(a, rest)
    ensures Times(a, v) == Times(rest, v) + if v == Least(a) then 1 else 0
  {
  }

  lemma TimesAbsent(a: seq<int>, v: int)
    ensures Times(a, v) == 0 <==> v !in a
  {
    InMultiset(a, v);
  }

  /** The run of each value, in terms of how often it occurs in the window. */
  lemma RunLength(a: seq<int>, rest: seq<int>, v: int)
    requires IsRest(a, rest) && Sorted(rest)
    ensures Run(a[0], rest, v) == Times(a, v) - (if v == Least(a) then 1 else 0)
                                  + (if rest != [] && v == a[0] == rest[0] then 1 else 0)
  {
    TimesOfRest(a, rest, v);
  }

  lemma SameRuns(a: seq<int>, rest: seq<int>, other: seq<int>, v: int)
    requires IsRest(a, rest) && IsRest(a, other) && Sorted(rest) && Sorted(other)
    ensures Run(a[0], rest, v) == Run(a[0], other, v)
  {
    RunLength(a, rest, v);
    RunLength(a, other, v);
    RestHead(a, rest);
    RestHead(a, other);
    TimesOfRest(a, rest, v);
    TimesOfRest(a, other, v);
    TimesAbsent(rest, v);
    TimesAbsent(other, v);
  }

  lemma SameResult(first: int, rest: seq<int>, other: seq<int>, r: int, length: nat, r': int, length': nat)
    requires forall v :: Run(first, rest, v) == Run(first, other, v)
    requires ScanResult(first, rest, r, length) && ScanResult(first, other, r', length')
    ensures r == r'
  {
    assert Run(first, rest, r) <= length' && Run(first, other, r') <= length;
  }

  /** What the scan returns is determined by the window. */
  lemma ScanReturnsOneValue(a: seq<int>, r: int, s: int)
    requires a != [] && ScanReturns(a, r) && ScanReturns(a, s)
    ensures r == s
  {
    var rest, length: nat :| Sorted(rest) && IsRest(a, rest) && ScanResult(a[0], rest, r, length);
    var other, length': nat :| Sorted(other) && IsRest(a, other) && ScanResult(a[0], other, s, length');
    forall v
      ensures Run(a[0], rest, v) == Run(a[0], other, v)
    {
      SameRuns(a, rest, other, v);
    }
    SameResult(a[0], rest, other, r, length, s, length');
  }

  /** The returned value occurs at most once less often than the most frequent one. */
  lemma AtMostOneBelow(a: seq<int>, r: int)
    requires a != [] && ScanReturns(a, r)
    ensures r in a && forall v :: Times(a, v) <= Times(a, r) + 1
  {
    var rest, length: nat :| Sorted(rest) && IsRest(a, rest) && ScanResult(a[0], rest, r, length);
    TimesAbsent(a, r);
    TimesAbsent(a, a[0]);
    RunLength(a, rest, r);
    RunLength(a, rest, Least(a));
    forall v
      ensures Times(a, v) <= Times(a, r) + 1
    {
      RunLength(a, rest, v);
    }
  }

  lemma RestHead(a: seq<int>, rest: seq<int>)
    requires IsRest(a, rest) && Sorted(rest)
    ensures rest == [] ==> forall v :: Times(a, v) == if v == Least(a) then 1 else 0
    ensures rest != [] ==> (rest[0] == Least(a) <==> Times(a, Least(a)) >= 2)
    ensures rest != [] ==> rest[0] in a && forall v | v in a && v != Least(a) :: rest[0] <= v
  {
    forall v
      ensures Times(a, v) == Times(rest, v) + if v == Least(a) then 1 else 0
    {
      TimesOfRest(a, rest, v);
    }
    if rest != [] {
      InMultiset(rest, rest[0]);
      InMultiset(a, rest[0]);
      TimesAbsent(rest, Least(a));
      if Least(a) in rest {
        var k :| 0 <= k < |rest| && rest[k] == Least(a);
        assert rest[0] == Least(a);
      }
      forall v | v in a && v != Least(a)
        ensures rest[0] <= v
      {
        TimesAbsent(a, v);
        TimesAbsent(rest, v);
        var k :| 0 <= k < |rest| && rest[k] == v;
      }
    }
  }

  /** When the newest sample is the least of the window, the scan returns the smallest most frequent value. */
  lemma ExactWhenNewestIsLeast(a: seq<int>, r: int)
    requires a != [] && ScanReturns(a, r) && a[0] == Least(a)
    ensures MostFrequent(a, r)
    ensures forall v | MostFrequent(a, v) :: r <= v
  {
    var rest, length: nat :| Sorted(rest) && IsRest(a, rest) && ScanResult(a[0], rest, r, length);
    RestHead(a, rest);
    TimesAbsent(a, a[0]);
    RunLength(a, rest, r);
    RunLength(a, rest, Least(a));
    forall v
      ensures Times(a, v) <= Times(a, r)
      ensures v < r ==> Times(a, v) < Times(a, r)
    {
      RunLength(a, rest, v);
      TimesAbsent(a, v);
    }
    forall v | MostFrequent(a, v)
      ensures r <= v
    {
      assert Times(a, r) <= Times(a, v);
    }
  }

  /** Every occurrence but the least value's is counted; the least value is one short unless it is the newest
      sample; and the newest sample is one over if it directly follows a single least value. */
  ghost predicate Misled(a: seq<int>)
    requires a != []
  {
    var newest, least := a[0], Least(a);
    && newest != least
    && (|| (Times(a, least) == 2 && forall v | v != least :: Times(a, v) <= 1)
        || (&& Times(a, least) == 1
            && (forall v | v in a && v != least :: newest <= v)
            && (exists v :: Times(a, v) == Times(a, newest) + 1 && MostFrequent(a, v))))
  }

  lemma MisledByShortCount(a: seq<int>, rest: seq<int>, r: int, length: nat)
    requires IsRest(a, rest) && Sorted(rest) && ScanResult(a[0], rest, r, length)
    requires a[0] != Least(a) && Times(a, Least(a)) >= 2
    ensures MostFrequent(a, r) <==> !(Times(a, Least(a)) == 2 && forall v | v != Least(a) :: Times(a, v) <= 1)
  {
    var least := Least(a);
    RestHead(a, rest);
    TimesAbsent(a, a[0]);
    forall v
      ensures Run(a[0], rest, v) == Times(a, v) - if v == least then 1 else 0
    {
      RunLength(a, rest, v);
    }
    assert Run(a[0], rest, least) <= length;
    if Times(a, least) == 2 && forall v | v != least :: Times(a, v) <= 1 {
      assert length == 1 && r == a[0];
      assert Times(a, least) > Times(a, r);
    } else {
      assert length > 1;
      forall v
        ensures Times(a, v) <= Times(a, r)
      {
        assert Run(a[0], rest, v) <= length;
      }
    }
  }

  lemma OverCountedRuns(a: seq<int>, rest: seq<int>)
    requires IsRest(a, rest) && Sorted(rest)
    requires a[0] != Least(a) && Times(a, Least(a)) == 1
    requires forall v | v in a && v != Least(a) :: a[0] <= v
    ensures forall v ::
              Run(a[0], rest, v) == Times(a, v) - (if v == Least(a) then 1 else 0) + (if v == a[0] then 1 else 0)
  {
    RestHead(a, rest);
    TimesAbsent(a, a[0]);
    TimesAbsent(rest, a[0]);
    TimesOfRest(a, rest, a[0]);
    assert rest != [] && rest[0] == a[0];
    forall v
      ensures Run(a[0], rest, v) == Times(a, v) - (if v == Least(a) then 1 else 0) + (if v == a[0] then 1 else 0)
    {
      RunLength(a, rest, v);
    }
  }

  /** A newest sample that directly follows a single least value counts one too many. */
  lemma OverCounted(a: seq<int>, rest: seq<int>, r: int, length: nat)
    requires IsRest(a, rest) && Sorted(rest) && ScanResult(a[0], rest, r, length)
    requires a[0] != Least(a) && Times(a, Least(a)) == 1
    requires forall v | v in a && v != Least(a) :: a[0] <= v
    ensures MostFrequent(a, r) <==> !exists v :: Times(a, v) == Times(a, a[0]) + 1 && MostFrequent(a, v)
  {
    var newest, least := a[0], Least(a);
    OverCountedRuns(a, rest);
    assert Run(newest, rest, newest) <= length;
    TimesAbsent(a, r);
    TimesAbsent(a, newest);
    forall v | r == newest && Times(a, v) > Times(a, newest)
      ensures Times(a, v) == Times(a, newest) + 1 && MostFrequent(a, v)
    {
      assert Run(newest, rest, v) <= length == Run(newest, rest, newest);
      forall w
        ensures Times(a, w) <= Times(a, v)
      {
        assert Run(newest, rest, w) <= length;
      }
    }
    if exists v :: Times(a, v) == Times(a, newest) + 1 && MostFrequent(a, v) {
      var v :| Times(a, v) == Times(a, newest) + 1 && MostFrequent(a, v);
      assert Times(a, r) <= Times(a, v);
      assert r == newest;
    } else if r != newest {
      forall v
        ensures Times(a, v) <= Times(a, r)
      {
        assert Run(newest, rest, v) <= length;
      }
    }
  }

  lemma NotOverCounted(a: seq<int>, rest: seq<int>, r: int, length: nat)
    requires IsRest(a, rest) && Sorted(rest) && ScanResult(a[0], rest, r, length)
    requires a[0] != Least(a) && Times(a, Least(a)) == 1
    requires exists v :: v in a && v != Least(a) && v < a[0]
    ensures MostFrequent(a, r)
  {
    RestHead(a, rest);
    TimesAbsent(a, a[0]);
    forall v
      ensures Run(a[0], rest, v) == Times(a, v) - if v == Least(a) then 1 else 0
    {
      RunLength(a, rest, v);
    }
    forall v
      ensures Times(a, v) <= Times(a, r)
    {
      assert Run(a[0], rest, v) <= length;
    }
  }

  /** The exact condition: the returned value is a most frequent one if and only if the window does not
      mislead the scan. */
  lemma MostFrequentIff(a: seq<int>, r: int)
    requires a != [] && ScanReturns(a, r)
    ensures MostFrequent(a, r) <==> !Misled(a)
  {
    var rest, length: nat :| Sorted(rest) && IsRest(a, rest) && ScanResult(a[0], rest, r, length);
    TimesAbsent(a, Least(a));
    if a[0] == Least(a) {
      ExactWhenNewestIsLeast(a, r);
    } else if Times(a, Least(a)) >= 2 {
      MisledByShortCount(a, rest, r, length);
    } else if forall v | v in a && v != Least(a) :: a[0] <= v {
      OverCounted(a, rest, r, length);
    } else {
      NotOverCounted(a, rest, r, length);
    }
  }

  lemma LeastIs(a: seq<int>, m: int)
    requires m in a && forall v | v in a :: m <= v
    ensures Least(a) == m
  {
  }

  lemma ExampleHead(v: int)
    ensures Times([30, 10, 10], v) == if v == 10 then 2 else if v == 30 then 1 else 0
  {
    TimesSnoc([30, 10], 10, v);
    assert [30, 10] + [10] == [30, 10, 10];
  }

  lemma ExampleMiddle(v: int)
    ensures Times([30, 10, 10, 20, 40], v) == if v == 10 then 2 else if v == 30 || v == 20 || v == 40 then 1 else 0
  {
    ExampleHead(v);
    TimesSnoc([30, 10, 10], 20, v);
    TimesSnoc([30, 10, 10, 20], 40, v);
    assert [30, 10, 10] + [20] == [30, 10, 10, 20];
    assert [30, 10, 10, 20] + [40] == [30, 10, 10, 20, 40];
  }

  lemma ExampleTimes(v: int)
    ensures Times([30, 10, 10, 20, 40, 50, 60], v) ==
            if v == 10 then 2 else if v == 20 || v == 30 || v == 40 || v == 50 || v == 60 then 1 else 0
  {
    ExampleMiddle(v);
    TimesSnoc([30, 10, 10, 20, 40], 50, v);
    TimesSnoc([30, 10, 10, 20, 40, 50], 60, v);
    assert [30, 10, 10, 20, 40] + [50] == [30, 10, 10, 20, 40, 50];
    assert [30, 10, 10, 20, 40, 50] + [60] == [30, 10, 10, 20, 40, 50, 60];
  }

  /** A misled window of seven samples: 10 occurs twice and every other value once, but the scan returns the
      newest sample. */
  lemma MisledExample()
    ensures Misled([30, 10, 10, 20, 40, 50, 60])
  {
    var a := [30, 10, 10, 20, 40, 50, 60];
    assert a[1] == 10;
    LeastIs(a, 10);
    forall v
      ensures Times(a, v) == if v == 10 then 2 else if v == 20 || v == 30 || v == 40 || v == 50 || v == 60 then 1 else 0
    {
      ExampleTimes(v);
    }
  }

  // ---------------------------------------------------------------- the window

  /** `SOC_BUFFER_LEN` */
  const WINDOW: nat := 7

  /** The last seven samples, newest first, with zeros where there have been fewer. */
  function Latest(samples: seq<int>): (w: seq<int>)
    ensures |w| == WINDOW
  {
    seq(WINDOW, i requires 0 <= i < WINDOW => if i < |samples| then samples[|samples| - 1 - i] else 0)
  }

  /** `std::rotate` by all but one: everything moves one place on, the last element comes first. */
  function Rotated(w: seq<int>): seq<int>
    requires w != []
  {
    [w[|w| - 1]] + w[..|w| - 1]
  }

  /** Writing a sample over the front of the rotated buffer makes it the latest window. */
  lemma NextWindow(samples: seq<int>, sample: int)
    ensures Rotated(Latest(samples))[0 := sample] == Latest(samples + [sample])
  {
    var next := Latest(samples + [sample]);
    forall i | 0 <= i < WINDOW
      ensures Rotated(Latest(samples))[0 := sample][i] == next[i]
    {
      if i > 0 {
        assert Rotated(Latest(samples))[i] == Latest(samples)[i - 1];
      }
    }
  }

  class BatteryMan {
    const socBuffer: array<int>
    var battSoc: int
    /** Every sample smoothed so far. */
    ghost var samples: seq<int>

    ghost predicate Valid()
      reads this, socBuffer
    {
      socBuffer.Length == WINDOW && socBuffer[..] == Rotated(Latest(samples))
    }

    constructor ()
      ensures Valid() && fresh(socBuffer)
      ensures samples == []
    {
      socBuffer := new int[WINDOW](_ => 0);
      battSoc, samples := 0, [];
      new;
      assert socBuffer[..] == Rotated(Latest([]));
    }

    /** `mode_of_rbuffer`, on the sample `measure_soc` has left in `m_batt_soc`. Until seven non-zero samples
        have been seen the sample itself is returned. */
    method ModeOfRbuffer() returns (soc: int)
      requires Valid()
      modifies this, socBuffer
      ensures Valid() && samples == old(samples) + [old(battSoc)]
      ensures var window := Latest(samples);
              && window[0] == old(battSoc) && soc == battSoc
              && if 0 in window then soc == old(battSoc) else ScanReturns(window, soc)
    {
      NextWindow(samples, battSoc);
      samples := samples + [battSoc];
      socBuffer[0] := battSoc;
      ghost var window := socBuffer[..];
      assert window == Latest(samples);
      var mode := ModeOfArray(socBuffer[..]);
      Rotate();
      var full := IsFull();
      RotationKeepsElements(window);
      if full {
        battSoc := mode;
      }
      soc := battSoc;
    }

    method Rotate()
      requires socBuffer.Length == WINDOW
      modifies socBuffer
      ensures socBuffer[..] == Rotated(old(socBuffer[..]))
    {
      var last := socBuffer[WINDOW - 1];
      var i := WINDOW - 1;
      while i > 0
        invariant 0 <= i < WINDOW
        invariant forall k | 0 <= k <= i :: socBuffer[k] == old(socBuffer[k])
        invariant forall k | i < k < WINDOW :: socBuffer[k] == old(socBuffer[k - 1])
      {
        socBuffer[i] := socBuffer[i - 1];
        i := i - 1;
      }
      socBuffer[0] := last;
    }

    /** `!std::count(..., 0)` */
    method IsFull() returns (full: bool)
      ensures full == (0 !in socBuffer[..])
    {
      full := true;
      for i := 0 to socBuffer.Length
        invariant full == (0 !in socBuffer[..i])
      {
        assert socBuffer[..i + 1] == socBuffer[..i] + [socBuffer[i]];
        if socBuffer[i] == 0 {
          full := false;
        }
      }
      assert socBuffer[..socBuffer.Length] == socBuffer[..];
    }
  }

  lemma RotationKeepsElements(w: seq<int>)
    requires w != []
    ensures 0 in Rotated(w) <==> 0 in w
  {
    assert w == w[..|w| - 1] + [w[|w| - 1]];
  }
}
