/** Slots in time: the calendar-day groups, the distances derived from them, and the later slots an EXaHM
    exam with a long teardown still keeps its rooms in. Calendar days come from a key per instant. */
module SlotDays {
  import opened Seqs
  import opened ExamPlanProblem

  function Key(slots: seq<PlanSlot>, dayKey: int -> int, s: int): int
    requires 0 <= s < |slots|
  {
    dayKey(slots[s].start)
  }

  // ----- day groups -----

  /** The slots of one day among the first n, in index order. */
  function OnDay(slots: seq<PlanSlot>, dayKey: int -> int, k: int, n: nat): (r: seq<int>)
    requires n <= |slots|
    ensures forall i :: 0 <= i < |r| ==> 0 <= r[i] < n
  {
    if n == 0 then []
    else OnDay(slots, dayKey, k, n - 1) + (if Key(slots, dayKey, n - 1) == k then [n - 1] else [])
  }

  ghost predicate Distinct(list: seq<int>) { forall i, j :: 0 <= i < j < |list| ==> list[i] != list[j] }

  lemma {:induction false} OnDayExact(slots: seq<PlanSlot>, dayKey: int -> int, k: int, n: nat)
    requires n <= |slots|
    ensures Distinct(OnDay(slots, dayKey, k, n))
    ensures forall s :: s in OnDay(slots, dayKey, k, n) <==> 0 <= s < n && Key(slots, dayKey, s) == k
  {
    if n > 0 { OnDayExact(slots, dayKey, k, n - 1); }
  }

  predicate Within(list: seq<int>, n: nat) { forall i :: 0 <= i < |list| ==> 0 <= list[i] < n }

  ghost predicate ByStart(slots: seq<PlanSlot>, list: seq<int>) {
    Within(list, |slots|) && forall i, j :: 0 <= i < j < |list| ==> slots[list[i]].start <= slots[list[j]].start
  }

  /** Puts slot s behind the slots that start no later. */
  function InsertByStart(slots: seq<PlanSlot>, list: seq<int>, s: int): (r: seq<int>)
    requires Within(list, |slots|) && 0 <= s < |slots|
    ensures Within(r, |slots|)
  {
    if list == [] then [s]
    else
      var n := |list| - 1;
      if slots[list[n]].start <= slots[s].start then list + [s] else InsertByStart(slots, list[..n], s) + [list[n]]
  }

  lemma {:induction false} InsertElements(slots: seq<PlanSlot>, list: seq<int>, s: int)
    requires Within(list, |slots|) && 0 <= s < |slots|
    ensures forall x :: x in InsertByStart(slots, list, s) <==> x == s || x in list
  {
    if list != [] {
      var n := |list| - 1;
      assert list == list[..n] + [list[n]];
      InsertElements(slots, list[..n], s);
    }
  }

  lemma {:induction false} InsertDistinct(slots: seq<PlanSlot>, list: seq<int>, s: int)
    requires Within(list, |slots|) && 0 <= s < |slots| && Distinct(list) && s !in list
    ensures Distinct(InsertByStart(slots, list, s))
  {
    if list != [] {
      var n := |list| - 1;
      var front := list[..n];
      InsertElements(slots, front, s);
      InsertDistinct(slots, front, s);
      var r := InsertByStart(slots, front, s);
      forall i | 0 <= i < |r| ensures r[i] != list[n] {
        assert r[i] in r;
      }
    }
  }

  lemma {:induction false} InsertSorted(slots: seq<PlanSlot>, list: seq<int>, s: int)
    requires ByStart(slots, list) && 0 <= s < |slots|
    ensures ByStart(slots, InsertByStart(slots, list, s))
  {
    if list != [] {
      var n := |list| - 1;
      var front := list[..n];
      InsertSorted(slots, front, s);
      InsertElements(slots, front, s);
      var r := InsertByStart(slots, front, s);
      if slots[s].start < slots[list[n]].start {
        forall i | 0 <= i < |r| ensures slots[r[i]].start <= slots[list[n]].start {
          assert r[i] in r;
        }
      }
    }
  }

  /** The chronological order of a day's slots. */
  function SortByStart(slots: seq<PlanSlot>, list: seq<int>): (r: seq<int>)
    requires Within(list, |slots|)
    ensures Within(r, |slots|)
  {
    if list == [] then [] else InsertByStart(slots, SortByStart(slots, list[..|list| - 1]), list[|list| - 1])
  }

  lemma {:induction false} SortExact(slots: seq<PlanSlot>, list: seq<int>)
    requires Within(list, |slots|)
    ensures ByStart(slots, SortByStart(slots, list))
    ensures forall x :: x in SortByStart(slots, list) <==> x in list
    ensures Distinct(list) ==> Distinct(SortByStart(slots, list))
  {
    if list != [] {
      var n := |list| - 1;
      assert list == list[..n] + [list[n]];
      SortExact(slots, list[..n]);
      var r := SortByStart(slots, list[..n]);
      InsertElements(slots, r, list[n]);
      InsertSorted(slots, r, list[n]);
      if Distinct(list) {
        assert list[n] !in list[..n];
        InsertDistinct(slots, r, list[n]);
      }
    }
  }

  function DayList(slots: seq<PlanSlot>, dayKey: int -> int, k: int): (r: seq<int>)
    ensures Within(r, |slots|)
  {
    SortByStart(slots, OnDay(slots, dayKey, k, |slots|))
  }

  lemma DayListExact(slots: seq<PlanSlot>, dayKey: int -> int, k: int)
    ensures ByStart(slots, DayList(slots, dayKey, k)) && Distinct(DayList(slots, dayKey, k))
    ensures forall s :: s in DayList(slots, dayKey, k) <==> 0 <= s < |slots| && Key(slots, dayKey, s) == k
  {
    OnDayExact(slots, dayKey, k, |slots|);
    SortExact(slots, OnDay(slots, dayKey, k, |slots|));
  }

  /** Days ascend, each holds exactly its slots in chronological order, and every slot knows its day and
      its position in it. */
  ghost predicate DaysExact(slots: seq<PlanSlot>, dayKey: int -> int, days: seq<seq<int>>, dayOf: seq<int>, pos: seq<int>) {
    && |dayOf| == |pos| == |slots|
    && (forall s :: 0 <= s < |slots| ==> 0 <= dayOf[s] < |days| && 0 <= pos[s] < |days[dayOf[s]]| && days[dayOf[s]][pos[s]] == s)
    && (forall d, i :: 0 <= d < |days| && 0 <= i < |days[d]| ==> 0 <= days[d][i] < |slots| && dayOf[days[d][i]] == d && pos[days[d][i]] == i)
    && (forall s, t :: 0 <= s < |slots| && 0 <= t < |slots| ==> (dayOf[s] < dayOf[t] <==> Key(slots, dayKey, s) < Key(slots, dayKey, t)))
    && (forall d :: 0 <= d < |days| ==> ByStart(slots, days[d]))
  }

  ghost predicate DayGroup(slots: seq<PlanSlot>, dayKey: int -> int, n: nat, byDay: map<int, seq<int>>, k: int)
    requires n <= |slots|
  {
    OnDay(slots, dayKey, k, n) == if k in byDay then byDay[k] else []
  }

  /** The days found among the first n slots. */
  ghost predicate DaysUpTo(slots: seq<PlanSlot>, dayKey: int -> int, n: nat, byDay: map<int, seq<int>>, keys: seq<int>)
    requires n <= |slots|
  {
    && (forall k :: k in keys <==> k in byDay)
    && (forall k {:trigger DayGroup(slots, dayKey, n, byDay, k)} :: DayGroup(slots, dayKey, n, byDay, k))
  }

  function AddSlot(byDay: map<int, seq<int>>, k: int, s: int): map<int, seq<int>> {
    byDay[k := (if k in byDay then byDay[k] else []) + [s]]
  }

  lemma DayGroupStep(slots: seq<PlanSlot>, dayKey: int -> int, n: nat, byDay: map<int, seq<int>>, q: int)
    requires n < |slots| && DayGroup(slots, dayKey, n, byDay, q)
    ensures DayGroup(slots, dayKey, n + 1, AddSlot(byDay, Key(slots, dayKey, n), n), q)
  {}

  lemma DaysStep(slots: seq<PlanSlot>, dayKey: int -> int, n: nat, byDay: map<int, seq<int>>, keys: seq<int>)
    requires n < |slots| && DaysUpTo(slots, dayKey, n, byDay, keys)
    ensures var k := Key(slots, dayKey, n);
            DaysUpTo(slots, dayKey, n + 1, AddSlot(byDay, k, n), if k in byDay then keys else keys + [k])
  {
    var m, byDay' := n + 1, AddSlot(byDay, Key(slots, dayKey, n), n);
    forall q ensures DayGroup(slots, dayKey, m, byDay', q) {
      assert DayGroup(slots, dayKey, n, byDay, q);
      DayGroupStep(slots, dayKey, n, byDay, q);
    }
  }

  /** Groups the slots by day key. */
  method CollectDays(slots: seq<PlanSlot>, dayKey: int -> int) returns (byDay: map<int, seq<int>>, keys: seq<int>)
    ensures DaysUpTo(slots, dayKey, |slots|, byDay, keys)
  {
    byDay, keys := map[], [];
    for i := 0 to |slots|
      invariant DaysUpTo(slots, dayKey, i, byDay, keys)
    {
      var k := dayKey(slots[i].start);
      DaysStep(slots, dayKey, i, byDay, keys);
      if k !in byDay { keys := keys + [k]; }
      byDay := AddSlot(byDay, k, i);
    }
  }

  /** Writes day and position of the slots of one day. */
  method NumberDay(list: seq<int>, d: int, dayOf: seq<int>, pos: seq<int>) returns (dayOf': seq<int>, pos': seq<int>)
    requires Distinct(list) && |dayOf| == |pos| && Within(list, |dayOf|)
    ensures |dayOf'| == |pos'| == |dayOf|
    ensures forall i :: 0 <= i < |list| ==> dayOf'[list[i]] == d && pos'[list[i]] == i
    ensures forall s :: 0 <= s < |dayOf| && s !in list ==> dayOf'[s] == dayOf[s] && pos'[s] == pos[s]
  {
    dayOf', pos' := dayOf, pos;
    for i := 0 to |list|
      invariant |dayOf'| == |pos'| == |dayOf|
      invariant forall j :: 0 <= j < i ==> dayOf'[list[j]] == d && pos'[list[j]] == j
      invariant forall s :: 0 <= s < |dayOf| && s !in list ==> dayOf'[s] == dayOf[s] && pos'[s] == pos[s]
    {
      var s := list[i];
      assert s in list;
      dayOf', pos' := dayOf'[s := d], pos'[s := i];
    }
  }

  /** Day d is complete. */
  ghost predicate Numbered(slots: seq<PlanSlot>, dayKey: int -> int, k: int, day: seq<int>, d: int, dayOf: seq<int>, pos: seq<int>) {
    && |dayOf| == |pos| == |slots| && Within(day, |slots|) && day == DayList(slots, dayKey, k)
    && forall i :: 0 <= i < |day| ==> dayOf[day[i]] == d && pos[day[i]] == i
  }

  ghost predicate NumberedUpTo(slots: seq<PlanSlot>, dayKey: int -> int, keys: seq<int>, n: nat, days: seq<seq<int>>, dayOf: seq<int>, pos: seq<int>)
    requires n <= |keys|
  {
    && |days| == n && |dayOf| == |pos| == |slots|
    && forall d {:trigger Numbered(slots, dayKey, keys[d], days[d], d, dayOf, pos)} :: 0 <= d < n ==> Numbered(slots, dayKey, keys[d], days[d], d, dayOf, pos)
  }

  lemma OtherDayKept(slots: seq<PlanSlot>, dayKey: int -> int, k: int, day: seq<int>, d: int, other: int,
                     dayOf0: seq<int>, pos0: seq<int>, dayOf: seq<int>, pos: seq<int>)
    requires Numbered(slots, dayKey, k, day, d, dayOf0, pos0) && k != other && |dayOf| == |pos| == |slots|
    requires forall s :: 0 <= s < |slots| && s !in DayList(slots, dayKey, other) ==> dayOf[s] == dayOf0[s] && pos[s] == pos0[s]
    ensures Numbered(slots, dayKey, k, day, d, dayOf, pos)
  {
    DayListExact(slots, dayKey, k);
    DayListExact(slots, dayKey, other);
    forall i | 0 <= i < |day| ensures dayOf[day[i]] == d && pos[day[i]] == i {
      var s := day[i];
      assert s in day;
    }
  }

  lemma NumberedSlot(slots: seq<PlanSlot>, dayKey: int -> int, keys: seq<int>, days: seq<seq<int>>, dayOf: seq<int>, pos: seq<int>, s: int, d: int)
    requires |days| == |keys| && 0 <= d < |keys| && 0 <= s < |slots| && keys[d] == Key(slots, dayKey, s)
    requires Numbered(slots, dayKey, keys[d], days[d], d, dayOf, pos)
    ensures dayOf[s] == d && 0 <= pos[s] < |days[d]| && days[d][pos[s]] == s
  {
    DayListExact(slots, dayKey, keys[d]);
    assert s in days[d];
    var i :| 0 <= i < |days[d]| && days[d][i] == s;
  }

  lemma NumberedStep(slots: seq<PlanSlot>, dayKey: int -> int, keys: seq<int>, n: nat, days: seq<seq<int>>, dayOf0: seq<int>, pos0: seq<int>,
                     dayOf: seq<int>, pos: seq<int>)
    requires Ascending(keys) && n < |keys| && NumberedUpTo(slots, dayKey, keys, n, days, dayOf0, pos0)
    requires Numbered(slots, dayKey, keys[n], DayList(slots, dayKey, keys[n]), n, dayOf, pos)
    requires forall s :: 0 <= s < |slots| && s !in DayList(slots, dayKey, keys[n]) ==> dayOf[s] == dayOf0[s] && pos[s] == pos0[s]
    ensures NumberedUpTo(slots, dayKey, keys, n + 1, days + [DayList(slots, dayKey, keys[n])], dayOf, pos)
  {
    var days' := days + [DayList(slots, dayKey, keys[n])];
    forall d | 0 <= d < n + 1 ensures Numbered(slots, dayKey, keys[d], days'[d], d, dayOf, pos) {
      if d < n {
        assert Numbered(slots, dayKey, keys[d], days[d], d, dayOf0, pos0);
        OtherDayKept(slots, dayKey, keys[d], days[d], d, keys[n], dayOf0, pos0, dayOf, pos);
      }
    }
  }

  method GroupDays(slots: seq<PlanSlot>, dayKey: int -> int) returns (days: seq<seq<int>>, dayOf: seq<int>, pos: seq<int>)
    ensures DaysExact(slots, dayKey, days, dayOf, pos)
  {
    var byDay, found := CollectDays(slots, dayKey);
    var keys := SortKeys(found);
    days, dayOf, pos := [], seq(|slots|, _ => 0), seq(|slots|, _ => 0);
    for d := 0 to |keys|
      invariant NumberedUpTo(slots, dayKey, keys, d, days, dayOf, pos)
    {
      var k := keys[d];
      assert k in keys && DayGroup(slots, dayKey, |slots|, byDay, k);
      DayListExact(slots, dayKey, k);
      var list := SortByStart(slots, byDay[k]);
      ghost var dayOf0, pos0 := dayOf, pos;
      dayOf, pos := NumberDay(list, d, dayOf, pos);
      NumberedStep(slots, dayKey, keys, d, days, dayOf0, pos0, dayOf, pos);
      days := days + [list];
    }
    forall s | 0 <= s < |slots| ensures Key(slots, dayKey, s) in keys {
      KeyFound(slots, dayKey, byDay, found, s);
    }
    AllNumbered(slots, dayKey, keys, days, dayOf, pos);
  }

  lemma KeyFound(slots: seq<PlanSlot>, dayKey: int -> int, byDay: map<int, seq<int>>, keys: seq<int>, s: int)
    requires 0 <= s < |slots| && DaysUpTo(slots, dayKey, |slots|, byDay, keys)
    ensures Key(slots, dayKey, s) in keys
  {
    var k := Key(slots, dayKey, s);
    OnDayExact(slots, dayKey, k, |slots|);
    assert DayGroup(slots, dayKey, |slots|, byDay, k);
    assert s in OnDay(slots, dayKey, k, |slots|);
  }

  lemma DayFound(slots: seq<PlanSlot>, dayKey: int -> int, keys: seq<int>, days: seq<seq<int>>, dayOf: seq<int>, pos: seq<int>, s: int)
    requires NumberedUpTo(slots, dayKey, keys, |keys|, days, dayOf, pos) && 0 <= s < |slots| && Key(slots, dayKey, s) in keys
    ensures 0 <= dayOf[s] < |days| && keys[dayOf[s]] == Key(slots, dayKey, s)
    ensures 0 <= pos[s] < |days[dayOf[s]]| && days[dayOf[s]][pos[s]] == s
  {
    var d :| 0 <= d < |keys| && keys[d] == Key(slots, dayKey, s);
    NumberedSlot(slots, dayKey, keys, days, dayOf, pos, s, d);
  }

  lemma DayInOrder(slots: seq<PlanSlot>, dayKey: int -> int, keys: seq<int>, days: seq<seq<int>>, dayOf: seq<int>, pos: seq<int>, d: int)
    requires NumberedUpTo(slots, dayKey, keys, |keys|, days, dayOf, pos) && 0 <= d < |keys|
    ensures ByStart(slots, days[d]) && forall i :: 0 <= i < |days[d]| ==> dayOf[days[d][i]] == d && pos[days[d][i]] == i
  {
    assert Numbered(slots, dayKey, keys[d], days[d], d, dayOf, pos);
    DayListExact(slots, dayKey, keys[d]);
  }

  lemma AllNumbered(slots: seq<PlanSlot>, dayKey: int -> int, keys: seq<int>, days: seq<seq<int>>, dayOf: seq<int>, pos: seq<int>)
    requires Ascending(keys) && NumberedUpTo(slots, dayKey, keys, |keys|, days, dayOf, pos)
    requires forall s :: 0 <= s < |slots| ==> Key(slots, dayKey, s) in keys
    ensures DaysExact(slots, dayKey, days, dayOf, pos)
  {
    forall s | 0 <= s < |slots|
      ensures 0 <= dayOf[s] < |days| && keys[dayOf[s]] == Key(slots, dayKey, s) && 0 <= pos[s] < |days[dayOf[s]]| && days[dayOf[s]][pos[s]] == s
    {
      DayFound(slots, dayKey, keys, days, dayOf, pos, s);
    }
    forall d | 0 <= d < |days|
      ensures ByStart(slots, days[d]) && forall i :: 0 <= i < |days[d]| ==> dayOf[days[d][i]] == d && pos[days[d][i]] == i
    {
      DayInOrder(slots, dayKey, keys, days, dayOf, pos, d);
    }
  }

  // ----- distances -----

  /** The weights of closeness and farness; decay(gap) is the continuous falloff at a gap in minutes, used
      when falloff is on. */
  datatype Distances = Distances(adjacent: real, sameDay: real, dayFactor: real, attract: real, falloff: real, decay: int -> real)

  function Apart(a: int, b: int): nat { if a < b then b - a else a - b }

  /** What a student's pair in slots a and b costs: by neighbourhood within a day, by hours across days. */
  function Closeness(d: Distances, slots: seq<PlanSlot>, dayOf: seq<int>, pos: seq<int>, a: int, b: int): real
    requires |dayOf| == |pos| == |slots| && 0 <= a < |slots| && 0 <= b < |slots|
  {
    var gap := Apart(slots[a].start, slots[b].start);
    if dayOf[a] == dayOf[b] then
      if d.falloff > 0.0 then d.sameDay + (d.adjacent - d.sameDay) * d.decay(gap)
      else if Apart(pos[a], pos[b]) == 1 then d.adjacent else d.sameDay
    else if gap < 60 then d.dayFactor * 24.0
    else d.dayFactor * 24.0 / (gap as real / 60.0)
  }

  /** Whole days between two instants, rounded half up, at least one. */
  function DaysApart(gap: nat): nat { if gap < 2160 then 1 else (gap + 720) / 1440 }

  /** What pulls two attracted units together: 0 in the same slot, more the farther apart. */
  function Farness(d: Distances, slots: seq<PlanSlot>, dayOf: seq<int>, pos: seq<int>, a: int, b: int): real
    requires |dayOf| == |pos| == |slots| && 0 <= a < |slots| && 0 <= b < |slots|
  {
    var gap := Apart(slots[a].start, slots[b].start);
    if a == b then 0.0
    else if dayOf[a] == dayOf[b] then
      d.attract * (if d.falloff > 0.0 then gap as real / 60.0 else Apart(pos[a], pos[b]) as real)
    else d.attract * (DaysApart(gap) + 5) as real
  }

  lemma FarnessSymmetric(d: Distances, slots: seq<PlanSlot>, dayOf: seq<int>, pos: seq<int>, a: int, b: int)
    requires |dayOf| == |pos| == |slots| && 0 <= a < |slots| && 0 <= b < |slots|
    ensures Farness(d, slots, dayOf, pos, a, b) == Farness(d, slots, dayOf, pos, b, a)
  {
    assert Apart(slots[a].start, slots[b].start) == Apart(slots[b].start, slots[a].start);
    assert Apart(pos[a], pos[b]) == Apart(pos[b], pos[a]);
  }

  // ----- overrun -----

  const TURNAROUND := 30

  /** A room held for hold minutes from slot s on is still held when the setup of slot t, later the same
      day, begins. */
  predicate Competes(slots: seq<PlanSlot>, dayKey: int -> int, hold: int, s: int, t: int)
    requires 0 <= s < |slots| && 0 <= t < |slots|
  {
    && t != s && Key(slots, dayKey, s) == Key(slots, dayKey, t)
    && slots[t].start > slots[s].start && slots[t].start - slots[s].start - TURNAROUND < hold
  }

  predicate InUse(from: int, minutes: int, x: int) { from <= x < from + minutes }

  /** For a room held at all: exactly if some instant belongs both to its holding time and to the setup of
      the later exam. */
  lemma CompetesExact(slots: seq<PlanSlot>, dayKey: int -> int, hold: int, s: int, t: int)
    requires 0 <= s < |slots| && 0 <= t < |slots| && hold > 0
    ensures Competes(slots, dayKey, hold, s, t) <==>
            && dayKey(slots[s].start) == dayKey(slots[t].start) && slots[s].start < slots[t].start
            && exists x :: InUse(slots[s].start, hold, x) && InUse(slots[t].start - TURNAROUND, TURNAROUND, x)
  {
    if Competes(slots, dayKey, hold, s, t) {
      var x := if slots[s].start < slots[t].start - 30 then slots[t].start - 30 else slots[s].start;
      assert InUse(slots[s].start, hold, x) && InUse(slots[t].start - TURNAROUND, TURNAROUND, x);
    }
  }

  method CompetingSlots(slots: seq<PlanSlot>, dayKey: int -> int, hold: int, s: int) returns (targets: seq<int>)
    requires 0 <= s < |slots|
    ensures Increasing(targets) && forall t :: t in targets <==> 0 <= t < |slots| && Competes(slots, dayKey, hold, s, t)
  {
    targets := [];
    for t := 0 to |slots|
      invariant Increasing(targets) && forall i :: 0 <= i < |targets| ==> targets[i] < t
      invariant forall x :: x in targets <==> 0 <= x < t && Competes(slots, dayKey, hold, s, x)
    {
      if t == s || dayKey(slots[t].start) != dayKey(slots[s].start) { continue; }
      var d := slots[t].start - slots[s].start;
      if d > 0 && d - TURNAROUND < hold { targets := targets + [t]; }
    }
  }

  /** The unit holds EXaHM rooms beyond the ordinary turnaround. */
  predicate Overruns(units: seq<PlanUnit>, post: map<int, int>, u: int) {
    0 <= u < |units| && units[u].exahm && u in post && post[u] > TURNAROUND
  }

  function MinutesOf(m: map<int, int>, u: int): int { if u in m then m[u] else 0 }

  /** Unit u, placed in slot s, reaches with its rooms into slot t. */
  predicate RunsInto(slots: seq<PlanSlot>, dayKey: int -> int, units: seq<PlanUnit>, base: map<int, int>, post: map<int, int>, u: int, s: int, t: int) {
    && Overruns(units, post, u) && 0 <= s < |slots| && 0 <= t < |slots|
    && Competes(slots, dayKey, MinutesOf(base, u) + MinutesOf(post, u), s, t)
  }

  /** Every entry lists exactly the slots its unit reaches into from its slot. */
  ghost predicate OverrunEntry(slots: seq<PlanSlot>, dayKey: int -> int, units: seq<PlanUnit>, base: map<int, int>, post: map<int, int>,
                               k: (int, int), targets: seq<int>) {
    targets != [] && Increasing(targets) && forall t :: t in targets <==> RunsInto(slots, dayKey, units, base, post, k.0, k.1, t)
  }

  ghost predicate OverrunEntries(slots: seq<PlanSlot>, dayKey: int -> int, units: seq<PlanUnit>, base: map<int, int>, post: map<int, int>,
                                 overrun: map<(int, int), seq<int>>) {
    forall k :: k in overrun ==> OverrunEntry(slots, dayKey, units, base, post, k, overrun[k])
  }

  /** ... and no overrun is missing. */
  ghost predicate OverrunsExact(slots: seq<PlanSlot>, dayKey: int -> int, units: seq<PlanUnit>, base: map<int, int>, post: map<int, int>,
                                overrun: map<(int, int), seq<int>>) {
    && OverrunEntries(slots, dayKey, units, base, post, overrun)
    && forall u, s, t :: RunsInto(slots, dayKey, units, base, post, u, s, t) ==> (u, s) in overrun
  }

  /** The entries of one unit. */
  method OverrunsOfUnit(slots: seq<PlanSlot>, dayKey: int -> int, units: seq<PlanUnit>, base: map<int, int>, post: map<int, int>,
                        u: int, was: map<(int, int), seq<int>>) returns (overrun: map<(int, int), seq<int>>)
    requires Overruns(units, post, u) && OverrunEntries(slots, dayKey, units, base, post, was)
    ensures OverrunEntries(slots, dayKey, units, base, post, overrun) && was.Keys <= overrun.Keys
    ensures forall s, t :: RunsInto(slots, dayKey, units, base, post, u, s, t) ==> (u, s) in overrun
  {
    overrun := was;
    var hold := MinutesOf(base, u) + MinutesOf(post, u);
    for s := 0 to |slots|
      invariant OverrunEntries(slots, dayKey, units, base, post, overrun) && was.Keys <= overrun.Keys
      invariant forall x, t :: RunsInto(slots, dayKey, units, base, post, u, x, t) && x < s ==> (u, x) in overrun
    {
      var targets := CompetingSlots(slots, dayKey, hold, s);
      if |targets| > 0 {
        overrun := overrun[(u, s) := targets];
      }
    }
  }

  method CollectOverruns(slots: seq<PlanSlot>, dayKey: int -> int, units: seq<PlanUnit>, base: map<int, int>, post: map<int, int>)
    returns (overrun: map<(int, int), seq<int>>)
    ensures OverrunsExact(slots, dayKey, units, base, post, overrun)
  {
    overrun := map[];
    for u := 0 to |units|
      invariant OverrunEntries(slots, dayKey, units, base, post, overrun)
      invariant forall v, s, t :: RunsInto(slots, dayKey, units, base, post, v, s, t) && v < u ==> (v, s) in overrun
    {
      if !units[u].exahm || MinutesOf(post, u) <= TURNAROUND { continue; }
      overrun := OverrunsOfUnit(slots, dayKey, units, base, post, u, overrun);
    }
  }
}
