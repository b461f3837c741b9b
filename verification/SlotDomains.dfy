/** The allowed-slot domains of the schedulable units: intersections over group members and joint
    programs, then the EXaHM booking filter and the HARD time-window filter. An empty list means
    every slot; [-1] means none. */
module SlotDomains {
  import opened Seqs
  import opened ExahmIntervals
  import opened ExahmGate
  import opened Options

  const NO_SLOT := [-1]

  predicate IsSlot(s: int, n: nat) { 0 <= s < n }

  /** Every index is a slot. */
  ghost predicate InRange(allowed: seq<int>, n: nat) { forall s :: s in allowed ==> 0 <= s < n }

  /** The slots a domain really permits. */
  ghost function Effective(allowed: seq<int>, n: nat): set<int> {
    if allowed == [] then set s | 0 <= s < n && IsSlot(s, n) else set s | s in allowed && IsSlot(s, n)
  }

  // ----- members of a same-slot group -----

  ghost predicate AllOpen(sets: seq<seq<int>>) { forall i :: 0 <= i < |sets| ==> sets[i] == [] }

  /** Permitted by every member that has a restriction. */
  predicate Shared(sets: seq<seq<int>>, x: int) { forall i :: 0 <= i < |sets| && sets[i] != [] ==> x in sets[i] }

  ghost predicate IsIntersection(sets: seq<seq<int>>, r: seq<int>) {
    if AllOpen(sets) then r == [] else Ascending(r) && forall x :: x in r <==> Shared(sets, x)
  }

  method IntersectAllowed(sets: seq<seq<int>>) returns (r: seq<int>)
    ensures IsIntersection(sets, r)
  {
    var acc: Option<set<int>> := None;
    for i := 0 to |sets|
      invariant acc.None? <==> AllOpen(sets[..i])
      invariant acc.Some? ==> forall x :: x in acc.value <==> Shared(sets[..i], x)
    {
      var s := sets[i];
      assert sets[..i + 1] == sets[..i] + [s];
      if s != [] {
        assert sets[..i + 1][i] == s;
        var m := set x | x in s;
        acc := Some(if acc.None? then m else set x | x in acc.value && x in m);
      }
    }
    assert sets[..|sets|] == sets;
    if acc.None? { return []; }
    r := SortedKeys(acc.value);
  }

  /** The slots every member permits. */
  ghost function Joint(truth: seq<set<int>>, n: nat): set<int> {
    set s | 0 <= s < n && IsSlot(s, n) && forall i :: 0 <= i < |truth| ==> s in truth[i]
  }

  ghost predicate Lists(sets: seq<seq<int>>, truth: seq<set<int>>, n: nat) {
    && |sets| == |truth|
    && forall i :: 0 <= i < |sets| ==> InRange(sets[i], n) && forall x :: x in sets[i] <==> x in truth[i]
  }

  /** The stored domain of a group is the intersection of what its members permit exactly when that
      is not empty: disjoint members leave [], which downstream reads as every slot. */
  lemma GroupDomainExact(truth: seq<set<int>>, sets: seq<seq<int>>, r: seq<int>, n: nat)
    requires n > 0 && Lists(sets, truth, n) && IsIntersection(sets, r)
    ensures Effective(r, n) == Joint(truth, n) <==> Joint(truth, n) != {}
  {
    if Joint(truth, n) != {} {
      var w := Pick(Joint(truth, n));
      forall i | 0 <= i < |sets| ensures sets[i] != [] { assert w in truth[i] && w in sets[i]; }
      if AllOpen(sets) {
        forall s | 0 <= s < n ensures s in Joint(truth, n) {}
      } else {
        assert w in r;
        forall x ensures x in r <==> 0 <= x < n && forall i :: 0 <= i < |truth| ==> x in truth[i] {
          if x in r { MemberInRange(sets, truth, n, x); }
        }
      }
    } else {
      SomeSlotLeft(r, sets, n);
    }
  }

  lemma MemberInRange(sets: seq<seq<int>>, truth: seq<set<int>>, n: nat, x: int)
    requires Lists(sets, truth, n) && Shared(sets, x) && !AllOpen(sets)
    ensures 0 <= x < n
  {
    var i :| 0 <= i < |sets| && sets[i] != [];
    assert x in sets[i] && InRange(sets[i], n);
  }

  /** An intersection never reads as "no slot". */
  lemma SomeSlotLeft(r: seq<int>, sets: seq<seq<int>>, n: nat)
    requires n > 0 && IsIntersection(sets, r)
    requires forall i :: 0 <= i < |sets| ==> InRange(sets[i], n)
    ensures Effective(r, n) != {}
  {
    if r == [] {
      assert 0 in Effective(r, n);
    } else {
      var x := r[0];
      assert x in r;
      var i :| 0 <= i < |sets| && sets[i] != [];
      assert x in sets[i] && InRange(sets[i], n);
      assert x in Effective(r, n);
    }
  }

  // ----- joint programs -----

  /** The elements of s in keep, in order. */
  function Kept(s: seq<int>, keep: set<int>): (r: seq<int>)
    ensures forall x :: x in r <==> x in s && x in keep
  {
    if s == [] then []
    else
      assert s == s[..|s| - 1] + [s[|s| - 1]];
      Kept(s[..|s| - 1], keep) + (if s[|s| - 1] in keep then [s[|s| - 1]] else [])
  }

  function Narrowed(a: seq<int>, b: seq<int>): seq<int> {
    if a == [] then b else Kept(a, set x | x in b)
  }

  method IntersectSlots(a: seq<int>, b: seq<int>) returns (out: seq<int>)
    ensures out == Narrowed(a, b)
  {
    if |a| == 0 { return b; }
    var keep := set x | x in b;
    out := [];
    for i := 0 to |a|
      invariant out == Kept(a[..i], keep)
    {
      assert a[..i + 1][..i] == a[..i];
      if a[i] in keep { out := out + [a[i]]; }
    }
    assert a[..|a|] == a;
  }

  /** The domain after one joint program after another. */
  function Chain(base: seq<int>, progs: seq<seq<int>>): seq<int> {
    if progs == [] then base else Narrowed(Chain(base, progs[..|progs| - 1]), progs[|progs| - 1])
  }

  function JointDomain(base: seq<int>, progs: seq<seq<int>>): seq<int> {
    if Chain(base, progs) == [] then NO_SLOT else Chain(base, progs)
  }

  method RestrictToPrograms(base: seq<int>, progs: seq<seq<int>>) returns (allowed: seq<int>, unplaceable: bool)
    ensures allowed == JointDomain(base, progs)
    ensures unplaceable == (Chain(base, progs) == [])
  {
    var inter := base;
    for i := 0 to |progs|
      invariant inter == Chain(base, progs[..i])
    {
      assert progs[..i + 1][..i] == progs[..i];
      inter := IntersectSlots(inter, progs[i]);
    }
    assert progs[..|progs|] == progs;
    unplaceable := |inter| == 0;
    allowed := if unplaceable then [-1] else inter;
  }

  ghost predicate InAll(progs: seq<seq<int>>, x: int) { forall i :: 0 <= i < |progs| ==> x in progs[i] }

  ghost predicate Reserved(progs: seq<seq<int>>, n: nat) {
    progs != [] && forall i :: 0 <= i < |progs| ==> progs[i] != [] && InRange(progs[i], n)
  }

  /** The slots that suit the unit and every joint program. */
  ghost function Suitable(base: seq<int>, progs: seq<seq<int>>, n: nat): set<int> {
    set s | s in Effective(base, n) && InAll(progs, s)
  }

  /** The walk ran out of slots before the program k, and the programs from k on share one: it
      starts afresh there. */
  ghost predicate Restarts(base: seq<int>, progs: seq<seq<int>>, k: nat) {
    0 < k < |progs| && Chain(base, progs[..k]) == [] && exists x :: InAll(progs[k..], x)
  }

  lemma {:induction false} ChainWithoutRestart(base: seq<int>, progs: seq<seq<int>>, n: nat)
    requires InRange(base, n) && Reserved(progs, n)
    requires forall k :: 0 < k < |progs| ==> Chain(base, progs[..k]) != []
    ensures forall x :: x in Chain(base, progs) <==> x in Suitable(base, progs, n)
  {
    var front, last := progs[..|progs| - 1], progs[|progs| - 1];
    assert progs == front + [last];
    assert InRange(last, n);
    if front == [] {
      forall x ensures InAll(progs, x) <==> x in last {}
    } else {
      forall k | 0 < k < |front| ensures Chain(base, front[..k]) != [] { assert front[..k] == progs[..k]; }
      ChainWithoutRestart(base, front, n);
      assert Chain(base, progs[..|front|]) != [];
      forall x ensures InAll(progs, x) <==> InAll(front, x) && x in last {
        if InAll(front, x) && x in last {
          forall i | 0 <= i < |progs| ensures x in progs[i] {}
        }
        if InAll(progs, x) {
          forall i | 0 <= i < |front| ensures x in front[i] { assert front[i] == progs[i]; }
          assert last == progs[|front|];
        }
      }
    }
  }

  lemma {:induction false} CommonSurvives(base: seq<int>, progs: seq<seq<int>>, x: int)
    requires progs != [] && InAll(progs, x) && (base == [] || x in base)
    ensures x in Chain(base, progs)
  {
    var front := progs[..|progs| - 1];
    assert x in progs[|progs| - 1];
    if front != [] {
      assert forall i :: 0 <= i < |front| ==> front[i] == progs[i];
      CommonSurvives(base, front, x);
    }
  }

  lemma {:induction false} ChainRestarted(base: seq<int>, progs: seq<seq<int>>, k: nat)
    requires k < |progs| && Chain(base, progs[..k]) == []
    ensures Chain(base, progs) == Chain([], progs[k..])
  {
    var front := progs[..|progs| - 1];
    if k == |progs| - 1 {
      assert progs[k..] == [progs[k]] && progs[k..][..0] == [];
    } else {
      assert front[..k] == progs[..k] && front[k..] == progs[k..][..|progs| - k - 1];
      ChainRestarted(base, front, k);
    }
  }

  /** The last program before which the walk was empty, 0 without one. */
  ghost function LastEmpty(base: seq<int>, progs: seq<seq<int>>, m: nat): (k: nat)
    requires m <= |progs|
    ensures k == 0 || (k < m && Chain(base, progs[..k]) == [])
    ensures forall j :: k < j < m ==> Chain(base, progs[..j]) != []
  {
    if m <= 1 then 0
    else if Chain(base, progs[..m - 1]) == [] then m - 1
    else LastEmpty(base, progs, m - 1)
  }

  lemma SuffixPrefix(base: seq<int>, progs: seq<seq<int>>, k: nat, j: nat)
    requires k + j < |progs| && Chain(base, progs[..k]) == []
    ensures Chain(base, progs[..k + j]) == Chain([], progs[k..][..j])
  {
    var prefix := progs[..k + j];
    assert prefix[..k] == progs[..k] && prefix[k..] == progs[k..][..j];
    if j > 0 {
      ChainRestarted(base, prefix, k);
    } else {
      assert prefix == progs[..k];
    }
  }

  lemma SuffixExact(base: seq<int>, progs: seq<seq<int>>, n: nat, k: nat)
    requires Reserved(progs, n) && 0 < k < |progs| && Chain(base, progs[..k]) == []
    requires forall j :: k < j < |progs| ==> Chain(base, progs[..j]) != []
    ensures forall x :: x in Chain(base, progs) <==> InAll(progs[k..], x)
  {
    var rest := progs[k..];
    ChainRestarted(base, progs, k);
    forall j | 0 < j < |rest| ensures Chain([], rest[..j]) != [] {
      SuffixPrefix(base, progs, k, j);
    }
    ChainWithoutRestart([], rest, n);
    var first := rest[0];
    assert first == progs[k] && InRange(first, n);
    forall x | InAll(rest, x) ensures 0 <= x < n { assert x in rest[0]; }
  }

  lemma NothingSuitable(base: seq<int>, progs: seq<seq<int>>, n: nat, k: nat)
    requires InRange(base, n) && Reserved(progs, n) && 0 < k < |progs|
    requires Chain(base, progs[..k]) == []
    ensures Suitable(base, progs, n) == {}
  {
    var prefix := progs[..k];
    forall x | x in Suitable(base, progs, n) ensures x in Chain(base, prefix) {
      assert forall i :: 0 <= i < k ==> prefix[i] == progs[i];
      CommonSurvives(base, prefix, x);
    }
  }

  /** Joint programs narrow a unit to exactly the slots suiting all of them, or to [-1] if there are
      none -- unless the walk restarts: then a unit without a suitable slot gets the later programs'. */
  lemma JointProgramsExact(base: seq<int>, progs: seq<seq<int>>, n: nat)
    requires n > 0 && InRange(base, n) && Reserved(progs, n)
    ensures Effective(JointDomain(base, progs), n) == Suitable(base, progs, n) <==>
            !exists k :: Restarts(base, progs, k)
  {
    var chain, k := Chain(base, progs), LastEmpty(base, progs, |progs|);
    if k == 0 {
      ChainWithoutRestart(base, progs, n);
      assert forall x :: x in Effective(JointDomain(base, progs), n) <==> x in Suitable(base, progs, n);
    } else {
      SuffixExact(base, progs, n, k);
      NothingSuitable(base, progs, n, k);
      if chain == [] {
        NoRestart(base, progs, n);
      } else {
        var x := chain[0];
        assert x in chain && InAll(progs[k..], x) && Restarts(base, progs, k);
        assert progs[k..][0] == progs[k] && InRange(progs[k], n);
        assert x in Effective(JointDomain(base, progs), n);
      }
    }
  }

  /** A walk that ends empty has not restarted for good. */
  lemma NoRestart(base: seq<int>, progs: seq<seq<int>>, n: nat)
    requires Chain(base, progs) == [] && Reserved(progs, n)
    ensures !exists k :: Restarts(base, progs, k)
  {
    forall k: nat | 0 < k < |progs| && Chain(base, progs[..k]) == [] ensures !Restarts(base, progs, k) {
      ChainRestarted(base, progs, k);
      forall x | InAll(progs[k..], x) ensures x in Chain(base, progs) { CommonSurvives([], progs[k..], x); }
    }
  }

  /** With two joint programs the check is simple: the unit and the first program must share a slot. */
  lemma TwoProgramsExact(base: seq<int>, first: seq<int>, second: seq<int>, n: nat)
    requires n > 0 && InRange(base, n) && Reserved([first, second], n)
    ensures Effective(JointDomain(base, [first, second]), n) == Suitable(base, [first, second], n) <==>
            base == [] || exists x :: x in base && x in first
  {
    var progs := [first, second];
    JointProgramsExact(base, progs, n);
    assert progs[..1] == [first] && progs[..1][..0] == [] && progs[1..] == [second];
    assert Chain(base, progs[..1]) == Narrowed(base, first);
    var y := second[0];
    assert y in second && InAll(progs[1..], y);
    if Narrowed(base, first) == [] {
      assert Restarts(base, progs, 1);
      forall x | x in base && x in first ensures x in Narrowed(base, first) {}
      assert progs[0] == first;
    } else if base != [] {
      var x := Narrowed(base, first)[0];
      assert x in Narrowed(base, first);
    }
  }

  /** A unit allowed in slot 0 only, in a program reserving slot 1 and another reserving slot 2, ends
      up in slot 2. */
  lemma RestartExample()
    ensures Effective(JointDomain([0], [[1], [2]]), 3) == {2} && Suitable([0], [[1], [2]], 3) == {}
  {
    var progs: seq<seq<int>> := [[1], [2]];
    var base, first := [0], set x: int | x in [1];
    assert progs[..1] == [[1]] && |progs[..1][..0]| == 0 && |base[..0]| == 0;
    assert Kept(base, first) == [];
    assert Chain(base, progs[..1]) == [];
    assert Chain(base, progs) == [2];
    assert progs[0] == [1] && progs[1] == [2];
  }

  // ----- the two filters -----

  datatype Reason = NoJointSlot | NoExahmBooking | OutsideTimeWindow

  /** A unit as the filters see it; minutes as collected from its exams, 0 if unset. */
  datatype DomainUnit = DomainUnit(ancodes: seq<int>, seats: int, exahm: bool, seb: bool, fixed: bool,
                                   baseMin: int, preMin: int, postMin: int, allowed: seq<int>)

  type Reasons = map<int, Reason>

  /** The list of all slots. */
  function AllSlots(n: nat): (r: seq<int>)
    ensures |r| == n && forall i :: 0 <= i < n ==> r[i] == i
    ensures forall s :: s in r <==> 0 <= s < n
  {
    if n == 0 then [] else AllSlots(n - 1) + [n - 1]
  }

  function Explicit(allowed: seq<int>, n: nat): seq<int> { if allowed == [] then AllSlots(n) else allowed }

  /** keep holds slots only. */
  function Filtered(allowed: seq<int>, n: nat, keep: set<int>): seq<int> {
    var kept := Kept(Explicit(allowed, n), keep);
    if kept == [] then NO_SLOT else kept
  }

  /** The filter took the last real slot. */
  predicate Emptied(allowed: seq<int>, n: nat, keep: set<int>) {
    var base := Explicit(allowed, n);
    Kept(base, keep) == [] && SomeSlot(base, n)
  }

  predicate SomeSlot(list: seq<int>, n: nat) { exists s :: s in list && IsSlot(s, n) }

  lemma PrefixStep(base: seq<int>, i: nat, n: nat, keep: set<int>)
    requires i < |base|
    ensures Kept(base[..i + 1], keep) == Kept(base[..i], keep) + (if base[i] in keep then [base[i]] else [])
    ensures SomeSlot(base[..i + 1], n) <==> SomeSlot(base[..i], n) || IsSlot(base[i], n)
  {
    var idx := base[i];
    assert base[..i + 1] == base[..i] + [idx] && base[..i + 1][..i] == base[..i];
    assert idx in base[..i + 1];
  }

  ghost predicate Slots(keep: set<int>, n: nat) { forall s :: s in keep ==> 0 <= s < n }

  /** A filter keeps exactly the permitted slots it accepts; [-1] if there are none, and [-1] stays [-1]. */
  lemma FilterExact(allowed: seq<int>, n: nat, keep: set<int>)
    requires Slots(keep, n)
    ensures Effective(Filtered(allowed, n, keep), n) == Effective(allowed, n) * keep
    ensures Filtered(allowed, n, keep) == NO_SLOT <==> Effective(allowed, n) * keep == {}
    ensures Emptied(allowed, n, keep) <==> Effective(allowed, n) != {} && Effective(allowed, n) * keep == {}
    ensures allowed == NO_SLOT ==> Filtered(allowed, n, keep) == NO_SLOT && !Emptied(allowed, n, keep)
  {
    var base := Explicit(allowed, n);
    var kept := Kept(base, keep);
    forall s ensures s in Effective(allowed, n) <==> s in base && 0 <= s < n {}
    forall s ensures s in kept <==> s in Effective(allowed, n) * keep {}
    if kept != [] {
      var x := kept[0];
      assert x in kept && x in Effective(allowed, n) * keep;
    }
    if Effective(allowed, n) != {} {
      var x := Pick(Effective(allowed, n));
      assert x in base && IsSlot(x, n);
    }
  }

  /** The filter shape shared by both: keep the accepted real slots, note whether there were any. */
  method FilterSlots(allowed: seq<int>, n: nat, keep: set<int>) returns (r: seq<int>, emptied: bool)
    requires Slots(keep, n)
    ensures r == Filtered(allowed, n, keep) && emptied == Emptied(allowed, n, keep)
  {
    var base := if |allowed| == 0 then AllSlots(n) else allowed;
    var hadRealSlots, kept := false, [];
    for i := 0 to |base|
      invariant kept == Kept(base[..i], keep)
      invariant hadRealSlots <==> SomeSlot(base[..i], n)
    {
      var idx := base[i];
      PrefixStep(base, i, n, keep);
      if idx < 0 || idx >= n { continue; }
      hadRealSlots := true;
      if idx in keep { kept := kept + [idx]; }
    }
    assert base[..|base|] == base;
    r := if |kept| == 0 then [-1] else kept;
    emptied := |kept| == 0 && hadRealSlots;
  }

  /** The booking situation of the EXaHM filter. Times in nanoseconds. */
  datatype Booked = Booked(starts: seq<int>, bookings: seq<Booking>, blockDur: int)

  function Minutes(m: int, fallback: int): int { if m == 0 then fallback else m * MINUTE }

  /** Booked seats of the rooms whose window covers the unit's exam in slot s. */
  function SeatsAt(b: Booked, u: DomainUnit, s: nat): int
    requires s < |b.starts|
  {
    var start := b.starts[s];
    WindowSeats(b.bookings, true, start - Minutes(u.preMin, DEFAULT_BUFFER),
                start + Minutes(u.baseMin, b.blockDur) + Minutes(u.postMin, DEFAULT_BUFFER))
  }

  predicate Seated(b: Booked, u: DomainUnit, s: int) { 0 <= s < |b.starts| && SeatsAt(b, u, s) >= u.seats }

  function Covered(b: Booked, u: DomainUnit): set<int> { set s | 0 <= s < |b.starts| && Seated(b, u, s) }

  predicate InWindow(forbidden: seq<bool>, s: int) { 0 <= s < |forbidden| && !forbidden[s] }

  function WindowSlots(forbidden: seq<bool>): set<int> { set s | 0 <= s < |forbidden| && InWindow(forbidden, s) }

  predicate NeedsBooking(u: DomainUnit) { u.exahm && !u.fixed }

  predicate BoundByWindow(u: DomainUnit) { !u.fixed && !u.exahm && !u.seb }

  method CoveredSlots(b: Booked, u: DomainUnit) returns (keep: set<int>)
    ensures keep == Covered(b, u)
  {
    var dur := if u.baseMin == 0 then b.blockDur else u.baseMin * MINUTE;
    var pre := if u.preMin == 0 then DEFAULT_BUFFER else u.preMin * MINUTE;
    var post := if u.postMin == 0 then DEFAULT_BUFFER else u.postMin * MINUTE;
    keep := {};
    for s := 0 to |b.starts|
      invariant forall x :: x in keep <==> x < s && Seated(b, u, x)
    {
      var seats := ExahmWindowSeats(b.bookings, true, b.starts[s], dur, pre, post);
      if seats >= u.seats { keep := keep + {s}; }
    }
  }

  /** Notes the reason for every exam of a unit. */
  function Blame(reasons: Reasons, ancodes: seq<int>, why: Reason): Reasons {
    reasons + map a | a in ancodes :: why
  }

  function AfterExahm(b: Booked, u: DomainUnit): DomainUnit {
    if NeedsBooking(u) then u.(allowed := Filtered(u.allowed, |b.starts|, Covered(b, u))) else u
  }

  predicate ExahmEmptied(b: Booked, u: DomainUnit) {
    NeedsBooking(u) && Emptied(u.allowed, |b.starts|, Covered(b, u))
  }

  function AfterWindow(forbidden: seq<bool>, u: DomainUnit): DomainUnit {
    if BoundByWindow(u) then u.(allowed := Filtered(u.allowed, |forbidden|, WindowSlots(forbidden))) else u
  }

  predicate WindowEmptied(forbidden: seq<bool>, u: DomainUnit) {
    BoundByWindow(u) && Emptied(u.allowed, |forbidden|, WindowSlots(forbidden))
  }

  /** New reasons are exactly the given one for the exams of the emptied units. */
  ghost predicate Blamed(units: seq<DomainUnit>, emptied: set<int>, why: Reason, before: Reasons, after: Reasons) {
    forall a {:trigger ReasonOf(after, a)} :: ReasonOf(after, a) ==
      if exists u :: u in emptied && Contains(units, u, a) then Some(why) else ReasonOf(before, a)
  }

  predicate Contains(units: seq<DomainUnit>, u: int, a: int) { 0 <= u < |units| && a in units[u].ancodes }

  function ReasonOf(reasons: Reasons, a: int): Option<Reason> { if a in reasons then Some(reasons[a]) else None }

  method FilterExahm(b: Booked, units: seq<DomainUnit>, reasons: Reasons) returns (r: seq<DomainUnit>, why: Reasons, ghost emptied: set<int>)
    ensures |r| == |units| && forall u :: 0 <= u < |units| ==> r[u] == AfterExahm(b, units[u])
    ensures forall u :: u in emptied <==> 0 <= u < |units| && ExahmEmptied(b, units[u])
    ensures Blamed(units, emptied, NoExahmBooking, reasons, why)
  {
    r, why, emptied := units, reasons, {};
    for u := 0 to |units|
      invariant |r| == |units|
      invariant forall v :: 0 <= v < |units| ==> r[v] == if v < u then AfterExahm(b, units[v]) else units[v]
      invariant forall v :: v in emptied <==> 0 <= v < u && ExahmEmptied(b, units[v])
      invariant Blamed(units, emptied, NoExahmBooking, reasons, why)
    {
      if !units[u].exahm || units[u].fixed { continue; }
      var keep := CoveredSlots(b, units[u]);
      var covered, empty := FilterSlots(units[u].allowed, |b.starts|, keep);
      if empty {
        BlameStep(units, emptied, NoExahmBooking, reasons, why, u);
        why := Blame(why, units[u].ancodes, NoExahmBooking);
        emptied := emptied + {u};
      }
      r := r[u := units[u].(allowed := covered)];
    }
  }

  lemma BlameStep(units: seq<DomainUnit>, emptied: set<int>, why: Reason, before: Reasons, now: Reasons, u: nat)
    requires u < |units| && Blamed(units, emptied, why, before, now)
    ensures Blamed(units, emptied + {u}, why, before, Blame(now, units[u].ancodes, why))
  {
    var next := Blame(now, units[u].ancodes, why);
    forall a ensures ReasonOf(next, a) ==
                     if exists v :: v in emptied + {u} && Contains(units, v, a) then Some(why) else ReasonOf(before, a)
    {
      assert ReasonOf(now, a) == if exists v :: v in emptied && Contains(units, v, a) then Some(why) else ReasonOf(before, a);
      if a in units[u].ancodes { assert u in emptied + {u} && Contains(units, u, a); }
    }
  }

  method FilterWindow(forbidden: seq<bool>, units: seq<DomainUnit>, reasons: Reasons) returns (r: seq<DomainUnit>, why: Reasons, ghost emptied: set<int>)
    ensures |r| == |units| && forall u :: 0 <= u < |units| ==> r[u] == AfterWindow(forbidden, units[u])
    ensures forall u :: u in emptied <==> 0 <= u < |units| && WindowEmptied(forbidden, units[u])
    ensures Blamed(units, emptied, OutsideTimeWindow, reasons, why)
  {
    r, why, emptied := units, reasons, {};
    var keep := WindowSlots(forbidden);
    for u := 0 to |units|
      invariant |r| == |units|
      invariant forall v :: 0 <= v < |units| ==> r[v] == if v < u then AfterWindow(forbidden, units[v]) else units[v]
      invariant forall v :: v in emptied <==> 0 <= v < u && WindowEmptied(forbidden, units[v])
      invariant Blamed(units, emptied, OutsideTimeWindow, reasons, why)
    {
      if units[u].fixed || units[u].exahm || units[u].seb { continue; }
      var inWindow, empty := FilterSlots(units[u].allowed, |forbidden|, keep);
      if empty {
        BlameStep(units, emptied, OutsideTimeWindow, reasons, why, u);
        why := Blame(why, units[u].ancodes, OutsideTimeWindow);
        emptied := emptied + {u};
      }
      r := r[u := units[u].(allowed := inWindow)];
    }
  }

  /** The unit's joint-program narrowing; progs is empty for a unit without one. */
  function AfterJoint(progs: map<int, seq<seq<int>>>, u: int, unit: DomainUnit): DomainUnit {
    if u in progs then unit.(allowed := JointDomain(unit.allowed, progs[u])) else unit
  }

  predicate JointEmptied(progs: map<int, seq<seq<int>>>, u: int, unit: DomainUnit) {
    u in progs && Chain(unit.allowed, progs[u]) == []
  }

  /** Joint programs of the movable units, visited in any order. */
  method FilterJoint(progs: map<int, seq<seq<int>>>, units: seq<DomainUnit>) returns (r: seq<DomainUnit>, why: Reasons, ghost emptied: set<int>)
    requires forall u :: u in progs ==> 0 <= u < |units|
    ensures |r| == |units| && forall u :: 0 <= u < |units| ==> r[u] == AfterJoint(progs, u, units[u])
    ensures forall u :: u in emptied <==> 0 <= u < |units| && JointEmptied(progs, u, units[u])
    ensures Blamed(units, emptied, NoJointSlot, map[], why)
  {
    r, why, emptied := units, map[], {};
    var rest := progs.Keys;
    while rest != {}
      invariant rest <= progs.Keys && |r| == |units|
      invariant forall v :: 0 <= v < |units| ==> r[v] == if v in rest then units[v] else AfterJoint(progs, v, units[v])
      invariant forall v :: v in emptied <==> 0 <= v < |units| && v !in rest && JointEmptied(progs, v, units[v])
      invariant Blamed(units, emptied, NoJointSlot, map[], why)
      decreases |rest|
    {
      ghost var w := Pick(rest);
      assert w in rest;
      var u :| u in rest;
      var inter, empty := RestrictToPrograms(r[u].allowed, progs[u]);
      if empty {
        BlameStep(units, emptied, NoJointSlot, map[], why, u);
        why := Blame(why, units[u].ancodes, NoJointSlot);
        emptied := emptied + {u};
      }
      r := r[u := r[u].(allowed := inter)];
      rest := rest - {u};
    }
  }

  // ----- all filters in sequence -----

  datatype Filters = Filters(progs: map<int, seq<seq<int>>>, booked: Booked, hard: bool, forbidden: seq<bool>)

  /** The window counts only under HARD enforcement with one flag per slot. */
  predicate WindowApplies(f: Filters) { f.hard && |f.forbidden| == |f.booked.starts| }

  /** Unit u after the first, the second and all filters. */
  function Stage(f: Filters, u: int, unit: DomainUnit, stage: nat): DomainUnit
    requires stage <= 3
  {
    if stage == 0 then unit
    else if stage == 1 then AfterJoint(f.progs, u, unit)
    else if stage == 2 then AfterExahm(f.booked, Stage(f, u, unit, 1))
    else if WindowApplies(f) then AfterWindow(f.forbidden, Stage(f, u, unit, 2))
    else Stage(f, u, unit, 2)
  }

  ghost function Left(f: Filters, u: int, unit: DomainUnit, stage: nat): set<int>
    requires stage <= 3
  {
    Effective(Stage(f, u, unit, stage).allowed, |f.booked.starts|)
  }

  /** The filter that first left the unit without a slot. */
  ghost predicate FirstEmptiedBy(f: Filters, u: int, unit: DomainUnit, stage: nat)
    requires 1 <= stage <= 3
  {
    Left(f, u, unit, stage - 1) != {} && Left(f, u, unit, stage) == {}
  }

  ghost predicate Named(f: Filters, u: int, unit: DomainUnit, why: Option<Reason>) {
    match why
    case None => Left(f, u, unit, 3) != {}
    case Some(NoJointSlot) => FirstEmptiedBy(f, u, unit, 1)
    case Some(NoExahmBooking) => FirstEmptiedBy(f, u, unit, 2)
    case Some(OutsideTimeWindow) => FirstEmptiedBy(f, u, unit, 3)
  }

  ghost predicate Readable(f: Filters, units: seq<DomainUnit>) {
    && |f.booked.starts| > 0
    && (forall u :: u in f.progs ==> 0 <= u < |units| && Reserved(f.progs[u], |f.booked.starts|))
    && (forall u :: 0 <= u < |units| ==> InRange(units[u].allowed, |f.booked.starts|))
    && (forall u, v, a :: Contains(units, u, a) && Contains(units, v, a) ==> u == v)
  }

  /** Which stage, if any, emptied a unit, in the filters' own terms. */
  function Culprit(f: Filters, u: int, unit: DomainUnit): Option<Reason> {
    if WindowApplies(f) && WindowEmptied(f.forbidden, Stage(f, u, unit, 2)) then Some(OutsideTimeWindow)
    else if ExahmEmptied(f.booked, Stage(f, u, unit, 1)) then Some(NoExahmBooking)
    else if JointEmptied(f.progs, u, unit) then Some(NoJointSlot)
    else None
  }

  lemma JointStage(f: Filters, units: seq<DomainUnit>, u: nat)
    requires Readable(f, units) && u < |units|
    ensures Left(f, u, units[u], 0) != {}
    ensures JointEmptied(f.progs, u, units[u]) <==> Left(f, u, units[u], 1) == {}
    ensures Left(f, u, units[u], 1) == {} ==> Stage(f, u, units[u], 1).allowed == NO_SLOT
  {
    var n, base := |f.booked.starts|, units[u].allowed;
    NonEmptyDomain(base, n);
    if u in f.progs {
      var chain := Chain(base, f.progs[u]);
      if chain != [] {
        ChainInRange(base, f.progs[u], n);
        NonEmptyDomain(chain, n);
      }
    }
  }

  lemma NonEmptyDomain(allowed: seq<int>, n: nat)
    requires n > 0 && InRange(allowed, n)
    ensures Effective(allowed, n) != {}
  {
    var x := if allowed == [] then 0 else allowed[0];
    assert allowed != [] ==> x in allowed;
    assert x in Effective(allowed, n);
  }

  lemma {:induction false} ChainInRange(base: seq<int>, progs: seq<seq<int>>, n: nat)
    requires InRange(base, n) && forall i :: 0 <= i < |progs| ==> InRange(progs[i], n)
    ensures InRange(Chain(base, progs), n)
  {
    if progs != [] {
      var front := progs[..|progs| - 1];
      assert forall i :: 0 <= i < |front| ==> front[i] == progs[i];
      ChainInRange(base, front, n);
    }
  }

  lemma ExahmStage(f: Filters, units: seq<DomainUnit>, u: nat)
    requires Readable(f, units) && u < |units|
    ensures ExahmEmptied(f.booked, Stage(f, u, units[u], 1)) <==> FirstEmptiedBy(f, u, units[u], 2)
    ensures Left(f, u, units[u], 1) == {} ==> Left(f, u, units[u], 2) == {}
  {
    FilterExact(Stage(f, u, units[u], 1).allowed, |f.booked.starts|, Covered(f.booked, units[u]));
    assert Covered(f.booked, Stage(f, u, units[u], 1)) == Covered(f.booked, units[u]);
  }

  lemma WindowStage(f: Filters, units: seq<DomainUnit>, u: nat)
    requires Readable(f, units) && u < |units|
    ensures WindowApplies(f) && WindowEmptied(f.forbidden, Stage(f, u, units[u], 2)) <==> FirstEmptiedBy(f, u, units[u], 3)
    ensures Left(f, u, units[u], 2) == {} ==> Left(f, u, units[u], 3) == {}
  {
    if WindowApplies(f) {
      FilterExact(Stage(f, u, units[u], 2).allowed, |f.booked.starts|, WindowSlots(f.forbidden));
    }
  }

  lemma CulpritIsFirst(f: Filters, units: seq<DomainUnit>, u: nat)
    requires Readable(f, units) && u < |units|
    ensures Named(f, u, units[u], Culprit(f, u, units[u]))
  {
    JointStage(f, units, u);
    ExahmStage(f, units, u);
    WindowStage(f, units, u);
  }

  ghost predicate SameExams(units: seq<DomainUnit>, now: seq<DomainUnit>) {
    |now| == |units| && forall u :: 0 <= u < |units| ==> now[u].ancodes == units[u].ancodes
  }

  lemma BlamedAt(f: Filters, units: seq<DomainUnit>, now: seq<DomainUnit>, emptied: set<int>, why: Reason,
                 before: Reasons, after: Reasons, u: int, a: int)
    requires Readable(f, units) && SameExams(units, now) && Blamed(now, emptied, why, before, after)
    requires Contains(units, u, a)
    ensures ReasonOf(after, a) == if u in emptied then Some(why) else ReasonOf(before, a)
  {
    forall v ensures Contains(now, v, a) <==> v == u {
      assert Contains(now, v, a) <==> Contains(units, v, a);
    }
    assert ReasonOf(after, a) == if exists v :: v in emptied && Contains(now, v, a) then Some(why) else ReasonOf(before, a);
  }

  /** Main result: every unit ends with its filtered domain, and the reason recorded for an exam is the
      filter that first left its unit without a slot; no reason means a slot is left. */
  method BuildDomains(f: Filters, units: seq<DomainUnit>) returns (r: seq<DomainUnit>, reasons: Reasons)
    requires Readable(f, units)
    ensures |r| == |units| && forall u :: 0 <= u < |units| ==> r[u] == Stage(f, u, units[u], 3)
    ensures forall u, a :: Contains(units, u, a) ==> Named(f, u, units[u], ReasonOf(reasons, a))
  {
    ghost var g1, g2, g3: set<int>;
    var now, noted := units, map[];
    now, noted, g1 := FilterJoint(f.progs, units);
    ghost var r1, w1 := now, noted;
    assert forall u :: 0 <= u < |units| ==> r1[u] == Stage(f, u, units[u], 1);
    now, noted, g2 := FilterExahm(f.booked, now, noted);
    ghost var r2, w2 := now, noted;
    assert forall u :: 0 <= u < |units| ==> r2[u] == Stage(f, u, units[u], 2);
    r, reasons, g3 := now, noted, {};
    if f.hard && |f.forbidden| == |f.booked.starts| {
      r, reasons, g3 := FilterWindow(f.forbidden, now, noted);
    }
    forall u, a | Contains(units, u, a) ensures Named(f, u, units[u], ReasonOf(reasons, a)) {
      BlamedAt(f, units, units, g1, NoJointSlot, map[], w1, u, a);
      BlamedAt(f, units, r1, g2, NoExahmBooking, w1, w2, u, a);
      if WindowApplies(f) { BlamedAt(f, units, r2, g3, OutsideTimeWindow, w2, reasons, u, a); }
      assert ReasonOf(reasons, a) == Culprit(f, u, units[u]);
      CulpritIsFirst(f, units, u);
    }
  }

  // ----- what the EXaHM filter promises -----

  /** A member exam of a unit; its minutes count if any member states some. */
  datatype Member = Member(id: int, seats: int, exahm: bool, minutes: int, constraints: Option<Constraints>)

  function SeatSum(members: seq<Member>): int {
    if members == [] then 0 else SeatSum(members[..|members| - 1]) + members[|members| - 1].seats
  }

  /** The unit's collected minutes are at least the member's. */
  predicate MemberCovered(u: DomainUnit, m: Member) {
    && m.seats >= 0 && m.minutes <= u.baseMin
    && RoomBuffers(m.constraints).0 <= Minutes(u.preMin, DEFAULT_BUFFER)
    && RoomBuffers(m.constraints).1 <= Minutes(u.postMin, DEFAULT_BUFFER)
  }

  ghost predicate AllCovered(u: DomainUnit, members: seq<Member>) { forall i :: 0 <= i < |members| ==> MemberCovered(u, members[i]) }

  /** The window that a booking has to cover for the unit. */
  predicate InUnitWindow(b: Booked, u: DomainUnit, start: int, t: int) {
    start - Minutes(u.preMin, DEFAULT_BUFFER) <= t < start + Minutes(u.baseMin, b.blockDur) + Minutes(u.postMin, DEFAULT_BUFFER)
  }

  /** How long a member runs: the slot's block if no member of the unit states a duration. */
  function RunsFor(b: Booked, u: DomainUnit, m: Member): int { if u.baseMin == 0 then b.blockDur else m.minutes * MINUTE }

  function PlacedMember(b: Booked, u: DomainUnit, start: int, m: Member): CumExam {
    Placed(m.id, m.seats, m.exahm, start, RunsFor(b, u, m), m.constraints)
  }

  /** All members of the unit in one slot, each with its own duration and occupancy. */
  function PlacedMembers(b: Booked, u: DomainUnit, start: int, members: seq<Member>): seq<CumExam> {
    if members == [] then []
    else
      var m := members[|members| - 1];
      PlacedMembers(b, u, start, members[..|members| - 1]) + [PlacedMember(b, u, start, m)]
  }

  /** The booking window the filter asks for contains the occupancy of every member. */
  lemma MemberInWindow(b: Booked, u: DomainUnit, start: int, m: Member, t: int)
    requires MemberCovered(u, m) && Holds(PlacedMember(b, u, start, m), t)
    ensures InUnitWindow(b, u, start, t)
  {
    OccupancyWithinBooking(m.constraints);
  }

  /** At any instant either no member holds a room, or the instant lies in the window and the members'
      demand is at most their seats. */
  lemma {:induction false} MemberDemand(b: Booked, u: DomainUnit, start: int, members: seq<Member>, t: int)
    requires AllCovered(u, members)
    ensures var exams := PlacedMembers(b, u, start, members);
            && ExahmDemand(exams, t) <= TotalDemand(exams, t) <= SeatSum(members) && 0 <= SeatSum(members)
            && (TotalDemand(exams, t) == 0 || InUnitWindow(b, u, start, t))
  {
    if members != [] {
      var n := |members| - 1;
      var front, m := members[..n], members[n];
      MemberDemand(b, u, start, front, t);
      var placed, e := PlacedMembers(b, u, start, front), PlacedMember(b, u, start, m);
      assert MemberCovered(u, m);
      assert (placed + [e])[..|placed|] == placed;
      assert PlacedMembers(b, u, start, members) == placed + [e];
      if Holds(e, t) { MemberInWindow(b, u, start, m, t); }
    }
  }

  lemma WindowSeatsOpen(b: Booked, u: DomainUnit, s: nat, t: int)
    requires RealSeats(b.bookings) && s < |b.starts|
    ensures 0 <= ExahmSupply(b.bookings, t) <= TotalSupply(b.bookings, t)
    ensures InUnitWindow(b, u, b.starts[s], t) ==> SeatsAt(b, u, s) <= ExahmSupply(b.bookings, t)
  {
    CoveringSeatsAreOpen(b.bookings, t, t + 1, t);
    if InUnitWindow(b, u, b.starts[s], t) {
      CoveringSeatsAreOpen(b.bookings, b.starts[s] - Minutes(u.preMin, DEFAULT_BUFFER),
                           b.starts[s] + Minutes(u.baseMin, b.blockDur) + Minutes(u.postMin, DEFAULT_BUFFER), t);
    }
  }

  lemma MembersFitAt(b: Booked, u: DomainUnit, s: int, members: seq<Member>, t: int)
    requires RealSeats(b.bookings) && AllCovered(u, members) && SeatSum(members) <= u.seats && Seated(b, u, s)
    ensures !Overloaded(PlacedMembers(b, u, b.starts[s], members), b.bookings, t)
  {
    MemberDemand(b, u, b.starts[s], members, t);
    WindowSeatsOpen(b, u, s, t);
  }

  /** Main result: a slot the EXaHM filter leaves to a unit never overloads the bookings by the unit's exams,
      all of them together. */
  lemma FilteredSlotFits(b: Booked, u: DomainUnit, s: int, members: seq<Member>)
    requires RealSeats(b.bookings) && NeedsBooking(u) && AllCovered(u, members) && SeatSum(members) <= u.seats
    requires s in Effective(AfterExahm(b, u).allowed, |b.starts|)
    ensures 0 <= s < |b.starts| && Sweep(PlacedMembers(b, u, b.starts[s], members), b.bookings) == []
  {
    FilterExact(u.allowed, |b.starts|, Covered(b, u));
    assert Seated(b, u, s);
    if b.bookings != [] {
      var exams := PlacedMembers(b, u, b.starts[s], members);
      forall t ensures !Overloaded(exams, b.bookings, t) {
        MembersFitAt(b, u, s, members, t);
      }
      EmptySweepMeansFeasible(exams, b.bookings);
    }
  }

  /** Exact: after all filters a unit keeps a slot if and only if the joint programs left it, the rooms booked
      throughout the unit's window hold a movable EXaHM unit, and HARD enforcement does not forbid it to a
      movable unit without booked rooms. */
  lemma DomainExact(f: Filters, units: seq<DomainUnit>, u: nat, s: int)
    requires Readable(f, units) && u < |units|
    ensures s in Left(f, u, units[u], 3) <==>
            && s in Left(f, u, units[u], 1)
            && (units[u].exahm && !units[u].fixed ==> 0 <= s < |f.booked.starts| && SeatsAt(f.booked, units[u], s) >= units[u].seats)
            && (f.hard && |f.forbidden| == |f.booked.starts| && !units[u].exahm && !units[u].seb && !units[u].fixed
                ==> 0 <= s < |f.forbidden| && !f.forbidden[s])
  {
    var one, two := Stage(f, u, units[u], 1), Stage(f, u, units[u], 2);
    FilterExact(one.allowed, |f.booked.starts|, Covered(f.booked, one));
    if WindowApplies(f) { FilterExact(two.allowed, |f.booked.starts|, WindowSlots(f.forbidden)); }
    assert 0 <= s < |f.booked.starts| ==> SeatsAt(f.booked, one, s) == SeatsAt(f.booked, units[u], s);
  }

  /** The unit is one EXaHM exam; its collected minutes are the exam's own. */
  predicate OnlyMember(u: DomainUnit, m: Member) {
    && m.exahm && m.seats == u.seats && m.minutes == u.baseMin && u.preMin > 0 && u.postMin > 0
    && u.preMin * MINUTE == RoomBuffers(m.constraints).0 && u.postMin * MINUTE == RoomBuffers(m.constraints).1
  }

  /** The filter asks for the window the gate asks for. */
  lemma SameGate(b: Booked, u: DomainUnit, s: nat, m: Member)
    requires OnlyMember(u, m) && s < |b.starts|
    ensures SeatsAt(b, u, s) == GateSeats(b.bookings, true, b.starts[s], RunsFor(b, u, m), m.constraints)
    ensures PlacedMember(b, u, b.starts[s], m) == Placed(m.id, u.seats, true, b.starts[s], RunsFor(b, u, m), m.constraints)
  {
    assert Minutes(u.preMin, DEFAULT_BUFFER) == RoomBuffers(m.constraints).0 && Minutes(u.postMin, DEFAULT_BUFFER) == RoomBuffers(m.constraints).1;
    assert Minutes(u.baseMin, b.blockDur) == RunsFor(b, u, m);
  }

  /** Every booking covers the exam of these buffers from start to end. */
  ghost predicate AllBooked(bookings: seq<Booking>, start: int, end: int, c: Option<Constraints>) {
    forall k :: k in bookings ==> k.from <= start - RoomBuffers(c).0 && end + RoomBuffers(c).1 <= k.until
  }

  lemma KeptIfSeated(b: Booked, u: DomainUnit, s: nat)
    requires NeedsBooking(u) && s in Effective(u.allowed, |b.starts|)
    ensures s < |b.starts| && (s in Effective(AfterExahm(b, u).allowed, |b.starts|) <==> SeatsAt(b, u, s) >= u.seats)
  {
    FilterExact(u.allowed, |b.starts|, Covered(b, u));
  }

  /** Exact: with bookings that all cover the exam's window in slot s, the EXaHM filter leaves the slot to
      the exam if and only if the exam does not overload the bookings there. */
  lemma SlotKeptExact(b: Booked, u: DomainUnit, s: nat, m: Member)
    requires RealSeats(b.bookings) && b.bookings != [] && NeedsBooking(u) && OnlyMember(u, m)
    requires s in Effective(u.allowed, |b.starts|) && s < |b.starts| && RunsFor(b, u, m) >= 0
    requires AllBooked(b.bookings, b.starts[s], b.starts[s] + RunsFor(b, u, m), m.constraints)
    ensures s in Effective(AfterExahm(b, u).allowed, |b.starts|) <==> Sweep([PlacedMember(b, u, b.starts[s], m)], b.bookings) == []
  {
    KeptIfSeated(b, u, s);
    SameGate(b, u, s, m);
    CoveringGateExact(b.bookings, m.id, u.seats, b.starts[s], RunsFor(b, u, m), m.constraints);
  }

  // ----- units pinned to a fixed partner -----

  /** The walk over the joint programs lost the pinned slot before program k, and x suits all from k on. */
  ghost predicate StraysTo(pin: int, progs: seq<seq<int>>, k: nat, x: int) {
    0 < k < |progs| && Chain([pin], progs[..k]) == [] && InAll(progs[k..], x) && x != pin
  }

  /** Joint programs leave a unit pinned to its fixed partner's slot no other slot exactly if the walk does
      not stray. */
  lemma PinnedExact(pin: int, progs: seq<seq<int>>, n: nat)
    requires 0 <= pin < n && Reserved(progs, n)
    ensures Effective(JointDomain([pin], progs), n) <= {pin} <==> !exists k, x :: StraysTo(pin, progs, k, x)
  {
    var k := LastEmpty([pin], progs, |progs|);
    if k == 0 {
      ChainWithoutRestart([pin], progs, n);
      forall j: nat, x ensures !StraysTo(pin, progs, j, x) {}
    } else {
      SuffixExact([pin], progs, n, k);
      forall j: nat, x | StraysTo(pin, progs, j, x) ensures x in Effective(JointDomain([pin], progs), n) {
        StrayIsAllowed(pin, progs, n, j, x);
      }
      if !(Effective(JointDomain([pin], progs), n) <= {pin}) {
        var x :| x in Effective(JointDomain([pin], progs), n) && x != pin;
        assert InAll(progs[k..], x);
        assert StraysTo(pin, progs, k, x);
      }
    }
  }

  lemma StrayIsAllowed(pin: int, progs: seq<seq<int>>, n: nat, k: nat, x: int)
    requires Reserved(progs, n) && StraysTo(pin, progs, k, x)
    ensures x in Effective(JointDomain([pin], progs), n)
  {
    ChainRestarted([pin], progs, k);
    CommonSurvives([], progs[k..], x);
    assert progs[k..][0] == progs[k] && InRange(progs[k], n);
  }

  /** Later filters only take slots away. */
  lemma FiltersShrink(f: Filters, units: seq<DomainUnit>, u: nat)
    requires Readable(f, units) && u < |units|
    ensures Left(f, u, units[u], 3) <= Left(f, u, units[u], 2) <= Left(f, u, units[u], 1)
  {
    FilterExact(Stage(f, u, units[u], 1).allowed, |f.booked.starts|, Covered(f.booked, Stage(f, u, units[u], 1)));
    if WindowApplies(f) {
      FilterExact(Stage(f, u, units[u], 2).allowed, |f.booked.starts|, WindowSlots(f.forbidden));
    }
  }

  /** A unit pinned to a partner's slot keeps no other slot through all filters, unless it strays. */
  lemma PinnedStays(f: Filters, units: seq<DomainUnit>, u: nat, pin: int)
    requires Readable(f, units) && u < |units| && units[u].allowed == [pin]
    requires u in f.progs ==> !exists k, x :: StraysTo(pin, f.progs[u], k, x)
    ensures Left(f, u, units[u], 3) <= {pin}
  {
    FiltersShrink(f, units, u);
    var y := units[u].allowed[0];
    assert y in units[u].allowed && InRange(units[u].allowed, |f.booked.starts|);
    if u in f.progs { PinnedExact(pin, f.progs[u], |f.booked.starts|); }
  }
}
