/** The operation guard: two counters behind a mutex, the clients that use them, and what holds in
    every interleaving of any number of clients. */
module Guard {

  datatype Counters = Counters(validations: int, exclusiveOps: int)

  const IDLE := Counters(0, 0)

  // ----- the mutex-protected sections, as functions of the counters -----

  predicate MayValidate(g: Counters) { g.exclusiveOps <= 0 }

  predicate MayRunExclusive(g: Counters) { g.validations <= 0 && g.exclusiveOps <= 0 }

  predicate MayWrite(g: Counters) { g.validations == 0 && g.exclusiveOps == 0 }

  function Decrement(n: int): int { if n > 0 then n - 1 else n }

  const EXCLUSIVE_OP_RETRIES := 5

  /** An acquisition that saw the guard in these states, one per attempt: it has the token exactly if the
      last attempt was let in, stops there, and otherwise tries again until the retries are used up or it
      is cancelled. */
  ghost predicate Attempts(seen: seq<Counters>, cancelled: bool, ok: bool) {
    && 1 <= |seen| <= EXCLUSIVE_OP_RETRIES + 1
    && (forall k :: 0 <= k < |seen| - 1 ==> !MayRunExclusive(seen[k]))
    && (ok <==> MayRunExclusive(seen[|seen| - 1]))
    && (!ok ==> |seen| == EXCLUSIVE_OP_RETRIES + 1 || cancelled)
  }

  class OpGuard {
    var validations: int
    var exclusiveOps: int

    function Now(): Counters
      reads this
    {
      Counters(validations, exclusiveOps)
    }

    constructor ()
      ensures Now() == IDLE
    {
      validations, exclusiveOps := 0, 0;
    }

    method TryBeginValidation() returns (ok: bool)
      modifies this
      ensures ok == MayValidate(old(Now()))
      ensures Now() == if ok then old(Now()).(validations := old(validations) + 1) else old(Now())
    {
      if exclusiveOps > 0 { return false; }
      validations := validations + 1;
      return true;
    }

    method EndValidation()
      modifies this
      ensures Now() == old(Now()).(validations := Decrement(old(validations)))
    {
      if validations > 0 { validations := validations - 1; }
    }

    method TryBeginExclusiveOp() returns (ok: bool)
      modifies this
      ensures ok == MayRunExclusive(old(Now()))
      ensures Now() == if ok then old(Now()).(exclusiveOps := old(exclusiveOps) + 1) else old(Now())
    {
      if validations > 0 || exclusiveOps > 0 { return false; }
      exclusiveOps := exclusiveOps + 1;
      return true;
    }

    method EndExclusiveOp()
      modifies this
      ensures Now() == old(Now()).(exclusiveOps := Decrement(old(exclusiveOps)))
    {
      if exclusiveOps > 0 { exclusiveOps := exclusiveOps - 1; }
    }

    method WritesAllowed() returns (ok: bool)
      ensures ok == MayWrite(Now())
    {
      ok := validations == 0 && exclusiveOps == 0;
    }

    /** The nightly sync's bounded retry. During wait i the other clients leave the guard in
        others[i], or the context is cancelled. */
    method AcquireExclusiveOp(others: seq<Counters>, cancelled: seq<bool>) returns (ok: bool, attempts: nat)
      requires |others| == EXCLUSIVE_OP_RETRIES && |cancelled| == EXCLUSIVE_OP_RETRIES
      modifies this
      ensures 1 <= attempts <= EXCLUSIVE_OP_RETRIES + 1
      ensures var seen := [old(Now())] + others;
              && Attempts(seen[..attempts], attempts <= EXCLUSIVE_OP_RETRIES && cancelled[attempts - 1], ok)
              && (forall k :: 0 <= k < attempts - 1 ==> !cancelled[k])
              && Now() == if ok then seen[attempts - 1].(exclusiveOps := seen[attempts - 1].exclusiveOps + 1) else seen[attempts - 1]
    {
      attempts := 1;
      ok := TryBeginExclusiveOp();
      if ok { return; }
      for i := 0 to EXCLUSIVE_OP_RETRIES
        invariant attempts == i + 1
        invariant Now() == ([old(Now())] + others)[i] && !MayRunExclusive(Now())
        invariant forall k :: 0 <= k <= i ==> !MayRunExclusive(([old(Now())] + others)[k])
        invariant forall k :: 0 <= k < i ==> !cancelled[k]
      {
        if cancelled[i] { return false, attempts; }
        validations, exclusiveOps := others[i].validations, others[i].exclusiveOps;
        attempts := attempts + 1;
        ok := TryBeginExclusiveOp();
        if ok { return; }
      }
      return false, attempts;
    }
  }

  // ----- clients -----

  /** Validation subscriptions, exclusive operations (transfers, mails, generators) and the sync. */
  datatype Role = Validation | Exclusive | Sync

  /** Where a client stands: before its first attempt, waiting in round i of the retry loop, about to try
      again in that round, or done trying. */
  datatype Phase = First | Waiting(i: nat) | Again(i: nat) | Holding | Refused | Released

  datatype Client = Client(role: Role, phase: Phase)

  /** The guard and every client that ever arrived; admissions counts the writes let through. */
  datatype World = World(guard: Counters, clients: map<nat, Client>, admissions: nat)

  function HoldersOf(w: World, exclusive: bool): set<nat> {
    set c | c in w.clients && w.clients[c].phase.Holding? && (w.clients[c].role != Validation) == exclusive
  }

  function Update(w: World, g: Counters, id: nat, c: Client): World {
    w.(guard := g, clients := w.clients[id := c])
  }

  datatype Action = Arrive(id: nat, role: Role) | Try(id: nat) | Wake(id: nat) | GiveUp(id: nat) | End(id: nat) | Write

  predicate Enabled(w: World, a: Action) {
    match a
    case Arrive(id, role) => id !in w.clients
    case Try(id) => id in w.clients && (w.clients[id].phase.First? || w.clients[id].phase.Again?)
    // the wait is over, or the context is cancelled meanwhile
    case Wake(id) => id in w.clients && w.clients[id].phase.Waiting?
    case GiveUp(id) => id in w.clients && w.clients[id].phase.Waiting?
    case End(id) => id in w.clients && w.clients[id].phase.Holding?
    case Write => true
  }

  /** Whether the guard lets a client of this role in. */
  predicate LetsIn(g: Counters, role: Role) { if role.Validation? then MayValidate(g) else MayRunExclusive(g) }

  /** Entering round i of the retry loop, if there is one. */
  function Round(i: nat): Phase { if i < EXCLUSIVE_OP_RETRIES then Waiting(i) else Refused }

  /** After a failed attempt only the sync goes on, into its loop or its next round. */
  function AfterFailure(c: Client): Phase {
    if !c.role.Sync? then Refused
    else match c.phase
      case First => Round(0)
      case Again(i) => Round(i + 1)
      case _ => Refused
  }

  /** One atomic step: each client section runs under the mutex. */
  function Step(w: World, a: Action): World
    requires Enabled(w, a)
  {
    match a
    case Arrive(id, role) => Update(w, w.guard, id, Client(role, First))
    case Try(id) =>
      var c := w.clients[id];
      if !LetsIn(w.guard, c.role) then Update(w, w.guard, id, c.(phase := AfterFailure(c)))
      else Update(w, if c.role.Validation? then w.guard.(validations := w.guard.validations + 1)
                     else w.guard.(exclusiveOps := w.guard.exclusiveOps + 1), id, c.(phase := Holding))
    case Wake(id) => Update(w, w.guard, id, w.clients[id].(phase := Again(w.clients[id].phase.i)))
    case GiveUp(id) => Update(w, w.guard, id, w.clients[id].(phase := Refused))
    case End(id) =>
      var c := w.clients[id];
      var g := if c.role.Validation? then w.guard.(validations := Decrement(w.guard.validations))
               else w.guard.(exclusiveOps := Decrement(w.guard.exclusiveOps));
      Update(w, g, id, c.(phase := Released))
    case Write => if MayWrite(w.guard) then w.(admissions := w.admissions + 1) else w
  }

  const START := World(IDLE, map[], 0)

  /** An interleaving: a sequence of steps, each enabled where it happens. */
  predicate Run(actions: seq<Action>)
    decreases |actions|, 0
  {
    actions == [] || (Run(actions[..|actions| - 1]) && Enabled(Reach(actions[..|actions| - 1]), actions[|actions| - 1]))
  }

  function Reach(actions: seq<Action>): World
    requires Run(actions)
    decreases |actions|, 1
  {
    if actions == [] then START else Step(Reach(actions[..|actions| - 1]), actions[|actions| - 1])
  }

  /** The counters are the holders, and exclusion. */
  ghost predicate Consistent(w: World) {
    && w.guard.validations == |HoldersOf(w, false)|
    && w.guard.exclusiveOps == |HoldersOf(w, true)|
    && w.guard.exclusiveOps <= 1
    && (w.guard.exclusiveOps == 0 || w.guard.validations == 0)
  }

  /** Replacing one client moves it in or out of the holder sets. */
  lemma HoldersAfter(w: World, g: Counters, id: nat, c: Client, exclusive: bool)
    ensures var w' := Update(w, g, id, c);
            HoldersOf(w', exclusive) ==
            if c.phase.Holding? && (c.role != Validation) == exclusive then HoldersOf(w, exclusive) + {id} else HoldersOf(w, exclusive) - {id}
  {}

  /** A client step that neither takes nor gives the token. */
  lemma BystanderConsistent(w: World, id: nat, c: Client)
    requires Consistent(w) && !c.phase.Holding? && (id in w.clients ==> !w.clients[id].phase.Holding?)
    ensures Consistent(Update(w, w.guard, id, c))
  {
    HoldersAfter(w, w.guard, id, c, true);
    HoldersAfter(w, w.guard, id, c, false);
    assert HoldersOf(w, true) - {id} == HoldersOf(w, true);
    assert HoldersOf(w, false) - {id} == HoldersOf(w, false);
  }

  /** Taking the token adds the client to the holders of its kind. */
  lemma HolderAdded(w: World, g: Counters, id: nat, c: Client)
    requires c.phase.Holding? && (id in w.clients ==> !w.clients[id].phase.Holding?)
    ensures var exclusive := c.role != Validation;
            && |HoldersOf(Update(w, g, id, c), exclusive)| == |HoldersOf(w, exclusive)| + 1
            && |HoldersOf(Update(w, g, id, c), !exclusive)| == |HoldersOf(w, !exclusive)|
  {
    var exclusive := c.role != Validation;
    HoldersAfter(w, g, id, c, exclusive);
    HoldersAfter(w, g, id, c, !exclusive);
    assert id !in HoldersOf(w, exclusive) && id !in HoldersOf(w, !exclusive);
    assert HoldersOf(w, !exclusive) - {id} == HoldersOf(w, !exclusive);
  }

  lemma TryConsistent(w: World, id: nat)
    requires Consistent(w) && Enabled(w, Try(id))
    ensures Consistent(Step(w, Try(id)))
  {
    var w' := Step(w, Try(id));
    var c := w'.clients[id];
    if LetsIn(w.guard, c.role) {
      HolderAdded(w, w'.guard, id, c);
    } else {
      BystanderConsistent(w, id, c);
    }
  }

  lemma EndConsistent(w: World, id: nat)
    requires Consistent(w) && Enabled(w, End(id))
    ensures Consistent(Step(w, End(id)))
  {
    var w' := Step(w, End(id));
    var exclusive := w.clients[id].role != Validation;
    HoldersAfter(w, w'.guard, id, w'.clients[id], true);
    HoldersAfter(w, w'.guard, id, w'.clients[id], false);
    assert id in HoldersOf(w, exclusive) && id !in HoldersOf(w, !exclusive);
    assert HoldersOf(w, !exclusive) - {id} == HoldersOf(w, !exclusive);
  }

  lemma StepConsistent(w: World, a: Action)
    requires Consistent(w) && Enabled(w, a)
    ensures Consistent(Step(w, a))
  {
    match a {
      case Arrive(id, role) => BystanderConsistent(w, id, Client(role, First));
      case Try(id) => TryConsistent(w, id);
      case Wake(id) => BystanderConsistent(w, id, w.clients[id].(phase := Again(w.clients[id].phase.i)));
      case GiveUp(id) => BystanderConsistent(w, id, w.clients[id].(phase := Refused));
      case End(id) => EndConsistent(w, id);
      case Write =>
        assert HoldersOf(Step(w, a), true) == HoldersOf(w, true) && HoldersOf(Step(w, a), false) == HoldersOf(w, false);
    }
  }

  /** Main result: in every interleaving of any number of clients the counters equal the live holders,
      at most one exclusive operation runs, and never beside a validation. */
  lemma {:induction false} EveryRunConsistent(actions: seq<Action>)
    requires Run(actions)
    ensures Consistent(Reach(actions))
  {
    if actions == [] {
      assert HoldersOf(START, true) == {} && HoldersOf(START, false) == {};
    } else {
      EveryRunConsistent(actions[..|actions| - 1]);
      StepConsistent(Reach(actions[..|actions| - 1]), actions[|actions| - 1]);
    }
  }

  /** The clamp in the End sections never swallows an End: releasing always lowers the counter by one. */
  lemma EndIsMatched(actions: seq<Action>, id: nat)
    requires Run(actions) && Enabled(Reach(actions), End(id))
    ensures var w := Reach(actions);
            var w' := Step(w, End(id));
            if w.clients[id].role.Validation?
            then w'.guard == w.guard.(validations := w.guard.validations - 1)
            else w'.guard == w.guard.(exclusiveOps := w.guard.exclusiveOps - 1)
  {
    var w := Reach(actions);
    EveryRunConsistent(actions);
    var exclusive := w.clients[id].role != Validation;
    assert id in HoldersOf(w, exclusive);
    CardZero(HoldersOf(w, exclusive));
  }

  /** A write is admitted exactly when nobody holds the guard. */
  lemma WriteAdmittedIffIdle(actions: seq<Action>)
    requires Run(actions)
    ensures var w := Reach(actions);
            Step(w, Write).admissions == w.admissions + 1 <==> HoldersOf(w, true) == {} && HoldersOf(w, false) == {}
  {
    EveryRunConsistent(actions);
    CardZero(HoldersOf(Reach(actions), true));
    CardZero(HoldersOf(Reach(actions), false));
  }

  /** Exact: an attempt is let in if and only if no exclusive operation is under way and, unless it is a
      validation itself, no validation either. Validations run side by side. */
  lemma AdmittedExact(actions: seq<Action>, id: nat)
    requires Run(actions) && Enabled(Reach(actions), Try(id))
    ensures var w := Reach(actions);
            Step(w, Try(id)).clients[id].phase.Holding? <==>
            HoldersOf(w, true) == {} && (w.clients[id].role.Validation? || HoldersOf(w, false) == {})
  {
    EveryRunConsistent(actions);
    CardZero(HoldersOf(Reach(actions), true));
    CardZero(HoldersOf(Reach(actions), false));
  }

  /** Any number of validations may hold the guard at once. */
  lemma ValidationsInParallel(actions: seq<Action>, id: nat)
    requires Run(actions) && Enabled(Reach(actions), Try(id)) && Reach(actions).clients[id].role.Validation?
    requires HoldersOf(Reach(actions), true) == {}
    ensures HoldersOf(Step(Reach(actions), Try(id)), false) == HoldersOf(Reach(actions), false) + {id}
  {
    var w := Reach(actions);
    AdmittedExact(actions, id);
    HoldersAfter(w, Step(w, Try(id)).guard, id, Step(w, Try(id)).clients[id], false);
  }

  lemma CardZero(s: set<nat>)
    ensures |s| == 0 <==> s == {}
  {}

  /** An exclusive holder is the only holder of any kind. */
  lemma ExclusiveRunsAlone(actions: seq<Action>, a: nat, b: nat)
    requires Run(actions) && a in HoldersOf(Reach(actions), true)
    requires b in HoldersOf(Reach(actions), true) || b in HoldersOf(Reach(actions), false)
    ensures a == b
  {
    var w := Reach(actions);
    EveryRunConsistent(actions);
    CardZero(HoldersOf(w, true));
    CardZero(HoldersOf(w, false));
    if b in HoldersOf(w, true) { AtMostOne(HoldersOf(w, true), a, b); }
  }

  lemma AtMostOne(s: set<nat>, a: nat, b: nat)
    requires a in s && b in s && |s| <= 1
    ensures a == b
  {
    assert |s - {a}| == |s| - 1;
    CardZero(s - {a});
    assert b in s - {a} || b == a;
  }

  // ----- the attempts of one client -----

  /** The guard at each attempt of a client. */
  ghost function SeenBy(actions: seq<Action>, id: nat): seq<Counters>
    requires Run(actions)
  {
    if actions == [] then []
    else
      var front := actions[..|actions| - 1];
      SeenBy(front, id) + (if actions[|actions| - 1] == Try(id) then [Reach(front).guard] else [])
  }

  ghost predicate Cancelled(actions: seq<Action>, id: nat) { GiveUp(id) in actions }

  ghost predicate AllRefuse(seen: seq<Counters>, role: Role) { forall k :: 0 <= k < |seen| ==> !LetsIn(seen[k], role) }

  /** What a client has seen so far, by where it stands. */
  ghost predicate SeenFits(c: Client, seen: seq<Counters>, cancelled: bool) {
    match c.phase
    case First => seen == []
    case Waiting(i) => c.role.Sync? && i < EXCLUSIVE_OP_RETRIES && |seen| == i + 1 && AllRefuse(seen, c.role)
    case Again(i) => c.role.Sync? && i < EXCLUSIVE_OP_RETRIES && |seen| == i + 1 && AllRefuse(seen, c.role)
    case Refused => AllRefuse(seen, c.role) && 1 <= |seen| <= Budget(c.role) && (cancelled || |seen| == Budget(c.role))
    case _ => 1 <= |seen| <= Budget(c.role) && AllRefuse(seen[..|seen| - 1], c.role) && LetsIn(seen[|seen| - 1], c.role)
  }

  /** How often a client of a role may try. */
  function Budget(role: Role): nat { if role == Sync then EXCLUSIVE_OP_RETRIES + 1 else 1 }

  lemma TryFits(c: Client, seen: seq<Counters>, cancelled: bool, g: Counters)
    requires SeenFits(c, seen, cancelled) && (c.phase.First? || c.phase.Again?)
    ensures SeenFits(c.(phase := if LetsIn(g, c.role) then Holding else AfterFailure(c)), seen + [g], cancelled)
  {
    assert (seen + [g])[..|seen|] == seen;
  }

  ghost predicate ClientFits(w: World, id: nat, seen: seq<Counters>, cancelled: bool) {
    if id in w.clients then SeenFits(w.clients[id], seen, cancelled) else seen == []
  }

  lemma StepFits(w: World, a: Action, id: nat, seen: seq<Counters>, cancelled: bool)
    requires Enabled(w, a) && ClientFits(w, id, seen, cancelled)
    ensures ClientFits(Step(w, a), id, if a == Try(id) then seen + [w.guard] else seen, cancelled || a == GiveUp(id))
  {
    if a == Try(id) { TryFits(w.clients[id], seen, cancelled, w.guard); }
  }

  lemma {:induction false} EveryClientFits(actions: seq<Action>, id: nat)
    requires Run(actions)
    ensures ClientFits(Reach(actions), id, SeenBy(actions, id), Cancelled(actions, id))
  {
    if actions != [] {
      var front, a := actions[..|actions| - 1], actions[|actions| - 1];
      EveryClientFits(front, id);
      StepFits(Reach(front), a, id, SeenBy(front, id), Cancelled(front, id));
      assert actions == front + [a];
      assert SeenBy(front, id) + [] == SeenBy(front, id);
    }
  }

  /** Main result: a sync that is done trying made exactly the attempts of the bounded retry, whatever the
      other clients did in between. */
  lemma SyncAttempts(actions: seq<Action>, id: nat)
    requires Run(actions) && id in Reach(actions).clients && Reach(actions).clients[id].role.Sync?
    ensures var c := Reach(actions).clients[id];
            c.phase.Holding? || c.phase.Released? || c.phase.Refused?
            ==> Attempts(SeenBy(actions, id), Cancelled(actions, id), !c.phase.Refused?)
  {
    EveryClientFits(actions, id);
    var seen := SeenBy(actions, id);
    if seen != [] { assert forall k :: 0 <= k < |seen| - 1 ==> seen[k] == seen[..|seen| - 1][k]; }
  }

  /** Nobody tries more often than its budget: six times for the sync, once for all others. */
  lemma BoundedAttempts(actions: seq<Action>, id: nat)
    requires Run(actions) && id in Reach(actions).clients
    ensures |SeenBy(actions, id)| <= if Reach(actions).clients[id].role.Sync? then 6 else 1
  {
    EveryClientFits(actions, id);
  }
}
