/** The invigilator todos collection: every cache write drops the collection and inserts one
    document, serialized by a lock; readers do not lock. */
module TodosCache {
  import opened Options

  /** The collection as an object: one critical section run to its end. */
  class TodosCollection {
    var docs: seq<int>

    /** Drop and insert; either may fail and then ends the section with an error. */
    method CacheInvigilatorTodos(todos: int, dropFails: bool, insertFails: bool) returns (ok: bool)
      modifies this
      ensures ok == (!dropFails && !insertFails)
      ensures docs == if dropFails then old(docs) else if insertFails then [] else [todos]
    {
      if dropFails { return false; }
      docs := [];
      if insertFails { return false; }
      docs := docs + [todos];
      return true;
    }

    /** The first document, if any; duplicates are tolerated. */
    method GetInvigilationTodos() returns (r: Option<int>)
      ensures r == First(docs)
    {
      if |docs| == 0 { return None; }
      return Some(docs[0]);
    }
  }

  function First(docs: seq<int>): Option<int> { if docs == [] then None else Some(docs[0]) }

  // ----- concurrent callers -----

  /** Where a caller stands: before the lock, after it, after the drop, and before the unlock with
      the outcome of its section. */
  datatype Phase = Waiting | Locked | Dropped | Leaving(ok: bool) | Done

  datatype Caller = Caller(todos: int, phase: Phase)

  /** dropped: some drop has completed; last: the document of the last finished section, None if it failed. */
  datatype World = World(serialized: bool, docs: seq<int>, callers: map<nat, Caller>, holders: set<nat>,
                         dropped: bool, finished: bool, last: Option<int>)

  datatype Action = Arrive(id: nat, todos: int) | Lock(id: nat) | Drop(id: nat, ok: bool) | Insert(id: nat, ok: bool) | Unlock(id: nat)

  predicate At(w: World, id: nat, phase: Phase) { id in w.callers && w.callers[id].phase == phase }

  predicate Enabled(w: World, a: Action) {
    match a
    case Arrive(id, todos) => id !in w.callers
    case Lock(id) => At(w, id, Waiting) && (w.serialized ==> w.holders == {})
    case Drop(id, ok) => At(w, id, Locked)
    case Insert(id, ok) => At(w, id, Dropped)
    case Unlock(id) => id in w.callers && w.callers[id].phase.Leaving?
  }

  function Goto(w: World, id: nat, phase: Phase): World
    requires id in w.callers
  {
    w.(callers := w.callers[id := w.callers[id].(phase := phase)])
  }

  function Step(w: World, a: Action): World
    requires Enabled(w, a)
  {
    match a
    case Arrive(id, todos) => w.(callers := w.callers[id := Caller(todos, Waiting)])
    case Lock(id) => Goto(w, id, Locked).(holders := w.holders + {id})
    case Drop(id, ok) => if ok then Goto(w, id, Dropped).(docs := [], dropped := true) else Goto(w, id, Leaving(false))
    case Insert(id, ok) => if ok then Goto(w, id, Leaving(true)).(docs := w.docs + [w.callers[id].todos]) else Goto(w, id, Leaving(false))
    case Unlock(id) =>
      Goto(w, id, Done).(holders := w.holders - {id}, finished := true,
                         last := if w.callers[id].phase.ok then Some(w.callers[id].todos) else None)
  }

  /** Any number of documents may be there at the start. */
  function Start(serialized: bool, docs: seq<int>): World { World(serialized, docs, map[], {}, false, false, None) }

  predicate Run(from: World, actions: seq<Action>)
    decreases |actions|, 0
  {
    actions == [] || (Run(from, actions[..|actions| - 1]) && Enabled(Reach(from, actions[..|actions| - 1]), actions[|actions| - 1]))
  }

  function Reach(from: World, actions: seq<Action>): World
    requires Run(from, actions)
    decreases |actions|, 1
  {
    if actions == [] then from else Step(Reach(from, actions[..|actions| - 1]), actions[|actions| - 1])
  }

  /** What the holder has done to the collection so far. */
  ghost predicate HolderView(w: World, id: nat) {
    && id in w.callers
    && match w.callers[id].phase
       case Locked => true
       case Dropped => w.docs == [] && w.dropped
       case Leaving(ok) => ok ==> w.docs == [w.callers[id].todos] && w.dropped
       case _ => false
  }

  ghost predicate Consistent(w: World) {
    && w.serialized
    && (forall a, b :: a in w.holders && b in w.holders ==> a == b)
    && (forall id :: id in w.callers ==> (id in w.holders <==> w.callers[id].phase != Waiting && w.callers[id].phase != Done))
    && (forall id :: id in w.holders ==> HolderView(w, id))
    && (w.dropped ==> |w.docs| <= 1)
    && (w.holders == {} && w.finished && w.last.Some? ==> w.docs == [w.last.value])
  }

  lemma OutsideStep(w: World, a: Action)
    requires Consistent(w) && Enabled(w, a) && (a.Arrive? || a.Lock?)
    ensures Consistent(Step(w, a))
  {}

  /** The steps inside the section are the holder's. */
  lemma DropStep(w: World, a: Action)
    requires Consistent(w) && Enabled(w, a) && a.Drop?
    ensures Consistent(Step(w, a))
  {
    assert a.id in w.holders;
  }

  lemma InsertStep(w: World, a: Action)
    requires Consistent(w) && Enabled(w, a) && a.Insert?
    ensures Consistent(Step(w, a))
  {
    assert a.id in w.holders && HolderView(w, a.id);
  }

  lemma LeavingStep(w: World, a: Action)
    requires Consistent(w) && Enabled(w, a) && a.Unlock?
    ensures Consistent(Step(w, a))
  {
    assert a.id in w.holders && HolderView(w, a.id);
  }

  lemma StepConsistent(w: World, a: Action)
    requires Consistent(w) && Enabled(w, a)
    ensures Consistent(Step(w, a))
  {
    if a.Arrive? || a.Lock? {
      OutsideStep(w, a);
    } else if a.Unlock? {
      LeavingStep(w, a);
    } else if a.Drop? {
      DropStep(w, a);
    } else {
      InsertStep(w, a);
    }
  }

  /** Main result: whatever the number of callers and of duplicates at the start, once a drop has
      completed there is at most one document, and whenever the lock is free and the last section
      succeeded there is exactly that section's document. */
  lemma {:induction false} EveryRunConsistent(docs: seq<int>, actions: seq<Action>)
    requires Run(Start(true, docs), actions)
    ensures Consistent(Reach(Start(true, docs), actions))
  {
    if actions != [] {
      EveryRunConsistent(docs, actions[..|actions| - 1]);
      StepConsistent(Reach(Start(true, docs), actions[..|actions| - 1]), actions[|actions| - 1]);
    }
  }

  /** So an unlocked reader between two successful sections sees the last one's todos. */
  lemma ReaderSeesLast(docs: seq<int>, actions: seq<Action>)
    requires Run(Start(true, docs), actions)
    ensures var w := Reach(Start(true, docs), actions);
            w.holders == {} && w.finished && w.last.Some? ==> First(w.docs) == w.last
  {
    EveryRunConsistent(docs, actions);
  }

  /** Without the lock two callers can leave two documents behind, both sections successful. */
  lemma UnlockedLeavesDuplicates()
    ensures exists actions ::
              Run(Start(false, []), actions) && var w := Reach(Start(false, []), actions);
              w.holders == {} && w.last.Some? && |w.docs| == 2
  {
    var s := Start(false, []);
    var actions := [];
    actions := Extend(s, actions, Arrive(1, 10));
    actions := Extend(s, actions, Arrive(2, 20));
    actions := Extend(s, actions, Lock(1));
    actions := Extend(s, actions, Lock(2));
    actions := Extend(s, actions, Drop(1, true));
    actions := Extend(s, actions, Drop(2, true));
    actions := Extend(s, actions, Insert(1, true));
    actions := Extend(s, actions, Insert(2, true));
    actions := Extend(s, actions, Unlock(1));
    actions := Extend(s, actions, Unlock(2));
  }

  lemma Extend(from: World, actions: seq<Action>, a: Action) returns (longer: seq<Action>)
    requires Run(from, actions) && Enabled(Reach(from, actions), a)
    ensures longer == actions + [a] && Run(from, longer) && Reach(from, longer) == Step(Reach(from, actions), a)
  {
    longer := actions + [a];
    assert longer[..|longer| - 1] == actions;
  }
}
