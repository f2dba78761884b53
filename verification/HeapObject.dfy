/**
 * Reference counting with owning and weak references. Both counters are stored in front of the
 * object. Storage outlives the object while weak references to it remain, and an object counts
 * as owned once while its destructor runs, so that the destructor can take and drop references.
 */
module HeapObject {

  datatype Counters = Counters(wasNeverOwned: bool, weak: int, strong: int, freed: bool)

  // ----- what each primitive does to the counters

  function OnObtainInitialOwnership(c: Counters): Counters { c.(wasNeverOwned := false) }

  function OnIncRef(c: Counters): Counters { c.(strong := c.strong + 1) }

  /** Giving up one owner; for the last one the destructor has to run first. */
  function OnDecRef(c: Counters): Counters {
    if c.strong == 1 then c else c.(strong := c.strong - 1)
  }

  /** The second half of giving up the last owner, after the destructor. */
  function OnDestructed(c: Counters): Counters {
    if c.weak == 0 then c.(wasNeverOwned := false, freed := true) else c.(strong := c.strong - 1)
  }

  function OnIncWeak(c: Counters): Counters { c.(weak := c.weak + 1) }

  function OnDecWeak(c: Counters): Counters {
    var d := c.(weak := c.weak - 1);
    if d.weak < 1 && d.strong < 1 then d.(wasNeverOwned := false, freed := true) else d
  }

  /** The construction failed. */
  function OnDelete(c: Counters): Counters {
    if c.wasNeverOwned && c.weak > 0 then c.(strong := 0) else c.(freed := true)
  }

  /** When storage is released: by the last weak reference, behind the destructor, or after a failed construction. */
  lemma {:induction false} WhenReleased(c: Counters)
    requires !c.freed
    ensures OnDecWeak(c).freed <==> c.weak <= 1 && c.strong <= 0
    ensures OnDestructed(c).freed <==> c.weak == 0
    ensures OnDelete(c).freed <==> !c.wasNeverOwned || c.weak <= 0
    ensures !OnDelete(c).freed ==> OnDelete(c) == c.(strong := 0)
    ensures !OnDestructed(c).freed ==> OnDestructed(c) == c.(strong := c.strong - 1)
    ensures !OnIncRef(c).freed && !OnDecRef(c).freed && !OnIncWeak(c).freed && !OnObtainInitialOwnership(c).freed
  {
  }

  /** The counters in front of one object. No method may be called once the storage is released. */
  class HeapObjectCounters {
    var wasNeverOwned: bool
    var weakCounter: int
    var strongCounter: int
    var freed: bool

    function Snapshot(): Counters
      reads this
    {
      Counters(wasNeverOwned, weakCounter, strongCounter, freed)
    }

    constructor ()
      ensures Snapshot() == Counters(true, 0, 1, false)
    {
      wasNeverOwned, weakCounter, strongCounter, freed := true, 0, 1, false;
    }

    predicate HasWeakReferences() reads this { weakCounter >= 1 }

    predicate HasOwningReferences() reads this { strongCounter >= 1 }

    method ObtainInitialOwnership()
      requires !freed && wasNeverOwned && strongCounter >= 1
      modifies this
      ensures Snapshot() == OnObtainInitialOwnership(old(Snapshot()))
    {
      wasNeverOwned := false;
    }

    method IncRefCounter()
      requires !freed
      modifies this
      ensures Snapshot() == OnIncRef(old(Snapshot()))
    {
      strongCounter := strongCounter + 1;
    }

    /** The caller runs the destructor, and then the second half, if `destruct` is returned. */
    method DecRefCounter() returns (destruct: bool)
      requires !freed && strongCounter >= 1
      modifies this
      ensures destruct == (old(strongCounter) == 1)
      ensures Snapshot() == OnDecRef(old(Snapshot()))
    {
      destruct := strongCounter == 1;
      if !destruct {
        strongCounter := strongCounter - 1;
      }
    }

    method AfterDestructor()
      requires !freed && weakCounter >= 0
      modifies this
      ensures Snapshot() == OnDestructed(old(Snapshot()))
    {
      if weakCounter == 0 {
        wasNeverOwned := false;
        freed := true;
      } else {
        strongCounter := strongCounter - 1;
      }
    }

    method IncWeakCounter()
      requires !freed
      modifies this
      ensures Snapshot() == OnIncWeak(old(Snapshot()))
    {
      weakCounter := weakCounter + 1;
    }

    method DecWeakCounter()
      requires !freed && HasWeakReferences()
      modifies this
      ensures Snapshot() == OnDecWeak(old(Snapshot()))
    {
      weakCounter := weakCounter - 1;
      if !HasWeakReferences() && !HasOwningReferences() {
        wasNeverOwned := false;
        freed := true;
      }
    }

    method OperatorDelete()
      requires !freed
      modifies this
      ensures Snapshot() == OnDelete(old(Snapshot()))
    {
      if wasNeverOwned && weakCounter > 0 {
        strongCounter := 0;
      } else {
        freed := true;
      }
    }
  }

  // ----- the life of one object and of the references to it

  datatype Phase = Constructing | Alive | Destructing | Destructed

  /** The counters, beside the references that really exist and what has happened so far. */
  datatype World = World(c: Counters, phase: Phase, adopted: bool, owners: nat, weaks: nat,
                         begun: nat, ended: nat, released: nat)

  datatype Step = TakeWeak | DropWeak | Adopt | ConstructionFails | TakeOwner | DropOwner | DestructorReturns

  const BORN := World(Counters(true, 0, 1, false), Constructing, false, 0, 0, 0, 0, 0)

  /** What the program can do next. Owners that a destructor took are gone before it returns. */
  predicate Enabled(w: World, s: Step) {
    match s
    case TakeWeak => w.phase != Destructed || w.weaks > 0
    case DropWeak => w.weaks > 0
    case Adopt => w.phase == Constructing
    case ConstructionFails => w.phase == Constructing
    case TakeOwner => w.phase == Alive || w.phase == Destructing
    case DropOwner => w.owners > 0
    case DestructorReturns => w.phase == Destructing && w.owners == 0
  }

  function Released(before: Counters, after: Counters): nat {
    if !before.freed && after.freed then 1 else 0
  }

  function Next(w: World, s: Step): World
    requires Enabled(w, s)
  {
    match s
    case TakeWeak => w.(c := OnIncWeak(w.c), weaks := w.weaks + 1)
    case DropWeak =>
      var c := OnDecWeak(w.c);
      w.(c := c, weaks := w.weaks - 1, released := w.released + Released(w.c, c))
    case Adopt => w.(c := OnObtainInitialOwnership(w.c), phase := Alive, adopted := true, owners := 1)
    case ConstructionFails =>
      var c := OnDelete(w.c);
      w.(c := c, phase := Destructed, ended := w.ended + 1, released := w.released + Released(w.c, c))
    case TakeOwner => w.(c := OnIncRef(w.c), owners := w.owners + 1)
    case DropOwner =>
      var runs := w.c.strong == 1;
      w.(c := OnDecRef(w.c), owners := w.owners - 1,
         phase := if runs then Destructing else w.phase, begun := w.begun + if runs then 1 else 0)
    case DestructorReturns => AfterDestructor(w)
  }

  function AfterDestructor(w: World): World {
    var c := OnDestructed(w.c);
    w.(c := c, phase := Destructed, ended := w.ended + 1, released := w.released + Released(w.c, c))
  }

  predicate Inv(w: World) {
    && w.ended == (if w.phase == Destructed then 1 else 0)
    && w.begun == (if w.adopted && w.phase != Alive then 1 else 0)
    && (w.phase == Constructing ==> !w.adopted) && (w.phase == Alive || w.phase == Destructing ==> w.adopted)
    && w.released == (if w.c.freed then 1 else 0)
    && w.c.freed == (w.phase == Destructed && w.weaks == 0)
    && (!w.c.freed ==> w.c.weak == w.weaks)
    && match w.phase
       case Constructing => w.c.wasNeverOwned && w.c.strong == 1 && w.owners == 0
       case Alive => !w.c.wasNeverOwned && w.c.strong == w.owners && 1 <= w.owners
       case Destructing => !w.c.wasNeverOwned && w.c.strong == 1 + w.owners
       case Destructed => w.owners == 0 && (!w.c.freed ==> w.c.strong == 0)
  }

  lemma {:induction false} StepKeepsInv(w: World, s: Step)
    requires Inv(w) && Enabled(w, s)
    ensures Inv(Next(w, s)) && !w.c.freed
  {
    if w.phase == Constructing {
    } else if w.phase == Alive {
    } else if w.phase == Destructing {
    }
  }

  /** A run: each step is one the program can do in the state before it. */
  predicate IsRun(ws: seq<World>, steps: seq<Step>) {
    && |ws| == |steps| + 1 && ws[0] == BORN
    && forall i | 0 <= i < |steps| :: Enabled(ws[i], steps[i]) && ws[i + 1] == Next(ws[i], steps[i])
  }

  lemma {:induction false} RunsKeepInv(ws: seq<World>, steps: seq<Step>, k: nat)
    requires IsRun(ws, steps) && k < |ws|
    ensures Inv(ws[k])
  {
    if k > 0 {
      RunsKeepInv(ws, steps, k - 1);
      StepKeepsInv(ws[k - 1], steps[k - 1]);
      assert ws[k - 1 + 1] == Next(ws[k - 1], steps[k - 1]);
    }
  }

  /**
   * In every state of every run: once an adopted object has ended its destructor has run exactly once, that of an
   * object whose construction failed never; the object ends at most once and its storage is released at most once;
   * storage is released exactly when the object has ended and no reference is left, and no step is taken after that.
   */
  lemma {:induction false} EndedAndReleasedOnce(ws: seq<World>, steps: seq<Step>, k: nat)
    requires IsRun(ws, steps) && k < |ws|
    ensures ws[k].begun <= 1 && ws[k].ended <= 1 && ws[k].released <= ws[k].ended
    ensures ws[k].ended == 1 ==> ws[k].begun == if ws[k].adopted then 1 else 0
    ensures ws[k].released == 1 <==> ws[k].ended == 1 && ws[k].owners == 0 && ws[k].weaks == 0
    ensures ws[k].ended == 1 ==> ws[k].owners == 0
    ensures k < |steps| ==> !ws[k].c.freed
  {
    RunsKeepInv(ws, steps, k);
    if k < |steps| {
      StepKeepsInv(ws[k], steps[k]);
    }
  }

  /** One step taken on the counters themselves. */
  method Perform(counters: HeapObjectCounters, w: World, s: Step) returns (v: World)
    requires Inv(w) && Enabled(w, s) && counters.Snapshot() == w.c
    modifies counters
    ensures v == Next(w, s) && Inv(v) && counters.Snapshot() == v.c
  {
    StepKeepsInv(w, s);
    v := w;
    match s {
      case TakeWeak =>
        counters.IncWeakCounter();
        v := v.(weaks := w.weaks + 1);
      case DropWeak =>
        counters.DecWeakCounter();
        v := v.(weaks := w.weaks - 1);
      case Adopt =>
        counters.ObtainInitialOwnership();
        v := v.(phase := Alive, adopted := true, owners := 1);
      case ConstructionFails =>
        counters.OperatorDelete();
        v := v.(phase := Destructed, ended := w.ended + 1);
      case TakeOwner =>
        counters.IncRefCounter();
        v := v.(owners := w.owners + 1);
      case DropOwner =>
        var destruct := counters.DecRefCounter();
        v := v.(owners := w.owners - 1);
        if destruct {
          v := v.(phase := Destructing, begun := w.begun + 1);
        }
      case DestructorReturns =>
        counters.AfterDestructor();
        v := v.(phase := Destructed, ended := w.ended + 1);
    }
    var after := counters.Snapshot();
    v := v.(c := after, released := w.released + Released(w.c, after));
  }

  lemma {:induction false} RunGrows(ws: seq<World>, steps: seq<Step>, s: Step)
    requires IsRun(ws, steps) && Enabled(ws[|steps|], s)
    ensures IsRun(ws + [Next(ws[|steps|], s)], steps + [s])
  {
    var more := ws + [Next(ws[|steps|], s)];
    forall i | 0 <= i < |steps| + 1
      ensures Enabled(more[i], (steps + [s])[i]) && more[i + 1] == Next(more[i], (steps + [s])[i])
    {
      if i < |steps| {
        assert more[i] == ws[i] && more[i + 1] == ws[i + 1];
      }
    }
  }

  /**
   * Whatever steps the program tries, the counters in front of the object always count the references that exist:
   * `ws` are the states of the run, and all that holds for runs holds for the counters.
   */
  method PerformAll(tried: seq<Step>)
    returns (counters: HeapObjectCounters, w: World, steps: seq<Step>, ghost ws: seq<World>)
    ensures counters.Snapshot() == w.c && Inv(w)
    ensures IsRun(ws, steps) && ws[|steps|] == w
    ensures w.phase == Alive ==> counters.strongCounter == w.owners && counters.weakCounter == w.weaks
    ensures counters.freed <==> w.ended == 1 && w.owners == 0 && w.weaks == 0
  {
    counters := new HeapObjectCounters();
    w, steps, ws := BORN, [], [BORN];
    var n := 0;
    while n < |tried|
      invariant 0 <= n <= |tried| && fresh(counters)
      invariant counters.Snapshot() == w.c && Inv(w)
      invariant IsRun(ws, steps) && ws[|steps|] == w
    {
      if Enabled(w, tried[n]) {
        RunGrows(ws, steps, tried[n]);
        w := Perform(counters, w, tried[n]);
        steps, ws := steps + [tried[n]], ws + [w];
      }
      n := n + 1;
    }
  }

  /** Whatever the program does, it can bring the object to its end by dropping what it holds. */
  function Remaining(w: World): nat {
    w.owners + w.weaks + match w.phase case Constructing => 3 case Alive => 2 case Destructing => 1 case Destructed => 0
  }

  lemma {:induction false} CanAlwaysBeReleased(w: World) returns (ws: seq<World>, steps: seq<Step>)
    requires Inv(w)
    ensures |ws| == |steps| + 1 && ws[0] == w
    ensures forall i | 0 <= i < |steps| :: Enabled(ws[i], steps[i]) && ws[i + 1] == Next(ws[i], steps[i])
    ensures ws[|steps|].c.freed
    decreases Remaining(w)
  {
    if w.c.freed {
      ws, steps := [w], [];
    } else {
      var s := if w.phase == Constructing then ConstructionFails
               else if w.owners > 0 then DropOwner
               else if w.phase == Destructing then DestructorReturns
               else DropWeak;
      StepKeepsInv(w, s);
      var rest, more := CanAlwaysBeReleased(Next(w, s));
      ws, steps := [w] + rest, [s] + more;
    }
  }

  /**
   * The rule that a destructor leaves no owner behind is needed, and it is all that is needed:
   * otherwise either the owner is left with released storage, or it will run the destructor again.
   */
  lemma {:induction false} LeftoverOwnersBreakIt(w: World)
    requires Inv(w) && w.phase == Destructing
    ensures Inv(AfterDestructor(w)) <==> w.owners == 0
    ensures w.owners > 0 ==>
              var after := AfterDestructor(w);
              if w.weaks == 0 then after.c.freed && after.owners > 0
              else !after.c.freed && after.c.strong == after.owners
  {
  }

  /** A run leads to every such state, whatever owners and weak references there are while the destructor runs. */
  lemma {:induction false} DestructingIsReached(w: World) returns (ws: seq<World>, steps: seq<Step>)
    requires Inv(w) && w.phase == Destructing
    ensures IsRun(ws, steps) && ws[|steps|] == w
    decreases w.owners + w.weaks
  {
    var before, s := BORN, Adopt;
    if w.owners > 0 {
      before, s := w.(owners := w.owners - 1, c := w.c.(strong := w.c.strong - 1)), TakeOwner;
      ws, steps := DestructingIsReached(before);
    } else if w.weaks > 0 {
      before, s := w.(weaks := w.weaks - 1, c := w.c.(weak := w.c.weak - 1)), TakeWeak;
      ws, steps := DestructingIsReached(before);
    } else {
      RunGrows([BORN], [], Adopt);
      before, s := Next(BORN, Adopt), DropOwner;
      ws, steps := [BORN, before], [Adopt];
      assert [BORN] + [before] == ws && [] + [Adopt] == steps;
    }
    assert Next(before, s) == w;
    RunGrows(ws, steps, s);
    ws, steps := ws + [w], steps + [s];
  }

  /** The shortest one: the last owner goes, and the destructor takes one that it keeps. */
  lemma {:induction false} LeftoverOwner() returns (ws: seq<World>)
    ensures IsRun(ws, [Adopt, DropOwner, TakeOwner]) && ws[3].phase == Destructing && ws[3].owners == 1
    ensures AfterDestructor(ws[3]).c.freed && AfterDestructor(ws[3]).owners == 1
  {
    var alive := Next(BORN, Adopt);
    ws := [BORN, alive, Next(alive, DropOwner), Next(Next(alive, DropOwner), TakeOwner)];
  }
}
