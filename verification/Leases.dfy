/**
 The lease protocol between threads. Every interpreter and every `with` is an actor that runs
 its own program: a compare-and-set on the flag of its handle, work through the pointer, and
 a blind store that clears the flag. No actor looks at what the others do.
 */
module Leases {
  import opened Bytes

  type Handle = nat
  type Actor = nat

  /**
   Where an actor stands. `Ending` has consumed the interpreter and still has the lease; if the
   device answered with a link key, `key` is what it has yet to install.
   */
  datatype Pc =
    | Acquiring(handle: Handle)
    | Refused
    | Working(handle: Handle)
    | Ending(handle: Handle, key: Option<bytes>)
    | Releasing(handle: Handle)
    | Gone

  /** `touched` lists, in order, who worked on which handle's contents. */
  datatype World = World(
    leased: map<Handle, bool>,
    keys: map<Handle, bytes>,
    pcs: map<Actor, Pc>,
    touched: seq<(Actor, Handle)>,
    releases: map<Actor, nat>)

  datatype Step =
    | Spawn(actor: Actor, handle: Handle)        // a constructor or `with` begins
    | CompareAndSet(actor: Actor)
    | Touch(actor: Actor)                        // work through the leased pointer
    | Retire(actor: Actor)                       // runtime failure, early end, drop, end of `with`
    | BeginEnd(actor: Actor, key: Option<bytes>) // `end` of a finished command
    | Install(actor: Actor, taken: bool)         // `ready(key)`, which the engine may refuse
    | DropLease(actor: Actor)                    // `end` without a key to install
    | Release(actor: Actor)                      // the store that clears the flag

  predicate IsLeased(w: World, h: Handle) {
    h in w.leased && w.leased[h]
  }

  predicate At(w: World, a: Actor) {
    a in w.pcs
  }

  predicate Enabled(w: World, s: Step) {
    match s
    case Spawn(a, _) => a !in w.pcs
    case CompareAndSet(a) => At(w, a) && w.pcs[a].Acquiring?
    case Touch(a) => At(w, a) && w.pcs[a].Working?
    case Retire(a) => At(w, a) && w.pcs[a].Working?
    case BeginEnd(a, _) => At(w, a) && w.pcs[a].Working?
    case Install(a, _) => At(w, a) && w.pcs[a].Ending? && w.pcs[a].key.Some?
    case DropLease(a) => At(w, a) && w.pcs[a].Ending? && w.pcs[a].key.None?
    case Release(a) => At(w, a) && w.pcs[a].Releasing?
  }

  function Move(w: World, a: Actor, pc: Pc): World {
    w.(pcs := w.pcs[a := pc])
  }

  function Releases(w: World, a: Actor): nat {
    if a in w.releases then w.releases[a] else 0
  }

  function Apply(w: World, s: Step): (r: World)
    requires Enabled(w, s)
  {
    match s
    case Spawn(a, h) => Move(w, a, Acquiring(h))
    case CompareAndSet(a) =>
      var h := w.pcs[a].handle;
      if IsLeased(w, h) then Move(w, a, Refused)
      else Move(w, a, Working(h)).(leased := w.leased[h := true])
    case Touch(a) => w.(touched := w.touched + [(a, w.pcs[a].handle)])
    case Retire(a) => Move(w, a, Releasing(w.pcs[a].handle))
    case BeginEnd(a, key) =>
      Move(w, a, Ending(w.pcs[a].handle, key)).(touched := w.touched + [(a, w.pcs[a].handle)])
    case Install(a, taken) =>
      var h := w.pcs[a].handle;
      var n := Move(w, a, Releasing(h)).(touched := w.touched + [(a, h)]);
      if taken then n.(keys := w.keys[h := w.pcs[a].key.value]) else n
    case DropLease(a) => Move(w, a, Releasing(w.pcs[a].handle))
    case Release(a) =>
      Move(w, a, Gone).(leased := w.leased[w.pcs[a].handle := false],
                        releases := w.releases[a := Releases(w, a) + 1])
  }

  const EMPTY := World(map[], map[], map[], [], map[])

  predicate CanRun(w: World, steps: seq<Step>)
    decreases |steps|
  {
    steps == [] || (Enabled(w, steps[0]) && CanRun(Apply(w, steps[0]), steps[1..]))
  }

  function Run(w: World, steps: seq<Step>): World
    requires CanRun(w, steps)
    decreases |steps|
  {
    if steps == [] then w else Run(Apply(w, steps[0]), steps[1..])
  }

  // --------------------------------------------------------------- invariants

  /** The actor's program says it has the lease of this handle. */
  predicate Holds(pc: Pc, h: Handle) {
    (pc.Working? || pc.Ending? || pc.Releasing?) && pc.handle == h
  }

  ghost predicate Exclusive(w: World) {
    forall a, b, h :: a in w.pcs && b in w.pcs && Holds(w.pcs[a], h) && Holds(w.pcs[b], h) ==> a == b
  }

  /** The flag of a handle is up exactly when some actor's program holds its lease. */
  ghost predicate FlagIsTrue(w: World) {
    forall h :: FlagTells(w, h)
  }

  ghost predicate FlagTells(w: World, h: Handle) {
    IsLeased(w, h) <==> exists a :: a in w.pcs && Holds(w.pcs[a], h)
  }

  ghost predicate ReleasedOnce(w: World) {
    forall a :: Releases(w, a) == if a in w.pcs && w.pcs[a].Gone? then 1 else 0
  }

  /** Whoever touched a handle is done with it, unless it holds the lease and touched it last. */
  ghost predicate TouchesAreOwned(w: World) {
    forall k :: 0 <= k < |w.touched| ==>
      var (a, h) := w.touched[k];
      a in w.pcs && (w.pcs[a].Gone? || Holds(w.pcs[a], h))
  }

  /** Since the holder of a lease first touched the contents, nobody else has. */
  ghost predicate HolderIsAlone(w: World) {
    forall i, j ::
      0 <= i < j < |w.touched| && w.touched[j].1 == w.touched[i].1
      && w.touched[i].0 in w.pcs && Holds(w.pcs[w.touched[i].0], w.touched[i].1) ==>
        w.touched[j].0 == w.touched[i].0
  }

  /** Two actors never take turns on the contents of one handle. */
  ghost predicate NoOverlap(w: World) {
    forall i, j, k ::
      0 <= i < j < k < |w.touched| && w.touched[i] == w.touched[k] && w.touched[j].1 == w.touched[i].1 ==>
        w.touched[j] == w.touched[i]
  }

  ghost predicate Inv(w: World) {
    Exclusive(w) && FlagIsTrue(w) && ReleasedOnce(w) && TouchesAreOwned(w) && HolderIsAlone(w) && NoOverlap(w)
  }

  lemma FlagAfter(w: World, s: Step)
    requires Exclusive(w) && FlagIsTrue(w) && Enabled(w, s)
    ensures FlagIsTrue(Apply(w, s))
  {
    forall h ensures FlagTells(Apply(w, s), h) {
      assert FlagTells(w, h);
      if IsLeased(w, h) {
        LeasedFlag(w, s, h);
      } else {
        FreeFlag(w, s, h);
      }
    }
  }

  lemma LeasedFlag(w: World, s: Step, h: Handle)
    requires Exclusive(w) && Enabled(w, s) && FlagTells(w, h) && IsLeased(w, h)
    ensures FlagTells(Apply(w, s), h)
  {
    var n := Apply(w, s);
    var a :| a in w.pcs && Holds(w.pcs[a], h);
    if a != s.actor || !s.Release? {
      assert a in n.pcs && Holds(n.pcs[a], h);
    } else {
      assert forall b :: b in n.pcs && Holds(n.pcs[b], h) ==> b in w.pcs && Holds(w.pcs[b], h);
    }
  }

  lemma FreeFlag(w: World, s: Step, h: Handle)
    requires Enabled(w, s) && FlagTells(w, h) && !IsLeased(w, h)
    ensures FlagTells(Apply(w, s), h)
  {
    var n := Apply(w, s);
    if IsLeased(n, h) {
      assert s.actor in n.pcs && Holds(n.pcs[s.actor], h);
    } else {
      assert forall b :: b in n.pcs && Holds(n.pcs[b], h) ==> b in w.pcs && Holds(w.pcs[b], h);
    }
  }

  lemma ExclusiveAfter(w: World, s: Step)
    requires Exclusive(w) && FlagIsTrue(w) && Enabled(w, s)
    ensures Exclusive(Apply(w, s))
  {
    if s.CompareAndSet? {
      assert FlagTells(w, w.pcs[s.actor].handle);
    }
  }

  lemma ReleasedAfter(w: World, s: Step)
    requires ReleasedOnce(w) && Enabled(w, s)
    ensures ReleasedOnce(Apply(w, s))
  {
  }

  lemma TouchesStayOwned(w: World, s: Step)
    requires Inv(w) && Enabled(w, s)
    ensures TouchesAreOwned(Apply(w, s))
  {
  }

  lemma HolderStaysAlone(w: World, s: Step)
    requires Inv(w) && Enabled(w, s)
    ensures HolderIsAlone(Apply(w, s))
  {
  }

  lemma OverlapStaysAway(w: World, s: Step)
    requires Inv(w) && Enabled(w, s)
    ensures NoOverlap(Apply(w, s))
  {
  }

  lemma StepKeepsInv(w: World, s: Step)
    requires Inv(w) && Enabled(w, s)
    ensures Inv(Apply(w, s))
  {
    FlagAfter(w, s);
    ExclusiveAfter(w, s);
    ReleasedAfter(w, s);
    TouchesStayOwned(w, s);
    HolderStaysAlone(w, s);
    OverlapStaysAway(w, s);
  }

  lemma {:induction false} EveryRunIsSafe(w: World, steps: seq<Step>)
    requires Inv(w) && CanRun(w, steps)
    ensures Inv(Run(w, steps))
    decreases |steps|
  {
    if steps != [] {
      StepKeepsInv(w, steps[0]);
      EveryRunIsSafe(Apply(w, steps[0]), steps[1..]);
    }
  }

  // ------------------------------------------------------------- the promises

  /**
   Whatever threads interleave: one holder at a time, and the flag tells the truth; the
   contents are never worked on by two actors in turns; nobody releases twice; and when every
   actor is through, by whatever way its session died, every handle is free again.
   */
  lemma LeasesAreExclusive(steps: seq<Step>)
    requires CanRun(EMPTY, steps)
    ensures var w := Run(EMPTY, steps);
            Exclusive(w) && FlagIsTrue(w) && NoOverlap(w)
            && (forall a :: Releases(w, a) <= 1)
            && ((forall a :: a in w.pcs ==> w.pcs[a].Gone? || w.pcs[a].Refused?) ==> forall h :: !IsLeased(w, h))
  {
    EveryRunIsSafe(EMPTY, steps);
    var w := Run(EMPTY, steps);
    if forall a :: a in w.pcs ==> w.pcs[a].Gone? || w.pcs[a].Refused? {
      forall h ensures !IsLeased(w, h) {
        assert FlagTells(w, h);
      }
    }
  }

  /** The blind store clears the flag of its own lease: nobody else has it, no other flag moves. */
  lemma ReleaseIsItsOwn(w: World, a: Actor)
    requires Inv(w) && Enabled(w, Release(a))
    ensures var h := w.pcs[a].handle; var n := Apply(w, Release(a));
            IsLeased(w, h) && !IsLeased(n, h)
            && (forall b :: b in n.pcs ==> !Holds(n.pcs[b], h))
            && (forall g :: g != h ==> IsLeased(n, g) == IsLeased(w, g))
  {
    FlagAfter(w, Release(a));
    assert FlagTells(w, w.pcs[a].handle) && FlagTells(Apply(w, Release(a)), w.pcs[a].handle);
    assert Holds(w.pcs[a], w.pcs[a].handle);
  }

  /** A key changes only in the hands of the one holder, who still has to release. */
  lemma KeysAreWrittenByTheHolder(w: World, s: Step, h: Handle)
    requires Inv(w) && Enabled(w, s)
    requires var n := Apply(w, s); (h in n.keys <==> h !in w.keys) || (h in n.keys && h in w.keys && n.keys[h] != w.keys[h])
    ensures s.Install? && s.actor in w.pcs && w.pcs[s.actor].Ending? && w.pcs[s.actor].handle == h
    ensures IsLeased(w, h) && IsLeased(Apply(w, s), h)
    ensures forall b :: b in w.pcs && Holds(w.pcs[b], h) ==> b == s.actor
  {
    FlagAfter(w, s);
    assert FlagTells(w, h) && FlagTells(Apply(w, s), h);
    assert Holds(w.pcs[s.actor], h) && Holds(Apply(w, s).pcs[s.actor], h);
  }

  /** Nobody acquires a Coldcard handle while a key the device answered with is still due. */
  lemma KeyComesBeforeTheNextLease(w: World, a: Actor, b: Actor)
    requires Inv(w) && Enabled(w, CompareAndSet(b)) && Apply(w, CompareAndSet(b)).pcs[b].Working?
    requires a in w.pcs && w.pcs[a].Ending?
    ensures w.pcs[a].handle != w.pcs[b].handle
  {
    assert Holds(w.pcs[a], w.pcs[a].handle) && FlagTells(w, w.pcs[a].handle);
  }

  /** An acquisition succeeds exactly if no actor has the lease, and then this one has it. */
  lemma AcquiresIff(w: World, a: Actor)
    requires Inv(w) && Enabled(w, CompareAndSet(a))
    ensures var h := w.pcs[a].handle; var n := Apply(w, CompareAndSet(a));
            (Holds(n.pcs[a], h) <==> forall b :: b in w.pcs ==> !Holds(w.pcs[b], h))
            && (n.pcs[a].Working? || n.pcs[a].Refused?)
  {
    assert FlagTells(w, w.pcs[a].handle);
  }

  /** A key the engine takes is there when the holder goes on to release, and a refused one changes nothing. */
  lemma InstallsKey(w: World, a: Actor, taken: bool)
    requires Enabled(w, Install(a, taken))
    ensures var h := w.pcs[a].handle; var n := Apply(w, Install(a, taken));
            n.pcs[a] == Releasing(h) && n.leased == w.leased
            && (if taken then h in n.keys && Some(n.keys[h]) == w.pcs[a].key else n.keys == w.keys)
  {
  }

  /** Every way of a session from its lease to its end: two or three steps of its own, and the handle is free. */
  lemma EveryWayReleases(w: World, a: Actor, key: Option<bytes>, taken: bool) returns (early: World, late: World)
    requires Inv(w) && a in w.pcs && w.pcs[a].Working?
    ensures var steps := [Retire(a), Release(a)];
            CanRun(w, steps) && early == Run(w, steps) && a in early.pcs && early.pcs[a] == Gone && !IsLeased(early, w.pcs[a].handle)
    ensures var steps := [BeginEnd(a, key), if key.Some? then Install(a, taken) else DropLease(a), Release(a)];
            CanRun(w, steps) && late == Run(w, steps) && a in late.pcs && late.pcs[a] == Gone && !IsLeased(late, w.pcs[a].handle)
  {
    early := Two(w, Retire(a), Release(a));
    var middle := Apply(w, BeginEnd(a, key));
    var second := if key.Some? then Install(a, taken) else DropLease(a);
    late := Two(middle, second, Release(a));
    var steps := [BeginEnd(a, key), second, Release(a)];
    assert steps[1..] == [second, Release(a)];
  }

  lemma Two(w: World, s: Step, t: Step) returns (n: World)
    requires Enabled(w, s) && Enabled(Apply(w, s), t)
    ensures CanRun(w, [s, t]) && n == Run(w, [s, t]) == Apply(Apply(w, s), t)
  {
    n := Apply(Apply(w, s), t);
    One(Apply(w, s), t);
    assert [s, t][1..] == [t];
  }

  lemma One(w: World, t: Step)
    requires Enabled(w, t)
    ensures CanRun(w, [t]) && Run(w, [t]) == Apply(w, t)
  {
    assert [t][1..] == [];
    assert CanRun(Apply(w, t), []) && Run(Apply(w, t), []) == Apply(w, t);
  }
}
