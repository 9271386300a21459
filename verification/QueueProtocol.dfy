/**
 The queue between the accepting thread and the workers, load by load and store by store (queue.c).  The
 pusher updates the list without the mutex that the workers hold while they pop; a semaphore counts the
 connections.  Entries are numbered in order of arrival.
 */
module QueueProtocol {
  import opened Text

  type Id = nat

  /** queue_push_connection: tested whether the list is empty, then two stores, then the post. */
  datatype PushPc = Ready | Tested(empty: bool) | HeadSet | Linked | Posting

  /** A worker inside the mutex has read the head entry and that entry's successor. */
  datatype PopPc = Free | Loaded(entry: Id, next: Option<Id>)

  /** `taken` and `nulls` record what the pops returned; `victim` is the first connection linked, or left
      linked, behind an entry that a worker has already taken. */
  datatype Sys = Sys(next: seq<Option<Id>>, head: Option<Id>, tail: Option<Id>, push: PushPc, pop: PopPc,
                     sem: nat, woken: nat, taken: seq<Id>, nulls: nat, victim: Option<Id>)

  const EMPTY: Sys := Sys([], None, None, Ready, Free, 0, 0, [], 0, None)

  datatype Step = PushStep | WakeStep | PopStep

  predicate Enabled(s: Sys, e: Step) {
    match e
    case PushStep =>
      // the pusher only follows pointers that exist
      (s.push == Tested(false) ==> s.tail.Some? && s.tail.value < |s.next|) && (s.push != Ready ==> |s.next| > 0)
    case WakeStep => s.sem > 0
    case PopStep => s.woken > 0 && (s.pop.Free? && s.head.Some? ==> s.head.value < |s.next|)
  }

  /** The entry being pushed. */
  function Newest(s: Sys): Id
    requires |s.next| > 0
  {
    |s.next| - 1
  }

  function Blame(s: Sys, bad: bool, id: Id): Option<Id> { if s.victim == None && bad then Some(id) else s.victim }

  function MovePush(s: Sys): Sys
    requires Enabled(s, PushStep)
  {
    match s.push
    case Ready => s.(next := s.next + [None], push := Tested(s.head == None))
    case Tested(empty) =>
      if empty then s.(head := Some(Newest(s)), push := HeadSet)
      else s.(next := s.next[s.tail.value := Some(Newest(s))], push := Linked,
              victim := Blame(s, s.head == None, Newest(s)))
    case HeadSet => s.(tail := Some(Newest(s)), push := Posting)
    case Linked => s.(tail := Some(Newest(s)), push := Posting)
    case Posting => s.(sem := s.sem + 1, push := Ready)
  }

  function MovePop(s: Sys): Sys
    requires Enabled(s, PopStep)
  {
    match s.pop
    case Free =>
      if s.head == None then s.(woken := s.woken - 1, nulls := s.nulls + 1)
      else s.(pop := Loaded(s.head.value, s.next[s.head.value]))
    case Loaded(entry, nx) =>
      var stale := nx == None && entry < |s.next| && s.next[entry].Some?;
      s.(head := nx, pop := Free, woken := s.woken - 1, taken := s.taken + [entry],
         victim := Blame(s, stale, if stale then s.next[entry].value else 0))
  }

  function Apply(s: Sys, e: Step): Sys
    requires Enabled(s, e)
  {
    match e
    case PushStep => MovePush(s)
    case WakeStep => s.(sem := s.sem - 1, woken := s.woken + 1)
    case PopStep => MovePop(s)
  }

  ghost predicate Reaches(s: Sys, es: seq<Step>, t: Sys)
    decreases |es|, 1
  {
    if es == [] then s == t else StepsOn(s, es, t)
  }

  /** The first step is taken, the others follow. */
  ghost predicate StepsOn(s: Sys, es: seq<Step>, t: Sys)
    requires es != []
    decreases |es|, 0
  {
    Enabled(s, es[0]) && Reaches(Apply(s, es[0]), es[1..], t)
  }

  ghost predicate Reachable(s: Sys) { exists es :: Reaches(EMPTY, es, s) }

  // ---------------------------------------------------------------------------------------------
  // Invariant
  // ---------------------------------------------------------------------------------------------

  /** Number of entries the list has been told about. */
  function Known(s: Sys): nat { if s.push.Tested? && |s.next| > 0 then |s.next| - 1 else |s.next| }

  /** Number of posts made. */
  function Posted(s: Sys): nat { if s.push.Ready? || |s.next| == 0 then |s.next| else |s.next| - 1 }

  /** The tail lags behind until the last store of a push. */
  function TailOf(s: Sys): Option<Id> {
    var n := if s.push.Ready? || s.push.Posting? then |s.next| else |s.next| - 1;
    if n > 0 then Some(n - 1) else None
  }

  /** From the head on, entries are linked one to the next up to the last known one. */
  predicate Chained(s: Sys) {
    && (s.head.Some? ==> s.head.value < Known(s))
    && (s.head.Some? ==> forall k | s.head.value <= k < Known(s) - 1 :: s.next[k] == Some(k + 1))
    && (forall k | Known(s) - 1 <= k < |s.next| && k >= 0 :: s.next[k] == None)
  }

  predicate PopSane(s: Sys) {
    match s.pop
    case Free => true
    case Loaded(entry, nx) =>
      && s.woken > 0 && s.head == Some(entry)
      && (nx.Some? ==> nx == Some(entry + 1) && entry + 1 < Known(s))
  }

  /** Entries come out in order of arrival. */
  predicate Ordered(s: Sys) {
    && (forall i, j | 0 <= i < j < |s.taken| :: s.taken[i] < s.taken[j])
    && (forall i | 0 <= i < |s.taken| :: s.taken[i] < Known(s) && (s.head.Some? ==> s.taken[i] < s.head.value))
  }

  /** Known, never taken, and no longer in the list. */
  predicate Lost(s: Sys, k: Id) { k < Known(s) && k !in s.taken && (s.head.Some? ==> k < s.head.value) }

  /** Without a victim, what was taken and what is in the list are all the known entries. */
  predicate Accounted(s: Sys) {
    match s.victim
    case Some(v) => Lost(s, v)
    case None =>
      && |s.taken| <= Known(s)
      && (forall i | 0 <= i < |s.taken| :: s.taken[i] == i)
      && (if s.head.Some? then s.head.value == |s.taken| else |s.taken| == Known(s))
      && s.nulls == 0
  }

  predicate Inv(s: Sys) {
    && (s.push != Ready ==> |s.next| > 0)
    && (s.push == Tested(false) ==> |s.next| > 1)
    && (s.push == Tested(true) ==> s.head == None)
    && s.tail == TailOf(s)
    && s.sem + s.woken + s.nulls + |s.taken| == Posted(s)
    && Chained(s) && PopSane(s) && Ordered(s) && Accounted(s)
  }

  lemma TestKeeps(s: Sys)
    requires Inv(s) && Enabled(s, PushStep) && s.push.Ready?
    ensures Inv(MovePush(s))
  {
  }

  lemma LinkKeeps(s: Sys)
    requires Inv(s) && Enabled(s, PushStep) && s.push.Tested?
    ensures Inv(MovePush(s))
  {
  }

  lemma PostKeeps(s: Sys)
    requires Inv(s) && Enabled(s, PushStep) && !s.push.Ready? && !s.push.Tested?
    ensures Inv(MovePush(s))
  {
  }

  lemma LoadKeeps(s: Sys)
    requires Inv(s) && Enabled(s, PopStep) && s.pop == Free
    ensures Inv(MovePop(s))
  {
  }

  lemma StoreKeeps(s: Sys)
    requires Inv(s) && Enabled(s, PopStep) && s.pop.Loaded?
    ensures Inv(MovePop(s))
  {
    if s.pop.next == None {
      LastStoreKeeps(s);
    }
  }

  /** The worker takes what it saw as the last entry. */
  lemma LastStoreKeeps(s: Sys)
    requires Inv(s) && Enabled(s, PopStep) && s.pop.Loaded? && s.pop.next == None
    ensures Inv(MovePop(s))
  {
  }

  lemma StepInv(s: Sys, e: Step)
    requires Inv(s) && Enabled(s, e)
    ensures Inv(Apply(s, e))
  {
    match e
    case PushStep => if s.push.Ready? { TestKeeps(s); } else if s.push.Tested? { LinkKeeps(s); } else { PostKeeps(s); }
    case WakeStep =>
    case PopStep => if s.pop == Free { LoadKeeps(s); } else { StoreKeeps(s); }
  }

  lemma {:induction false} ReachesInv(s: Sys, es: seq<Step>, t: Sys)
    requires Inv(s) && Reaches(s, es, t)
    ensures Inv(t)
    decreases |es|
  {
    if es != [] {
      StepInv(s, es[0]);
      ReachesInv(Apply(s, es[0]), es[1..], t);
    }
  }

  lemma ReachableInv(s: Sys)
    requires Reachable(s)
    ensures Inv(s)
  {
    var es :| Reaches(EMPTY, es, s);
    ReachesInv(EMPTY, es, s);
  }

  // ---------------------------------------------------------------------------------------------
  // What holds of every run
  // ---------------------------------------------------------------------------------------------

  /** Number of connections in the list. */
  function Length(s: Sys): nat { if s.head.Some? && s.head.value < Known(s) then Known(s) - s.head.value else 0 }

  /**
   While no connection was overtaken: the length of the list is the semaphore's value plus the workers
   woken but not yet done popping, plus one if the pusher has linked but not posted; connections are taken
   in order of arrival, each once; and no woken worker has popped null.
   */
  lemma QueueMatchesSemaphore(s: Sys)
    requires Reachable(s) && s.victim == None
    ensures Length(s) == s.sem + s.woken + (if s.push == HeadSet || s.push == Linked || s.push == Posting then 1 else 0)
    ensures forall i | 0 <= i < |s.taken| :: s.taken[i] == i
    ensures s.nulls == 0 && (s.woken > 0 ==> s.head.Some?)
  {
    ReachableInv(s);
  }

  /** The exact condition: a known connection is out of reach iff the pusher and a worker overtook each other. */
  lemma LostIffOvertaken(s: Sys)
    requires Reachable(s)
    ensures (exists k :: Lost(s, k)) <==> s.victim.Some?
  {
    ReachableInv(s);
    if s.victim.Some? {
      assert Lost(s, s.victim.value);
    } else {
      NothingLost(s);
    }
  }

  lemma NothingLost(s: Sys)
    requires Inv(s) && s.victim == None
    ensures forall k :: !Lost(s, k)
  {
    forall k: Id
      ensures !Lost(s, k)
    {
      if k < |s.taken| {
        assert s.taken[k] == k;
      }
    }
  }

  /** A lost connection stays lost: no worker ever takes it. */
  lemma {:induction false} LostForever(s: Sys, k: Id, es: seq<Step>, t: Sys)
    requires Inv(s) && Lost(s, k) && Reaches(s, es, t)
    ensures Lost(t, k) && k !in t.taken
    decreases |es|
  {
    if es != [] {
      StepInv(s, es[0]);
      LostStep(s, k, es[0]);
      LostForever(Apply(s, es[0]), k, es[1..], t);
    }
  }

  lemma LostStep(s: Sys, k: Id, e: Step)
    requires Inv(s) && Lost(s, k) && Enabled(s, e)
    ensures Lost(Apply(s, e), k)
  {
  }

  // ---------------------------------------------------------------------------------------------
  // Atomic list updates
  // ---------------------------------------------------------------------------------------------

  /** A push of the whole list update, its post, a wake-up, or a whole pop, each as one step. */
  datatype Whole = PushList | Post | Wake | PopList

  function Moves(s: Sys, w: Whole): seq<Step> {
    match w
    case PushList => [PushStep, PushStep, PushStep]
    case Post => [PushStep]
    case Wake => [WakeStep]
    case PopList => if s.head.Some? then [PopStep, PopStep] else [PopStep]
  }

  predicate WholeEnabled(s: Sys, w: Whole) {
    match w
    case PushList => s.push == Ready
    case Post => s.push == Posting
    case Wake => s.sem > 0
    case PopList => s.woken > 0
  }

  ghost predicate WholeRun(s: Sys, ws: seq<Whole>, t: Sys)
    decreases |ws|
  {
    if ws == [] then s == t
    else WholeEnabled(s, ws[0]) && exists u :: Reaches(s, Moves(s, ws[0]), u) && WholeRun(u, ws[1..], t)
  }

  /** Between atomic steps. */
  predicate Settled(s: Sys) { Inv(s) && s.pop == Free && (s.push == Ready || s.push == Posting) && s.victim == None }

  lemma PushListStep(s: Sys, u: Sys)
    requires Settled(s) && s.push == Ready && Reaches(s, Moves(s, PushList), u)
    ensures u.pop == Free && u.push == Posting && u.victim == None
  {
    var s1 := Apply(s, PushStep);
    assert [PushStep, PushStep, PushStep][1..] == [PushStep, PushStep];
    StepInv(s, PushStep);
    assert [PushStep, PushStep][1..] == [PushStep];
    assert [PushStep][1..] == [];
    assert u == Apply(Apply(s1, PushStep), PushStep);
  }

  lemma PopListStep(s: Sys, u: Sys)
    requires Settled(s) && s.woken > 0 && Reaches(s, Moves(s, PopList), u)
    ensures u.pop == Free && u.push == s.push && u.victim == None
  {
    assert [PopStep][1..] == [];
    assert [PopStep, PopStep][1..] == [PopStep];
  }

  lemma WholeStep(s: Sys, w: Whole, u: Sys)
    requires Settled(s) && WholeEnabled(s, w) && Reaches(s, Moves(s, w), u)
    ensures Settled(u)
  {
    ReachesInv(s, Moves(s, w), u);
    match w
    case PushList => PushListStep(s, u);
    case Post => assert [PushStep][1..] == [];
    case Wake => assert [WakeStep][1..] == [];
    case PopList => PopListStep(s, u);
  }

  /** With the list updates atomic nobody is ever overtaken, so no connection is lost and no pop is null. */
  lemma {:induction false} AtomicUpdatesAreSafe(s: Sys, ws: seq<Whole>, t: Sys)
    requires Settled(s) && WholeRun(s, ws, t)
    ensures Settled(t) && t.nulls == 0
    ensures Length(t) == t.sem + t.woken + (if t.push == Posting then 1 else 0)
    ensures t.woken > 0 ==> t.head.Some?
    ensures forall k :: !Lost(t, k)
    ensures forall i | 0 <= i < |t.taken| :: t.taken[i] == i
    decreases |ws|
  {
    if ws == [] {
      NothingLost(s);
    } else {
      var u :| Reaches(s, Moves(s, ws[0]), u) && WholeRun(u, ws[1..], t);
      WholeStep(s, ws[0], u);
      AtomicUpdatesAreSafe(u, ws[1..], t);
    }
  }

  /** A first connection pushed, posted and waited for. */
  lemma FirstWaits() returns (es: seq<Step>, s: Sys)
    ensures Reaches(EMPTY, es, s) && s == Sys([None], Some(0), Some(0), Ready, Free, 0, 1, [], 0, None)
  {
    s := EMPTY;
    es := [];
    assert Reaches(EMPTY, [], EMPTY);
    es, s := Extend(es, s, PushStep);
    es, s := Extend(es, s, PushStep);
    es, s := Extend(es, s, PushStep);
    es, s := Extend(es, s, PushStep);
    es, s := Extend(es, s, WakeStep);
  }

  /** The race as it happens: the second connection is linked behind an entry a worker took meanwhile. */
  lemma RaceLosesConnection() returns (es: seq<Step>, s: Sys)
    ensures Reaches(EMPTY, es, s) && s.victim == Some(1) && Lost(s, 1) && s.taken == [0]
  {
    es, s := FirstWaits();
    es, s := Extend(es, s, PushStep);
    es, s := Extend(es, s, PopStep);
    es, s := Extend(es, s, PopStep);
    es, s := Extend(es, s, PushStep);
  }

  lemma {:induction false} ReachesSnoc(s: Sys, es: seq<Step>, t: Sys, e: Step)
    requires Reaches(s, es, t) && Enabled(t, e)
    ensures Reaches(s, es + [e], Apply(t, e))
    decreases |es|
  {
    if es == [] {
      assert es + [e] == [e] && [e][1..] == [];
      assert Reaches(Apply(t, e), [], Apply(t, e));
    } else {
      assert (es + [e])[1..] == es[1..] + [e];
      ReachesSnoc(Apply(s, es[0]), es[1..], t, e);
    }
  }

  lemma Extend(es: seq<Step>, s: Sys, e: Step) returns (fs: seq<Step>, t: Sys)
    requires Reaches(EMPTY, es, s) && Enabled(s, e)
    ensures t == Apply(s, e) && Reaches(EMPTY, fs, t)
  {
    ReachesSnoc(EMPTY, es, s, e);
    fs, t := es + [e], Apply(s, e);
  }
}
