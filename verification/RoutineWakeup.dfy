/**
  How a data visitor's routine goes to sleep and is woken (cyber/croutine, cyber/data and
  cyber/scheduler/policy), as a transition system.
*/
module RoutineWakeup {

  type Pid = nat   // a processor
  type Did = nat   // a dispatching thread
  type Pos = nat   // an absolute position in the visitor's buffer, the first is 1

  datatype RoutineState = READY | FINISHED | SLEEP | IO_WAIT | DATA_WAIT

  /** Where the routine itself stands, whether or not a processor is running it. */
  datatype Point =
    | Top        // about to set DATA_WAIT
    | Fetch      // about to call TryFetch
    | Failed     // TryFetch returned false, about to yield
    | Callback   // TryFetch returned true, inside the user's callback

  /** Where a processor is in `NextRoutine` and `Resume`. */
  datatype ProcPC =
    | Away
    | Acquired               // holds the routine's lock, about to update its state
    | Tested(clear: bool)    // set the update flag; `clear` if it had been cleared
    | Decided                // about to act on the state that `UpdateState` returns
    | Running                // resumed the routine
    | Yielded                // the routine switched back, about to release the lock

  /** Where a dispatcher is after filling the buffer at `pos`. */
  datatype DispPC =
    | Resting
    | Filled(pos: Pos)     // about to look for a notify callback
    | Called(pos: Pos)     // in NotifyProcessor, about to compare the routine's state to DATA_WAIT
    | Rereading(pos: Pos)  // it was not, about to load it again and compare to IO_WAIT
    | Clearing(pos: Pos)   // saw a waiting state, about to clear the update flag

  /**
    The shared fields; `tail` and `size` are the buffer's, `cursor` is next_msg_index_.
    History: the positions whose dispatch is over, those among them whose dispatch found the
    callback registered and so ran `NotifyProcessor`, and those for which it has cleared the flag
    or seen a state other than DATA_WAIT.
  */
  datatype State = State(
    state: RoutineState,
    updated: bool,
    locked: bool,
    point: Point,
    size: nat,
    tail: nat,
    cursor: nat,
    registered: bool,
    procs: map<Pid, ProcPC>,
    disps: map<Did, DispPC>,
    dispatched: set<Pos>,
    notified: set<Pos>,
    noticed: set<Pos>)

  /**
    Any number of processors may try to run the routine and any number of dispatchers may publish
    to it, in every interleaving.  One action is one access to the state, to the update flag, to
    the lock flag, or one critical section of the buffer's mutex; reading the state again while
    holding the routine's lock belongs to the access before it, since nobody else writes it then.
  */
  datatype Action =
    | Register                                     // RegisterNotifyCallback
    | Publish(d: Did)                              // start Dispatch: fill the buffer
    | Notify(d: Did)                               // next access of that dispatcher
    | Proc(q: Pid, wakeTime: bool)                 // next access of that processor
    | Suspend(q: Pid, wait: RoutineState)          // the callback sleeps or waits
    | FinishCallback(q: Pid)                       // the callback returns, Yield(READY)

  function ProcOf(s: State, q: Pid): ProcPC {
    if q in s.procs then s.procs[q] else Away
  }

  function DispOf(s: State, d: Did): DispPC {
    if d in s.disps then s.disps[d] else Resting
  }

  /** A new routine is READY with its update flag set, and nothing is published. */
  function Init(size: nat): State {
    State(READY, true, false, Top, size, 0, 0, false, map[], map[], {}, {}, {})
  }

  predicate Waiting(st: RoutineState) {
    st.DATA_WAIT? || st.IO_WAIT?
  }

  /** One action; an action that does not apply changes nothing. */
  function Step(s: State, a: Action): State {
    match a
    case Register => s.(registered := true)
    case Publish(d) =>
      if DispOf(s, d).Resting? then s.(tail := s.tail + 1, disps := s.disps[d := Filled(s.tail + 1)]) else s
    case Notify(d) => StepDispatch(s, d)
    case Proc(q, wakeTime) => StepProc(s, q, wakeTime)
    case Suspend(q, w) =>
      if ProcOf(s, q).Running? && s.point.Callback? && (w.SLEEP? || Waiting(w))
      then s.(state := w, procs := s.procs[q := Yielded])
      else s
    case FinishCallback(q) =>
      if ProcOf(s, q).Running? && s.point.Callback?
      then s.(state := READY, point := Top, procs := s.procs[q := Yielded])
      else s
  }

  function StepDispatch(s: State, d: Did): State {
    match DispOf(s, d)
    case Resting => s
    case Filled(p) =>
      if s.registered then s.(disps := s.disps[d := Called(p)])
      else s.(disps := s.disps[d := Resting], dispatched := s.dispatched + {p})
    case Called(p) =>
      if s.state.DATA_WAIT? then s.(disps := s.disps[d := Clearing(p)])
      else s.(disps := s.disps[d := Rereading(p)], noticed := s.noticed + {p})
    case Rereading(p) =>
      if s.state.IO_WAIT? then s.(disps := s.disps[d := Clearing(p)])
      else s.(disps := s.disps[d := Resting], dispatched := s.dispatched + {p}, notified := s.notified + {p})
    case Clearing(p) =>
      s.(updated := false, disps := s.disps[d := Resting],
         dispatched := s.dispatched + {p}, notified := s.notified + {p}, noticed := s.noticed + {p})
  }

  function StepProc(s: State, q: Pid, wakeTime: bool): State {
    match ProcOf(s, q)
    case Away => if s.locked then s else s.(locked := true, procs := s.procs[q := Acquired])
    case Acquired =>
      if s.state.SLEEP? && wakeTime then s.(state := READY, procs := s.procs[q := Decided])
      else s.(updated := true, procs := s.procs[q := Tested(!s.updated)])
    case Tested(clear) =>
      s.(state := if clear && Waiting(s.state) then READY else s.state, procs := s.procs[q := Decided])
    case Decided =>
      if s.state.READY? then s.(procs := s.procs[q := Running])
      else s.(locked := false, procs := s.procs[q := Away])
    case Running => StepRoutine(s, q)
    case Yielded => s.(locked := false, procs := s.procs[q := Away])
  }

  /** `Fetch`: the cursor 0 means newest, a cursor behind the ring jumps to the newest. */
  function FetchPosition(s: State): Pos {
    var first := if s.tail > s.size then s.tail - s.size + 1 else 1;
    if s.cursor == 0 || s.cursor < first then s.tail else s.cursor
  }

  predicate FetchFails(s: State) {
    s.tail == 0 || s.cursor == s.tail + 1
  }

  function StepRoutine(s: State, q: Pid): State {
    match s.point
    case Top => s.(state := DATA_WAIT, point := Fetch)
    case Fetch =>
      if FetchFails(s) then s.(point := Failed)
      else s.(cursor := FetchPosition(s) + 1, point := Callback)
    case Failed => s.(point := Top, procs := s.procs[q := Yielded])
    case Callback => s
  }

  /** The state after a whole schedule. */
  function Execute(s: State, schedule: seq<Action>): State
    decreases |schedule|
  {
    if schedule == [] then s
    else Step(Execute(s, schedule[..|schedule| - 1]), schedule[|schedule| - 1])
  }

  // ---------------------------------------------------------------- invariant

  /** The lock is held by exactly the processor that is not away. */
  ghost predicate LockExclusive(s: State) {
    && (forall q: Pid {:trigger ProcOf(s, q)} :: !ProcOf(s, q).Away? ==> s.locked)
    && (forall q: Pid, r: Pid {:trigger ProcOf(s, q), ProcOf(s, r)} ::
          !ProcOf(s, q).Away? && !ProcOf(s, r).Away? ==> q == r)
  }

  /** How the routine's state and place go together with who is running it. */
  ghost predicate Consistent(s: State) {
    && s.cursor <= s.tail + 1
    && !s.state.FINISHED?
    && (s.state.SLEEP? || s.state.IO_WAIT? ==> s.point.Callback?)
    && (s.point.Fetch? || s.point.Failed? ==> s.state.DATA_WAIT? && exists q: Pid :: ProcOf(s, q).Running?)
    && (forall q: Pid {:trigger ProcOf(s, q)} :: ProcOf(s, q).Running? ==> s.point.Top? ==> s.state.READY?)
    && (forall d: Did {:trigger DispOf(s, d)} :: DispOf(s, d).Resting? || 1 <= DispOf(s, d).pos <= s.tail)
    && (forall p :: p in s.dispatched ==> 1 <= p <= s.tail)
    && (forall p :: p in s.noticed ==> 1 <= p <= s.tail)
    && s.notified <= s.dispatched && s.notified <= s.noticed
    && (forall d: Did {:trigger DispOf(s, d)} :: DispOf(s, d).Rereading? ==> DispOf(s, d).pos in s.noticed)
  }

  /** A processor has consumed a cleared flag and will make the routine ready. */
  ghost predicate BeingWoken(s: State) {
    exists q: Pid :: ProcOf(s, q) == Tested(true)
  }

  /** Before it can park, the routine will try to fetch again. */
  ghost predicate WillFetch(s: State) {
    match s.point
    case Top => s.state.READY? || BeingWoken(s)
    case Fetch => true
    case Failed => false
    case Callback => true
  }

  /** An unread message whose dispatch has noticed the routine leaves a clear flag or a fetch ahead. */
  ghost predicate Awake(s: State) {
    forall p :: p in s.noticed && p >= s.cursor ==> !s.updated || WillFetch(s)
  }

  ghost predicate Inv(s: State) {
    && LockExclusive(s)
    && Consistent(s)
    && Awake(s)
  }

  /** A dispatcher may clear the flag and record its message, and touches nothing else. */
  lemma DispatcherMoves(s: State, d: Did, pc': DispPC, updated': bool,
                        dispatched': set<Pos>, notified': set<Pos>, noticed': set<Pos>)
    requires Inv(s) && (pc'.Resting? || (!DispOf(s, d).Resting? && pc'.pos == DispOf(s, d).pos))
    requires updated' ==> s.updated
    requires notified' <= dispatched' && notified' <= noticed' && s.noticed <= noticed'
    requires forall p :: p in dispatched' || p in noticed' ==> 1 <= p <= s.tail
    requires pc'.Rereading? ==> pc'.pos in noticed'
    requires noticed' <= s.noticed || !updated' || WillFetch(s)
    ensures Inv(s.(updated := updated', disps := s.disps[d := pc'],
                   dispatched := dispatched', notified := notified', noticed := noticed'))
  {
    var s' := s.(updated := updated', disps := s.disps[d := pc'],
                 dispatched := dispatched', notified := notified', noticed := noticed');
    assert forall q :: ProcOf(s', q) == ProcOf(s, q);
    assert LockExclusive(s');
    assert forall e :: DispOf(s', e) == if e == d then pc' else DispOf(s, e);
    assert Consistent(s');
    assert WillFetch(s) ==> WillFetch(s');
  }

  lemma StepRoutineKeepsInv(s: State, q: Pid)
    requires Inv(s) && ProcOf(s, q).Running?
    ensures Inv(StepRoutine(s, q))
  {
    var s' := StepRoutine(s, q);
    OthersStay(s, s', q);
    if s.point.Top? || s.point.Fetch? {
      assert ProcOf(s', q).Running?;
    }
    assert Consistent(s');
  }

  /** A step of processor `q` moves no other processor and no dispatcher. */
  lemma OthersStay(s: State, s': State, q: Pid)
    requires s'.disps == s.disps && forall r :: r != q ==> ProcOf(s', r) == ProcOf(s, r)
    ensures forall e :: DispOf(s', e) == DispOf(s, e)
    ensures LockExclusive(s) && (ProcOf(s, q).Away? ==> !s.locked) && (ProcOf(s', q).Away? <==> !s'.locked)
      ==> LockExclusive(s')
  {
  }

  lemma ProcKeepsLock(s: State, q: Pid, wakeTime: bool)
    requires Inv(s) && !ProcOf(s, q).Running?
    ensures LockExclusive(StepProc(s, q, wakeTime))
  {
    hide Consistent, Awake;
    OthersStay(s, StepProc(s, q, wakeTime), q);
  }

  lemma ProcKeepsConsistent(s: State, q: Pid, wakeTime: bool)
    requires Inv(s) && !ProcOf(s, q).Running?
    ensures Consistent(StepProc(s, q, wakeTime))
  {
    hide Awake;
    var s' := StepProc(s, q, wakeTime);
    OthersStay(s, s', q);
    if s.point.Fetch? || s.point.Failed? {
      var r :| ProcOf(s, r).Running?;
      assert ProcOf(s', r).Running? && s.locked && ProcOf(s, q).Away?;
    }
  }

  lemma ProcKeepsAwake(s: State, q: Pid, wakeTime: bool)
    requires Inv(s) && !ProcOf(s, q).Running?
    ensures Awake(StepProc(s, q, wakeTime))
  {
    var s' := StepProc(s, q, wakeTime);
    assert s.point.Failed? ==> ProcOf(s, q).Away?;
    if ProcOf(s, q).Acquired? && !(s.state.SLEEP? && wakeTime) {
      assert ProcOf(s', q) == Tested(!s.updated);
    }
    assert BeingWoken(s) && !BeingWoken(s') ==> ProcOf(s, q) == Tested(true);
  }

  /** The running routine leaves its callback. */
  lemma LeaveKeepsInv(s: State, q: Pid, state': RoutineState, point': Point)
    requires Inv(s) && ProcOf(s, q).Running? && s.point.Callback?
    requires if state'.READY? then point'.Top? else point'.Callback? && !state'.FINISHED?
    ensures Inv(s.(state := state', point := point', procs := s.procs[q := Yielded]))
  {
    var s' := s.(state := state', point := point', procs := s.procs[q := Yielded]);
    OthersStay(s, s', q);
    assert Consistent(s');
  }

  lemma PublishOrRegisterKeepsInv(s: State, a: Action)
    requires Inv(s) && (a.Publish? || a.Register?)
    ensures Inv(Step(s, a))
  {
    var s' := Step(s, a);
    assert forall q :: ProcOf(s', q) == ProcOf(s, q);
    assert forall e :: DispOf(s', e) == DispOf(s, e) || DispOf(s', e) == Filled(s'.tail);
    assert WillFetch(s) ==> WillFetch(s');
    assert Consistent(s');
  }

  lemma StepKeepsInv(s: State, a: Action)
    requires Inv(s)
    ensures Inv(Step(s, a))
  {
    match a {
      case Proc(q, w) =>
        if ProcOf(s, q).Running? {
          StepRoutineKeepsInv(s, q);
        } else {
          ProcKeepsLock(s, q, w);
          ProcKeepsConsistent(s, q, w);
          ProcKeepsAwake(s, q, w);
        }
      case Publish(_) => PublishOrRegisterKeepsInv(s, a);
      case Register => PublishOrRegisterKeepsInv(s, a);
      case Suspend(q, w) =>
        if Step(s, a) != s {
          LeaveKeepsInv(s, q, w, Callback);
        }
      case FinishCallback(q) =>
        if Step(s, a) != s {
          LeaveKeepsInv(s, q, READY, Top);
        }
      case Notify(d) =>
        hide LockExclusive, Consistent, Awake;
        match DispOf(s, d) {
          case Resting =>
          case Filled(p) =>
            if s.registered {
              DispatcherMoves(s, d, Called(p), s.updated, s.dispatched, s.notified, s.noticed);
            } else {
              DispatcherMoves(s, d, Resting, s.updated, s.dispatched + {p}, s.notified, s.noticed);
            }
          case Called(p) =>
            if s.state.DATA_WAIT? {
              DispatcherMoves(s, d, Clearing(p), s.updated, s.dispatched, s.notified, s.noticed);
            } else {
              DispatcherMoves(s, d, Rereading(p), s.updated, s.dispatched, s.notified, s.noticed + {p});
            }
          case Rereading(p) =>
            if s.state.IO_WAIT? {
              DispatcherMoves(s, d, Clearing(p), s.updated, s.dispatched, s.notified, s.noticed);
            } else {
              DispatcherMoves(s, d, Resting, s.updated, s.dispatched + {p}, s.notified + {p}, s.noticed);
            }
          case Clearing(p) =>
            DispatcherMoves(s, d, Resting, false, s.dispatched + {p}, s.notified + {p}, s.noticed + {p});
        }
    }
  }

  lemma {:induction false} ReachableInv(size: nat, schedule: seq<Action>)
    ensures Inv(Execute(Init(size), schedule))
    decreases |schedule|
  {
    if schedule != [] {
      var k := |schedule| - 1;
      ReachableInv(size, schedule[..k]);
      StepKeepsInv(Execute(Init(size), schedule[..k]), schedule[k]);
    }
  }

  // ---------------------------------------------------------------- whole runs

  /** The routine sits in DATA_WAIT at the top of its loop and its update flag is used up. */
  ghost predicate ParkedForGood(s: State) {
    && s.point.Top? && s.state.DATA_WAIT? && s.updated
    && !BeingWoken(s)
  }

  /**
    No lost wake-up: in no interleaving is the routine parked with its update flag used up while
    a message whose dispatch ran the notify callback to its end is still unread.
  */
  lemma NoLostWakeup(size: nat, schedule: seq<Action>, p: Pos)
    ensures var s := Execute(Init(size), schedule);
      ParkedForGood(s) && p in s.notified ==> p < s.cursor
  {
    ReachableInv(size, schedule);
  }

  /** Two processors never run, or update, the same routine at once. */
  lemma OneProcessorAtATime(size: nat, schedule: seq<Action>, q: Pid, r: Pid)
    ensures var s := Execute(Init(size), schedule);
      !ProcOf(s, q).Away? && !ProcOf(s, r).Away? ==> q == r
  {
    ReachableInv(size, schedule);
    var s := Execute(Init(size), schedule);
    assert !ProcOf(s, q).Away? && !ProcOf(s, r).Away? ==> q == r;
  }

  function Repeat(q: Pid, n: nat): seq<Action> {
    if n == 0 then [] else Repeat(q, n - 1) + [Proc(q, false)]
  }

  /** What a dispatcher does with four accesses that nobody disturbs. */
  function FourNotifies(s: State, d: Did): State {
    Step(Step(Step(Step(s, Notify(d)), Notify(d)), Notify(d)), Notify(d))
  }

  /**
    Exactly when a notify wakes: an undisturbed dispatcher that has filled the buffer and finds the
    callback clears the update flag if and only if the routine waits, for data or for IO.
  */
  lemma NotifyClearsIff(s: State, d: Did)
    requires DispOf(s, d).Filled? && s.registered
    ensures var s' := FourNotifies(s, d);
      && DispOf(s', d).Resting? && DispOf(s, d).pos in s'.notified && s'.state == s.state
      && s'.updated == if s.state.DATA_WAIT? || s.state.IO_WAIT? then false else s.updated
  {
    var s1 := Step(s, Notify(d));
    assert s1 == s.(disps := s1.disps) && DispOf(s1, d).Called?;
    var s2 := Step(s1, Notify(d));
    assert s2.state == s.state && s2.updated == s.updated;
    var s3 := Step(s2, Notify(d));
  }

  /** Acquire, test, decide: what four accesses of one processor do, at most three of which it needs to give up. */
  function FourAccesses(s: State, q: Pid, wakeTime: bool): State {
    Step(Step(Step(Step(s, Proc(q, wakeTime)), Proc(q, wakeTime)), Proc(q, wakeTime)), Proc(q, wakeTime))
  }

  /**
    Exactly which routines a processor resumes, from every reachable state in which no processor has
    the routine: one that is ready, one whose sleep is over, and one that waits for data or IO and
    whose update flag is clear.  Any other it leaves alone, and lets go of it.
  */
  lemma ResumesIff(size: nat, schedule: seq<Action>, q: Pid, wakeTime: bool)
    requires !Execute(Init(size), schedule).locked
    ensures var s := Execute(Init(size), schedule);
      var s' := FourAccesses(s, q, wakeTime);
      if s.state.READY? || (s.state.SLEEP? && wakeTime) || (Waiting(s.state) && !s.updated)
      then ProcOf(s', q).Running? && (s.point.Callback? ==> s'.state.READY?)
      else ProcOf(s', q).Away? && !s'.locked && s'.state == s.state && s'.point == s.point
  {
    ReachableInv(size, schedule);
    var s := Execute(Init(size), schedule);
    assert ProcOf(s, q).Away? && !s.state.FINISHED?;
    hide Execute, Inv;
    var s1 := Step(s, Proc(q, wakeTime));
    assert s1 == s.(locked := true, procs := s.procs[q := Acquired]);
    var s2 := Step(s1, Proc(q, wakeTime));
    if s.state.SLEEP? && wakeTime {
      assert s2 == s1.(state := READY, procs := s2.procs) && ProcOf(s2, q).Decided?;
    } else {
      assert s2 == s1.(updated := true, procs := s2.procs) && ProcOf(s2, q) == Tested(!s.updated);
    }
    var s3 := Step(s2, Proc(q, wakeTime));
  }

  /**
    The wake-up is used: if a notified message is unread while the routine stands at the top of
    its loop and no processor has it, then the next processor to look at it runs it and, left
    alone, fetches a message on its sixth access: the one at the cursor, with at most `size` messages
    unread and an earlier fetch, and the newest otherwise.
  */
  lemma NextProcessorDelivers(size: nat, schedule: seq<Action>, p: Pos, q: Pid)
    requires var s := Execute(Init(size), schedule);
      s.point.Top? && !s.locked && p in s.notified && p >= s.cursor
    ensures var s := Execute(Init(size), schedule);
      var s' := Execute(s, Repeat(q, 6));
      && s'.point.Callback? && s'.cursor > s.cursor
      && s'.cursor == if 0 < s.cursor && s.tail - s.cursor < s.size then s.cursor + 1 else s.tail + 1
  {
    ReachableInv(size, schedule);
    var s := Execute(Init(size), schedule);
    assert ProcOf(s, q).Away?;
    assert !BeingWoken(s) by {
      assert forall r :: ProcOf(s, r).Away?;
    }
    SixAccesses(s, q);
  }

  /** What three accesses of a processor do. */
  function ThreeAccesses(s: State, q: Pid): State {
    Step(Step(Step(s, Proc(q, false)), Proc(q, false)), Proc(q, false))
  }

  /** Acquire, consume the flag, make ready. */
  lemma FirstThree(s: State, q: Pid)
    requires !s.locked && ProcOf(s, q).Away? && (s.state.READY? || (!s.updated && s.state.DATA_WAIT?))
    ensures var s' := ThreeAccesses(s, q);
      s' == s.(locked := true, updated := true, state := READY, procs := s.procs[q := Decided])
  {
    var s1 := Step(s, Proc(q, false));
    assert s1 == s.(locked := true, procs := s.procs[q := Acquired]);
    var s2 := Step(s1, Proc(q, false));
    assert s2 == s.(locked := true, updated := true, procs := s.procs[q := Tested(!s.updated)]);
    var s3 := Step(s2, Proc(q, false));
    assert s3.procs == s.procs[q := Decided];
  }

  /** Resume, set DATA_WAIT, fetch. */
  lemma LastThree(s: State, q: Pid)
    requires ProcOf(s, q).Decided? && s.state.READY? && s.point.Top? && !FetchFails(s)
    ensures var s' := ThreeAccesses(s, q);
      s'.point.Callback? && s'.cursor == FetchPosition(s) + 1
  {
    var s1 := Step(s, Proc(q, false));
    assert s1 == s.(procs := s.procs[q := Running]);
    var s2 := Step(s1, Proc(q, false));
    assert s2 == s1.(state := DATA_WAIT, point := Fetch);
  }

  lemma SixAccesses(s: State, q: Pid)
    requires s.point.Top? && !s.locked && ProcOf(s, q).Away? && !FetchFails(s)
    requires s.state.READY? || (!s.updated && s.state.DATA_WAIT?)
    ensures var s' := Execute(s, Repeat(q, 6));
      s'.point.Callback? && s'.cursor == FetchPosition(s) + 1
  {
    hide Step, ThreeAccesses, Execute, Repeat;
    FirstThree(s, q);
    ThreeMore(s, q, 0);
    ThreeMore(s, q, 3);
    LastThree(s.(locked := true, updated := true, state := READY, procs := s.procs[q := Decided]), q);
  }

  lemma ThreeMore(s: State, q: Pid, n: nat)
    ensures Repeat(q, 0) == [] && Execute(s, []) == s
    ensures Execute(s, Repeat(q, n + 3)) == ThreeAccesses(Execute(s, Repeat(q, n)), q)
  {
    hide Step;
    RepeatStep(s, q, n);
    RepeatStep(s, q, n + 1);
    RepeatStep(s, q, n + 2);
  }

  lemma RepeatStep(s: State, q: Pid, n: nat)
    ensures Execute(s, Repeat(q, n + 1)) == Step(Execute(s, Repeat(q, n)), Proc(q, false))
  {
    assert Repeat(q, n + 1)[..|Repeat(q, n + 1)| - 1] == Repeat(q, n);
  }

  /** Before anything is published, a processor runs the routine once, which waits for data. */
  lemma RunOnceAndWait(size: nat)
    ensures var s := Init(size);
      Execute(s, Repeat(0, 8)) == s.(state := DATA_WAIT, procs := map[0 := Away])
  {
    hide Step, ThreeAccesses, Execute, Repeat;
    var s := Init(size);
    FirstThree(s, 0);
    ThreeMore(s, 0, 0);
    ThreeMore(s, 0, 3);
    RepeatStep(s, 0, 6);
    RepeatStep(s, 0, 7);
    var t := s.(locked := true, procs := map[0 := Decided]);
    assert s.procs[0 := Decided] == map[0 := Decided];
    NothingToFetchYet(t);
    var u := t.(state := DATA_WAIT, point := Failed, procs := map[0 := Running]);
    YieldAndRelease(u);
  }

  lemma NothingToFetchYet(s: State)
    requires s.procs == map[0 := Decided] && s.state.READY? && s.point.Top? && s.tail == 0
    ensures ThreeAccesses(s, 0) == s.(state := DATA_WAIT, point := Failed, procs := map[0 := Running])
  {
    var s1 := Step(s, Proc(0, false));
    assert s1 == s.(procs := map[0 := Running]);
    var s2 := Step(s1, Proc(0, false));
    assert s2 == s1.(state := DATA_WAIT, point := Fetch);
  }

  lemma YieldAndRelease(s: State)
    requires s.procs == map[0 := Running] && s.point.Failed?
    ensures Step(Step(s, Proc(0, false)), Proc(0, false)) == s.(point := Top, locked := false, procs := map[0 := Away])
  {
    var s1 := Step(s, Proc(0, false));
    assert s1 == s.(point := Top, procs := map[0 := Yielded]);
  }

  /**
    The callback must be registered: `CreateTask` lets the routine run before it registers the
    callback, and a message dispatched in between can stay unread with the routine parked, also when
    the callback has been registered behind it.
  */
  lemma UnregisteredDispatchCanBeLost(size: nat)
    ensures exists schedule: seq<Action>, p: Pos ::
      var s := Execute(Init(size), schedule);
      && NobodyCalls(Init(size), schedule) && s.registered
      && ParkedForGood(s) && !s.locked && p in s.dispatched && p >= s.cursor
  {
    hide Step, Execute, Repeat, NobodyCalls, FindsNoCallback, ParkedForGood;
    var s := Init(size);
    var run := Repeat(0, 8);
    RunOnceAndWait(size);
    RepeatCallsNobody(s, 0, 8);
    OneMore(s, run, Publish(0));
    OneMore(s, run + [Publish(0)], Notify(0));
    OneMore(s, run + [Publish(0)] + [Notify(0)], Register);
    var y := Execute(s, run + [Publish(0)] + [Notify(0)] + [Register]);
    LoseOne(Execute(s, run));
    assert ParkedForGood(y) && !y.locked && 1 in y.dispatched && 1 >= y.cursor;
  }

  /** The message is filled, no callback is found, and then the callback is registered. */
  lemma LoseOne(x: State)
    requires x.point.Top? && x.state.DATA_WAIT? && x.updated && !x.locked && !x.registered
    requires x.procs == map[0 := Away] && x.disps == map[] && x.tail == 0 && x.cursor == 0
    ensures FindsNoCallback(x, Publish(0)) && FindsNoCallback(Step(x, Publish(0)), Notify(0))
    ensures FindsNoCallback(Step(Step(x, Publish(0)), Notify(0)), Register)
    ensures var y := Step(Step(Step(x, Publish(0)), Notify(0)), Register);
      ParkedForGood(y) && !y.locked && y.registered && 1 in y.dispatched && y.cursor == 0
  {
    var x1 := Step(x, Publish(0));
    assert x1 == x.(tail := 1, disps := map[0 := Filled(1)]);
    var x2 := Step(x1, Notify(0));
    assert x2 == x1.(disps := map[0 := Resting], dispatched := x.dispatched + {1});
    assert forall q :: ProcOf(x2, q).Away?;
  }

  // ---------------------------------------------------------------- dispatches that find no callback

  /** No dispatch of the run looks for the callback when it is registered; `CreateTask` may register it any time. */
  ghost predicate NobodyCalls(s: State, schedule: seq<Action>)
    decreases |schedule|
  {
    schedule != [] ==>
      var k := |schedule| - 1;
      NobodyCalls(s, schedule[..k]) && FindsNoCallback(Execute(s, schedule[..k]), schedule[k])
  }

  predicate FindsNoCallback(s: State, a: Action) {
    a.Notify? && DispOf(s, a.d).Filled? ==> !s.registered
  }

  /** Nobody has cleared the update flag, and nobody is about to. */
  ghost predicate NeverNotified(s: State) {
    && s.updated
    && (forall d: Did {:trigger DispOf(s, d)} :: DispOf(s, d).Resting? || DispOf(s, d).Filled?)
    && !BeingWoken(s)
  }

  /** While the flag is set, a processor that tests it finds it so. */
  lemma NobodyIsWoken(s: State, a: Action)
    requires s.updated && !BeingWoken(s) && !a.Notify? && !a.Publish?
    ensures Step(s, a).updated && !BeingWoken(Step(s, a))
  {
    var s' := Step(s, a);
    if a.Proc? {
      TestsTheFlag(s, a.q, a.wakeTime);
    } else {
      assert forall q :: ProcOf(s', q) == ProcOf(s, q) || ProcOf(s', q).Yielded?;
    }
  }

  lemma TestsTheFlag(s: State, q: Pid, wakeTime: bool)
    requires s.updated && !BeingWoken(s)
    ensures var s' := StepProc(s, q, wakeTime); s'.updated && !BeingWoken(s')
  {
    var s' := StepProc(s, q, wakeTime);
    assert ProcOf(s', q) != Tested(true);
    assert forall r :: r != q ==> ProcOf(s', r) == ProcOf(s, r);
  }

  lemma StepNeverNotified(s: State, a: Action)
    requires NeverNotified(s) && FindsNoCallback(s, a)
    ensures NeverNotified(Step(s, a))
  {
    var s' := Step(s, a);
    if a.Notify? {
      assert forall q :: ProcOf(s', q) == ProcOf(s, q);
      assert forall d :: d != a.d ==> DispOf(s', d) == DispOf(s, d);
    } else if a.Publish? {
      assert forall q :: ProcOf(s', q) == ProcOf(s, q);
      assert forall d :: DispOf(s', d) == DispOf(s, d) || DispOf(s', d).Filled?;
    } else {
      assert forall d :: DispOf(s', d) == DispOf(s, d);
      NobodyIsWoken(s, a);
    }
  }

  lemma {:induction false} RunNeverNotified(s: State, schedule: seq<Action>)
    requires NeverNotified(s) && NobodyCalls(s, schedule)
    ensures NeverNotified(Execute(s, schedule))
    decreases |schedule|
  {
    if schedule != [] {
      var k := |schedule| - 1;
      RunNeverNotified(s, schedule[..k]);
      StepNeverNotified(Execute(s, schedule[..k]), schedule[k]);
    }
  }

  /** Whoever has the lock has not resumed the routine, which waits for data. */
  ghost predicate Asleep(s: State) {
    && s.point.Top? && s.state.DATA_WAIT?
    && (forall q: Pid {:trigger ProcOf(s, q)} :: !ProcOf(s, q).Running?)
  }

  lemma StepAsleep(s: State, a: Action)
    requires NeverNotified(s) && Asleep(s)
    ensures Asleep(Step(s, a)) && Step(s, a).cursor == s.cursor
  {
    var s' := Step(s, a);
    assert forall q :: ProcOf(s', q) == ProcOf(s, q) || (a.Proc? && q == a.q) || ProcOf(s', q).Yielded?;
  }

  /** Processors look at the routine, dispatchers publish to it, the callback is registered, and it sleeps on. */
  lemma {:induction false} SleepsOn(s: State, more: seq<Action>)
    requires NeverNotified(s) && Asleep(s) && NobodyCalls(s, more)
    ensures var s' := Execute(s, more); NeverNotified(s') && Asleep(s') && s'.cursor == s.cursor
    decreases |more|
  {
    if more != [] {
      var k := |more| - 1;
      SleepsOn(s, more[..k]);
      hide NeverNotified, Asleep, Step;
      StepNeverNotified(Execute(s, more[..k]), more[k]);
      StepAsleep(Execute(s, more[..k]), more[k]);
    }
  }

  lemma OneMore(s: State, schedule: seq<Action>, a: Action)
    ensures Execute(s, schedule + [a]) == Step(Execute(s, schedule), a)
    ensures NobodyCalls(s, schedule + [a]) <==> NobodyCalls(s, schedule) && FindsNoCallback(Execute(s, schedule), a)
  {
    assert (schedule + [a])[..|schedule + [a]| - 1] == schedule;
  }

  lemma {:induction false} RepeatCallsNobody(s: State, q: Pid, n: nat)
    ensures NobodyCalls(s, Repeat(q, n))
  {
    if n > 0 {
      RepeatCallsNobody(s, q, n - 1);
      assert Repeat(q, n)[..|Repeat(q, n)| - 1] == Repeat(q, n - 1);
    }
  }

  /**
    Exactly when a message whose dispatch found no callback is lost.  With the routine at rest, and
    as long as no dispatch finds the callback registered, some continuation reads on if and only if
    the routine is READY.  In DATA_WAIT, whatever processors and dispatchers do, and although the
    callback is registered right then, it is not read.
  */
  lemma UnregisteredIsReadIff(size: nat, schedule: seq<Action>, p: Pos)
    ensures var s := Execute(Init(size), schedule);
      NobodyCalls(Init(size), schedule) && AtRestWithUnread(s, p) ==>
        ((exists more: seq<Action> :: NobodyCalls(s, more) && Execute(s, more).cursor > s.cursor) <==> s.state.READY?)
  {
    var s := Execute(Init(size), schedule);
    if NobodyCalls(Init(size), schedule) && AtRestWithUnread(s, p) {
      ReachableInv(size, schedule);
      RunNeverNotified(Init(size), schedule);
      assert forall q :: ProcOf(s, q).Away?;
      if s.state.READY? {
        SixAccesses(s, 0);
        RepeatCallsNobody(s, 0, 6);
      } else {
        forall more: seq<Action> | NobodyCalls(s, more) ensures Execute(s, more).cursor == s.cursor {
          SleepsOn(s, more);
        }
      }
    }
  }

  /** No processor has the routine, and the message at `p`, whose dispatch is over, is unread. */
  predicate AtRestWithUnread(s: State, p: Pos) {
    s.point.Top? && !s.locked && p in s.dispatched && p >= s.cursor
  }
}
