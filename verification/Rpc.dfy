/**
  Requests and responses between any number of clients and a service, of cyber/service/client.h and
  cyber/service/service.h, over a network that drops, duplicates, delays and reorders.  Clients are
  told apart by their writer ids; sequence numbers do not wrap.
*/
module Rpc {
  import opened Common

  type WriterId = nat
  type Promise = nat   // the number of the call, over all clients

  /** A request as it travels: the spare id and the sequence number of its header, and its content. */
  datatype Request<Q> = Request(spareId: WriterId, seqNum: nat, content: Q)

  datatype Response<R> = Response(spareId: WriterId, seqNum: nat, content: R)

  /** `calling` is the call that holds the client's mutex, transmitted but not yet pending. */
  datatype Client = Client(sequenceNumber: nat, pending: map<nat, Promise>, calling: Option<Promise>)

  /**
    The clients, the service's task list and the task its worker runs, followed by history: every
    request transmitted, what the service computed, every response transmitted, and every value
    given to a promise, in order.
  */
  datatype State<Q(==), R(==)> = State(
    clients: map<WriterId, Client>,
    tasks: seq<Request<Q>>,
    current: Option<Request<Q>>,
    calls: seq<Request<Q>>,
    computed: set<(Request<Q>, R)>,
    responses: set<Response<R>>,
    fulfilled: seq<(Promise, R)>)

  datatype Action<Q, R> =
    | StartCall(client: WriterId, content: Q)   // takes the mutex, counts, transmits
    | FinishCall(client: WriterId)              // enters the pending request, releases the mutex
    | DeliverRequest(call: nat)                 // a copy of a transmitted request reaches the service
    | TakeTask
    | Respond(result: R)                        // the service callback's result is transmitted
    | DeliverResponse(client: WriterId, response: Response<R>)

  function Init<Q, R>(): State<Q, R> {
    State(map[], [], None, [], {}, {}, [])
  }

  function ClientOf<Q, R>(s: State<Q, R>, c: WriterId): Client {
    if c in s.clients then s.clients[c] else Client(0, map[], None)
  }

  function With<Q, R>(s: State<Q, R>, c: WriterId, client: Client): State<Q, R> {
    s.(clients := s.clients[c := client])
  }

  function Step<Q, R>(s: State<Q, R>, a: Action<Q, R>): State<Q, R> {
    match a
    case StartCall(c, content) => Start(s, c, content)
    case FinishCall(c) => Finish(s, c)
    case DeliverRequest(call) =>
      if call < |s.calls| then s.(tasks := s.tasks + [s.calls[call]]) else s
    case TakeTask =>
      if s.current.None? && s.tasks != [] then s.(current := Some(s.tasks[0]), tasks := s.tasks[1..]) else s
    case Respond(r) =>
      if s.current.None? then s
      else
        var q := s.current.some;
        s.(current := None, computed := s.computed + {(q, r)},
           responses := s.responses + {Response(q.spareId, q.seqNum, r)})
    case DeliverResponse(c, response) => if response in s.responses then Handle(s, c, response) else s
  }

  /** `AsyncSendRequest` up to and with `Transmit`. */
  function Start<Q, R>(s: State<Q, R>, c: WriterId, content: Q): State<Q, R> {
    var client := ClientOf(s, c);
    if client.calling.Some? then s
    else
      var n := client.sequenceNumber + 1;
      With(s, c, client.(sequenceNumber := n, calling := Some(|s.calls|)))
        .(calls := s.calls + [Request(c, n, content)])
  }

  /** The rest of it, under the same lock. */
  function Finish<Q, R>(s: State<Q, R>, c: WriterId): State<Q, R> {
    var client := ClientOf(s, c);
    if client.calling.None? then s
    else With(s, c, client.(pending := client.pending[client.sequenceNumber := client.calling.some], calling := None))
  }

  /** `HandleResponse`; it needs the mutex, so it cannot run between the two steps of a call. */
  function Handle<Q, R>(s: State<Q, R>, c: WriterId, response: Response<R>): State<Q, R> {
    var client := ClientOf(s, c);
    if client.calling.Some? || response.spareId != c || response.seqNum !in client.pending then s
    else
      With(s, c, client.(pending := client.pending - {response.seqNum}))
        .(fulfilled := s.fulfilled + [(client.pending[response.seqNum], response.content)])
  }

  function Execute<Q, R>(s: State<Q, R>, schedule: seq<Action<Q, R>>): State<Q, R>
    decreases |schedule|
  {
    if schedule == [] then s
    else Step(Execute(s, schedule[..|schedule| - 1]), schedule[|schedule| - 1])
  }

  // ---------------------------------------------------------------- invariant

  /** Every client numbers its calls from 1 on, each number once. */
  ghost predicate Numbered<Q, R>(s: State<Q, R>) {
    && (forall p: nat :: p < |s.calls| ==> 1 <= s.calls[p].seqNum <= ClientOf(s, s.calls[p].spareId).sequenceNumber)
    && (forall p: nat, q: nat :: p < q < |s.calls| && s.calls[p].spareId == s.calls[q].spareId ==>
          s.calls[p].seqNum < s.calls[q].seqNum)
  }

  ghost predicate Fulfilled<Q, R>(s: State<Q, R>, p: Promise) {
    exists i: nat :: i < |s.fulfilled| && s.fulfilled[i].0 == p
  }

  ghost predicate IsPending<Q, R>(s: State<Q, R>, p: Promise)
    requires p < |s.calls|
  {
    var q := s.calls[p];
    q.seqNum in ClientOf(s, q.spareId).pending && ClientOf(s, q.spareId).pending[q.seqNum] == p
  }

  ghost predicate IsCalling<Q, R>(s: State<Q, R>, p: Promise)
    requires p < |s.calls|
  {
    ClientOf(s, s.calls[p].spareId).calling == Some(p)
  }

  /** Every call is being made, pending or fulfilled, and only one of these. */
  ghost predicate OnePlace<Q, R>(s: State<Q, R>) {
    forall p: Promise {:trigger s.calls[p]} :: p < |s.calls| ==>
      if Fulfilled(s, p) then !IsPending(s, p) && !IsCalling(s, p) else IsPending(s, p) <==> !IsCalling(s, p)
  }

  /** What a client holds are calls of its own; the one it makes has its current number. */
  ghost predicate HoldsOwn<Q, R>(s: State<Q, R>) {
    && (forall c: WriterId, n: nat {:trigger n in ClientOf(s, c).pending} :: n in ClientOf(s, c).pending ==>
          var p := ClientOf(s, c).pending[n];
          p < |s.calls| && s.calls[p].spareId == c && s.calls[p].seqNum == n)
    && (forall c: WriterId :: ClientOf(s, c).calling.Some? ==>
          var p := ClientOf(s, c).calling.some;
          p < |s.calls| && s.calls[p].spareId == c && s.calls[p].seqNum == ClientOf(s, c).sequenceNumber)
  }

  /** The service works on transmitted requests only, and answers with what it computed for them. */
  ghost predicate Honest<Q, R>(s: State<Q, R>) {
    && (forall q :: q in s.tasks ==> q in s.calls)
    && (s.current.Some? ==> s.current.some in s.calls)
    && (forall x :: x in s.computed ==> x.0 in s.calls)
    && (forall r {:trigger r in s.responses} :: r in s.responses ==> Answers(s, r))
  }

  ghost predicate Answers<Q, R>(s: State<Q, R>, r: Response<R>) {
    exists p: nat :: p < |s.calls| && IsAnswer(s, p, r)
  }

  ghost predicate IsAnswer<Q, R>(s: State<Q, R>, p: nat, r: Response<R>)
    requires p < |s.calls|
  {
    s.calls[p].spareId == r.spareId && s.calls[p].seqNum == r.seqNum && (s.calls[p], r.content) in s.computed
  }

  /** Promises get one value each, computed from their own request. */
  ghost predicate Right<Q, R>(s: State<Q, R>) {
    && (forall i: nat, j: nat :: i < j < |s.fulfilled| ==> s.fulfilled[i].0 != s.fulfilled[j].0)
    && (forall i: nat :: i < |s.fulfilled| ==>
          s.fulfilled[i].0 < |s.calls| && (s.calls[s.fulfilled[i].0], s.fulfilled[i].1) in s.computed)
  }

  ghost predicate Inv<Q, R>(s: State<Q, R>) {
    Numbered(s) && OnePlace(s) && HoldsOwn(s) && Honest(s) && Right(s)
  }

  // ---------------------------------------------------------------- the client's steps

  lemma StartKeepsNumbers<Q, R>(s: State<Q, R>, c: WriterId, content: Q)
    requires Numbered(s) && HoldsOwn(s)
    ensures Numbered(Start(s, c, content)) && HoldsOwn(Start(s, c, content))
  {
    var client, s' := ClientOf(s, c), Start(s, c, content);
    if client.calling.None? {
      assert forall d :: d != c ==> ClientOf(s', d) == ClientOf(s, d);
      assert ClientOf(s', c).pending == client.pending;
      forall d: WriterId, n: nat | n in ClientOf(s', d).pending
        ensures var p := ClientOf(s', d).pending[n]; p < |s'.calls| && s'.calls[p].spareId == d && s'.calls[p].seqNum == n
      {
        assert n in ClientOf(s, d).pending;
      }
    }
  }

  lemma StartKeepsPlaces<Q, R>(s: State<Q, R>, c: WriterId, content: Q)
    requires OnePlace(s) && HoldsOwn(s) && Right(s)
    ensures OnePlace(Start(s, c, content))
  {
    var client, s' := ClientOf(s, c), Start(s, c, content);
    if client.calling.None? {
      assert forall d :: d != c ==> ClientOf(s', d) == ClientOf(s, d);
      var k := |s.calls|;
      forall p: Promise | p < |s'.calls|
        ensures if Fulfilled(s', p) then !IsPending(s', p) && !IsCalling(s', p) else IsPending(s', p) <==> !IsCalling(s', p)
      {
        assert Fulfilled(s', p) <==> Fulfilled(s, p);
        if p < k {
          assert s'.calls[p] == s.calls[p];
        } else {
          assert !IsPending(s', p);
        }
      }
    }
  }

  /** New calls do not disturb the service or the promises that have their value. */
  lemma CallsGrow<Q, R>(s: State<Q, R>, s': State<Q, R>)
    requires Honest(s) && Right(s) && s.calls <= s'.calls
    requires s' == s.(calls := s'.calls, clients := s'.clients)
    ensures Honest(s') && Right(s')
  {
    forall r | r in s'.responses ensures Answers(s', r) {
      assert Answers(s, r);
      var p: nat :| p < |s.calls| && IsAnswer(s, p, r);
      assert IsAnswer(s', p, r);
    }
  }

  lemma FinishKeepsInv<Q, R>(s: State<Q, R>, c: WriterId)
    requires Inv(s)
    ensures Inv(Finish(s, c))
  {
    var client, s' := ClientOf(s, c), Finish(s, c);
    if client.calling.Some? {
      CallsGrow(s, s');
      FinishKeepsPlaces(s, c);
      FinishKeepsNumbers(s, c);
    }
  }

  lemma FinishKeepsPlaces<Q, R>(s: State<Q, R>, c: WriterId)
    requires Numbered(s) && OnePlace(s) && HoldsOwn(s)
    ensures OnePlace(Finish(s, c))
  {
    var client, s' := ClientOf(s, c), Finish(s, c);
    if client.calling.Some? {
      assert forall d :: d != c ==> ClientOf(s', d) == ClientOf(s, d);
      var k, n := client.calling.some, client.sequenceNumber;
      assert n !in client.pending;
      forall p: Promise | p < |s'.calls|
        ensures if Fulfilled(s', p) then !IsPending(s', p) && !IsCalling(s', p) else IsPending(s', p) <==> !IsCalling(s', p)
      {
        assert Fulfilled(s', p) <==> Fulfilled(s, p);
        assert s.calls[p].spareId == c && s.calls[p].seqNum == n ==> p == k;
      }
    }
  }

  lemma FinishKeepsNumbers<Q, R>(s: State<Q, R>, c: WriterId)
    requires Numbered(s) && HoldsOwn(s)
    ensures Numbered(Finish(s, c)) && HoldsOwn(Finish(s, c))
  {
    hide Fulfilled, IsPending, IsCalling;
    var client, s' := ClientOf(s, c), Finish(s, c);
    if client.calling.Some? {
      assert forall d :: d != c ==> ClientOf(s', d) == ClientOf(s, d);
      forall d: WriterId, m: nat | m in ClientOf(s', d).pending
        ensures var p := ClientOf(s', d).pending[m]; p < |s'.calls| && s'.calls[p].spareId == d && s'.calls[p].seqNum == m
      {
        assert d != c || m != client.sequenceNumber ==> m in ClientOf(s, d).pending;
      }
    }
  }

  // ---------------------------------------------------------------- a response arrives

  /** The pending request that a response of client `c` fulfils. */
  ghost predicate Accepts<Q, R>(s: State<Q, R>, c: WriterId, r: Response<R>) {
    ClientOf(s, c).calling.None? && r.spareId == c && r.seqNum in ClientOf(s, c).pending
  }

  lemma HandleKeepsPlaces<Q, R>(s: State<Q, R>, c: WriterId, r: Response<R>)
    requires OnePlace(s) && HoldsOwn(s) && Accepts(s, c, r)
    ensures OnePlace(Handle(s, c, r)) && HoldsOwn(Handle(s, c, r))
  {
    var client, s' := ClientOf(s, c), Handle(s, c, r);
    var k := client.pending[r.seqNum];
    assert forall d :: d != c ==> ClientOf(s', d) == ClientOf(s, d);
    assert k < |s.calls| && IsPending(s, k) && !Fulfilled(s, k);
    forall p: Promise | p < |s'.calls|
      ensures if Fulfilled(s', p) then !IsPending(s', p) && !IsCalling(s', p) else IsPending(s', p) <==> !IsCalling(s', p)
    {
      FulfilledNext(s, s', k, r.content, p);
    }
  }

  lemma FulfilledNext<Q, R>(s: State<Q, R>, s': State<Q, R>, k: Promise, v: R, p: Promise)
    requires s'.fulfilled == s.fulfilled + [(k, v)]
    ensures Fulfilled(s', p) <==> p == k || Fulfilled(s, p)
  {
    if p == k {
      assert s'.fulfilled[|s.fulfilled|].0 == p;
    } else if Fulfilled(s, p) {
      var i: nat :| i < |s.fulfilled| && s.fulfilled[i].0 == p;
      assert s'.fulfilled[i].0 == p;
    }
  }

  /** The promise found under the response's number is the one whose request was answered. */
  lemma AcceptedIsAnswered<Q, R>(s: State<Q, R>, c: WriterId, r: Response<R>)
    requires Inv(s) && Accepts(s, c, r) && r in s.responses
    ensures var k := ClientOf(s, c).pending[r.seqNum];
      k < |s.calls| && s.calls[k].spareId == c && s.calls[k].seqNum == r.seqNum
      && (s.calls[k], r.content) in s.computed && !Fulfilled(s, k)
  {
    var k := ClientOf(s, c).pending[r.seqNum];
    assert Answers(s, r);
    var p: nat :| p < |s.calls| && IsAnswer(s, p, r);
    assert p == k;
    assert IsPending(s, k);
  }

  lemma HandleKeepsRight<Q, R>(s: State<Q, R>, c: WriterId, r: Response<R>)
    requires Right(s) && Numbered(s) && Honest(s) && Accepts(s, c, r)
    requires var k := ClientOf(s, c).pending[r.seqNum];
      k < |s.calls| && (s.calls[k], r.content) in s.computed && !Fulfilled(s, k)
    ensures Right(Handle(s, c, r)) && Numbered(Handle(s, c, r)) && Honest(Handle(s, c, r))
  {
    var s' := Handle(s, c, r);
    assert forall d :: ClientOf(s', d).sequenceNumber == ClientOf(s, d).sequenceNumber;
    forall x | x in s'.responses ensures Answers(s', x) {
      assert Answers(s, x);
      var p: nat :| p < |s.calls| && IsAnswer(s, p, x);
      assert IsAnswer(s', p, x);
    }
  }

  lemma HandleKeepsInv<Q, R>(s: State<Q, R>, c: WriterId, r: Response<R>)
    requires Inv(s) && r in s.responses
    ensures Inv(Handle(s, c, r))
  {
    hide Numbered, OnePlace, HoldsOwn, Honest, Right, Fulfilled;
    if Accepts(s, c, r) {
      AcceptedIsAnswered(s, c, r);
      HandleKeepsPlaces(s, c, r);
      HandleKeepsRight(s, c, r);
    }
  }

  // ---------------------------------------------------------------- the service's steps

  lemma ServiceKeepsClients<Q, R>(s: State<Q, R>, s': State<Q, R>)
    requires Inv(s) && s.computed <= s'.computed
    requires s' == s.(tasks := s'.tasks, current := s'.current, computed := s'.computed, responses := s'.responses)
    ensures Numbered(s') && OnePlace(s') && HoldsOwn(s') && Right(s')
  {
    assert forall d :: ClientOf(s', d) == ClientOf(s, d);
    forall p: Promise | p < |s'.calls|
      ensures if Fulfilled(s', p) then !IsPending(s', p) && !IsCalling(s', p) else IsPending(s', p) <==> !IsCalling(s', p)
    {
      assert Fulfilled(s', p) <==> Fulfilled(s, p);
    }
  }

  lemma ServiceStaysHonest<Q, R>(s: State<Q, R>, a: Action<Q, R>)
    requires Honest(s) && (a.DeliverRequest? || a.TakeTask? || a.Respond?)
    ensures Honest(Step(s, a))
  {
    var s' := Step(s, a);
    forall r | r in s'.responses ensures Answers(s', r) {
      if r in s.responses {
        assert Answers(s, r);
        var p: nat :| p < |s.calls| && IsAnswer(s, p, r);
        assert IsAnswer(s', p, r);
      } else {
        var q := s.current.some;
        var p: nat :| p < |s.calls| && s.calls[p] == q;
        assert IsAnswer(s', p, r);
      }
    }
  }

  lemma StepKeepsInv<Q, R>(s: State<Q, R>, a: Action<Q, R>)
    requires Inv(s)
    ensures Inv(Step(s, a))
  {
    match a
    case StartCall(c, content) =>
      StartKeepsNumbers(s, c, content);
      StartKeepsPlaces(s, c, content);
      CallsGrow(s, Start(s, c, content));
    case FinishCall(c) =>
      FinishKeepsInv(s, c);
    case DeliverResponse(c, r) =>
      if r in s.responses { HandleKeepsInv(s, c, r); }
    case _ =>
      ServiceKeepsClients(s, Step(s, a));
      ServiceStaysHonest(s, a);
  }

  // ---------------------------------------------------------------- whole runs

  lemma {:induction false} ReachableInv<Q, R>(schedule: seq<Action<Q, R>>)
    ensures Inv(Execute(Init<Q, R>(), schedule))
    decreases |schedule|
  {
    if schedule != [] {
      ReachableInv(schedule[..|schedule| - 1]);
      StepKeepsInv(Execute(Init<Q, R>(), schedule[..|schedule| - 1]), schedule[|schedule| - 1]);
    }
  }

  /** The calls that took effect, as they were made: by which client, and with what. */
  ghost function Started<Q, R>(schedule: seq<Action<Q, R>>): seq<(WriterId, Q)>
    decreases |schedule|
  {
    if schedule == [] then []
    else
      var k := |schedule| - 1;
      var a := schedule[k];
      Started(schedule[..k]) +
      if a.StartCall? && ClientOf(Execute(Init<Q, R>(), schedule[..k]), a.client).calling.None?
      then [(a.client, a.content)] else []
  }

  /** Call `p` carries what its caller passed, under the caller's own id. */
  lemma {:induction false} CallsAreOfCallers<Q, R>(schedule: seq<Action<Q, R>>)
    ensures var calls, started := Execute(Init<Q, R>(), schedule).calls, Started(schedule);
      && |calls| == |started|
      && (forall p :: 0 <= p < |calls| ==> calls[p].spareId == started[p].0 && calls[p].content == started[p].1)
    decreases |schedule|
  {
    if schedule != [] {
      CallsAreOfCallers(schedule[..|schedule| - 1]);
    }
  }

  /** With action number `k` the service's callback answered request `q` with `r`. */
  ghost predicate RespondsAt<Q, R>(schedule: seq<Action<Q, R>>, k: nat, q: Request<Q>, r: R) {
    k < |schedule| && schedule[k] == Respond(r) && Execute(Init<Q, R>(), schedule[..k]).current == Some(q)
  }

  /** What counts as computed is what the callback answered. */
  lemma {:induction false} ComputedIsAnswered<Q, R>(schedule: seq<Action<Q, R>>, q: Request<Q>, r: R)
    requires (q, r) in Execute(Init<Q, R>(), schedule).computed
    ensures exists k: nat :: RespondsAt(schedule, k, q, r)
    decreases |schedule|
  {
    var last := |schedule| - 1;
    var front := schedule[..last];
    if (q, r) in Execute(Init<Q, R>(), front).computed {
      ComputedIsAnswered(front, q, r);
      var k: nat :| RespondsAt(front, k, q, r);
      assert front[..k] == schedule[..k];
      assert RespondsAt(schedule, k, q, r);
    } else {
      assert RespondsAt(schedule, last, q, r);
    }
  }

  /** The value of promise `p` is an answer of the callback to what the caller of `p` passed. */
  ghost predicate AnswersCaller<Q, R>(schedule: seq<Action<Q, R>>, p: Promise, r: R) {
    && p < |Started(schedule)|
    && exists k: nat, n: nat ::
         RespondsAt(schedule, k, Request(Started(schedule)[p].0, n, Started(schedule)[p].1), r)
  }

  /**
    In every run a promise gets at most one value, and that value is what the service's callback
    answered to the very request the promise was made for: from the same client, with the content that
    the caller passed.
  */
  lemma PromisesAreKept<Q, R>(schedule: seq<Action<Q, R>>)
    ensures var s := Execute(Init<Q, R>(), schedule);
      && (forall i: nat, j: nat :: i < j < |s.fulfilled| ==> s.fulfilled[i].0 != s.fulfilled[j].0)
      && (forall i: nat :: i < |s.fulfilled| ==> AnswersCaller(schedule, s.fulfilled[i].0, s.fulfilled[i].1))
  {
    ReachableInv(schedule);
    CallsAreOfCallers(schedule);
    var s := Execute(Init<Q, R>(), schedule);
    forall i: nat | i < |s.fulfilled| ensures AnswersCaller(schedule, s.fulfilled[i].0, s.fulfilled[i].1) {
      var (p, r) := s.fulfilled[i];
      assert p < |s.calls| && (s.calls[p], r) in s.computed;
      ComputedIsAnswered(schedule, s.calls[p], r);
      var k: nat :| RespondsAt(schedule, k, s.calls[p], r);
      assert s.calls[p] == Request(Started(schedule)[p].0, s.calls[p].seqNum, Started(schedule)[p].1);
    }
  }

  /** A call with nothing between its steps: made, delivered, taken up, answered with `r`, handled. */
  function Undisturbed<Q, R>(s: State<Q, R>, c: WriterId, content: Q, r: R): State<Q, R> {
    var called := Step(Step(s, StartCall(c, content)), FinishCall(c));
    var answered := Step(Step(Step(called, DeliverRequest(|s.calls|)), TakeTask), Respond(r));
    Step(answered, DeliverResponse(c, Response(c, ClientOf(s, c).sequenceNumber + 1, r)))
  }

  /** A call whose messages are not held up, of a client that is making none, on a service without work, is answered. */
  lemma UndisturbedCallIsAnswered<Q, R>(schedule: seq<Action<Q, R>>, c: WriterId, content: Q, r: R)
    requires var s := Execute(Init<Q, R>(), schedule);
      ClientOf(s, c).calling.None? && s.tasks == [] && s.current.None?
    ensures var s := Execute(Init<Q, R>(), schedule);
      var s' := Undisturbed(s, c, content, r);
      && s'.fulfilled == s.fulfilled + [(|s.calls|, r)]
      && s'.calls == s.calls + [Request(c, ClientOf(s, c).sequenceNumber + 1, content)]
  {
    hide Execute, Step;
    var s := Execute(Init<Q, R>(), schedule);
    var request := Request(c, ClientOf(s, c).sequenceNumber + 1, content);
    BeginAlone(s, c, content);
    ServeAlone(Step(Step(s, StartCall(c, content)), FinishCall(c)), c, |s.calls|, request, r);
  }

  lemma BeginAlone<Q, R>(s: State<Q, R>, c: WriterId, content: Q)
    requires ClientOf(s, c).calling.None?
    ensures var s' := Step(Step(s, StartCall(c, content)), FinishCall(c));
      var n := ClientOf(s, c).sequenceNumber + 1;
      && s'.calls == s.calls + [Request(c, n, content)] && s'.fulfilled == s.fulfilled
      && s'.tasks == s.tasks && s'.current == s.current
      && ClientOf(s', c) == Client(n, ClientOf(s, c).pending[n := |s.calls|], None)
  {
  }

  lemma ServeAlone<Q, R>(s: State<Q, R>, c: WriterId, p: nat, q: Request<Q>, r: R)
    requires p < |s.calls| && s.calls[p] == q && s.tasks == [] && s.current.None? && q.spareId == c
    requires ClientOf(s, c).calling.None? && q.seqNum in ClientOf(s, c).pending && ClientOf(s, c).pending[q.seqNum] == p
    ensures var response := Response(c, q.seqNum, r);
      var s' := Step(Step(Step(Step(s, DeliverRequest(p)), TakeTask), Respond(r)), DeliverResponse(c, response));
      s'.fulfilled == s.fulfilled + [(p, r)] && s'.calls == s.calls
  {
    var s2 := Step(Step(s, DeliverRequest(p)), TakeTask);
    assert s2 == s.(current := Some(q));
    var s3 := Step(s2, Respond(r));
    assert s3 == s.(current := None, computed := s.computed + {(q, r)},
                    responses := s.responses + {Response(c, q.seqNum, r)});
    assert ClientOf(s3, c) == ClientOf(s, c);
  }

  /** What an action brings to the service, and what its worker takes up with it. */
  ghost function Brought<Q, R>(s: State<Q, R>, a: Action<Q, R>): seq<Request<Q>> {
    if a.DeliverRequest? && a.call < |s.calls| then [s.calls[a.call]] else []
  }

  ghost function TakenUp<Q, R>(s: State<Q, R>, s': State<Q, R>): seq<Request<Q>> {
    if s.current.None? && s'.current.Some? then [s'.current.some] else []
  }

  /** The requests that reached the service over a run, and those that its worker took up, in order. */
  ghost function Delivered<Q, R>(schedule: seq<Action<Q, R>>): seq<Request<Q>>
    decreases |schedule|
  {
    if schedule == [] then []
    else
      var k := |schedule| - 1;
      Delivered(schedule[..k]) + Brought(Execute(Init<Q, R>(), schedule[..k]), schedule[k])
  }

  ghost function Taken<Q, R>(schedule: seq<Action<Q, R>>): seq<Request<Q>>
    decreases |schedule|
  {
    if schedule == [] then []
    else
      var k := |schedule| - 1;
      Taken(schedule[..k]) + TakenUp(Execute(Init<Q, R>(), schedule[..k]), Execute(Init<Q, R>(), schedule))
  }

  lemma StepServes<Q, R>(s: State<Q, R>, a: Action<Q, R>)
    ensures s.tasks + Brought(s, a) == TakenUp(s, Step(s, a)) + Step(s, a).tasks
  {
    assert s.tasks != [] ==> s.tasks == [s.tasks[0]] + s.tasks[1..];
  }

  /** The service works on requests in the order in which they reach it, each delivery once. */
  lemma {:induction false} ServedInOrder<Q, R>(schedule: seq<Action<Q, R>>)
    ensures Delivered(schedule) == Taken(schedule) + Execute(Init<Q, R>(), schedule).tasks
    decreases |schedule|
  {
    hide Step, Brought, TakenUp;
    if schedule != [] {
      var k := |schedule| - 1;
      var s := Execute(Init<Q, R>(), schedule[..k]);
      ServedInOrder(schedule[..k]);
      StepServes(s, schedule[k]);
      Regroup(Taken(schedule[..k]), s.tasks, Brought(s, schedule[k]));
      Regroup(Taken(schedule[..k]), TakenUp(s, Step(s, schedule[k])), Step(s, schedule[k]).tasks);
    }
  }

  lemma Regroup<X>(a: seq<X>, b: seq<X>, c: seq<X>)
    ensures (a + b) + c == a + (b + c)
  {
  }

  /** Requests of all clients are told apart by writer id and number. */
  lemma RequestsAreDistinct<Q, R>(schedule: seq<Action<Q, R>>, p: nat, q: nat)
    requires p < q < |Execute(Init<Q, R>(), schedule).calls|
    ensures var calls := Execute(Init<Q, R>(), schedule).calls;
      calls[p].spareId != calls[q].spareId || calls[p].seqNum != calls[q].seqNum
  {
    ReachableInv(schedule);
  }

  /**
    The first response always finds its pending entry: when a response to call `p` is handled by
    the client that made it, and `p` has no value yet, `p` gets this value; and a response that
    comes later, or to another client, changes nothing.
  */
  lemma FirstResponseFulfils<Q, R>(schedule: seq<Action<Q, R>>, p: nat, c: WriterId, r: Response<R>)
    requires var s := Execute(Init<Q, R>(), schedule);
      && p < |s.calls| && r in s.responses
      && r.spareId == s.calls[p].spareId && r.seqNum == s.calls[p].seqNum
      && ClientOf(s, c).calling.None?
    ensures var s := Execute(Init<Q, R>(), schedule);
      var s' := Step(s, DeliverResponse(c, r));
      if c == r.spareId && !Fulfilled(s, p) then s'.fulfilled == s.fulfilled + [(p, r.content)]
      else s'.fulfilled == s.fulfilled && s' == s
  {
    ReachableInv(schedule);
    var s := Execute(Init<Q, R>(), schedule);
    hide Execute, Honest, Right;
    if c == r.spareId {
      PendingIffOpen(s, p);
      hide OnePlace, HoldsOwn, Numbered, Fulfilled;
    }
  }

  /** A call that its client is not just making is pending exactly while it has no value, under its own number. */
  lemma PendingIffOpen<Q, R>(s: State<Q, R>, p: nat)
    requires Inv(s) && p < |s.calls| && ClientOf(s, s.calls[p].spareId).calling.None?
    ensures var q := s.calls[p];
      var pending := ClientOf(s, q.spareId).pending;
      && (q.seqNum in pending <==> !Fulfilled(s, p))
      && (q.seqNum in pending ==> pending[q.seqNum] == p)
  {
    hide Fulfilled, Honest, Right;
    var q := s.calls[p];
    assert IsPending(s, p) <==> !Fulfilled(s, p);
    if q.seqNum in ClientOf(s, q.spareId).pending {
      var k := ClientOf(s, q.spareId).pending[q.seqNum];
      assert k == p;
    }
  }
}
