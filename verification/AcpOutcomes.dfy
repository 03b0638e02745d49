/** What a client's reply brings about: the reply that reached the worker under its id, and nothing
    else, decides whether a blocked goal goes on. */
module AcpOutcomes {
  import opened Text
  import opened AcpLog
  import opened AcpPrompts
  import opened AcpTurns
  import opened AcpReplies
  import Runs

  function ChoiceOf(got: Option<Reply>): Option<string> {
    if got.Some? then got.value.choice else None
  }

  /** A worker that drew `n` and has so far been told `got`, wherever it is on its way through
      `handle_blocked`, or past it. */
  predicate Knows(pc: Pc, n: nat, got: Option<Reply>) {
    match pc
    case Registering(m) => m == n && got.None?
    case Asking(m, inbox) => m == n && inbox == got
    case Waiting(m, inbox) => m == n && inbox == got
    case Woken(m, taken) => m == n && taken == got
    case Deciding(choice) => choice == ChoiceOf(got)
    case _ => true
  }

  ghost predicate DeliveredTo(sys: System, w: WorkerId, n: nat, r: Reply) {
    exists d <- sys.deliveries :: d.worker == w && d.n == n && d.reply < |sys.replies| && sys.replies[d.reply] == r
  }

  /** What worker `w` was told under id `n` is what was delivered to it. */
  ghost predicate Told(sys: System, w: WorkerId, n: nat, got: Option<Reply>) {
    match got
    case None => forall d <- sys.deliveries :: !(d.worker == w && d.n == n)
    case Some(r) => DeliveredTo(sys, w, n, r)
  }

  ghost predicate Informed(sys: System, w: WorkerId, n: nat) {
    w in sys.workers ==> exists got :: Told(sys, w, n, got) && Knows(sys.workers[w], n, got)
  }

  // ---- every step but a new draw keeps a worker informed ---------------------------

  /** No reply is delivered, and the worker moves on with what it knows, or stays. */
  lemma NothingTold(sys: System, next: System, w: WorkerId, n: nat)
    requires Informed(sys, w, n) && sys.replies <= next.replies && next.deliveries == sys.deliveries
    requires forall d <- sys.deliveries :: d.reply < |sys.replies|
    requires w in next.workers ==>
      || (w in sys.workers && forall got :: Knows(sys.workers[w], n, got) ==> Knows(next.workers[w], n, got))
      || next.workers[w].Begin? || next.workers[w].Streaming?
    ensures Informed(next, w, n)
  {
    if w in next.workers {
      if w in sys.workers && forall got :: Knows(sys.workers[w], n, got) ==> Knows(next.workers[w], n, got) {
        var got :| Told(sys, w, n, got) && Knows(sys.workers[w], n, got);
        TellingStays(sys, next, w, n, got);
      } else {
        var got := ToldSomething(sys, w, n);
        TellingStays(sys, next, w, n, got);
        assert Knows(next.workers[w], n, got);
      }
    }
  }

  lemma TellingStays(sys: System, next: System, w: WorkerId, n: nat, got: Option<Reply>)
    requires Told(sys, w, n, got) && sys.replies <= next.replies && next.deliveries == sys.deliveries
    ensures Told(next, w, n, got)
  {
  }

  lemma ToldSomething(sys: System, w: WorkerId, n: nat) returns (got: Option<Reply>)
    requires forall d <- sys.deliveries :: d.reply < |sys.replies|
    ensures Told(sys, w, n, got)
  {
    if d :| d in sys.deliveries && d.worker == w && d.n == n {
      got := Some(sys.replies[d.reply]);
    } else {
      got := None;
    }
  }

  lemma DispatchTells(sys: System, s: Step, w: WorkerId, n: nat)
    requires WellIndexed(sys) && Enabled(sys, s) && s.Receive? && Informed(sys, w, n)
    requires forall d <- sys.deliveries :: d.reply < |sys.replies|
    ensures Informed(Goes(sys, s), w, n)
  {
    hide Dispatch, Informed, Knows;
    DispatchShape(sys, s.r, s.newSession);
    NothingTold(sys, Goes(sys, s), w, n);
  }

  lemma SendTells(sys: System, w: WorkerId, n: nat)
    requires WellIndexed(sys) && sys.routing.Some? && Informed(sys, w, n)
    ensures Informed(SendReply(sys), w, n)
  {
    hide Told;
    var next, r := SendReply(sys), sys.routing.value;
    if w in next.workers {
      var got :| Told(sys, w, n, got) && Knows(sys.workers[w], n, got);
      if r.worker == w && Listens(sys.workers[w], r.n) {
        NewlyTold(sys, w, n);
      } else {
        NotTold(sys, w, n, got);
      }
    }
  }

  lemma NewlyTold(sys: System, w: WorkerId, n: nat)
    requires WellIndexed(sys) && sys.routing.Some? && sys.routing.value.worker == w && sys.routing.value.n == n
    requires w in sys.workers && Listens(sys.workers[w], n)
    ensures Told(SendReply(sys), w, n, Some(sys.replies[sys.routing.value.reply]))
  {
    assert SendReply(sys).deliveries[|sys.deliveries|] == Delivery(w, n, sys.routing.value.reply);
  }

  lemma NotTold(sys: System, w: WorkerId, n: nat, got: Option<Reply>)
    requires WellIndexed(sys) && sys.routing.Some? && w in sys.workers && Told(sys, w, n, got)
    requires !(sys.routing.value.worker == w && Listens(sys.workers[w], sys.routing.value.n))
    ensures Told(SendReply(sys), w, n, got)
  {
    var next := SendReply(sys);
    assert forall d <- next.deliveries :: d.worker == w ==> d in sys.deliveries;
    assert forall d <- sys.deliveries :: d in next.deliveries;
  }

  /** The worker's own steps hand on what it knows. */
  lemma OwnStepTells(sys: System, s: Step, w: WorkerId, n: nat)
    requires WellIndexed(sys) && Enabled(sys, s) && WorkerOf(s) == Some(w) && !s.DrawId? && Informed(sys, w, n)
    requires forall d <- sys.deliveries :: d.reply < |sys.replies|
    ensures Informed(Goes(sys, s), w, n)
  {
    hide Informed, Told, SrvKey, End;
    WorkerIsLive(sys, s);
    EndMoves(sys, w, s.AnswerNow? && s.error);
    var next := Goes(sys, s);
    assert next.replies == sys.replies && next.deliveries == sys.deliveries;
    if w in next.workers && !Outside(next.workers[w]) {
      assert forall got :: Knows(sys.workers[w], n, got) ==> Knows(next.workers[w], n, got);
    }
    NothingTold(sys, next, w, n);
  }

  lemma OthersStepTells(sys: System, s: Step, w: WorkerId, n: nat)
    requires WellIndexed(sys) && Enabled(sys, s) && WorkerOf(s).Some? && WorkerOf(s) != Some(w) && Informed(sys, w, n)
    requires forall d <- sys.deliveries :: d.reply < |sys.replies|
    ensures Informed(Goes(sys, s), w, n)
  {
    hide Informed, Told, SrvKey, End, Knows;
    WorkerIsLive(sys, s);
    var v, next := WorkerOf(s).value, Goes(sys, s);
    EndMoves(sys, v, s.AnswerNow? && s.error);
    assert next.replies == sys.replies && next.deliveries == sys.deliveries;
    assert w in next.workers ==> w in sys.workers && next.workers[w] == sys.workers[w];
    NothingTold(sys, next, w, n);
  }

  lemma StepTells(sys: System, s: Step, w: WorkerId, n: nat)
    requires WellIndexed(sys) && Enabled(sys, s) && s != DrawId(w) && Informed(sys, w, n)
    requires forall d <- sys.deliveries :: d.reply < |sys.replies|
    ensures Informed(Next(sys, s), w, n)
  {
    hide Informed, Goes, Logs, AnyCut, Knows;
    if AnyCut(Logs(sys, s)) {
      if WorkerOf(s).Some? {
        WorkerIsLive(sys, s);
        NothingTold(sys, Next(sys, s), w, n);
      } else {
        DownInforms(Unanswered(sys, s), w, n);
      }
    } else {
      GoesTells(sys, s, w, n);
      DownInforms(Goes(sys, s), w, n);
    }
  }

  lemma DownInforms(sys: System, w: WorkerId, n: nat)
    ensures Informed(Down(sys), w, n)
  {
  }

  lemma GoesTells(sys: System, s: Step, w: WorkerId, n: nat)
    requires WellIndexed(sys) && Enabled(sys, s) && s != DrawId(w) && Informed(sys, w, n)
    requires forall d <- sys.deliveries :: d.reply < |sys.replies|
    ensures Informed(Goes(sys, s), w, n)
  {
    hide Informed, Dispatch, SendReply, Knows;
    if WorkerOf(s) == Some(w) {
      OwnStepTells(sys, s, w, n);
    } else if WorkerOf(s).Some? {
      OthersStepTells(sys, s, w, n);
    } else if s.Receive? {
      DispatchTells(sys, s, w, n);
    } else if s.SendOnChannel? {
      SendTells(sys, w, n);
    } else {
      NothingTold(sys, Goes(sys, s), w, n);
    }
  }

  lemma DrawLogsNothing(sys: System, w: WorkerId)
    requires WellIndexed(sys) && Enabled(sys, DrawId(w))
    ensures Logs(sys, DrawId(w)) == []
  {
  }

  lemma DrawTells(sys: System, w: WorkerId)
    requires WellIndexed(sys) && Enabled(sys, DrawId(w)) && RoutingInv(sys)
    ensures Informed(Next(sys, DrawId(w)), w, sys.srvSeq)
  {
    hide Logs, AnyCut;
    NothingToCut();
    DrawLogsNothing(sys, w);
    var next := Next(sys, DrawId(w));
    assert next.workers[w] == Registering(sys.srvSeq);
    assert forall d <- sys.deliveries :: d.n in sys.issuedTo && d.n < sys.srvSeq;
    assert Told(next, w, sys.srvSeq, None);
  }

  lemma DeliveriesIndexed(sys: System)
    requires RoutingInv(sys)
    ensures forall d <- sys.deliveries :: d.reply < |sys.replies|
  {
  }

  lemma {:induction false} StaysInformed(states: seq<System>, steps: seq<Step>, d: nat, k: nat, w: WorkerId)
    requires Run(states, steps) && d < k < |states| && steps[d] == DrawId(w)
    requires forall m :: d < m < k ==> steps[m] != DrawId(w)
    ensures Informed(states[k], w, states[d].srvSeq)
  {
    hide Informed, Next, RoutingInv, Enabled;
    assert Moves(states[k - 1], steps[k - 1], states[k]);
    EveryStateRouting(states, steps, k - 1);
    if k == d + 1 {
      DrawTells(states[d], w);
    } else {
      StaysInformed(states, steps, d, k - 1, w);
      DeliveriesIndexed(states[k - 1]);
      StepTells(states[k - 1], steps[k - 1], w, states[d].srvSeq);
    }
  }

  // ---- what the decision comes to --------------------------------------------------

  lemma OneReplyEach(sys: System, w: WorkerId, n: nat, r: Reply, got: Option<Reply>)
    requires RoutingInv(sys) && DeliveredTo(sys, w, n, r) && Told(sys, w, n, got)
    ensures got == Some(r)
  {
    var d :| d in sys.deliveries && d.worker == w && d.n == n && d.reply < |sys.replies| && sys.replies[d.reply] == r;
    if got.Some? {
      var c :| c in sys.deliveries && c.worker == w && c.n == n && c.reply < |sys.replies|
        && sys.replies[c.reply] == got.value;
      var i, j :| 0 <= i < |sys.deliveries| && 0 <= j < |sys.deliveries|
        && sys.deliveries[i] == d && sys.deliveries[j] == c;
    }
  }

  /** A step whose worker logs no text that is cut. */
  predicate GoesWell(sys: System, s: Step) {
    WellIndexed(sys) && Enabled(sys, s) && !AnyCut(Logs(sys, s))
  }

  /** The worker is gone, and if a prompt that is owed an answer was its turn, that prompt has been
      answered, without an error, and by this step. */
  ghost predicate EndsWithAnswer(sys: System, next: System, w: WorkerId) {
    && w !in next.workers
    && (w.Turn? && w.req < |sys.requests| && OwesAnswer(sys.requests[w.req]) ==>
          && AnswersTo(sys.answers, w.req) == 0 && AnswersTo(next.answers, w.req) == 1
          && next.answers == sys.answers + [Answer(w.req, sys.requests[w.req].id.value, false)])
  }

  lemma EndAnswers(sys: System, w: WorkerId)
    requires WellIndexed(sys) && w in sys.workers
    requires w.Turn? && OwesAnswer(sys.requests[w.req]) ==> AnswersTo(sys.answers, w.req) == 0
    ensures EndsWithAnswer(sys, End(sys, w, false), w)
  {
    hide AnswersTo;
    if w.Turn? && OwesAnswer(sys.requests[w.req]) {
      OneMoreAnswer(sys.answers, Answer(w.req, sys.requests[w.req].id.value, false), w.req);
    }
  }

  lemma DecideGoes(sys: System, s: Step)
    requires GoesWell(sys, s) && s.Decide?
    requires s.w.Turn? && OwesAnswer(sys.requests[s.w.req]) ==> AnswersTo(sys.answers, s.w.req) == 0
    ensures var next := Next(sys, s);
      if sys.workers[s.w].choice == Some("raise") then s.w in next.workers && next.workers[s.w] == Streaming
      else EndsWithAnswer(sys, next, s.w)
  {
    hide AnyCut, Logs, AnswersTo, EndsWithAnswer, End;
    NothingToCut();
    if sys.workers[s.w].choice != Some("raise") {
      EndAnswers(sys, s.w);
    }
  }

  /** In every run: when a worker that drew id `n` for a blocked goal comes to decide, it streams on
      if and only if a reply that chose `raise` was delivered to it under that id; otherwise, told
      something else or nothing in time, it ends and answers its prompt. */
  lemma DecidesAsToldExactly(states: seq<System>, steps: seq<Step>, d: nat, e: nat, w: WorkerId, n: nat)
    requires Run(states, steps) && d < e < |steps| && steps[d] == DrawId(w) && n == states[d].srvSeq
    requires forall m :: d < m < e ==> steps[m] != DrawId(w)
    requires steps[e].Decide? && steps[e].w == w && GoesWell(states[e], steps[e])
    ensures var next := states[e + 1];
      if exists r :: DeliveredTo(states[e], w, n, r) && r.choice == Some("raise")
      then w in next.workers && next.workers[w] == Streaming
      else EndsWithAnswer(states[e], next, w)
  {
    hide Next, RoutingInv, Logs, AnyCut, EndsWithAnswer, DeliveredTo, AnswersTo;
    var sys := states[e];
    assert Moves(sys, steps[e], states[e + 1]);
    StaysInformed(states, steps, d, e, w);
    EveryStateRouting(states, steps, e);
    if w.Turn? {
      AnsweredOnceLiveOrLost(states, steps, e, w.req);
    }
    DecideGoes(sys, steps[e]);
    var got :| Told(sys, w, n, got) && Knows(sys.workers[w], n, got);
    if r :| DeliveredTo(sys, w, n, r) && r.choice == Some("raise") {
      OneReplyEach(sys, w, n, r, got);
    }
  }

  // ---- a reply that finds its worker waiting is delivered --------------------------

  lemma RouteTaken(sys: System, s: Step, w: WorkerId, n: nat)
    requires GoesWell(sys, s) && s.ReceiveReply? && s.reply.id == SrvKey(n) && HasEntry(sys, w, n)
    ensures Next(sys, s).routing == Some(Routing(w, n, |sys.replies|))
    ensures Next(sys, s).replies == sys.replies + [s.reply]
    ensures SrvKey(n) !in Next(sys, s).pending
  {
    hide Logs, AnyCut, SrvKey;
    NothingToCut();
  }

  lemma RouteStays(sys: System, s: Step)
    requires WellIndexed(sys) && Enabled(sys, s) && sys.routing.Some? && !s.SendOnChannel?
    ensures Next(sys, s).down || (Next(sys, s).routing == sys.routing && Next(sys, s).replies == sys.replies)
  {
    hide Logs, AnyCut, SrvKey, End;
    if WorkerOf(s).Some? {
      WorkerIsLive(sys, s);
      EndMoves(sys, WorkerOf(s).value, s.AnswerNow? && s.error);
    }
  }

  lemma {:induction false} RouteWaits(states: seq<System>, steps: seq<Step>, i: nat, k: nat)
    requires Run(states, steps) && i <= k < |steps| && states[i].routing.Some?
    requires forall m :: i <= m < k ==> !steps[m].SendOnChannel?
    ensures states[k].routing == states[i].routing && states[k].replies == states[i].replies
  {
    hide Next;
    if i < k {
      RouteWaits(states, steps, i, k - 1);
      assert Moves(states[k - 1], steps[k - 1], states[k]) && Moves(states[k], steps[k], states[k + 1]);
      RouteStays(states[k - 1], steps[k - 1]);
    }
  }

  lemma SendDelivers(sys: System, w: WorkerId, n: nat, reply: nat)
    requires WellIndexed(sys) && Enabled(sys, SendOnChannel) && sys.routing == Some(Routing(w, n, reply))
    requires w in sys.workers && Listens(sys.workers[w], n)
    ensures DeliveredTo(Next(sys, SendOnChannel), w, n, sys.replies[reply])
  {
    hide AnyCut;
    NothingToCut();
    var next := Next(sys, SendOnChannel);
    assert next.deliveries[|sys.deliveries|] == Delivery(w, n, reply);
  }

  /** In every run: a client reply that names an id while its entry is there is the next one sent on
      a channel, whatever the other threads do meanwhile; and if the worker of that entry has then
      not yet given up waiting, it is delivered to it under that id. */
  lemma ReplyArrives(states: seq<System>, steps: seq<Step>, k: nat, j: nat, w: WorkerId, n: nat)
    requires Run(states, steps) && k < j < |steps| && steps[k].ReceiveReply? && steps[k].reply.id == SrvKey(n)
    requires GoesWell(states[k], steps[k]) && HasEntry(states[k], w, n)
    requires steps[j] == SendOnChannel && forall m :: k < m < j ==> steps[m] != SendOnChannel
    requires w in states[j].workers && Listens(states[j].workers[w], n)
    ensures DeliveredTo(states[j + 1], w, n, steps[k].reply)
  {
    hide Next, DeliveredTo, SrvKey, Logs, AnyCut;
    assert Moves(states[k], steps[k], states[k + 1]) && Moves(states[j], steps[j], states[j + 1]);
    RouteTaken(states[k], steps[k], w, n);
    RouteWaits(states, steps, k + 1, j);
    SendDelivers(states[j], w, n, |states[k].replies|);
  }

  lemma StepKeepsDeliveries(sys: System, s: Step)
    requires WellIndexed(sys) && Enabled(sys, s)
    ensures sys.deliveries <= Next(sys, s).deliveries && sys.replies <= Next(sys, s).replies
  {
    hide Logs, AnyCut, Goes;
    GoesKeepsDeliveries(sys, s);
    if WorkerOf(s).Some? {
      WorkerIsLive(sys, s);
    }
  }

  lemma GoesKeepsDeliveries(sys: System, s: Step)
    requires WellIndexed(sys) && Enabled(sys, s)
    ensures sys.deliveries <= Goes(sys, s).deliveries && sys.replies <= Goes(sys, s).replies
  {
    hide SrvKey, End, Dispatch;
    if WorkerOf(s).Some? {
      WorkerIsLive(sys, s);
      EndMoves(sys, WorkerOf(s).value, s.AnswerNow? && s.error);
    } else if s.Receive? {
      DispatchShape(sys, s.r, s.newSession);
    }
  }

  lemma {:induction false} DeliveredForGood(states: seq<System>, steps: seq<Step>, i: nat, k: nat, w: WorkerId,
                                            n: nat, r: Reply)
    requires Run(states, steps) && i <= k < |states| && DeliveredTo(states[i], w, n, r)
    ensures DeliveredTo(states[k], w, n, r)
  {
    hide Next;
    if i < k {
      DeliveredForGood(states, steps, i, k - 1, w, n, r);
      assert Moves(states[k - 1], steps[k - 1], states[k]);
      StepKeepsDeliveries(states[k - 1], steps[k - 1]);
    }
  }

  /** In every run, from end to end: the client's reply to a blocked goal, sent while its worker
      still waits, decides. On `raise` the worker streams on, on anything else it ends and answers
      its prompt. */
  lemma ReplyDecides(states: seq<System>, steps: seq<Step>, d: nat, k: nat, j: nat, e: nat, w: WorkerId, n: nat)
    requires Run(states, steps) && d < k < j < e < |steps| && steps[d] == DrawId(w) && n == states[d].srvSeq
    requires steps[k].ReceiveReply? && steps[k].reply.id == SrvKey(n) && GoesWell(states[k], steps[k])
    requires HasEntry(states[k], w, n)
    requires steps[j] == SendOnChannel && forall m :: k < m < j ==> steps[m] != SendOnChannel
    requires w in states[j].workers && Listens(states[j].workers[w], n)
    requires forall m :: d < m < e ==> steps[m] != DrawId(w)
    requires steps[e].Decide? && steps[e].w == w && GoesWell(states[e], steps[e])
    ensures if steps[k].reply.choice == Some("raise")
      then w in states[e + 1].workers && states[e + 1].workers[w] == Streaming
      else EndsWithAnswer(states[e], states[e + 1], w)
  {
    hide Next, DeliveredTo, SrvKey, Logs, AnyCut, RoutingInv, EndsWithAnswer, HasEntry;
    var r := steps[k].reply;
    ReplyArrives(states, steps, k, j, w, n);
    DeliveredForGood(states, steps, j + 1, e, w, n, r);
    DecidesAsToldExactly(states, steps, d, e, w, n);
    EveryStateRouting(states, steps, e);
    if other :| DeliveredTo(states[e], w, n, other) && other.choice == Some("raise") {
      OneReplyEach(states[e], w, n, other, Some(r));
    }
  }

  // ---- what `dispatch` answers -----------------------------------------------------

  /** A `session/new` or `session/load` that went well made this session known. */
  predicate OpensSession(sys: System, s: Step, session: string) {
    GoesWell(sys, s) && s.Receive? && (s.r.rpc.SessionNew? || s.r.rpc.SessionLoad?) && s.newSession == Some(session)
  }

  lemma DispatchOpens(sys: System, r: Request, newSession: Option<string>, session: string)
    ensures session in Dispatch(sys, r, newSession).sessions <==>
      session in sys.sessions || ((r.rpc.SessionNew? || r.rpc.SessionLoad?) && newSession == Some(session))
  {
    hide IsBlank, Send;
    var req, got := |sys.requests|, sys.(requests := sys.requests + [r]);
    SendKeepsWorkers(got, req, true);
    SendKeepsWorkers(got, req, false);
    if newSession.Some? {
      SendKeepsWorkers(got.(sessions := got.sessions + {newSession.value}), req, false);
    }
  }

  lemma StepOpens(sys: System, s: Step, session: string)
    requires WellIndexed(sys) && Enabled(sys, s)
    ensures session in Next(sys, s).sessions <==> session in sys.sessions || OpensSession(sys, s, session)
  {
    hide Logs, AnyCut, Goes;
    GoesOpens(sys, s, session);
    if WorkerOf(s).Some? {
      WorkerIsLive(sys, s);
    }
  }

  lemma GoesOpens(sys: System, s: Step, session: string)
    requires WellIndexed(sys) && Enabled(sys, s)
    ensures session in Goes(sys, s).sessions <==>
      session in sys.sessions
      || (s.Receive? && (s.r.rpc.SessionNew? || s.r.rpc.SessionLoad?) && s.newSession == Some(session))
  {
    hide Dispatch, SrvKey;
    if s.Receive? {
      DispatchOpens(sys, s.r, s.newSession, session);
    }
  }

  /** In every run, the sessions known are exactly those that earlier requests opened. */
  lemma {:induction false} SessionsExactly(states: seq<System>, steps: seq<Step>, k: nat, session: string)
    requires Run(states, steps) && k < |states|
    ensures session in states[k].sessions <==> exists j :: 0 <= j < k && OpensSession(states[j], steps[j], session)
  {
    hide Next, OpensSession;
    if k > 0 {
      SessionsExactly(states, steps, k - 1, session);
      assert Moves(states[k - 1], steps[k - 1], states[k]);
      StepOpens(states[k - 1], steps[k - 1], session);
    }
  }

  /** Errors are answered to unknown methods, to a `session/new` that failed, and to prompts for
      sessions that no earlier step opened. */
  ghost predicate IsRefused(states: seq<System>, steps: seq<Step>, k: nat)
    requires |states| == |steps| + 1 && k < |steps| && steps[k].Receive?
  {
    match steps[k].r.rpc
    case Unknown => true
    case SessionNew => steps[k].newSession == None
    case Prompt(session, _) => !exists j :: 0 <= j < k && OpensSession(states[j], steps[j], session)
    case _ => false
  }

  /** In every run, a request that is received and whose answer goes well: with an id, and unless it
      is a cancellation, it is answered at once, under that id, and as an error exactly where it is
      refused; or else it is a prompt with some text for an open session, which gets a turn. */
  lemma ReceivedExactly(states: seq<System>, steps: seq<Step>, k: nat)
    requires Run(states, steps) && k < |steps| && steps[k].Receive? && GoesWell(states[k], steps[k])
    requires !AnyCut(LogsAfter(steps[k]))
    ensures var r, req, next := steps[k].r, |states[k].requests|, states[k + 1];
      var turns := r.rpc.Prompt? && !IsRefused(states, steps, k) && !IsBlank(r.rpc.text);
      && next.requests == states[k].requests + [r]
      && (if turns then next.workers == states[k].workers[Turn(req) := Begin]
          else if r.rpc.SessionLoad? && r.rpc.attach then next.workers == states[k].workers[Reattach(req) := Streaming]
          else next.workers == states[k].workers)
      && next.answers == states[k].answers
           + if turns || r.id == None || r.rpc.SessionCancel? || r.rpc.CancelRequest? then []
             else [Answer(req, r.id.value, IsRefused(states, steps, k))]
  {
    hide OpensSession, Dispatch, IsBlank, Logs, AnyCut;
    var sys, s := states[k], steps[k];
    assert Moves(sys, s, states[k + 1]);
    if s.r.rpc.Prompt? {
      SessionsExactly(states, steps, k, s.r.rpc.session);
    }
    assert states[k + 1] == Dispatch(sys, s.r, s.newSession);
    DispatchAnswers(sys, s.r, s.newSession);
    DispatchShape(sys, s.r, s.newSession);
  }

  // ---- how a worker ends otherwise -------------------------------------------------

  /** A turn that is answered before it streams, or whose stream ends, ends with that answer, under
      the id of its prompt; a re-attachment just ends. */
  lemma TurnIsAnswered(sys: System, s: Step)
    requires GoesWell(sys, s) && (s.AnswerNow? || s.StreamEnds?)
    ensures var next := Next(sys, s);
      && next.workers == sys.workers - {s.w}
      && next.answers == sys.answers
           + if s.w.Turn? && sys.requests[s.w.req].id.Some?
             then [Answer(s.w.req, sys.requests[s.w.req].id.value, s.AnswerNow? && s.error)] else []
  {
    hide Logs, AnyCut;
    NothingToCut();
  }

  // ---- slash commands --------------------------------------------------------------

  /** White space, a slash, and anything. */
  ghost predicate ReadsAsCommand(text: string) {
    exists gap, rest :: text == SlashAfter(gap, rest) && IsBlank(gap)
  }

  function SlashAfter(gap: string, rest: string): string {
    gap + ("/" + rest)
  }

  lemma CommandsExactly(text: string)
    ensures IsSlashCommand(text) <==> ReadsAsCommand(text)
  {
    hide IsUnicodeSpace;
    if i :| 0 <= i < |text| && text[i] == '/' && forall j :: 0 <= j < i ==> IsUnicodeSpace(text[j]) {
      assert text == SlashAfter(text[..i], text[i + 1..]);
    }
    if gap, rest :| text == SlashAfter(gap, rest) && IsBlank(gap) {
      assert text[|gap|] == '/';
      assert forall j :: 0 <= j < |gap| ==> text[j] == gap[j];
    }
  }

  /** The turn of a command is about to be answered, and nothing more. */
  predicate AwaitsAnswer(sys: System, w: WorkerId) {
    w in sys.workers ==> sys.workers[w].Begin? || sys.workers[w].Routed?
  }

  lemma StepKeepsCommand(sys: System, s: Step, w: WorkerId)
    requires WellIndexed(sys) && Enabled(sys, s) && w.Turn? && w.req < |sys.requests| && IsCommand(sys, w)
    requires AwaitsAnswer(sys, w)
    ensures AwaitsAnswer(Next(sys, s), w)
    ensures w.req < |Next(sys, s).requests| && Next(sys, s).requests[w.req] == sys.requests[w.req]
  {
    hide Logs, AnyCut, IsSlashCommand, Goes;
    GoesKeepsCommand(sys, s, w);
    if WorkerOf(s).Some? {
      WorkerIsLive(sys, s);
    }
  }

  lemma GoesKeepsCommand(sys: System, s: Step, w: WorkerId)
    requires WellIndexed(sys) && Enabled(sys, s) && w.Turn? && w.req < |sys.requests| && IsCommand(sys, w)
    requires AwaitsAnswer(sys, w)
    ensures AwaitsAnswer(Goes(sys, s), w)
    ensures w.req < |Goes(sys, s).requests| && Goes(sys, s).requests[w.req] == sys.requests[w.req]
  {
    hide Dispatch, SrvKey, End, IsSlashCommand;
    if s.Receive? {
      DispatchShape(sys, s.r, s.newSession);
    } else if WorkerOf(s).Some? {
      WorkerIsLive(sys, s);
      EndMoves(sys, WorkerOf(s).value, s.AnswerNow? && s.error);
      EndKeepsRequests(sys, WorkerOf(s).value, s.AnswerNow? && s.error);
    }
  }

  lemma EndKeepsRequests(sys: System, w: WorkerId, error: bool)
    requires WellIndexed(sys) && w in sys.workers
    ensures End(sys, w, error).requests == sys.requests
  {
  }

  /** In every run, a prompt that begins with a slash, white space aside, never becomes a goal: its
      turn sends no planning notice and starts no stream, and all it can come to is its answer. */
  lemma {:induction false} CommandNeverPlans(states: seq<System>, steps: seq<Step>, k: nat, req: nat)
    requires Run(states, steps) && k < |states| && req < |states[k].requests|
    requires states[k].requests[req].rpc.Prompt? && ReadsAsCommand(states[k].requests[req].rpc.text)
    ensures AwaitsAnswer(states[k], Turn(req))
  {
    hide Next, IsSlashCommand, ReadsAsCommand;
    if k > 0 {
      assert Moves(states[k - 1], steps[k - 1], states[k]);
      CommandsExactly(states[k].requests[req].rpc.text);
      RequestsGrow(states[k - 1], steps[k - 1]);
      if req < |states[k - 1].requests| {
        CommandNeverPlans(states, steps, k - 1, req);
        StepKeepsCommand(states[k - 1], steps[k - 1], Turn(req));
      } else {
        NewTurnBegins(states[k - 1], steps[k - 1], req);
      }
    }
  }

  lemma RequestsGrow(sys: System, s: Step)
    requires WellIndexed(sys) && Enabled(sys, s)
    ensures sys.requests <= Next(sys, s).requests && |Next(sys, s).requests| <= |sys.requests| + 1
  {
    hide Logs, AnyCut, Goes;
    GoesGrows(sys, s);
    if WorkerOf(s).Some? {
      WorkerIsLive(sys, s);
    }
  }

  lemma GoesGrows(sys: System, s: Step)
    requires WellIndexed(sys) && Enabled(sys, s)
    ensures sys.requests <= Goes(sys, s).requests && |Goes(sys, s).requests| <= |sys.requests| + 1
    ensures |Goes(sys, s).requests| > |sys.requests| ==> s.Receive?
  {
    hide Dispatch, SrvKey, End;
    if s.Receive? {
      DispatchShape(sys, s.r, s.newSession);
    } else if WorkerOf(s).Some? {
      WorkerIsLive(sys, s);
      EndKeepsRequests(sys, WorkerOf(s).value, s.AnswerNow? && s.error);
    }
  }

  lemma NewTurnBegins(sys: System, s: Step, req: nat)
    requires WellIndexed(sys) && Enabled(sys, s) && |sys.requests| <= req < |Next(sys, s).requests|
    ensures AwaitsAnswer(Next(sys, s), Turn(req))
  {
    hide Logs, AnyCut, Goes;
    if WorkerOf(s).Some? {
      WorkerIsLive(sys, s);
    }
    GoesGrows(sys, s);
    if s.Receive? {
      NewWorkerBegins(sys, s);
    }
  }

  lemma NewWorkerBegins(sys: System, s: Step)
    requires WellIndexed(sys) && Enabled(sys, s) && s.Receive?
    ensures forall w <- Goes(sys, s).workers :: w in sys.workers || w.Reattach? || Goes(sys, s).workers[w] == Begin
  {
    hide Dispatch;
    DispatchShape(sys, s.r, s.newSession);
  }
}
