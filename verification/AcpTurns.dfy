/** JSON-RPC bookkeeping of the ACP bridge. The stdin loop and any number of worker threads
    (prompt turns and `session/load` re-attachments) interleave. Everything they receive and send
    is logged first, in slices that can panic: a worker then dies, and the stdin loop takes the
    process with it. */
module AcpTurns {
  import opened Text
  import opened AcpLog
  import opened AcpPrompts
  import Runs

  type Json = string

  const MESSAGE_LIMIT: nat := 300
  const TURN_LIMIT: nat := 60

  datatype Method =
    | Initialize | Authenticate | SessionNew
    | SessionLoad(given: string, attach: bool)     // does the session have an active goal?
    | SetMode
    | Prompt(session: string, text: string)
    | SessionCancel | CancelRequest
    | Unknown

  datatype Request = Request(id: Option<Json>, rpc: Method)

  /** Section 5 of JSON-RPC 2.0: a result or an error, under the request's own id. `req` is the
      request it answers, by arrival number. */
  datatype Answer = Answer(req: nat, id: Json, error: bool)

  /** A client's response to one of the bridge's requests; `choice` is the option it names. */
  datatype Reply = Reply(id: string, choice: Option<string>)

  datatype WorkerId = Turn(req: nat) | Reattach(req: nat)

  datatype Pc =
    | Begin                                          // `run_turn` entered
    | Routed                                         // turn logged: slash command, status query or goal?
    | Noticed                                        // "planning" sent, goal not yet submitted
    | Streaming                                      // inside `stream_goal`
    | Registering(n: nat)                            // `handle_blocked`: id drawn, not yet pending
    | Asking(n: nat, inbox: Option<Reply>)           // pending, request not yet sent
    | Waiting(n: nat, inbox: Option<Reply>)          // request sent, `recv_timeout`
    | Woken(n: nat, got: Option<Reply>)              // received or timed out, entry not yet removed
    | Deciding(choice: Option<string>)               // entry removed

  /** A response the stdin loop has taken the channel for, and not yet sent on it. */
  datatype Routing = Routing(worker: WorkerId, n: nat, reply: nat)

  datatype Delivery = Delivery(worker: WorkerId, n: nat, reply: nat)

  /** `lost` are the requests whose thread ended without the answer it owed; `stuck` are the
      workers that died with an entry pending, under the id they drew. */
  datatype System = System(
    requests: seq<Request>, answers: seq<Answer>, sessions: set<string>,
    workers: map<WorkerId, Pc>, lost: set<nat>, stuck: map<WorkerId, nat>, down: bool,
    srvSeq: nat, issuedTo: map<nat, WorkerId>,
    pending: map<string, (WorkerId, nat)>,
    replies: seq<Reply>, routing: Option<Routing>, deliveries: seq<Delivery>)

  /** What `dispatch` sends: messages before the answer, the answer's payload, messages after. */
  datatype Said = Said(before: seq<string>, payload: string, after: seq<string>)

  /** Texts are what the step sends or reads, as they are logged; payloads become answers. */
  datatype Step =
    | Receive(line: string, r: Request, newSession: Option<string>, said: Said)
    | ReceiveReply(line: string, reply: Reply)
    | ReceiveJunk(line: string)            // not JSON, or nothing the bridge acts on
    | SendOnChannel
    | CloseStdin                           // the loop returns, and the process ends
    | Enter(w: WorkerId)
    | AnswerNow(w: WorkerId, before: seq<string>, error: bool, payload: string)
    | Notify(w: WorkerId)
    | Submit(w: WorkerId)
    | Emit(w: WorkerId, text: string)
    | StreamEnds(w: WorkerId, payload: string)
    | DrawId(w: WorkerId) | Register(w: WorkerId)
    | Ask(w: WorkerId, text: string)
    | Receives(w: WorkerId) | TimesOut(w: WorkerId)
    | Unregister(w: WorkerId)
    | Decide(w: WorkerId, before: seq<string>, payload: string)

  /** `format!("srv-{n}")` */
  function SrvKey(n: nat): string {
    "srv-" + Decimal(n % COUNTER_RANGE)
  }

  predicate OwesAnswer(r: Request) {
    r.id.Some? && !r.rpc.SessionCancel? && !r.rpc.CancelRequest?
  }

  predicate SpawnsTurn(sys: System, r: Request) {
    r.rpc.Prompt? && r.rpc.session in sys.sessions && !IsBlank(r.rpc.text)
  }

  // ---- steps that go well ----------------------------------------------------------

  /** `respond` and `rpc_error` send nothing for a request without id. */
  function Send(sys: System, req: nat, error: bool): System
    requires req < |sys.requests|
  {
    match sys.requests[req].id
    case None => sys
    case Some(id) => sys.(answers := sys.answers + [Answer(req, id, error)])
  }

  function Spawn(sys: System, w: WorkerId, pc: Pc): System {
    sys.(workers := sys.workers[w := pc])
  }

  /** The worker thread returns; a turn answers its prompt first, a re-attachment only logs. */
  function End(sys: System, w: WorkerId, error: bool): System
    requires w.Turn? ==> w.req < |sys.requests|
  {
    var done := sys.(workers := sys.workers - {w});
    if w.Turn? then Send(done, w.req, error) else done
  }

  /** Is the answer `dispatch` gives an error? */
  predicate Refused(sys: System, r: Request, newSession: Option<string>) {
    match r.rpc
    case SessionNew => newSession.None?
    case Prompt(session, _) => session !in sys.sessions
    case Unknown => true
    case _ => false
  }

  /** `dispatch` */
  function Dispatch(sys: System, r: Request, newSession: Option<string>): System {
    var req := |sys.requests|;
    var got := sys.(requests := sys.requests + [r]);
    match r.rpc
    case SessionNew =>
      // the daemon made a session, or the call failed
      if newSession.Some? then Send(got.(sessions := got.sessions + {newSession.value}), req, false)
      else Send(got, req, true)
    case SessionLoad(_, attach) =>
      var loaded := if newSession.Some? then got.(sessions := got.sessions + {newSession.value}) else got;
      var sent := Send(loaded, req, false);
      if attach then Spawn(sent, Reattach(req), Streaming) else sent
    case Prompt(session, text) =>
      if session !in got.sessions then Send(got, req, true)
      else if IsBlank(text) then Send(got, req, false)
      else Spawn(got, Turn(req), Begin)
    case SessionCancel => got
    case CancelRequest => got
    case Unknown => Send(got, req, true)
    case _ => Send(got, req, false)
  }

  /** How many messages `dispatch` sends besides the answer. */
  predicate Fits(sys: System, r: Request, newSession: Option<string>, said: Said) {
    match r.rpc
    case SessionNew => said.before == [] && |said.after| == if newSession.Some? then 1 else 0
    case SessionLoad(given, _) =>
      // the given id, if it has the right form and the daemon answers; else a fresh one
      newSession.Some? && (newSession.value == given ==> "sess_" <= given)
      && said.before == [] && |said.after| >= 1
    case SetMode => |said.before| == 1 && said.after == []
    case _ => said.before == [] && said.after == []
  }

  predicate IsCommand(sys: System, w: WorkerId) {
    w.req < |sys.requests| && sys.requests[w.req].rpc.Prompt? && IsSlashCommand(sys.requests[w.req].rpc.text)
  }

  predicate Enabled(sys: System, s: Step) {
    !sys.down &&
    match s
    case Receive(_, r, newSession, said) => sys.routing.None? && Fits(sys, r, newSession, said)
    case ReceiveReply(_, _) => sys.routing.None?
    case ReceiveJunk(_) => sys.routing.None?
    case SendOnChannel => sys.routing.Some?
    case CloseStdin => sys.routing.None?
    case Enter(w) => w in sys.workers && sys.workers[w].Begin?
    case AnswerNow(w, _, _, _) => w in sys.workers && (sys.workers[w].Routed? || sys.workers[w].Noticed?)
    case Notify(w) => w in sys.workers && sys.workers[w].Routed? && !IsCommand(sys, w)
    case Submit(w) => w in sys.workers && sys.workers[w].Noticed?
    case Emit(w, _) => w in sys.workers && sys.workers[w].Streaming?
    case StreamEnds(w, _) => w in sys.workers && sys.workers[w].Streaming?
    case DrawId(w) => w in sys.workers && sys.workers[w].Streaming?
    case Register(w) => w in sys.workers && sys.workers[w].Registering?
    case Ask(w, _) => w in sys.workers && sys.workers[w].Asking?
    case Receives(w) => w in sys.workers && sys.workers[w].Waiting? && sys.workers[w].inbox.Some?
    case TimesOut(w) => w in sys.workers && sys.workers[w].Waiting? && sys.workers[w].inbox.None?
    case Unregister(w) => w in sys.workers && sys.workers[w].Woken?
    case Decide(w, before, _) =>
      w in sys.workers && sys.workers[w].Deciding? && (sys.workers[w].choice == Some("cancel") ==> before == [])
  }

  /** The stdin loop takes the channel registered under the response's id, if any. */
  function RouteReply(sys: System, reply: Reply): System {
    var got := sys.(replies := sys.replies + [reply]);
    if reply.id in sys.pending then
      var (w, n) := sys.pending[reply.id];
      got.(pending := sys.pending - {reply.id}, routing := Some(Routing(w, n, |sys.replies|)))
    else got
  }

  /** `tx.send(msg)`: stays in the channel of a worker that has yet to read it, else is dropped. */
  function SendReply(sys: System): System
    requires sys.routing.Some? && sys.routing.value.reply < |sys.replies|
  {
    var r := sys.routing.value;
    var idle := sys.(routing := None);
    if r.worker in sys.workers && Listens(sys.workers[r.worker], r.n) then
      Spawn(idle, r.worker, sys.workers[r.worker].(inbox := Some(sys.replies[r.reply])))
        .(deliveries := sys.deliveries + [Delivery(r.worker, r.n, r.reply)])
    else idle
  }

  predicate Listens(pc: Pc, n: nat) {
    (pc.Asking? || pc.Waiting?) && pc.n == n
  }

  /** `handle_blocked`: an id is drawn, then registered, and in the end its entry is removed. */
  function Drawn(sys: System, w: WorkerId): System {
    Spawn(sys, w, Registering(sys.srvSeq))
      .(srvSeq := sys.srvSeq + 1, issuedTo := sys.issuedTo[sys.srvSeq := w])
  }

  function Registered(sys: System, w: WorkerId, n: nat): System {
    Spawn(sys, w, Asking(n, None)).(pending := sys.pending[SrvKey(n) := (w, n)])
  }

  function Unregistered(sys: System, w: WorkerId, n: nat, got: Option<Reply>): System {
    Spawn(sys, w, Deciding(if got.Some? then got.value.choice else None)).(pending := sys.pending - {SrvKey(n)})
  }

  /** The step, when nothing it logs is cut inside a character. */
  function Goes(sys: System, s: Step): System
    requires WellIndexed(sys) && Enabled(sys, s)
  {
    match s
    case Receive(_, r, newSession, _) => Dispatch(sys, r, newSession)
    case ReceiveReply(_, reply) => RouteReply(sys, reply)
    case ReceiveJunk(_) => sys
    case SendOnChannel => SendReply(sys)
    case CloseStdin => sys
    case Enter(w) => Spawn(sys, w, Routed)
    case AnswerNow(w, _, error, _) => End(sys, w, error)
    case Notify(w) => Spawn(sys, w, Noticed)
    case Submit(w) => Spawn(sys, w, Streaming)
    case Emit(_, _) => sys
    case StreamEnds(w, _) => End(sys, w, false)
    case DrawId(w) => Drawn(sys, w)
    case Register(w) => Registered(sys, w, sys.workers[w].n)
    case Ask(w, _) => Spawn(sys, w, Waiting(sys.workers[w].n, sys.workers[w].inbox))
    case Receives(w) => Spawn(sys, w, Woken(sys.workers[w].n, sys.workers[w].inbox))
    case TimesOut(w) => Spawn(sys, w, Woken(sys.workers[w].n, None))
    case Unregister(w) => Unregistered(sys, w, sys.workers[w].n, sys.workers[w].got)
    case Decide(w, _, _) =>
      if sys.workers[w].choice == Some("raise") then Spawn(sys, w, Streaming) else End(sys, w, false)
  }

  // ---- what is logged, and what a cut does -----------------------------------------

  function Messages(texts: seq<string>): seq<Slice> {
    seq(|texts|, i requires 0 <= i < |texts| => Slice(texts[i], MESSAGE_LIMIT))
  }

  /** The answer to a request, if one is sent at all. */
  function AnswerSlices(id: Option<Json>, error: bool, payload: string): seq<Slice> {
    match id
    case None => []
    case Some(id) => [Slice(AnswerText(id, error, payload), MESSAGE_LIMIT)]
  }

  /** The answer a worker gives its prompt. */
  function TurnAnswer(sys: System, w: WorkerId, error: bool, payload: string): seq<Slice>
    requires WellIndexed(sys) && w in sys.workers
  {
    if w.Turn? then AnswerSlices(sys.requests[w.req].id, error, payload) else []
  }

  /** What the step's thread logs, up to the answer if it gives one. */
  function Logs(sys: System, s: Step): seq<Slice>
    requires WellIndexed(sys) && Enabled(sys, s)
  {
    match s
    case Receive(line, r, newSession, said) =>
      [Slice(line, MESSAGE_LIMIT)] + Messages(said.before)
      + if !OwesAnswer(r) || SpawnsTurn(sys, r) then []
        else AnswerSlices(r.id, Refused(sys, r, newSession), said.payload)
    case ReceiveReply(line, _) => [Slice(line, MESSAGE_LIMIT)]
    case ReceiveJunk(line) => [Slice(line, MESSAGE_LIMIT)]
    case Enter(w) =>
      (match sys.requests[w.req].rpc
       case Prompt(_, text) => [Slice(text, TURN_LIMIT)]
       case _ => [])
    case AnswerNow(w, before, error, payload) => Messages(before) + TurnAnswer(sys, w, error, payload)
    case Notify(w) =>
      (match sys.requests[w.req].rpc
       case Prompt(session, _) => [Slice(NoticeText(session), MESSAGE_LIMIT)]
       case _ => [])
    case Emit(_, text) => [Slice(text, MESSAGE_LIMIT)]
    case StreamEnds(w, payload) => TurnAnswer(sys, w, false, payload)
    case Ask(_, text) => [Slice(text, MESSAGE_LIMIT)]
    case Decide(w, before, payload) =>
      Messages(before)
      + if sys.workers[w].choice == Some("raise") then [] else TurnAnswer(sys, w, false, payload)
    case _ => []
  }

  /** What `dispatch` logs after the answer. */
  function LogsAfter(s: Step): seq<Slice> {
    if s.Receive? then Messages(s.said.after) else []
  }

  /** The worker that takes the step; `None` for the stdin loop. */
  function WorkerOf(s: Step): Option<WorkerId> {
    match s
    case Enter(w) => Some(w)
    case AnswerNow(w, _, _, _) => Some(w)
    case Notify(w) => Some(w)
    case Submit(w) => Some(w)
    case Emit(w, _) => Some(w)
    case StreamEnds(w, _) => Some(w)
    case DrawId(w) => Some(w)
    case Register(w) => Some(w)
    case Ask(w, _) => Some(w)
    case Receives(w) => Some(w)
    case TimesOut(w) => Some(w)
    case Unregister(w) => Some(w)
    case Decide(w, _, _) => Some(w)
    case _ => None
  }

  predicate OwedBy(sys: System, w: WorkerId) {
    w.Turn? && w.req < |sys.requests| && OwesAnswer(sys.requests[w.req])
  }

  /** The thread of worker `w` panics. Its pending entry, if it has one, stays behind. */
  function Die(sys: System, w: WorkerId): System
    requires w in sys.workers
  {
    var pc := sys.workers[w];
    sys.(workers := sys.workers - {w},
         lost := if OwedBy(sys, w) then sys.lost + {w.req} else sys.lost,
         stuck := if pc.Asking? then sys.stuck[w := pc.n] else sys.stuck)
  }

  /** The process ends, and with it every thread. */
  function Down(sys: System): System {
    sys.(workers := map[], pending := map[], routing := None, down := true,
         lost := sys.lost + set w | w in sys.workers && OwedBy(sys, w) :: w.req)
  }

  /** A request whose line or answer is cut was received all the same. */
  function Unanswered(sys: System, s: Step): System {
    if s.Receive? then
      sys.(requests := sys.requests + [s.r],
           lost := if OwesAnswer(s.r) then sys.lost + {|sys.requests|} else sys.lost)
    else sys
  }

  function Next(sys: System, s: Step): System
    requires WellIndexed(sys) && Enabled(sys, s)
  {
    if AnyCut(Logs(sys, s)) then
      match WorkerOf(s)
      case Some(w) => Die(sys, w)
      case None => Down(Unanswered(sys, s))
    else if AnyCut(LogsAfter(s)) || s.CloseStdin? then Down(Goes(sys, s))
    else Goes(sys, s)
  }

  predicate Moves(sys: System, s: Step, next: System) {
    WellIndexed(sys) && Enabled(sys, s) && next == Next(sys, s)
  }

  ghost predicate Initial(sys: System) {
    sys == System([], [], {}, map[], {}, map[], false, 0, map[], map[], [], None, [])
  }

  ghost predicate Run(states: seq<System>, steps: seq<Step>) {
    Runs.Joined(Moves, states, steps) && Initial(states[0])
  }

  predicate WellIndexed(sys: System) {
    && (forall w <- sys.workers :: w.req < |sys.requests|)
    && (sys.routing.Some? ==> sys.routing.value.reply < |sys.replies|)
  }

  // ---- requests: answered once, live, or lost --------------------------------------

  function AnswersTo(answers: seq<Answer>, req: nat): nat {
    if answers == [] then 0
    else AnswersTo(answers[..|answers| - 1], req) + if answers[|answers| - 1].req == req then 1 else 0
  }

  function LiveTurns(sys: System, req: nat): nat {
    if Turn(req) in sys.workers then 1 else 0
  }

  function Losses(sys: System, req: nat): nat {
    if req in sys.lost then 1 else 0
  }

  /** Request `req` is in order: an owed answer is given, in the making or lost, one of the three;
      nothing else is ever answered or lost. */
  ghost predicate RequestInv(sys: System, req: nat) {
    if req < |sys.requests| then
      && (OwesAnswer(sys.requests[req]) ==> AnswersTo(sys.answers, req) + LiveTurns(sys, req) + Losses(sys, req) == 1)
      && (!OwesAnswer(sys.requests[req]) ==> AnswersTo(sys.answers, req) == 0 && Losses(sys, req) == 0)
      && (!sys.requests[req].rpc.Prompt? ==> LiveTurns(sys, req) == 0)
    else
      AnswersTo(sys.answers, req) == 0 && LiveTurns(sys, req) == 0 && Losses(sys, req) == 0
  }

  ghost predicate AnswersInv(sys: System) {
    && (forall req: nat :: RequestInv(sys, req))
    && (forall a <- sys.answers :: a.req < |sys.requests| && sys.requests[a.req].id == Some(a.id))
    && WellIndexed(sys)
  }

  lemma OneMoreAnswer(answers: seq<Answer>, a: Answer, req: nat)
    ensures AnswersTo(answers + [a], req) == AnswersTo(answers, req) + if a.req == req then 1 else 0
  {
    assert (answers + [a])[..|answers|] == answers;
  }

  lemma SendCounts(sys: System, req: nat, error: bool)
    requires req < |sys.requests|
    ensures forall r: nat ::
      AnswersTo(Send(sys, req, error).answers, r)
      == AnswersTo(sys.answers, r) + (if r == req && sys.requests[req].id.Some? then 1 else 0)
  {
    forall r: nat
      ensures AnswersTo(Send(sys, req, error).answers, r)
        == AnswersTo(sys.answers, r) + (if r == req && sys.requests[req].id.Some? then 1 else 0)
    {
      if sys.requests[req].id.Some? {
        OneMoreAnswer(sys.answers, Answer(req, sys.requests[req].id.value, error), r);
      }
    }
  }

  lemma DispatchKeepsAnswers(sys: System, r: Request, newSession: Option<string>)
    requires AnswersInv(sys)
    ensures AnswersInv(Dispatch(sys, r, newSession))
  {
    hide AnswersTo, Dispatch;
    var req, next := |sys.requests|, Dispatch(sys, r, newSession);
    assert RequestInv(sys, req);
    DispatchCounts(sys, r, newSession);
    DispatchSpawns(sys, r, newSession);
    forall k: nat ensures RequestInv(next, k) {
      assert RequestInv(sys, k);
    }
  }

  predicate Answers(sys: System, r: Request) {
    OwesAnswer(r) && !SpawnsTurn(sys, r)
  }

  function AnswerTo(req: nat, r: Request, error: bool): seq<Answer> {
    match r.id
    case None => []
    case Some(id) => [Answer(req, id, error)]
  }

  /** When nothing is cut, `dispatch` answers the new request under its own id, unless it has
      none, is a cancellation, or starts a turn. */
  lemma DispatchAnswers(sys: System, r: Request, newSession: Option<string>)
    ensures var req := |sys.requests|;
      Dispatch(sys, r, newSession).answers == sys.answers
        + if Answers(sys, r) then AnswerTo(req, r, Refused(sys, r, newSession)) else []
  {
    hide Send, IsBlank;
    var req := |sys.requests|;
    var got := sys.(requests := sys.requests + [r]);
    SendAnswers(got, req, true);
    SendAnswers(got, req, false);
    if newSession.Some? {
      SendAnswers(got.(sessions := got.sessions + {newSession.value}), req, false);
    }
  }

  lemma SendAnswers(sys: System, req: nat, error: bool)
    requires req < |sys.requests|
    ensures Send(sys, req, error).answers == sys.answers + AnswerTo(req, sys.requests[req], error)
  {
  }

  /** ... so the new request gets one answer, or one live turn, or neither, and no other request
      gets either. */
  lemma DispatchCounts(sys: System, r: Request, newSession: Option<string>)
    requires WellIndexed(sys)
    ensures var req, next := |sys.requests|, Dispatch(sys, r, newSession);
      && (forall k: nat :: AnswersTo(next.answers, k)
            == AnswersTo(sys.answers, k) + if k == req && Answers(sys, r) then 1 else 0)
      && (forall k: nat :: LiveTurns(next, k) == LiveTurns(sys, k) + if k == req && SpawnsTurn(sys, r) then 1 else 0)
      && !(Answers(sys, r) && SpawnsTurn(sys, r))
      && (next.answers == sys.answers
          || exists e :: r.id.Some? && next.answers == sys.answers + [Answer(req, r.id.value, e)])
  {
    hide AnswersTo, Dispatch, SpawnsTurn, WellIndexed;
    DispatchAnswers(sys, r, newSession);
    DispatchSpawns(sys, r, newSession);
    NewIsNotLive(sys);
    var req, next := |sys.requests|, Dispatch(sys, r, newSession);
    if Answers(sys, r) {
      forall k: nat ensures AnswersTo(next.answers, k) == AnswersTo(sys.answers, k) + if k == req then 1 else 0 {
        OneMoreAnswer(sys.answers, Answer(req, r.id.value, Refused(sys, r, newSession)), k);
      }
    } else {
      assert next.answers == sys.answers;
    }
  }

  lemma NewIsNotLive(sys: System)
    requires WellIndexed(sys)
    ensures LiveTurns(sys, |sys.requests|) == 0
  {
  }

  ghost predicate SameRouting(a: System, b: System) {
    a.srvSeq == b.srvSeq && a.issuedTo == b.issuedTo && a.pending == b.pending && a.stuck == b.stuck
    && a.replies == b.replies && a.routing == b.routing && a.deliveries == b.deliveries
  }

  /** The threads `dispatch` starts, and what it leaves alone. */
  lemma DispatchShape(sys: System, r: Request, newSession: Option<string>)
    ensures var next := Dispatch(sys, r, newSession);
      && next.requests == sys.requests + [r] && SameRouting(sys, next) && next.lost == sys.lost && next.down == sys.down
      && next.workers == WorkersAfter(sys, r)
  {
    hide Dispatch;
    DispatchOnly(sys, r, newSession);
  }

  /** `dispatch` touches nothing but requests, answers, sessions and workers. */
  ghost predicate IsDispatch(sys: System, r: Request, next: System) {
    next == sys.(requests := sys.requests + [r], workers := WorkersAfter(sys, r),
                 answers := next.answers, sessions := next.sessions)
  }

  lemma DispatchOnly(sys: System, r: Request, newSession: Option<string>)
    ensures IsDispatch(sys, r, Dispatch(sys, r, newSession))
  {
    hide Dispatch, IsDispatch;
    if r.rpc.Prompt? {
      PromptOnly(sys, r, newSession);
    } else if r.rpc.SessionNew? || r.rpc.SessionLoad? {
      SessionOnly(sys, r, newSession);
    } else {
      OthersOnly(sys, r, newSession);
    }
  }

  lemma PromptOnly(sys: System, r: Request, newSession: Option<string>)
    requires r.rpc.Prompt?
    ensures IsDispatch(sys, r, Dispatch(sys, r, newSession))
  {
    hide Send, IsBlank;
    var got := sys.(requests := sys.requests + [r]);
    SendKeepsWorkers(got, |sys.requests|, true);
    SendKeepsWorkers(got, |sys.requests|, false);
  }

  lemma SessionOnly(sys: System, r: Request, newSession: Option<string>)
    requires r.rpc.SessionNew? || r.rpc.SessionLoad?
    ensures IsDispatch(sys, r, Dispatch(sys, r, newSession))
  {
    hide Send;
    var got := sys.(requests := sys.requests + [r]);
    if newSession.Some? {
      SendKeepsWorkers(got.(sessions := got.sessions + {newSession.value}), |sys.requests|, false);
    } else {
      SendKeepsWorkers(got, |sys.requests|, r.rpc.SessionNew?);
    }
  }

  lemma OthersOnly(sys: System, r: Request, newSession: Option<string>)
    requires !r.rpc.Prompt? && !r.rpc.SessionNew? && !r.rpc.SessionLoad?
    ensures IsDispatch(sys, r, Dispatch(sys, r, newSession))
  {
    hide Send;
    var got := sys.(requests := sys.requests + [r]);
    SendKeepsWorkers(got, |sys.requests|, r.rpc.Unknown?);
  }

  function WorkersAfter(sys: System, r: Request): map<WorkerId, Pc> {
    var req := |sys.requests|;
    if SpawnsTurn(sys, r) then sys.workers[Turn(req) := Begin]
    else if r.rpc.SessionLoad? && r.rpc.attach then sys.workers[Reattach(req) := Streaming]
    else sys.workers
  }

  lemma DispatchSpawns(sys: System, r: Request, newSession: Option<string>)
    requires WellIndexed(sys)
    ensures var next := Dispatch(sys, r, newSession);
      && next.requests == sys.requests + [r] && WellIndexed(next) && next.lost == sys.lost
      && (forall k: nat :: Turn(k) in next.workers
           <==> Turn(k) in sys.workers || (k == |sys.requests| && SpawnsTurn(sys, r)))
  {
    hide Dispatch, WellIndexed;
    DispatchShape(sys, r, newSession);
    StaysWellIndexed(sys, Dispatch(sys, r, newSession));
  }

  lemma StaysWellIndexed(sys: System, next: System)
    requires WellIndexed(sys) && next.routing == sys.routing && next.replies == sys.replies
    requires forall w <- next.workers :: w in sys.workers || w.req < |next.requests|
    requires |sys.requests| <= |next.requests|
    ensures WellIndexed(next)
  {
  }

  lemma SendKeepsWorkers(sys: System, req: nat, error: bool)
    requires req < |sys.requests|
    ensures var next := Send(sys, req, error);
      next == sys.(answers := next.answers)
  {
  }

  lemma EndKeepsAnswers(sys: System, w: WorkerId, error: bool)
    requires AnswersInv(sys) && w in sys.workers
    ensures AnswersInv(End(sys, w, error))
  {
    hide AnswersTo;
    var next := End(sys, w, error);
    if w.Turn? {
      SendCounts(sys.(workers := sys.workers - {w}), w.req, error);
    }
    forall k: nat ensures RequestInv(next, k) {
      assert RequestInv(sys, k);
    }
  }

  lemma DieKeepsAnswers(sys: System, w: WorkerId)
    requires AnswersInv(sys) && w in sys.workers
    ensures AnswersInv(Die(sys, w))
  {
    hide AnswersTo;
    forall k: nat ensures RequestInv(Die(sys, w), k) {
      assert RequestInv(sys, k);
    }
  }

  lemma DownKeepsAnswers(sys: System)
    requires AnswersInv(sys)
    ensures AnswersInv(Down(sys))
  {
    hide AnswersTo;
    var next := Down(sys);
    forall k: nat ensures RequestInv(next, k) {
      assert RequestInv(sys, k);
      LostWhenDown(sys, k);
    }
  }

  lemma LostWhenDown(sys: System, req: nat)
    ensures req in Down(sys).lost <==> req in sys.lost || (Turn(req) in sys.workers && OwedBy(sys, Turn(req)))
  {
  }

  lemma UnansweredKeepsAnswers(sys: System, s: Step)
    requires AnswersInv(sys)
    ensures AnswersInv(Unanswered(sys, s))
  {
    hide AnswersTo;
    forall k: nat ensures RequestInv(Unanswered(sys, s), k) {
      assert RequestInv(sys, k);
    }
  }

  lemma SameWorkersKeepAnswers(sys: System, next: System)
    requires AnswersInv(sys) && WellIndexed(next)
    requires next.requests == sys.requests && next.answers == sys.answers && next.workers.Keys == sys.workers.Keys
        && next.lost == sys.lost
    ensures AnswersInv(next)
  {
    hide AnswersTo;
    forall k: nat ensures RequestInv(next, k) {
      assert RequestInv(sys, k);
    }
  }

  lemma StdinKeepsAnswers(sys: System, s: Step)
    requires AnswersInv(sys) && Enabled(sys, s) && WorkerOf(s).None?
    ensures AnswersInv(Goes(sys, s))
  {
    hide AnswersTo, RequestInv, Dispatch;
    if s.Receive? {
      DispatchKeepsAnswers(sys, s.r, s.newSession);
    } else {
      SameWorkersKeepAnswers(sys, Goes(sys, s));
    }
  }

  lemma WorkerKeepsAnswers(sys: System, s: Step)
    requires AnswersInv(sys) && Enabled(sys, s) && WorkerOf(s).Some?
    ensures AnswersInv(Goes(sys, s))
  {
    hide AnswersTo, SrvKey, RequestInv, End;
    if s.AnswerNow? {
      EndKeepsAnswers(sys, s.w, s.error);
    } else if s.StreamEnds? || (s.Decide? && sys.workers[s.w].choice != Some("raise")) {
      EndKeepsAnswers(sys, s.w, false);
    } else {
      SameWorkersKeepAnswers(sys, Goes(sys, s));
    }
  }

  lemma StepKeepsAnswers(sys: System, s: Step)
    requires AnswersInv(sys) && Enabled(sys, s)
    ensures AnswersInv(Next(sys, s))
  {
    hide AnswersInv, Goes, Logs, Die, Down, Unanswered, AnyCut;
    InvWellIndexed(sys);
    if AnyCut(Logs(sys, s)) {
      if WorkerOf(s).Some? {
        WorkerIsLive(sys, s);
        DieKeepsAnswers(sys, WorkerOf(s).value);
      } else {
        UnansweredKeepsAnswers(sys, s);
        DownKeepsAnswers(Unanswered(sys, s));
      }
    } else {
      if WorkerOf(s).Some? {
        WorkerKeepsAnswers(sys, s);
      } else {
        StdinKeepsAnswers(sys, s);
      }
      DownKeepsAnswers(Goes(sys, s));
    }
  }

  lemma InvWellIndexed(sys: System)
    requires AnswersInv(sys)
    ensures WellIndexed(sys)
  {
  }

  lemma WorkerIsLive(sys: System, s: Step)
    requires Enabled(sys, s) && WorkerOf(s).Some?
    ensures WorkerOf(s).value in sys.workers
  {
  }

  lemma {:induction false} EveryStateAnswers(states: seq<System>, steps: seq<Step>, k: nat)
    requires Run(states, steps) && k < |states|
    ensures AnswersInv(states[k])
  {
    hide AnswersInv, Next, Enabled;
    if k == 0 {
      NothingReceived(states[0]);
    } else {
      EveryStateAnswers(states, steps, k - 1);
      assert Moves(states[k - 1], steps[k - 1], states[k]);
      StepKeepsAnswers(states[k - 1], steps[k - 1]);
    }
  }

  lemma NothingReceived(sys: System)
    requires Initial(sys)
    ensures AnswersInv(sys)
  {
  }

  /** In every run, each request with an id, other than `session/cancel` and `$/cancel_request`,
      has exactly one answer, or else one live turn and no answer, or else its thread ended
      without answering; no other request is ever answered; and every answer carries its
      request's id. */
  lemma AnsweredOnceLiveOrLost(states: seq<System>, steps: seq<Step>, k: nat, req: nat)
    requires Run(states, steps) && k < |states| && req < |states[k].requests|
    ensures OwesAnswer(states[k].requests[req]) ==>
      AnswersTo(states[k].answers, req) == if Turn(req) in states[k].workers || req in states[k].lost then 0 else 1
    ensures OwesAnswer(states[k].requests[req]) ==> !(Turn(req) in states[k].workers && req in states[k].lost)
    ensures !OwesAnswer(states[k].requests[req]) ==> AnswersTo(states[k].answers, req) == 0 && req !in states[k].lost
    ensures forall a <- states[k].answers :: a.req < |states[k].requests| && states[k].requests[a.req].id == Some(a.id)
  {
    EveryStateAnswers(states, steps, k);
    assert RequestInv(states[k], req);
  }

  // ---- exactly when a request is lost ----------------------------------------------

  /** The step ends the process: stdin is closed, or something that the stdin loop logs is cut
      inside a character. */
  predicate EndsProcess(sys: System, s: Step)
    requires WellIndexed(sys) && Enabled(sys, s)
  {
    s.CloseStdin? || (WorkerOf(s).None? && (AnyCut(Logs(sys, s)) || AnyCut(LogsAfter(s))))
  }

  /** The step loses request `req`: its own turn logs a text that is cut, up to its answer; or
      the stdin loop does, on receiving it; or the process ends under a live turn. */
  predicate Loses(sys: System, s: Step, req: nat) {
    WellIndexed(sys) && Enabled(sys, s) &&
    (|| (WorkerOf(s) == Some(Turn(req)) && OwedBy(sys, Turn(req)) && AnyCut(Logs(sys, s)))
     || (s.Receive? && req == |sys.requests| && OwesAnswer(s.r) && AnyCut(Logs(sys, s)))
     || (EndsProcess(sys, s) && Turn(req) in sys.workers && OwedBy(sys, Turn(req)))
     || (EndsProcess(sys, s) && s.Receive? && req == |sys.requests| && OwesAnswer(s.r) && SpawnsTurn(sys, s.r)))
  }

  lemma GoesKeepsLost(sys: System, s: Step)
    requires WellIndexed(sys) && Enabled(sys, s)
    ensures Goes(sys, s).lost == sys.lost && Goes(sys, s).down == sys.down
  {
    hide Dispatch, SrvKey;
    if s.Receive? {
      DispatchShape(sys, s.r, s.newSession);
    }
  }

  lemma StepLosesExactly(sys: System, s: Step, req: nat)
    requires WellIndexed(sys) && Enabled(sys, s)
    ensures req in Next(sys, s).lost <==> req in sys.lost || Loses(sys, s, req)
  {
    hide Logs, AnyCut, Goes, Messages;
    NothingToCut();
    GoesKeepsLost(sys, s);
    if AnyCut(Logs(sys, s)) {
      if WorkerOf(s).Some? {
        WorkerIsLive(sys, s);
      } else {
        LostWhenDown(Unanswered(sys, s), req);
      }
    } else if s.Receive? {
      ReceiveGoes(sys, s);
      LostWhenDown(Goes(sys, s), req);
    } else if s.CloseStdin? {
      CloseGoes(sys);
      LostWhenDown(sys, req);
    }
  }

  lemma NothingToCut()
    ensures !AnyCut([])
  {
  }

  lemma CloseGoes(sys: System)
    requires WellIndexed(sys) && Enabled(sys, CloseStdin)
    ensures Goes(sys, CloseStdin) == sys
  {
  }

  lemma ReceiveGoes(sys: System, s: Step)
    requires WellIndexed(sys) && Enabled(sys, s) && s.Receive?
    ensures var next := Goes(sys, s);
      && next.requests == sys.requests + [s.r]
      && forall k: nat :: Turn(k) in next.workers
           <==> Turn(k) in sys.workers || (k == |sys.requests| && SpawnsTurn(sys, s.r))
  {
    hide Dispatch;
    DispatchSpawns(sys, s.r, s.newSession);
  }

  /** In every run, an owed request is lost exactly if some step lost it: its own turn, or the
      stdin loop when receiving it, logged a text cut inside a character before or in its
      answer; or the stdin loop ended the process, in the same way or at end of input, while the
      turn was live. */
  lemma {:induction false} LostExactly(states: seq<System>, steps: seq<Step>, k: nat, req: nat)
    requires Run(states, steps) && k < |states|
    ensures req in states[k].lost <==> exists j :: 0 <= j < k && Loses(states[j], steps[j], req)
  {
    hide Loses, Next, Enabled;
    if k > 0 {
      LostExactly(states, steps, k - 1, req);
      assert Moves(states[k - 1], steps[k - 1], states[k]);
      StepLosesExactly(states[k - 1], steps[k - 1], req);
    }
  }

  lemma StepEndsExactly(sys: System, s: Step)
    requires WellIndexed(sys) && Enabled(sys, s)
    ensures Next(sys, s).down <==> EndsProcess(sys, s)
  {
    hide Logs, AnyCut, Messages, Goes;
    NothingToCut();
    GoesKeepsLost(sys, s);
  }

  predicate Ends(sys: System, s: Step) {
    WellIndexed(sys) && Enabled(sys, s) && EndsProcess(sys, s)
  }

  /** In every run, the process has ended exactly if some step closed stdin or had the stdin loop
      log a text that is cut; and that step was the last. */
  lemma {:induction false} DownExactly(states: seq<System>, steps: seq<Step>, k: nat)
    requires Run(states, steps) && k < |states|
    ensures states[k].down <==> exists j :: 0 <= j < k && Ends(states[j], steps[j])
    ensures states[k].down ==> k == |steps|
  {
    hide Next, EndsProcess, WellIndexed;
    if k > 0 {
      DownExactly(states, steps, k - 1);
      assert Moves(states[k - 1], steps[k - 1], states[k]);
      StepEndsExactly(states[k - 1], steps[k - 1]);
    }
    if k < |steps| {
      assert Moves(states[k], steps[k], states[k + 1]);
    }
  }

  // ---- the planning notice ---------------------------------------------------------

  function NoRequests(): System {
    System([], [], {}, map[], {}, map[], false, 0, map[], map[], [], None, [])
  }

  function LoadRequest(session: string): Request {
    Request(Some("0"), SessionLoad(session, false))
  }

  function PromptRequest(session: string, prompt: string): Request {
    Request(Some("1"), Prompt(session, prompt))
  }

  function SessionLoaded(session: string): System {
    NoRequests().(requests := [LoadRequest(session)], answers := [Answer(0, "0", false)], sessions := {session})
  }

  /** A session is loaded, and prompted once; `pc` is where the turn is. */
  function Prompted(session: string, prompt: string): System {
    SessionLoaded(session).(requests := [LoadRequest(session), PromptRequest(session, prompt)])
  }

  function TurnAt(session: string, prompt: string, pc: Pc): System {
    Prompted(session, prompt).(workers := map[Turn(1) := pc])
  }

  function LoadStep(session: string, line: string, update: string): Step {
    Receive(line, LoadRequest(session), Some(session), Said([], "{}", [update]))
  }

  function PromptStep(session: string, prompt: string, line: string): Step {
    Receive(line, PromptRequest(session, prompt), None, Said([], "", []))
  }

  lemma AnswerIsAscii()
    ensures IsAscii(AnswerText("0", false, "{}"))
  {
  }

  lemma LoadMoves(session: string, line: string, update: string)
    requires "sess_" <= session && IsAscii(line) && !Cut(Slice(update, MESSAGE_LIMIT))
    ensures Moves(NoRequests(), LoadStep(session, line, update), SessionLoaded(session))
  {
    hide Cut, AnswerText, CharSize;
    AnswerIsAscii();
    var sys, step := NoRequests(), LoadStep(session, line, update);
    AsciiNeverCut(Slice(line, MESSAGE_LIMIT));
    AsciiNeverCut(Slice(AnswerText("0", false, "{}"), MESSAGE_LIMIT));
    assert Logs(sys, step) == [Slice(line, MESSAGE_LIMIT), Slice(AnswerText("0", false, "{}"), MESSAGE_LIMIT)];
    assert LogsAfter(step) == [Slice(update, MESSAGE_LIMIT)];
  }

  lemma PromptMoves(session: string, prompt: string, line: string)
    requires IsAscii(line) && !IsBlank(prompt)
    ensures Moves(SessionLoaded(session), PromptStep(session, prompt, line), TurnAt(session, prompt, Begin))
  {
    hide Cut, IsBlank;
    var sys, step := SessionLoaded(session), PromptStep(session, prompt, line);
    AsciiNeverCut(Slice(line, MESSAGE_LIMIT));
    assert Logs(sys, step) == [Slice(line, MESSAGE_LIMIT)] && LogsAfter(step) == [];
    assert Turn(1).req < |Prompted(session, prompt).requests|;
  }

  lemma EnterMoves(session: string, prompt: string)
    requires IsAscii(prompt)
    ensures Moves(TurnAt(session, prompt, Begin), Enter(Turn(1)), TurnAt(session, prompt, Routed))
  {
    hide Cut;
    AsciiNeverCut(Slice(prompt, TURN_LIMIT));
    assert Logs(TurnAt(session, prompt, Begin), Enter(Turn(1))) == [Slice(prompt, TURN_LIMIT)];
  }

  /** The turn dies on its notice if that is cut, and else goes on. */
  lemma NoticeMoves(session: string, prompt: string)
    requires !IsSlashCommand(prompt)
    ensures Moves(TurnAt(session, prompt, Routed), Notify(Turn(1)),
      if Cut(Slice(NoticeText(session), MESSAGE_LIMIT)) then Prompted(session, prompt).(lost := {1})
      else TurnAt(session, prompt, Noticed))
  {
    hide Cut, NoticeText, IsSlashCommand;
    var sys := TurnAt(session, prompt, Routed);
    var logs := Logs(sys, Notify(Turn(1)));
    assert logs == [Slice(NoticeText(session), MESSAGE_LIMIT)];
    assert AnyCut(logs) <==> Cut(logs[0]);
    assert Die(sys, Turn(1)) == Prompted(session, prompt).(lost := {1});
  }

  /** A session is loaded and prompted for work; the turn has just been logged. */
  lemma UpToRouted(session: string, prompt: string, loadLine: string, promptLine: string, update: string)
    returns (states: seq<System>, steps: seq<Step>)
    requires "sess_" <= session && IsAscii(prompt) && !IsBlank(prompt)
    requires IsAscii(loadLine) && IsAscii(promptLine) && !Cut(Slice(update, MESSAGE_LIMIT))
    ensures Run(states, steps) && states[|steps|] == TurnAt(session, prompt, Routed)
  {
    hide Moves, Cut, IsBlank;
    LoadMoves(session, loadLine, update);
    PromptMoves(session, prompt, promptLine);
    EnterMoves(session, prompt);
    states, steps := [NoRequests()], [];
    assert Initial(states[0]);
    states, steps := Runs.Extend(Moves, states, steps, LoadStep(session, loadLine, update), SessionLoaded(session));
    states, steps := Runs.Extend(Moves, states, steps,
      PromptStep(session, prompt, promptLine), TurnAt(session, prompt, Begin));
    states, steps := Runs.Extend(Moves, states, steps, Enter(Turn(1)), TurnAt(session, prompt, Routed));
  }

  /** An ASCII session id of 193 or 194 characters loses every goal that is prompted under it:
      the turn dies on its own notice. */
  lemma NoticeLosesPrompt(session: string, prompt: string, loadLine: string, promptLine: string, update: string)
    returns (states: seq<System>, steps: seq<Step>)
    requires "sess_" <= session && IsAscii(session) && NeedsNoEscape(session) && 193 <= |session| <= 194
    requires IsAscii(prompt) && AsksForWork(prompt)
    requires IsAscii(loadLine) && IsAscii(promptLine) && !Cut(Slice(update, MESSAGE_LIMIT))
    ensures Run(states, steps) && |steps| > 0
    ensures states[|steps|] == Prompted(session, prompt).(lost := {1})
  {
    hide Moves, NoticeText, Cut, IsBlank, IsSlashCommand, NamesGoal, IsStatusQuery;
    NoticeCutExactly(session);
    states, steps := UpToRouted(session, prompt, loadLine, promptLine, update);
    NoticeMoves(session, prompt);
    states, steps := Runs.Extend(Moves, states, steps, Notify(Turn(1)), Prompted(session, prompt).(lost := {1}));
  }

  /** A turn whose prompt is ASCII text around one wide character dies as soon as it is entered
      exactly when that character straddles byte 60; then the prompt, if it owes an answer, is
      lost. */
  lemma EnteringDiesExactly(sys: System, req: nat, session: string, a: string, c: char, b: string)
    requires WellIndexed(sys) && Enabled(sys, Enter(Turn(req)))
    requires sys.requests[req].rpc == Prompt(session, a + [c] + b) && IsAscii(a) && IsAscii(b)
    ensures var next := Next(sys, Enter(Turn(req)));
      && (Turn(req) !in next.workers <==> |a| < 60 < |a| + CharSize(c))
      && (Turn(req) !in next.workers && OwesAnswer(sys.requests[req]) ==> req in next.lost)
  {
    hide Cut, CharSize;
    OneWideChar(a, c, b, TURN_LIMIT);
    var logs := Logs(sys, Enter(Turn(req)));
    assert logs == [Slice(a + [c] + b, TURN_LIMIT)];
    assert AnyCut(logs) <==> Cut(logs[0]);
  }
}
