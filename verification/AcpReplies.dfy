/** Replies of the client to the bridge's own requests: each reaches the waiter that drew the id
    it names, at most once, and leaves nothing pending but what a dead waiter left. */
module AcpReplies {
  import opened Text
  import opened AcpLog
  import opened AcpPrompts
  import opened AcpTurns
  import Runs

  predicate Uses(pc: Pc, n: nat) {
    match pc
    case Registering(m) => m == n
    case Asking(m, _) => m == n
    case Waiting(m, _) => m == n
    case Woken(m, _) => m == n
    case _ => false
  }

  /** Server ids are drawn once each; a worker between drawing and unregistering holds the id it
      drew, and so does one that died in between, which is gone for good. */
  ghost predicate IdsInv(sys: System) {
    && (forall n: nat :: n in sys.issuedTo <==> n < sys.srvSeq)
    && (forall w, n: nat :: w in sys.workers && Uses(sys.workers[w], n) ==>
          n in sys.issuedTo && sys.issuedTo[n] == w)
    && (forall w <- sys.stuck :: w !in sys.workers && w.req < |sys.requests|
          && sys.stuck[w] in sys.issuedTo && sys.issuedTo[sys.stuck[w]] == w)
  }

  /** The entry of worker `w` for id `n` is one that the worker is still to remove, or one that
      it left behind when it died. */
  predicate Owns(sys: System, w: WorkerId, n: nat) {
    || (w in sys.workers && Uses(sys.workers[w], n) && !sys.workers[w].Registering?)
    || (w in sys.stuck && sys.stuck[w] == n)
  }

  ghost predicate PendingInv(sys: System) {
    forall key <- sys.pending :: key == SrvKey(sys.pending[key].1) && Owns(sys, sys.pending[key].0, sys.pending[key].1)
  }

  /** The channel of id `n` is used up: it can never be taken again. */
  ghost predicate Spent(sys: System, n: nat) {
    && n in sys.issuedTo
    && (forall key <- sys.pending :: sys.pending[key].1 != n)
    && (forall w <- sys.workers :: sys.workers[w] != Registering(n))
  }

  ghost predicate Addressed(sys: System, w: WorkerId, n: nat, reply: nat) {
    reply < |sys.replies| && sys.replies[reply].id == SrvKey(n) && n in sys.issuedTo && sys.issuedTo[n] == w
  }

  ghost predicate DeliveryInv(sys: System) {
    && (forall d <- sys.deliveries :: Addressed(sys, d.worker, d.n, d.reply) && Spent(sys, d.n))
    && (forall i, j :: 0 <= i < j < |sys.deliveries| ==>
          sys.deliveries[i].n != sys.deliveries[j].n && sys.deliveries[i].reply < sys.deliveries[j].reply)
    && (sys.routing.Some? ==> var r := sys.routing.value;
          && Addressed(sys, r.worker, r.n, r.reply) && Spent(sys, r.n)
          && forall d <- sys.deliveries :: d.n != r.n && d.reply < r.reply)
  }

  /** The reply a waiter has been sent, if any, and the id it waited on. */
  function Held(pc: Pc): Option<(nat, Reply)> {
    if (pc.Asking? || pc.Waiting?) && pc.inbox.Some? then Some((pc.n, pc.inbox.value))
    else if pc.Woken? && pc.got.Some? then Some((pc.n, pc.got.value))
    else None
  }

  /** What a waiter holds was delivered to it. */
  ghost predicate InboxInv(sys: System) {
    forall w <- sys.workers :: HeldIsDelivered(sys, w, sys.workers[w])
  }

  ghost predicate HeldIsDelivered(sys: System, w: WorkerId, pc: Pc) {
    Held(pc).Some? ==> Delivered(sys, w, Held(pc).value.0, Held(pc).value.1)
  }

  ghost predicate Delivered(sys: System, w: WorkerId, n: nat, r: Reply) {
    exists d <- sys.deliveries :: d.worker == w && d.n == n && d.reply < |sys.replies| && sys.replies[d.reply] == r
  }

  ghost predicate RoutingInv(sys: System) {
    IdsInv(sys) && PendingInv(sys) && DeliveryInv(sys) && InboxInv(sys)
  }

  predicate Outside(pc: Pc) {
    pc.Begin? || pc.Routed? || pc.Noticed? || pc.Streaming? || pc.Deciding?
  }

  // ---- what keeps each part --------------------------------------------------------

  /** Worker `w` may move or go; nobody else does. */
  ghost predicate OnlyMoves(sys: System, next: System, w: WorkerId) {
    && (forall v :: v != w ==> (v in sys.workers <==> v in next.workers))
    && (forall v :: v != w && v in sys.workers ==> next.workers[v] == sys.workers[v])
    && (forall v :: v in next.stuck && v != w ==> v in sys.stuck && next.stuck[v] == sys.stuck[v])
    && (forall v :: v in sys.stuck ==> v in next.stuck && next.stuck[v] == sys.stuck[v])
    && |sys.requests| <= |next.requests|
  }

  lemma IdsKept(sys: System, next: System, w: WorkerId)
    requires IdsInv(sys) && OnlyMoves(sys, next, w) && next.srvSeq == sys.srvSeq && next.issuedTo == sys.issuedTo
    requires w in next.workers ==> w !in sys.stuck && w !in next.stuck
    requires forall n: nat :: w in next.workers && Uses(next.workers[w], n) ==>
        w in sys.workers && Uses(sys.workers[w], n)
    requires w in next.stuck && w !in sys.stuck ==>
      w in sys.workers && Uses(sys.workers[w], next.stuck[w]) && w !in next.workers && w.req < |sys.requests|
    ensures IdsInv(next)
  {
  }

  /** An id not drawn before is registered, or a registering worker's id becomes pending, or an
      entry goes: what was sent and delivered keeps its standing. */
  lemma DeliveriesKept(sys: System, next: System)
    requires DeliveryInv(sys)
    requires next.deliveries == sys.deliveries && next.replies == sys.replies
    requires next.routing == sys.routing || next.routing.None?
    requires forall n <- sys.issuedTo :: n in next.issuedTo && next.issuedTo[n] == sys.issuedTo[n]
    requires forall key <- next.pending ::
      (key in sys.pending && next.pending[key] == sys.pending[key])
      || exists w :: w in sys.workers && sys.workers[w] == Registering(next.pending[key].1)
    requires forall w <- next.workers :: next.workers[w].Registering? ==>
      (w in sys.workers && next.workers[w] == sys.workers[w]) || next.workers[w].n !in sys.issuedTo
    ensures DeliveryInv(next)
  {
    hide SrvKey;
    forall n: nat | Spent(sys, n) ensures Spent(next, n) {
    }
    forall w, n: nat, r: nat | Addressed(sys, w, n, r) ensures Addressed(next, w, n, r) {
    }
  }

  lemma DeliveredStays(sys: System, next: System)
    requires sys.deliveries <= next.deliveries && sys.replies <= next.replies
    ensures forall w, n, r :: Delivered(sys, w, n, r) ==> Delivered(next, w, n, r)
  {
    forall w, n, r | Delivered(sys, w, n, r) ensures Delivered(next, w, n, r) {
      var i :| 0 <= i < |sys.deliveries| && sys.deliveries[i].worker == w && sys.deliveries[i].n == n
        && sys.deliveries[i].reply < |sys.replies| && sys.replies[sys.deliveries[i].reply] == r;
      assert next.deliveries[i] == sys.deliveries[i];
      assert next.replies[sys.deliveries[i].reply] == r;
    }
  }

  /** Nobody but `w` changes position, and `w` holds nothing new. */
  lemma InboxKept(sys: System, next: System, w: WorkerId)
    requires InboxInv(sys) && sys.deliveries <= next.deliveries && sys.replies <= next.replies
    requires forall v :: v != w && v in next.workers ==> v in sys.workers && next.workers[v] == sys.workers[v]
    requires w in next.workers ==> HeldIsDelivered(next, w, next.workers[w])
    ensures InboxInv(next)
  {
    hide Held, Delivered;
    DeliveredStays(sys, next);
    forall v | v in next.workers ensures HeldIsDelivered(next, v, next.workers[v]) {
      if v != w {
        assert HeldIsDelivered(sys, v, sys.workers[v]);
      }
    }
  }

  lemma PendingKept(sys: System, next: System, w: WorkerId)
    requires PendingInv(sys) && OnlyMoves(sys, next, w) && next.pending == sys.pending
    requires forall n: nat :: Owns(sys, w, n) ==> Owns(next, w, n)
    ensures PendingInv(next)
  {
    hide SrvKey;
    forall v, n: nat | Owns(sys, v, n) ensures Owns(next, v, n) {
    }
  }

  // ---- steps -----------------------------------------------------------------------

  /** Steps outside `handle_blocked`: worker `w`, if it has a position, has one that uses no id,
      before and after. */
  lemma OutsideKeepsRouting(sys: System, next: System, w: WorkerId)
    requires RoutingInv(sys) && SameRouting(sys, next) && OnlyMoves(sys, next, w)
    requires w in sys.workers ==> Outside(sys.workers[w])
    requires w in next.workers ==> Outside(next.workers[w]) && w !in sys.stuck
    ensures RoutingInv(next)
  {
    hide SrvKey, IdsInv, PendingInv, DeliveryInv, InboxInv;
    IdsKept(sys, next, w);
    PendingKept(sys, next, w);
    DeliveriesKept(sys, next);
    InboxKept(sys, next, w);
  }

  lemma DrawKeepsRouting(sys: System, w: WorkerId)
    requires RoutingInv(sys) && w in sys.workers && Outside(sys.workers[w])
    ensures RoutingInv(Drawn(sys, w))
  {
    hide SrvKey, PendingInv, DeliveryInv, InboxInv, IdsInv;
    var next := Drawn(sys, w);
    DrawKeepsIds(sys, w);
    DrawnIsNew(sys);
    DeliveriesKept(sys, next);
    PendingKept(sys, next, w);
    InboxKept(sys, next, w);
  }

  lemma DrawKeepsIds(sys: System, w: WorkerId)
    requires IdsInv(sys) && w in sys.workers
    ensures IdsInv(Drawn(sys, w))
  {
    var next := Drawn(sys, w);
    assert sys.srvSeq !in sys.issuedTo;
    forall v, n: nat | v in next.workers && Uses(next.workers[v], n)
        ensures n in next.issuedTo && next.issuedTo[n] == v {
      assert v != w ==> Uses(sys.workers[v], n);
    }
    forall v | v in next.stuck
      ensures v !in next.workers && v.req < |next.requests| && next.stuck[v] in next.issuedTo
          && next.issuedTo[next.stuck[v]] == v
    {
      assert v in sys.stuck;
    }
  }

  lemma DrawnIsNew(sys: System)
    requires IdsInv(sys)
    ensures sys.srvSeq !in sys.issuedTo
  {
  }

  lemma RegisterKeepsRouting(sys: System, w: WorkerId, n: nat)
    requires RoutingInv(sys) && w in sys.workers && sys.workers[w] == Registering(n)
    ensures RoutingInv(Registered(sys, w, n))
  {
    hide SrvKey, DeliveryInv, InboxInv, IdsInv;
    var next := Registered(sys, w, n);
    assert sys.workers[w] == Registering(next.pending[SrvKey(n)].1);
    NotStuck(sys, w);
    IdsKept(sys, next, w);
    DeliveriesKept(sys, next);
    InboxKept(sys, next, w);
  }

  lemma NotStuck(sys: System, w: WorkerId)
    requires IdsInv(sys) && w in sys.workers
    ensures w !in sys.stuck
  {
  }

  /** Worker `w` moves on inside `handle_blocked`, under the same id, keeping or dropping the
      reply it holds. */
  lemma WaiterKeepsRouting(sys: System, w: WorkerId, pc: Pc)
    requires RoutingInv(sys) && WellIndexed(sys) && w in sys.workers
    requires var was := sys.workers[w];
      && (was.Asking? || was.Waiting?) && (pc.Waiting? || pc.Woken?) && pc.n == was.n
      && (Held(pc).Some? ==> Held(pc) == Held(was))
    ensures RoutingInv(Spawn(sys, w, pc))
  {
    hide SrvKey, IdsInv, DeliveryInv, PendingInv, Delivered;
    var next := Spawn(sys, w, pc);
    NotStuck(sys, w);
    IdsKept(sys, next, w);
    PendingKept(sys, next, w);
    DeliveriesKept(sys, next);
    DeliveredStays(sys, next);
    assert HeldIsDelivered(sys, w, sys.workers[w]);
    InboxKept(sys, next, w);
  }

  lemma UnregisterKeepsRouting(sys: System, w: WorkerId, n: nat, got: Option<Reply>)
    requires RoutingInv(sys) && w in sys.workers && sys.workers[w] == Woken(n, got)
    ensures RoutingInv(Unregistered(sys, w, n, got))
  {
    hide SrvKey, IdsInv, DeliveryInv, InboxInv;
    var next := Unregistered(sys, w, n, got);
    NotStuck(sys, w);
    IdsKept(sys, next, w);
    DeliveriesKept(sys, next);
    InboxKept(sys, next, w);
  }

  lemma RouteKeepsRouting(sys: System, reply: Reply)
    requires RoutingInv(sys) && sys.routing.None?
    ensures RoutingInv(RouteReply(sys, reply))
  {
    hide SrvKey, InboxInv, DeliveryInv;
    InboxSame(sys, RouteReply(sys, reply));
    RouteKeepsDeliveries(sys, reply);
  }

  lemma InboxSame(sys: System, next: System)
    requires InboxInv(sys) && next.workers == sys.workers && next.deliveries == sys.deliveries
        && sys.replies <= next.replies
    ensures InboxInv(next)
  {
    hide Held, Delivered;
    DeliveredStays(sys, next);
    forall v | v in next.workers ensures HeldIsDelivered(next, v, next.workers[v]) {
      assert HeldIsDelivered(sys, v, sys.workers[v]);
    }
  }

  lemma RouteKeepsDeliveries(sys: System, reply: Reply)
    requires IdsInv(sys) && PendingInv(sys) && DeliveryInv(sys) && sys.routing.None?
    ensures DeliveryInv(RouteReply(sys, reply))
  {
    hide SrvKey, IdsInv, DeliveryInv, Addressed, Spent;
    if reply.id in sys.pending {
      var (w, n) := sys.pending[reply.id];
      var taken := sys.(pending := sys.pending - {reply.id});
      TakenIsSpent(sys, reply.id);
      NotDeliveredYet(sys, reply.id);
      DeliveriesKept(sys, taken);
      ReplyKeepsDeliveries(taken, reply);
      RoutingKeepsDeliveries(taken, reply, w, n);
    } else {
      ReplyKeepsDeliveries(sys, reply);
    }
  }

  lemma NotDeliveredYet(sys: System, key: string)
    requires DeliveryInv(sys) && key in sys.pending
    ensures forall d <- sys.deliveries :: d.n != sys.pending[key].1 && d.reply < |sys.replies|
  {
    hide SrvKey;
    forall d | d in sys.deliveries ensures d.n != sys.pending[key].1 && d.reply < |sys.replies| {
      assert Addressed(sys, d.worker, d.n, d.reply) && Spent(sys, d.n);
    }
  }

  lemma ReplyKeepsDeliveries(sys: System, reply: Reply)
    requires DeliveryInv(sys) && sys.routing.None?
    ensures DeliveryInv(sys.(replies := sys.replies + [reply]))
  {
    hide SrvKey;
    var next := sys.(replies := sys.replies + [reply]);
    forall w, n: nat, r: nat | Addressed(sys, w, n, r) ensures Addressed(next, w, n, r) {
    }
    forall n: nat | Spent(sys, n) ensures Spent(next, n) {
    }
  }

  lemma RoutingKeepsDeliveries(sys: System, reply: Reply, w: WorkerId, n: nat)
    requires var got := sys.(replies := sys.replies + [reply]); DeliveryInv(got) && Spent(sys, n)
    requires reply.id == SrvKey(n) && n in sys.issuedTo && sys.issuedTo[n] == w
    requires forall d <- sys.deliveries :: d.n != n && d.reply < |sys.replies|
    ensures DeliveryInv(sys.(replies := sys.replies + [reply], routing := Some(Routing(w, n, |sys.replies|))))
  {
    hide SrvKey;
    var got := sys.(replies := sys.replies + [reply]);
    var next := got.(routing := Some(Routing(w, n, |sys.replies|)));
    assert next.replies[|sys.replies|] == reply;
    assert Spent(next, n) && Addressed(next, w, n, |sys.replies|);
    forall v, m: nat, r: nat | Addressed(got, v, m, r) ensures Addressed(next, v, m, r) {
    }
    forall m: nat | Spent(got, m) ensures Spent(next, m) {
    }
  }

  /** A server id whose entry the stdin loop has taken can never be taken again. */
  lemma TakenIsSpent(sys: System, key: string)
    requires IdsInv(sys) && PendingInv(sys) && key in sys.pending
    ensures Spent(sys.(pending := sys.pending - {key}), sys.pending[key].1)
    ensures sys.pending[key].1 in sys.issuedTo && sys.issuedTo[sys.pending[key].1] == sys.pending[key].0
  {
    hide SrvKey;
    var (w, n) := sys.pending[key];
    assert Owns(sys, w, n) && sys.issuedTo[n] == w;
    forall other | other in sys.pending && sys.pending[other].1 == n ensures other == key {
      assert other == SrvKey(n) == key;
    }
    assert forall v :: v in sys.workers && Uses(sys.workers[v], n) ==> v == w;
    assert forall v :: v in sys.workers && sys.workers[v] == Registering(n) ==> Uses(sys.workers[v], n);
  }

  lemma SendKeepsRouting(sys: System)
    requires RoutingInv(sys) && WellIndexed(sys) && sys.routing.Some?
    ensures RoutingInv(SendReply(sys))
  {
    hide SrvKey, InboxInv, DeliveryInv, IdsInv, PendingInv;
    SendKeepsDeliveries(sys);
    SendKeepsInbox(sys);
    SendMoves(sys);
    SendKeepsIds(sys);
    PendingKept(sys, SendReply(sys), sys.routing.value.worker);
  }

  lemma SendMoves(sys: System)
    requires WellIndexed(sys) && sys.routing.Some?
    ensures var next, w := SendReply(sys), sys.routing.value.worker;
      && OnlyMoves(sys, next, w) && next.pending == sys.pending
      && forall n: nat :: Owns(sys, w, n) ==> Owns(next, w, n)
  {
  }

  lemma SendKeepsIds(sys: System)
    requires IdsInv(sys) && WellIndexed(sys) && sys.routing.Some?
    ensures IdsInv(SendReply(sys))
  {
    hide IdsInv;
    var w := sys.routing.value.worker;
    if w in sys.workers {
      NotStuck(sys, w);
    }
    IdsKept(sys, SendReply(sys), w);
  }

  lemma SendKeepsDeliveries(sys: System)
    requires DeliveryInv(sys) && WellIndexed(sys) && sys.routing.Some?
    ensures DeliveryInv(SendReply(sys))
  {
    hide SrvKey;
    var next := SendReply(sys);
    forall w, n: nat, r: nat | Addressed(sys, w, n, r) ensures Addressed(next, w, n, r) {
    }
    forall n: nat | Spent(sys, n) ensures Spent(next, n) {
    }
  }

  lemma SendKeepsInbox(sys: System)
    requires InboxInv(sys) && WellIndexed(sys) && sys.routing.Some?
    ensures InboxInv(SendReply(sys))
  {
    hide InboxInv;
    var next, r := SendReply(sys), sys.routing.value;
    if next.deliveries == sys.deliveries + [Delivery(r.worker, r.n, r.reply)] {
      var sent := Delivery(r.worker, r.n, r.reply);
      assert next.deliveries[|sys.deliveries|] == sent && sent in next.deliveries;
      InboxKept(sys, next, r.worker);
    } else {
      StillDelivered(sys, r.worker);
      InboxKept(sys, next, r.worker);
    }
  }

  lemma StillDelivered(sys: System, w: WorkerId)
    requires InboxInv(sys)
    ensures w in sys.workers ==> HeldIsDelivered(sys, w, sys.workers[w])
  {
  }

  /** A worker dies outside `handle_blocked`, or sending its own request: then its entry stays. */
  lemma DieKeepsRouting(sys: System, w: WorkerId)
    requires RoutingInv(sys) && WellIndexed(sys) && w in sys.workers
        && (Outside(sys.workers[w]) || sys.workers[w].Asking?)
    ensures RoutingInv(Die(sys, w))
  {
    hide SrvKey, IdsInv, PendingInv, DeliveryInv, InboxInv;
    var next := Die(sys, w);
    NotStuck(sys, w);
    IdsKept(sys, next, w);
    PendingKept(sys, next, w);
    DeliveriesKept(sys, next);
    InboxKept(sys, next, w);
  }

  lemma DownKeepsRouting(sys: System)
    requires RoutingInv(sys)
    ensures RoutingInv(Down(sys))
  {
    hide SrvKey, DeliveryInv;
    DeliveriesKept(sys, Down(sys));
  }

  lemma UnansweredKeepsRouting(sys: System, s: Step)
    requires RoutingInv(sys)
    ensures RoutingInv(Unanswered(sys, s))
  {
    hide SrvKey, IdsInv, PendingInv, DeliveryInv, InboxInv;
    var next := Unanswered(sys, s);
    IdsOver(sys, next);
    PendingKept(sys, next, Turn(0));
    DeliveriesKept(sys, next);
    InboxSame(sys, next);
  }

  /** More requests do not matter. */
  lemma IdsOver(sys: System, next: System)
    requires IdsInv(sys) && next.workers == sys.workers && next.stuck == sys.stuck && |sys.requests| <= |next.requests|
    requires next.srvSeq == sys.srvSeq && next.issuedTo == sys.issuedTo
    ensures IdsInv(next)
  {
  }

  lemma DispatchKeepsRouting(sys: System, r: Request, newSession: Option<string>)
    requires WellIndexed(sys) && RoutingInv(sys)
    ensures RoutingInv(Dispatch(sys, r, newSession))
  {
    hide Dispatch, RoutingInv;
    DispatchShape(sys, r, newSession);
    var w := if r.rpc.SessionLoad? then Reattach(|sys.requests|) else Turn(|sys.requests|);
    NewIsNotStuck(sys, w);
    OutsideKeepsRouting(sys, Dispatch(sys, r, newSession), w);
  }

  lemma NewIsNotStuck(sys: System, w: WorkerId)
    requires RoutingInv(sys) && w.req >= |sys.requests|
    ensures w !in sys.stuck
  {
  }

  lemma StdinKeepsRouting(sys: System, s: Step)
    requires WellIndexed(sys) && Enabled(sys, s) && RoutingInv(sys) && WorkerOf(s).None?
    ensures RoutingInv(Goes(sys, s))
  {
    hide SrvKey, RoutingInv, Dispatch, RouteReply, SendReply;
    if s.Receive? {
      DispatchKeepsRouting(sys, s.r, s.newSession);
    } else if s.ReceiveReply? {
      RouteKeepsRouting(sys, s.reply);
    } else if s.SendOnChannel? {
      SendKeepsRouting(sys);
    }
  }

  /** Steps of a worker that is outside `handle_blocked` before and after. */
  predicate StaysOutside(s: Step) {
    || s.Enter? || s.AnswerNow? || s.Notify? || s.Submit? || s.Emit? || s.StreamEnds? || s.Decide?
  }

  lemma OutsideStep(sys: System, s: Step)
    requires WellIndexed(sys) && Enabled(sys, s) && StaysOutside(s)
    ensures var w, next := WorkerOf(s).value, Goes(sys, s);
      && SameRouting(sys, next) && OnlyMoves(sys, next, w) && w in sys.workers && Outside(sys.workers[w])
      && (w in next.workers ==> Outside(next.workers[w]))
  {
    hide End, SrvKey;
    var w := WorkerOf(s).value;
    EndMoves(sys, w, s.AnswerNow? && s.error);
  }

  lemma EndMoves(sys: System, w: WorkerId, error: bool)
    requires WellIndexed(sys) && w in sys.workers
    ensures var next := End(sys, w, error);
      SameRouting(sys, next) && OnlyMoves(sys, next, w) && w !in next.workers
  {
  }

  lemma WorkerKeepsRouting(sys: System, s: Step)
    requires WellIndexed(sys) && Enabled(sys, s) && RoutingInv(sys) && WorkerOf(s).Some?
    ensures RoutingInv(Goes(sys, s))
  {
    hide SrvKey, IdsInv, PendingInv, DeliveryInv, InboxInv, OnlyMoves;
    var w := WorkerOf(s).value;
    WorkerIsLive(sys, s);
    NotStuck(sys, w);
    if StaysOutside(s) {
      OutsideStep(sys, s);
      OutsideKeepsRouting(sys, Goes(sys, s), w);
    } else if s.DrawId? {
      DrawKeepsRouting(sys, w);
    } else if s.Register? {
      RegisterKeepsRouting(sys, w, sys.workers[w].n);
    } else if s.Unregister? {
      UnregisterKeepsRouting(sys, w, sys.workers[w].n, sys.workers[w].got);
    } else {
      WaiterKeepsRouting(sys, w, Goes(sys, s).workers[w]);
    }
  }

  /** Only these threads log anything, so only they can die. */
  lemma WhereItDies(sys: System, s: Step)
    requires WellIndexed(sys) && Enabled(sys, s) && WorkerOf(s).Some? && AnyCut(Logs(sys, s))
    ensures var w := WorkerOf(s).value; w in sys.workers && (Outside(sys.workers[w]) || sys.workers[w].Asking?)
    ensures sys.workers[WorkerOf(s).value].Asking? <==> s.Ask?
  {
    hide Cut, NoticeText, AnswerText;
    NothingToCut();
  }

  lemma StepKeepsRouting(sys: System, s: Step)
    requires WellIndexed(sys) && Enabled(sys, s) && RoutingInv(sys)
    ensures RoutingInv(Next(sys, s))
  {
    hide RoutingInv, Goes, Logs, Die, Down, Unanswered, AnyCut;
    if AnyCut(Logs(sys, s)) {
      if WorkerOf(s).Some? {
        WhereItDies(sys, s);
        DieKeepsRouting(sys, WorkerOf(s).value);
      } else {
        UnansweredKeepsRouting(sys, s);
        DownKeepsRouting(Unanswered(sys, s));
      }
    } else {
      if WorkerOf(s).Some? {
        WorkerKeepsRouting(sys, s);
      } else {
        StdinKeepsRouting(sys, s);
      }
      DownKeepsRouting(Goes(sys, s));
    }
  }

  lemma {:induction false} EveryStateRouting(states: seq<System>, steps: seq<Step>, k: nat)
    requires Run(states, steps) && k < |states|
    ensures RoutingInv(states[k])
  {
    hide RoutingInv, Next, Enabled;
    if k == 0 {
      NothingRouted(states[0]);
    } else {
      EveryStateRouting(states, steps, k - 1);
      assert Moves(states[k - 1], steps[k - 1], states[k]);
      StepKeepsRouting(states[k - 1], steps[k - 1]);
    }
  }

  lemma NothingRouted(sys: System)
    requires Initial(sys)
    ensures RoutingInv(sys)
  {
  }

  // ---- the results -----------------------------------------------------------------

  lemma SrvKeyInjective(m: nat, n: nat)
    requires m < COUNTER_RANGE && n < COUNTER_RANGE && SrvKey(m) == SrvKey(n)
    ensures m == n
  {
    hide Decimal;
    assert SrvKey(m)[4..] == Decimal(m) && SrvKey(n)[4..] == Decimal(n);
    DecimalInjective(m, n);
  }

  /** In every run: a client reply is delivered only to the worker that drew the server id it
      names, and to no other; no reply and no id is delivered twice; and whatever a waiter holds
      was so delivered. */
  lemma RepliesReachTheirWaiter(states: seq<System>, steps: seq<Step>, k: nat)
    requires Run(states, steps) && k < |states| && states[k].srvSeq <= COUNTER_RANGE
    ensures forall d <- states[k].deliveries ::
      && d.reply < |states[k].replies|
      && (forall n: nat :: n < states[k].srvSeq && SrvKey(n) == states[k].replies[d.reply].id
            ==> n == d.n && n in states[k].issuedTo && states[k].issuedTo[n] == d.worker)
    ensures forall i, j :: 0 <= i < j < |states[k].deliveries| ==>
      states[k].deliveries[i].n != states[k].deliveries[j].n
          && states[k].deliveries[i].reply != states[k].deliveries[j].reply
    ensures InboxInv(states[k])
  {
    hide SrvKey;
    EveryStateRouting(states, steps, k);
    var sys := states[k];
    assert forall n: nat :: n in sys.issuedTo <==> n < sys.srvSeq;
    forall d, n: nat | d in sys.deliveries && n < sys.srvSeq && SrvKey(n) == sys.replies[d.reply].id
      ensures n == d.n && sys.issuedTo[n] == d.worker
    {
      assert Addressed(sys, d.worker, d.n, d.reply);
      SrvKeyInjective(n, d.n);
    }
  }

  /** In every run: a live worker outside `handle_blocked` has no entry pending, and an entry
      whose worker is gone is one that its worker died on. */
  lemma OnlyTheDeadLeaveEntries(states: seq<System>, steps: seq<Step>, k: nat, key: string)
    requires Run(states, steps) && k < |states| && key in states[k].pending
    ensures var w := states[k].pending[key].0;
      if w in states[k].workers then !Outside(states[k].workers[w])
      else w in states[k].stuck && SrvKey(states[k].stuck[w]) == key
  {
    hide SrvKey;
    EveryStateRouting(states, steps, k);
    var (w, n) := states[k].pending[key];
    assert Owns(states[k], w, n);
  }

  // ---- when an entry is left behind ------------------------------------------------

  /** Worker `w` is to send the request for id `n`, and the log cuts it inside a character. */
  predicate DiesAsking(sys: System, s: Step, w: WorkerId, n: nat) {
    && WellIndexed(sys) && Enabled(sys, s) && s.Ask? && s.w == w && sys.workers[w].n == n
    && Cut(Slice(s.text, MESSAGE_LIMIT))
  }

  /** A client reply names id `n` while its entry is pending. */
  predicate TakesEntry(sys: System, s: Step, n: nat) {
    s.ReceiveReply? && s.reply.id == SrvKey(n) && SrvKey(n) in sys.pending
  }

  predicate StuckOn(sys: System, w: WorkerId, n: nat) {
    w in sys.stuck && sys.stuck[w] == n
  }

  predicate HasEntry(sys: System, w: WorkerId, n: nat) {
    SrvKey(n) in sys.pending && sys.pending[SrvKey(n)] == (w, n)
  }

  lemma GoesKeepsStuck(sys: System, s: Step)
    requires WellIndexed(sys) && Enabled(sys, s)
    ensures Goes(sys, s).stuck == sys.stuck
  {
    hide Dispatch, SrvKey;
    if s.Receive? {
      DispatchShape(sys, s.r, s.newSession);
    }
  }

  lemma StepSticksExactly(sys: System, s: Step, w: WorkerId, n: nat)
    requires WellIndexed(sys) && Enabled(sys, s) && IdsInv(sys)
    ensures StuckOn(Next(sys, s), w, n) <==> StuckOn(sys, w, n) || DiesAsking(sys, s, w, n)
  {
    hide Cut, Goes, NoticeText, AnswerText, IdsInv;
    GoesKeepsStuck(sys, s);
    if s.Ask? {
      NotStuck(sys, s.w);
      assert Logs(sys, s) == [Slice(s.text, MESSAGE_LIMIT)];
      assert AnyCut(Logs(sys, s)) <==> Cut(Logs(sys, s)[0]);
    } else if WorkerOf(s).Some? && AnyCut(Logs(sys, s)) {
      WhereItDies(sys, s);
    }
  }

  lemma RoutingGivesIds(sys: System)
    requires RoutingInv(sys)
    ensures IdsInv(sys) && PendingInv(sys)
  {
  }

  /** A worker died on its entry exactly if the request it was to send for it was cut inside a
      character. */
  lemma {:induction false} StuckExactly(states: seq<System>, steps: seq<Step>, k: nat, w: WorkerId, n: nat)
    requires Run(states, steps) && k < |states|
    ensures StuckOn(states[k], w, n) <==> exists j :: 0 <= j < k && DiesAsking(states[j], steps[j], w, n)
  {
    hide DiesAsking, Next, Enabled, RoutingInv;
    if k > 0 {
      StuckExactly(states, steps, k - 1, w, n);
      assert Moves(states[k - 1], steps[k - 1], states[k]);
      EveryStateRouting(states, steps, k - 1);
      RoutingGivesIds(states[k - 1]);
      StepSticksExactly(states[k - 1], steps[k - 1], w, n);
    }
  }

  /** The id's holder is who drew it, so no other id of the run has its key. */
  lemma OwnsDrawn(sys: System, w: WorkerId, n: nat)
    requires IdsInv(sys) && Owns(sys, w, n)
    ensures n in sys.issuedTo && sys.issuedTo[n] == w && n < sys.srvSeq
  {
  }

  lemma SameKeySameId(sys: System, v: WorkerId, m: nat, w: WorkerId, n: nat)
    requires IdsInv(sys) && sys.srvSeq <= COUNTER_RANGE && SrvKey(m) == SrvKey(n)
    requires v in sys.workers && Uses(sys.workers[v], m) && n in sys.issuedTo && sys.issuedTo[n] == w
    ensures m == n && v == w
  {
    hide SrvKey;
    assert m in sys.issuedTo && m < sys.srvSeq && n < sys.srvSeq;
    SrvKeyInjective(m, n);
  }

  lemma RegisterKeepsEntry(sys: System, v: WorkerId, m: nat, w: WorkerId, n: nat)
    requires IdsInv(sys) && sys.srvSeq <= COUNTER_RANGE && v in sys.workers && sys.workers[v] == Registering(m)
    requires Owns(sys, w, n) ==> HasEntry(sys, w, n)
    requires Owns(Registered(sys, v, m), w, n)
    ensures HasEntry(Registered(sys, v, m), w, n)
  {
    hide SrvKey, IdsInv;
    assert Uses(sys.workers[v], m);
    if (v, m) != (w, n) && SrvKey(m) == SrvKey(n) {
      OwnsDrawn(sys, w, n);
      SameKeySameId(sys, v, m, w, n);
    }
    NotStuck(sys, v);
  }

  lemma UnregisterKeepsEntry(sys: System, v: WorkerId, m: nat, got: Option<Reply>, w: WorkerId, n: nat)
    requires IdsInv(sys) && sys.srvSeq <= COUNTER_RANGE && v in sys.workers && sys.workers[v] == Woken(m, got)
    requires Owns(sys, w, n) ==> HasEntry(sys, w, n)
    requires Owns(Unregistered(sys, v, m, got), w, n)
    ensures HasEntry(Unregistered(sys, v, m, got), w, n)
  {
    hide SrvKey, IdsInv;
    assert Uses(sys.workers[v], m);
    NotStuck(sys, v);
    if SrvKey(m) == SrvKey(n) {
      OwnsDrawn(sys, w, n);
      SameKeySameId(sys, v, m, w, n);
    }
  }

  /** No entry comes or goes, and nobody comes to own or register an id that was drawn before. */
  ghost predicate Quiet(sys: System, next: System) {
    && next.pending == sys.pending
    && next.stuck == sys.stuck
    && (forall n <- sys.issuedTo :: n in next.issuedTo)
    && (forall w <- next.workers :: QuietAt(sys, next, w))
  }

  ghost predicate QuietAt(sys: System, next: System, w: WorkerId)
    requires w in next.workers
  {
    || Outside(next.workers[w])
    || (next.workers[w].Registering? && next.workers[w].n !in sys.issuedTo)
    || (w in sys.workers && Kin(sys.workers[w], next.workers[w]))
  }

  /** The worker stands in `handle_blocked` under the same id. */
  predicate Kin(was: Pc, pc: Pc) {
    was == pc || (!was.Registering? && !pc.Registering? && !Outside(was) && !Outside(pc) && was.n == pc.n)
  }

  lemma StdinIsQuiet(sys: System, s: Step)
    requires WellIndexed(sys) && Enabled(sys, s) && WorkerOf(s).None? && !s.ReceiveReply?
    ensures Quiet(sys, Goes(sys, s))
  {
    hide Dispatch, SrvKey;
    if s.Receive? {
      DispatchShape(sys, s.r, s.newSession);
    }
  }

  lemma OutsideIsQuiet(sys: System, next: System, w: WorkerId)
    requires SameRouting(sys, next) && OnlyMoves(sys, next, w)
    requires w in next.workers ==> Outside(next.workers[w])
    ensures Quiet(sys, next)
  {
    assert forall v <- next.workers :: v == w || Kin(sys.workers[v], next.workers[v]);
  }

  lemma SpawnIsQuiet(sys: System, w: WorkerId, pc: Pc)
    requires w in sys.workers && Kin(sys.workers[w], pc)
    ensures Quiet(sys, Spawn(sys, w, pc))
  {
  }

  lemma DrawIsQuiet(sys: System, w: WorkerId)
    requires IdsInv(sys)
    ensures Quiet(sys, Drawn(sys, w))
  {
    DrawnIsNew(sys);
  }

  lemma OthersAreQuiet(sys: System, s: Step)
    requires WellIndexed(sys) && Enabled(sys, s) && IdsInv(sys)
    requires !s.Register? && !s.Unregister? && !s.ReceiveReply?
    ensures Quiet(sys, Goes(sys, s))
  {
    hide IdsInv, Quiet, OnlyMoves, SameRouting, Outside;
    if WorkerOf(s).None? {
      StdinIsQuiet(sys, s);
    } else if StaysOutside(s) {
      OutsideStep(sys, s);
      OutsideIsQuiet(sys, Goes(sys, s), WorkerOf(s).value);
    } else if s.DrawId? {
      DrawIsQuiet(sys, s.w);
    } else {
      HoldsItsId(sys, s);
      SpawnIsQuiet(sys, s.w, Goes(sys, s).workers[s.w]);
    }
  }

  lemma HoldsItsId(sys: System, s: Step)
    requires WellIndexed(sys) && Enabled(sys, s) && (s.Ask? || s.Receives? || s.TimesOut?)
    ensures s.w in Goes(sys, s).workers && Kin(sys.workers[s.w], Goes(sys, s).workers[s.w])
    ensures Goes(sys, s) == Spawn(sys, s.w, Goes(sys, s).workers[s.w])
  {
  }

  lemma QuietKeepsEntry(sys: System, next: System, w: WorkerId, n: nat)
    requires Quiet(sys, next)
    ensures Owns(next, w, n) ==> Owns(sys, w, n)
    ensures HasEntry(sys, w, n) ==> HasEntry(next, w, n)
  {
    hide SrvKey;
    assert w in next.workers ==> QuietAt(sys, next, w);
  }

  lemma ReplyKeepsEntry(sys: System, s: Step, w: WorkerId, n: nat)
    requires WellIndexed(sys) && Enabled(sys, s) && s.ReceiveReply? && !TakesEntry(sys, s, n)
    ensures Owns(Goes(sys, s), w, n) ==> Owns(sys, w, n)
    ensures HasEntry(sys, w, n) ==> HasEntry(Goes(sys, s), w, n)
  {
    hide SrvKey;
  }

  lemma GoesKeepsEntry(sys: System, s: Step, w: WorkerId, n: nat)
    requires WellIndexed(sys) && Enabled(sys, s) && IdsInv(sys) && sys.srvSeq <= COUNTER_RANGE
    requires (Owns(sys, w, n) ==> HasEntry(sys, w, n)) && !TakesEntry(sys, s, n)
    requires Owns(Goes(sys, s), w, n)
    ensures HasEntry(Goes(sys, s), w, n)
  {
    hide IdsInv, Owns, HasEntry, TakesEntry, Registered, Unregistered, Quiet;
    if s.Register? {
      RegisterKeepsEntry(sys, s.w, sys.workers[s.w].n, w, n);
    } else if s.Unregister? {
      UnregisterKeepsEntry(sys, s.w, sys.workers[s.w].n, sys.workers[s.w].got, w, n);
    } else if s.ReceiveReply? {
      ReplyKeepsEntry(sys, s, w, n);
    } else {
      OthersAreQuiet(sys, s);
      QuietKeepsEntry(sys, Goes(sys, s), w, n);
    }
  }

  lemma DieKeepsEntry(sys: System, v: WorkerId, w: WorkerId, n: nat)
    requires v in sys.workers
    ensures Owns(Die(sys, v), w, n) ==> Owns(sys, w, n)
    ensures HasEntry(sys, w, n) ==> HasEntry(Die(sys, v), w, n)
  {
    hide SrvKey;
  }

  lemma StepKeepsEntry(sys: System, s: Step, w: WorkerId, n: nat)
    requires WellIndexed(sys) && Enabled(sys, s) && IdsInv(sys) && sys.srvSeq <= COUNTER_RANGE
    requires (Owns(sys, w, n) ==> HasEntry(sys, w, n)) && !TakesEntry(sys, s, n)
    requires Owns(Next(sys, s), w, n) && !Next(sys, s).down
    ensures HasEntry(Next(sys, s), w, n)
  {
    hide IdsInv, Owns, HasEntry, TakesEntry, Goes, Die, Logs, AnyCut, Unanswered;
    if AnyCut(Logs(sys, s)) {
      if WorkerOf(s).Some? {
        WorkerIsLive(sys, s);
        DieKeepsEntry(sys, WorkerOf(s).value, w, n);
      }
    } else {
      GoesKeepsEntry(sys, s, w, n);
    }
  }

  lemma {:induction false} CounterGrows(states: seq<System>, steps: seq<Step>, i: nat, k: nat)
    requires Run(states, steps) && i <= k < |states|
    ensures states[i].srvSeq <= states[k].srvSeq && (states[i].down ==> states[k].down)
  {
    hide Next, Enabled;
    if i < k {
      CounterGrows(states, steps, i, k - 1);
      assert Moves(states[k - 1], steps[k - 1], states[k]);
      StepCounts(states[k - 1], steps[k - 1]);
    }
  }

  lemma GoesCounts(sys: System, s: Step)
    requires WellIndexed(sys) && Enabled(sys, s)
    ensures sys.srvSeq <= Goes(sys, s).srvSeq
  {
    hide Dispatch, SrvKey;
    if s.Receive? {
      DispatchShape(sys, s.r, s.newSession);
    }
  }

  lemma StepCounts(sys: System, s: Step)
    requires WellIndexed(sys) && Enabled(sys, s)
    ensures sys.srvSeq <= Next(sys, s).srvSeq && !sys.down
  {
    hide Logs, AnyCut, Goes;
    GoesCounts(sys, s);
  }

  /** Whoever is to remove an entry, or died on it, has it still, unless a reply took it. */
  lemma {:induction false} EntryStays(states: seq<System>, steps: seq<Step>, k: nat, w: WorkerId, n: nat)
    requires Run(states, steps) && k < |states| && !states[k].down && states[k].srvSeq <= COUNTER_RANGE
    requires Owns(states[k], w, n) && forall m :: 0 <= m < k ==> !TakesEntry(states[m], steps[m], n)
    ensures HasEntry(states[k], w, n)
  {
    hide Next, Enabled, RoutingInv, TakesEntry, HasEntry;
    if k > 0 {
      assert Moves(states[k - 1], steps[k - 1], states[k]);
      CounterGrows(states, steps, k - 1, k);
      EveryStateRouting(states, steps, k - 1);
      RoutingGivesIds(states[k - 1]);
      if Owns(states[k - 1], w, n) {
        EntryStays(states, steps, k - 1, w, n);
      }
      StepKeepsEntry(states[k - 1], steps[k - 1], w, n);
    }
  }

  lemma QuietKeepsSpent(sys: System, next: System, n: nat)
    requires Quiet(sys, next) && Spent(sys, n)
    ensures Spent(next, n)
  {
    hide SrvKey;
    assert forall w <- next.workers :: QuietAt(sys, next, w);
  }

  lemma RegisterKeepsSpent(sys: System, w: WorkerId, m: nat, n: nat)
    requires w in sys.workers && sys.workers[w] == Registering(m) && Spent(sys, n)
    ensures Spent(Registered(sys, w, m), n)
  {
    hide SrvKey;
  }

  lemma UnregisterKeepsSpent(sys: System, w: WorkerId, m: nat, got: Option<Reply>, n: nat)
    requires Spent(sys, n)
    ensures Spent(Unregistered(sys, w, m, got), n)
  {
    hide SrvKey;
  }

  lemma ReplyKeepsSpent(sys: System, reply: Reply, n: nat)
    requires Spent(sys, n)
    ensures Spent(RouteReply(sys, reply), n)
  {
    hide SrvKey;
  }

  /** A spent id stays spent. */
  lemma GoesKeepsSpent(sys: System, s: Step, n: nat)
    requires WellIndexed(sys) && Enabled(sys, s) && IdsInv(sys) && Spent(sys, n)
    ensures Spent(Goes(sys, s), n)
  {
    hide IdsInv, Spent, Registered, Unregistered, Quiet, RouteReply;
    if s.Register? {
      RegisterKeepsSpent(sys, s.w, sys.workers[s.w].n, n);
    } else if s.Unregister? {
      UnregisterKeepsSpent(sys, s.w, sys.workers[s.w].n, sys.workers[s.w].got, n);
    } else if s.ReceiveReply? {
      ReplyKeepsSpent(sys, s.reply, n);
    } else {
      OthersAreQuiet(sys, s);
      QuietKeepsSpent(sys, Goes(sys, s), n);
    }
  }

  lemma StepKeepsSpent(sys: System, s: Step, n: nat)
    requires WellIndexed(sys) && Enabled(sys, s) && IdsInv(sys) && Spent(sys, n)
    ensures Spent(Next(sys, s), n)
  {
    hide Goes, Logs, AnyCut, IdsInv;
    GoesKeepsSpent(sys, s, n);
    if WorkerOf(s).Some? {
      WorkerIsLive(sys, s);
    }
  }

  lemma {:induction false} SpentStays(states: seq<System>, steps: seq<Step>, i: nat, k: nat, n: nat)
    requires Run(states, steps) && i <= k < |states| && Spent(states[i], n)
    ensures Spent(states[k], n)
  {
    hide Next, Enabled, RoutingInv, Spent;
    if i < k {
      SpentStays(states, steps, i, k - 1, n);
      assert Moves(states[k - 1], steps[k - 1], states[k]);
      EveryStateRouting(states, steps, k - 1);
      RoutingGivesIds(states[k - 1]);
      StepKeepsSpent(states[k - 1], steps[k - 1], n);
    }
  }

  /** A reply that takes the entry of an id of the run uses the id up. */
  lemma TakenWhenNamed(sys: System, s: Step, n: nat)
    requires WellIndexed(sys) && Enabled(sys, s) && IdsInv(sys) && PendingInv(sys) && sys.srvSeq <= COUNTER_RANGE
    requires TakesEntry(sys, s, n) && n < COUNTER_RANGE && !Next(sys, s).down
    ensures Spent(Next(sys, s), n)
  {
    hide SrvKey, IdsInv, Logs, AnyCut, Owns;
    var key := SrvKey(n);
    var (v, m) := sys.pending[key];
    OwnsDrawn(sys, v, m);
    SrvKeyInjective(m, n);
    TakenIsSpent(sys, key);
  }

  /** In every run, while the process is up and server ids are distinct: worker `w` is gone and
      its entry for id `n` still pending if and only if it died sending the request for that id,
      cut inside a character, and no client reply named the id while the entry was there. */
  lemma EntryLeftExactly(states: seq<System>, steps: seq<Step>, k: nat, w: WorkerId, n: nat)
    requires Run(states, steps) && k < |states| && !states[k].down && states[k].srvSeq <= COUNTER_RANGE
    ensures HasEntry(states[k], w, n) && w !in states[k].workers
      <==> (exists j :: 0 <= j < k && DiesAsking(states[j], steps[j], w, n))
           && (forall m :: 0 <= m < k ==> !TakesEntry(states[m], steps[m], n))
  {
    hide SrvKey, Next, Enabled, RoutingInv, DiesAsking, TakesEntry;
    var sys := states[k];
    EveryStateRouting(states, steps, k);
    RoutingGivesIds(sys);
    StuckExactly(states, steps, k, w, n);
    if HasEntry(sys, w, n) && w !in sys.workers {
      assert Owns(sys, w, n);
      OwnsDrawn(sys, w, n);
      forall m | 0 <= m < k ensures !TakesEntry(states[m], steps[m], n) {
        if TakesEntry(states[m], steps[m], n) {
          TakenForGood(states, steps, m, k, n);
        }
      }
    } else if StuckOn(sys, w, n) && forall m :: 0 <= m < k ==> !TakesEntry(states[m], steps[m], n) {
      EntryStays(states, steps, k, w, n);
    }
  }

  lemma TakenForGood(states: seq<System>, steps: seq<Step>, m: nat, k: nat, n: nat)
    requires Run(states, steps) && m < k < |states| && !states[k].down && states[k].srvSeq <= COUNTER_RANGE
    requires TakesEntry(states[m], steps[m], n) && n < COUNTER_RANGE
    ensures forall key <- states[k].pending :: states[k].pending[key].1 != n
  {
    hide Next, Enabled, RoutingInv, TakesEntry;
    assert Moves(states[m], steps[m], states[m + 1]);
    CounterGrows(states, steps, m, k);
    CounterGrows(states, steps, m + 1, k);
    EveryStateRouting(states, steps, m);
    RoutingGivesIds(states[m]);
    TakenWhenNamed(states[m], steps[m], n);
    SpentStays(states, steps, m + 1, k, n);
  }

  // ---- an entry left behind --------------------------------------------------------

  /** The turn of `Prompted`, inside `handle_blocked` for the first time. */
  function Blocked(session: string, prompt: string, pc: Pc): System {
    TurnAt(session, prompt, pc).(srvSeq := 1, issuedTo := map[0 := Turn(1)])
  }

  function Pended(sys: System): System {
    sys.(pending := map["srv-0" := (Turn(1), 0)])
  }

  lemma FirstKey()
    ensures SrvKey(0) == "srv-0"
  {
    assert Decimal(0) == "0";
  }

  lemma SubmitMoves(session: string, prompt: string)
    ensures Moves(TurnAt(session, prompt, Noticed), Submit(Turn(1)), TurnAt(session, prompt, Streaming))
  {
    hide AnyCut;
    NothingToCut();
  }

  lemma DrawMoves(session: string, prompt: string)
    ensures Moves(TurnAt(session, prompt, Streaming), DrawId(Turn(1)), Blocked(session, prompt, Registering(0)))
  {
    hide AnyCut;
    NothingToCut();
  }

  lemma RegisterMoves(session: string, prompt: string)
    ensures Moves(Blocked(session, prompt, Registering(0)), Register(Turn(1)),
                  Pended(Blocked(session, prompt, Asking(0, None))))
  {
    hide AnyCut, SrvKey;
    NothingToCut();
    FirstKey();
  }

  lemma AskerDies(session: string, prompt: string)
    ensures Die(Pended(Blocked(session, prompt, Asking(0, None))), Turn(1)) == LeftBehind(session, prompt)
  {
  }

  lemma AskMoves(session: string, prompt: string, text: string)
    requires Cut(Slice(text, MESSAGE_LIMIT))
    ensures Moves(Pended(Blocked(session, prompt, Asking(0, None))), Ask(Turn(1), text), LeftBehind(session, prompt))
  {
    hide Cut, Goes, Die;
    var sys := Pended(Blocked(session, prompt, Asking(0, None)));
    assert Logs(sys, Ask(Turn(1), text))[0] == Slice(text, MESSAGE_LIMIT);
    AskerDies(session, prompt);
  }

  function LeftBehind(session: string, prompt: string): System {
    Pended(Blocked(session, prompt, Streaming)).(workers := map[], lost := {1}, stuck := map[Turn(1) := 0])
  }

  /** A session id with one wide character around its byte 53, at most 190 bytes in all: a goal
      prompted under it that blocks loses its turn on the permission request. The prompt stays
      unanswered, the worker is gone, and its entry is still pending. */
  lemma RequestLeavesEntry(a: string, c: char, b: string, prompt: string, reason: string,
                           loadLine: string, promptLine: string, update: string)
    returns (states: seq<System>, steps: seq<Step>)
    requires "sess_" <= a && IsAscii(a) && IsAscii(b) && |a| < 53 < |a| + CharSize(c)
    requires NeedsNoEscape(a + [c] + b) && Size(a + [c] + b) <= 190
    requires IsAscii(reason) && NeedsNoEscape(reason) && IsAscii(prompt) && AsksForWork(prompt)
    requires IsAscii(loadLine) && IsAscii(promptLine) && !Cut(Slice(update, MESSAGE_LIMIT))
    ensures Run(states, steps) && |steps| > 0
    ensures states[|steps|] == LeftBehind(a + [c] + b, prompt)
    ensures HasEntry(states[|steps|], Turn(1), 0) && Turn(1) !in states[|steps|].workers
  {
    hide Moves, Cut, NoticeText, PermissionText, CharSize, IsBlank, IsSlashCommand, NamesGoal, IsStatusQuery;
    var session, turn := a + [c] + b, Turn(1);
    assert "sess_" <= session;
    states, steps := UpToRouted(session, prompt, loadLine, promptLine, update);
    ShortNoticeNotCut(session);
    NoticeMoves(session, prompt);
    SubmitMoves(session, prompt);
    DrawMoves(session, prompt);
    RegisterMoves(session, prompt);
    var text := PermissionText(session, "srv-0", reason);
    PermissionCutExactly(a, c, b, reason);
    AskMoves(session, prompt, text);
    FirstKey();
    states, steps := Runs.Extend(Moves, states, steps, Notify(turn), TurnAt(session, prompt, Noticed));
    states, steps := Runs.Extend(Moves, states, steps, Submit(turn), TurnAt(session, prompt, Streaming));
    states, steps := Runs.Extend(Moves, states, steps, DrawId(turn), Blocked(session, prompt, Registering(0)));
    states, steps := Runs.Extend(Moves, states, steps, Register(turn),
        Pended(Blocked(session, prompt, Asking(0, None))));
    states, steps := Runs.Extend(Moves, states, steps, Ask(turn, text), LeftBehind(session, prompt));
  }
}
