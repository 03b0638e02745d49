/** A blocked goal from its prompt to its end: runs in which the client raises the budget, refuses to,
    or says nothing. */
module AcpDialogue {
  import opened Text
  import opened AcpLog
  import opened AcpPrompts
  import opened AcpTurns
  import opened AcpReplies
  import opened AcpOutcomes
  import Runs

  /** The turn of `Prompted` after the client's reply was sent on its channel. */
  function Heard(session: string, prompt: string, pc: Pc, r: Reply): System {
    Blocked(session, prompt, pc).(replies := [r], deliveries := [Delivery(Turn(1), 0, 0)])
  }

  /** The turn is over, and its prompt answered. */
  function Finished(sys: System): System {
    sys.(workers := map[], answers := sys.answers + [Answer(1, "1", false)])
  }

  lemma AskGoes(session: string, prompt: string, text: string)
    requires !Cut(Slice(text, MESSAGE_LIMIT))
    ensures Moves(Pended(Blocked(session, prompt, Asking(0, None))), Ask(Turn(1), text),
                  Pended(Blocked(session, prompt, Waiting(0, None))))
  {
    hide Cut;
    var sys := Pended(Blocked(session, prompt, Asking(0, None)));
    assert Logs(sys, Ask(Turn(1), text)) == [Slice(text, MESSAGE_LIMIT)];
  }

  /** The reply is taken and on its way. */
  function Underway(session: string, prompt: string, r: Reply): System {
    Blocked(session, prompt, Waiting(0, None)).(replies := [r], routing := Some(Routing(Turn(1), 0, 0)))
  }

  lemma ReplyGoes(session: string, prompt: string, line: string, r: Reply)
    requires IsAscii(line) && r.id == "srv-0"
    ensures Moves(Pended(Blocked(session, prompt, Waiting(0, None))), ReceiveReply(line, r),
                  Underway(session, prompt, r))
  {
    hide Cut;
    AsciiNeverCut(Slice(line, MESSAGE_LIMIT));
    var sys := Pended(Blocked(session, prompt, Waiting(0, None)));
    assert Logs(sys, ReceiveReply(line, r)) == [Slice(line, MESSAGE_LIMIT)];
    assert sys.pending - {"srv-0"} == map[];
  }

  lemma SendGoes(session: string, prompt: string, r: Reply)
    ensures Moves(Underway(session, prompt, r), SendOnChannel, Heard(session, prompt, Waiting(0, Some(r)), r))
  {
    hide AnyCut;
    NothingToCut();
    var sys, next := Underway(session, prompt, r), Heard(session, prompt, Waiting(0, Some(r)), r);
    assert sys.workers[Turn(1) := Waiting(0, Some(r))] == next.workers;
  }

  lemma ReceiveGoes(session: string, prompt: string, r: Reply)
    ensures Moves(Heard(session, prompt, Waiting(0, Some(r)), r), Receives(Turn(1)),
                  Heard(session, prompt, Woken(0, Some(r)), r))
  {
    hide AnyCut;
    NothingToCut();
    HeardLogsNothing(session, prompt, Waiting(0, Some(r)), r, Receives(Turn(1)));
  }

  lemma HeardLogsNothing(session: string, prompt: string, pc: Pc, r: Reply, s: Step)
    requires WellIndexed(Heard(session, prompt, pc, r)) && Enabled(Heard(session, prompt, pc, r), s)
    requires s.Receives? || s.Unregister?
    ensures Logs(Heard(session, prompt, pc, r), s) == [] && LogsAfter(s) == []
  {
  }

  lemma UnregisterGoes(session: string, prompt: string, r: Reply)
    ensures Moves(Heard(session, prompt, Woken(0, Some(r)), r), Unregister(Turn(1)),
                  Heard(session, prompt, Deciding(r.choice), r))
  {
    hide AnyCut, SrvKey, Logs;
    NothingToCut();
    var sys := Heard(session, prompt, Woken(0, Some(r)), r);
    HeardLogsNothing(session, prompt, Woken(0, Some(r)), r, Unregister(Turn(1)));
    assert sys.pending - {SrvKey(0)} == map[];
  }

  lemma TimeoutGoes(session: string, prompt: string)
    ensures Moves(Pended(Blocked(session, prompt, Waiting(0, None))), TimesOut(Turn(1)),
                  Pended(Blocked(session, prompt, Woken(0, None))))
  {
    hide AnyCut;
    NothingToCut();
  }

  lemma GiveUpGoes(session: string, prompt: string)
    ensures Moves(Pended(Blocked(session, prompt, Woken(0, None))), Unregister(Turn(1)),
                  Blocked(session, prompt, Deciding(None)))
  {
    hide AnyCut, SrvKey;
    NothingToCut();
    FirstKey();
    assert map["srv-0" := (Turn(1), 0)] - {"srv-0"} == map[];
  }

  lemma RaiseGoes(session: string, prompt: string, r: Reply, payload: string)
    requires r.choice == Some("raise")
    ensures Moves(Heard(session, prompt, Deciding(r.choice), r), Decide(Turn(1), [], payload),
                  Heard(session, prompt, Streaming, r))
  {
    hide AnyCut;
    NothingToCut();
    assert Logs(Heard(session, prompt, Deciding(r.choice), r), Decide(Turn(1), [], payload)) == [];
  }

  lemma AnswerAscii(payload: string)
    requires IsAscii(payload)
    ensures IsAscii(AnswerText("1", false, payload))
  {
  }

  /** A turn that decides anything but to go on ends. */
  lemma OtherGoes(sys: System, payload: string)
    requires WellIndexed(sys) && !sys.down && Turn(1) in sys.workers && sys.workers.Keys == {Turn(1)}
    requires sys.workers[Turn(1)].Deciding? && sys.workers[Turn(1)].choice != Some("raise")
    requires |sys.requests| == 2 && sys.requests[1].id == Some("1") && IsAscii(payload)
    ensures Moves(sys, Decide(Turn(1), [], payload), Finished(sys))
  {
    hide Cut, AnswerText;
    AnswerAscii(payload);
    AsciiNeverCut(Slice(AnswerText("1", false, payload), MESSAGE_LIMIT));
    assert Logs(sys, Decide(Turn(1), [], payload)) == [Slice(AnswerText("1", false, payload), MESSAGE_LIMIT)];
    assert sys.workers - {Turn(1)} == map[];
  }

  /** Up to the request for permission: the session is loaded, the goal prompted, planned, streamed
      and blocked, and the client asked. */
  lemma UpToAsked(session: string, prompt: string, loadLine: string, promptLine: string, update: string, text: string)
    returns (states: seq<System>, steps: seq<Step>)
    requires "sess_" <= session && NeedsNoEscape(session) && Size(session) <= 190
    requires IsAscii(prompt) && AsksForWork(prompt) && IsAscii(loadLine) && IsAscii(promptLine)
    requires !Cut(Slice(update, MESSAGE_LIMIT)) && !Cut(Slice(text, MESSAGE_LIMIT))
    ensures Run(states, steps) && states[|steps|] == Pended(Blocked(session, prompt, Waiting(0, None)))
  {
    hide Moves, Cut, NoticeText, IsBlank, IsSlashCommand, NamesGoal, IsStatusQuery;
    var turn := Turn(1);
    states, steps := UpToRouted(session, prompt, loadLine, promptLine, update);
    ShortNoticeNotCut(session);
    NoticeMoves(session, prompt);
    SubmitMoves(session, prompt);
    DrawMoves(session, prompt);
    RegisterMoves(session, prompt);
    AskGoes(session, prompt, text);
    states, steps := Runs.Extend(Moves, states, steps, Notify(turn), TurnAt(session, prompt, Noticed));
    states, steps := Runs.Extend(Moves, states, steps, Submit(turn), TurnAt(session, prompt, Streaming));
    states, steps := Runs.Extend(Moves, states, steps, DrawId(turn), Blocked(session, prompt, Registering(0)));
    states, steps := Runs.Extend(Moves, states, steps, Register(turn),
        Pended(Blocked(session, prompt, Asking(0, None))));
    states, steps := Runs.Extend(Moves, states, steps, Ask(turn, text),
        Pended(Blocked(session, prompt, Waiting(0, None))));
  }

  /** The client replies to the request. With `raise` the goal streams on and its prompt stays open;
      with anything else the turn ends and its prompt is answered. Nothing is left pending. */
  lemma RepliedRun(session: string, prompt: string, loadLine: string, promptLine: string, update: string, text: string,
                   line: string, choice: Option<string>, payload: string)
    returns (states: seq<System>, steps: seq<Step>)
    requires "sess_" <= session && NeedsNoEscape(session) && Size(session) <= 190
    requires IsAscii(prompt) && AsksForWork(prompt) && IsAscii(loadLine) && IsAscii(promptLine)
    requires !Cut(Slice(update, MESSAGE_LIMIT)) && !Cut(Slice(text, MESSAGE_LIMIT))
    requires IsAscii(line) && (choice == Some("raise") || IsAscii(payload))
    ensures Run(states, steps) && |steps| > 0
    ensures states[|steps|] ==
      if choice == Some("raise") then Heard(session, prompt, Streaming, Reply("srv-0", choice))
      else Finished(Heard(session, prompt, Deciding(choice), Reply("srv-0", choice)))
  {
    hide Moves, Cut, NeedsNoEscape, AsksForWork;
    var turn, r := Turn(1), Reply("srv-0", choice);
    states, steps := UpToAsked(session, prompt, loadLine, promptLine, update, text);
    ReplyGoes(session, prompt, line, r);
    SendGoes(session, prompt, r);
    ReceiveGoes(session, prompt, r);
    UnregisterGoes(session, prompt, r);
    states, steps := Runs.Extend(Moves, states, steps, ReceiveReply(line, r), Underway(session, prompt, r));
    states, steps := Runs.Extend(Moves, states, steps, SendOnChannel, Heard(session, prompt, Waiting(0, Some(r)), r));
    states, steps := Runs.Extend(Moves, states, steps, Receives(turn), Heard(session, prompt, Woken(0, Some(r)), r));
    states, steps := Runs.Extend(Moves, states, steps, Unregister(turn), Heard(session, prompt, Deciding(choice), r));
    var deciding := Heard(session, prompt, Deciding(choice), r);
    if choice == Some("raise") {
      RaiseGoes(session, prompt, r, payload);
      states, steps := Runs.Extend(Moves, states, steps, Decide(turn, [], payload),
        Heard(session, prompt, Streaming, r));
    } else {
      OtherGoes(deciding, payload);
      states, steps := Runs.Extend(Moves, states, steps, Decide(turn, [], payload), Finished(deciding));
    }
  }

  /** The client says nothing until the time is up, and closes its end. The turn ends, its prompt is
      answered, nothing is lost, and nothing left pending. */
  lemma SilentRun(session: string, prompt: string, loadLine: string, promptLine: string, update: string, text: string,
                  payload: string)
    returns (states: seq<System>, steps: seq<Step>)
    requires "sess_" <= session && NeedsNoEscape(session) && Size(session) <= 190
    requires IsAscii(prompt) && AsksForWork(prompt) && IsAscii(loadLine) && IsAscii(promptLine)
    requires !Cut(Slice(update, MESSAGE_LIMIT)) && !Cut(Slice(text, MESSAGE_LIMIT)) && IsAscii(payload)
    ensures Run(states, steps) && |steps| > 0
    ensures states[|steps|] == Finished(Blocked(session, prompt, Deciding(None))).(down := true)
  {
    hide Moves, Cut, NeedsNoEscape, AsksForWork;
    var turn, deciding := Turn(1), Blocked(session, prompt, Deciding(None));
    states, steps := UpToAsked(session, prompt, loadLine, promptLine, update, text);
    TimeoutGoes(session, prompt);
    GiveUpGoes(session, prompt);
    OtherGoes(deciding, payload);
    CloseGoesDown(Finished(deciding));
    states, steps := Runs.Extend(Moves, states, steps, TimesOut(turn),
      Pended(Blocked(session, prompt, Woken(0, None))));
    states, steps := Runs.Extend(Moves, states, steps, Unregister(turn), deciding);
    states, steps := Runs.Extend(Moves, states, steps, Decide(turn, [], payload), Finished(deciding));
    states, steps := Runs.Extend(Moves, states, steps, CloseStdin, Finished(deciding).(down := true));
  }

  lemma CloseGoesDown(sys: System)
    requires WellIndexed(sys) && !sys.down && sys.routing.None? && sys.workers == map[] && sys.pending == map[]
    ensures Moves(sys, CloseStdin, sys.(down := true))
  {
    hide AnyCut;
    NothingToCut();
    assert sys.lost + {} == sys.lost;
    assert Down(sys) == sys.(down := true);
  }

  // ---- what a cut answer loses -----------------------------------------------------

  /** A step by which a worker ends with its answer. */
  predicate Concludes(sys: System, s: Step) {
    WellIndexed(sys) && Enabled(sys, s) &&
    match s
    case AnswerNow(_, before, _, _) => before == []
    case StreamEnds(_, _) => true
    case Decide(w, before, _) => before == [] && sys.workers[w].choice != Some("raise")
    case _ => false
  }

  predicate OwesError(s: Step) {
    s.AnswerNow? && s.error
  }

  predicate Responds(sys: System, s: Step)
    requires Concludes(sys, s)
  {
    s.w.Turn? && sys.requests[s.w.req].id.Some?
  }

  /** Its answer as sections 4 and 5 of JSON-RPC 2.0 have it, the members in alphabetical order. */
  function ResponseText(id: Json, error: bool, payload: Json): string {
    if error then "{\"error\":" + payload + ",\"id\":" + id + ",\"jsonrpc\":\"2.0\"}"
    else "{\"id\":" + id + ",\"jsonrpc\":\"2.0\",\"result\":" + payload + "}"
  }

  /** The text of its answer has a character across byte 300. */
  predicate AnswerCut(sys: System, s: Step)
    requires Concludes(sys, s)
  {
    Responds(sys, s) && Cut(Slice(ResponseText(sys.requests[s.w.req].id.value, OwesError(s), s.payload), 300))
  }

  lemma SameResponse(id: Json, error: bool, payload: Json)
    ensures ResponseText(id, error, payload) == AnswerText(id, error, payload)
  {
  }

  lemma CutExactlyWhenLogged(sys: System, s: Step)
    requires Concludes(sys, s)
    ensures AnyCut(Logs(sys, s)) <==> AnswerCut(sys, s)
  {
    hide Cut, AnswerText, ResponseText;
    var logs := Logs(sys, s);
    assert logs == TurnAnswer(sys, s.w, OwesError(s), s.payload);
    if Responds(sys, s) {
      SameResponse(sys.requests[s.w.req].id.value, OwesError(s), s.payload);
      assert AnyCut(logs) <==> Cut(logs[0]);
    }
  }

  /** A worker that ends with its answer loses it exactly if its text is cut inside a character; a
      re-attachment, or a turn without an id, has nothing to lose. */
  lemma CutAnswerIsLost(sys: System, s: Step)
    requires Concludes(sys, s)
    ensures var next := Next(sys, s);
      && next.workers == sys.workers - {s.w}
      && next.lost == (if AnswerCut(sys, s) && OwedBy(sys, s.w) then sys.lost + {s.w.req} else sys.lost)
      && next.answers == sys.answers +
           if Responds(sys, s) && !AnswerCut(sys, s)
           then [Answer(s.w.req, sys.requests[s.w.req].id.value, OwesError(s))] else []
  {
    hide Logs, AnyCut, AnswerCut;
    NothingToCut();
    CutExactlyWhenLogged(sys, s);
    CutMeansResponds(sys, s);
  }

  lemma CutMeansResponds(sys: System, s: Step)
    requires Concludes(sys, s)
    ensures AnswerCut(sys, s) ==> Responds(sys, s)
  {
  }
}
