/**
  * The request and reply protocol of usr0sess.cc. A step is one stretch of code under the kernel mutex; between
  * two steps any other thread may take one.
  */
module Session {
  import opened Wrappers

  datatype SessState = Active | Error

  // Error numbers.
  const REPLY_FAILED := 4
  const MSG_LOST := 6
  const MSG_CORRUPTED := 7
  const EXTRANEOUS_MSG := 8
  const STMT_NOT_FOUND := 11
  const STMT_NOT_READY := 12
  const EXTRANEOUS_SRV_MSG := 13
  const BREAK_BY_CLIENT := 14

  const ERR_BUF_SIZE := 8192
  const SRV_MSG_DATA := 32

  /** What goes to the client: a reply, or an error with as much of its text as fits. */
  datatype Message = Reply(no: nat, body: nat) | Fault(no: nat, text: string)

  datatype Kind = Break | Prepare | Execute(stmt: nat)

  /** A message from the client; a corrupted one fails the consistency check. */
  datatype ClientMsg = ClientMsg(consistent: bool, no: nat, kind: Kind)

  /** A query graph: is it waiting for a command, and does it create a procedure? */
  datatype Graph = Graph(id: nat, ready: bool, creates: bool)

  /** sess_t, with what has been handed to com_sendto, how many messages have come in, and the text of every error
      that was stored, each with one rollback signal to the transaction. `errors` is error_count. */
  datatype Sess = Sess(state: SessState, clientWaits: bool, msgsSent: nat, msgsRecv: nat, errNo: nat,
                       errText: Option<string>, errors: nat, graphs: seq<Graph>, nextGraphId: nat,
                       sends: seq<Message>, received: nat, stored: seq<Option<string>>)

  /** sess_open. */
  const OPENED := Sess(Active, true, 0, 0, 0, None, 0, [], 0, [], 0, [])

  function Min(a: nat, b: nat): nat {
    if a < b then a else b
  }

  /** The text of an error message: cut to the buffer and to the size of the endpoint. */
  function FaultText(text: Option<string>, maxSize: nat): string
    requires maxSize >= SRV_MSG_DATA
  {
    match text
    case None => ""
    case Some(t) => t[..Min(|t|, Min(ERR_BUF_SIZE, maxSize) - SRV_MSG_DATA)]
  }

  /** sess_error_low: the first error stays, later ones are only counted. */
  function ErrorLow(s: Sess, no: nat, text: Option<string>): Sess {
    if s.state.Error? then s.(errors := s.errors + 1)
    else s.(errors := s.errors + 1, errNo := no, errText := text, state := Error, stored := s.stored + [text])
  }

  /** sess_srv_msg_send_low up to com_sendto. */
  function HandOver(s: Sess, m: Message): Sess {
    if !s.clientWaits then ErrorLow(s, EXTRANEOUS_SRV_MSG, None)
    else s.(state := Active, clientWaits := false, sends := s.sends + [m])
  }

  /** The rest of sess_srv_msg_send_low, after com_sendto. */
  function Delivered(s: Sess, failed: bool): Sess {
    if failed then ErrorLow(s, REPLY_FAILED, None) else s
  }

  /** sess_srv_msg_send_error: the kernel mutex is kept, so the outcome of com_sendto belongs to the step. */
  function SendError(s: Sess, maxSize: nat, failed: bool): Sess
    requires maxSize >= SRV_MSG_DATA
  {
    if !s.clientWaits then s
    else
      var t := s.(msgsSent := s.msgsSent + 1);
      Delivered(HandOver(t, Fault(t.msgsSent, FaultText(t.errText, maxSize))), failed)
  }

  /** sess_srv_msg_send up to com_sendto. */
  function Send(s: Sess, m: Message, maxSize: nat, failed: bool): Sess
    requires maxSize >= SRV_MSG_DATA
  {
    if s.state.Error? then SendError(s, maxSize, failed) else HandOver(s, m)
  }

  /** sess_srv_msg_init. */
  function Init(s: Sess): Sess {
    s.(msgsSent := s.msgsSent + 1)
  }

  function FindGraph(graphs: seq<Graph>, id: nat): (g: Option<Graph>)
    ensures g.Some? ==> g.value in graphs && g.value.id == id
    ensures g.None? ==> forall h :: h in graphs ==> h.id != id
  {
    if graphs == [] then None
    else if graphs[0].id == id then Some(graphs[0])
    else FindGraph(graphs[1..], id)
  }

  /** sess_receive_command up to the release of the mutex. */
  function Command(s: Sess, stmt: nat): Sess {
    var t := s.(clientWaits := true);
    match FindGraph(t.graphs, stmt)
    case None => ErrorLow(t, STMT_NOT_FOUND, None)
    case Some(g) => if !g.ready then ErrorLow(t, STMT_NOT_READY, None) else t
  }

  /** sess_receive_msg_rel_kernel up to the first release of the mutex. Messages have a single part. */
  function Receive(s: Sess, m: ClientMsg, maxSize: nat, failed: bool): Sess
    requires maxSize >= SRV_MSG_DATA
  {
    var waited := s.clientWaits;
    var t := s.(clientWaits := true, received := s.received + 1);
    if t.state.Error? then SendError(t, maxSize, failed)
    else if !m.consistent then ErrorLow(t, MSG_CORRUPTED, None)
    else
      var u := t.(msgsRecv := t.msgsRecv + 1);
      if m.no != u.msgsRecv then ErrorLow(u, MSG_LOST, None).(msgsRecv := m.no)
      else if m.kind.Break? then ErrorLow(u, BREAK_BY_CLIENT, None)
      else if waited then ErrorLow(u, EXTRANEOUS_MSG, None)
      else
        match m.kind
        case Execute(stmt) => Command(u, stmt)
        case _ => u
  }

  datatype Action =
    | ReceiveMsg(msg: ClientMsg)            // a message from the client
    | Parsed(ready: bool, creates: bool)    // sess_receive_prepare after pars_sql: the graph joins the list
    | SendReply(no: nat, body: nat)         // sess_srv_msg_send of a message that was initialised before
    | SendSimple(body: nat)                 // sess_srv_msg_send_simple
    | SendOutcome(failed: bool)             // com_sendto has returned to sess_srv_msg_send_low
    | Raise(no: nat, text: Option<string>)  // sess_raise_error_low

  function Step(s: Sess, a: Action, maxSize: nat, failed: bool): Sess
    requires maxSize >= SRV_MSG_DATA
  {
    match a
    case ReceiveMsg(m) => Receive(s, m, maxSize, failed)
    case Parsed(r, c) => Init(s.(graphs := s.graphs + [Graph(s.nextGraphId, r, c)], nextGraphId := s.nextGraphId + 1))
    case SendReply(no, body) => Send(s, Reply(no, body), maxSize, failed)
    case SendSimple(body) => Send(Init(s), Reply(s.msgsSent + 1, body), maxSize, failed)
    case SendOutcome(f) => Delivered(s, f)
    case Raise(no, text) => ErrorLow(s, no, text)
  }

  // ----- one reply for one request

  /** What has been sent, and what may still be sent, is covered by what has come in and the connection itself. */
  predicate Balanced(s: Sess) {
    |s.sends| + (if s.clientWaits then 1 else 0) <= 1 + s.received
  }

  lemma StepKeepsBalance(s: Sess, a: Action, maxSize: nat, failed: bool)
    requires maxSize >= SRV_MSG_DATA && Balanced(s)
    ensures Balanced(Step(s, a, maxSize, failed))
  {
  }

  // ----- every error is told once, in order, before anything else

  /** The texts of the error messages among the messages sent. */
  function Told(sends: seq<Message>): seq<string> {
    if sends == [] then []
    else
      var m := sends[|sends| - 1];
      Told(sends[..|sends| - 1]) + if m.Fault? then [m.text] else []
  }

  function Texts(stored: seq<Option<string>>, maxSize: nat): seq<string>
    requires maxSize >= SRV_MSG_DATA
  {
    if stored == [] then []
    else Texts(stored[..|stored| - 1], maxSize) + [FaultText(stored[|stored| - 1], maxSize)]
  }

  ghost predicate ToldAndPending(state: SessState, sends: seq<Message>, stored: seq<Option<string>>, errText: Option<string>,
                                 maxSize: nat)
    requires maxSize >= SRV_MSG_DATA
  {
    match state
    case Active => Told(sends) == Texts(stored, maxSize)
    case Error =>
      && stored != [] && stored[|stored| - 1] == errText
      && Told(sends) == Texts(stored[..|stored| - 1], maxSize)
  }

  /** The errors stored so far are those told to the client and, in the error state, one more: the pending one. */
  ghost predicate ErrorsTold(s: Sess, maxSize: nat)
    requires maxSize >= SRV_MSG_DATA
  {
    ToldAndPending(s.state, s.sends, s.stored, s.errText, maxSize)
  }

  lemma ToldNext(sends: seq<Message>, m: Message)
    ensures Told(sends + [m]) == Told(sends) + if m.Fault? then [m.text] else []
  {
    assert (sends + [m])[..|sends|] == sends;
  }

  lemma TextsNext(stored: seq<Option<string>>, e: Option<string>, maxSize: nat)
    requires maxSize >= SRV_MSG_DATA
    ensures Texts(stored + [e], maxSize) == Texts(stored, maxSize) + [FaultText(e, maxSize)]
  {
    assert (stored + [e])[..|stored|] == stored;
  }

  lemma ErrorLowTells(s: Sess, no: nat, text: Option<string>, maxSize: nat)
    requires maxSize >= SRV_MSG_DATA && ErrorsTold(s, maxSize)
    ensures ErrorsTold(ErrorLow(s, no, text), maxSize)
  {
    assert (s.stored + [text])[..|s.stored|] == s.stored;
  }

  /** Handing the pending error over settles it; a reply needs the active state. */
  lemma HandOverTells(s: Sess, m: Message, maxSize: nat)
    requires maxSize >= SRV_MSG_DATA && ErrorsTold(s, maxSize)
    requires m.Fault? <==> s.state.Error?
    requires m.Fault? ==> m.text == FaultText(s.errText, maxSize) && s.clientWaits
    ensures ErrorsTold(HandOver(s, m), maxSize)
  {
    if s.clientWaits {
      ToldNext(s.sends, m);
      if m.Fault? {
        var n := |s.stored| - 1;
        assert s.stored == s.stored[..n] + [s.errText];
        TextsNext(s.stored[..n], s.errText, maxSize);
      }
    } else {
      ErrorLowTells(s, EXTRANEOUS_SRV_MSG, None, maxSize);
    }
  }

  lemma SendErrorTells(s: Sess, maxSize: nat, failed: bool)
    requires maxSize >= SRV_MSG_DATA && ErrorsTold(s, maxSize) && s.state.Error?
    ensures ErrorsTold(SendError(s, maxSize, failed), maxSize)
  {
    if s.clientWaits {
      var t := s.(msgsSent := s.msgsSent + 1);
      var m := Fault(t.msgsSent, FaultText(t.errText, maxSize));
      HandOverTells(t, m, maxSize);
      ErrorLowTells(HandOver(t, m), REPLY_FAILED, None, maxSize);
    }
  }

  lemma ReceiveTells(s: Sess, m: ClientMsg, maxSize: nat, failed: bool)
    requires maxSize >= SRV_MSG_DATA && ErrorsTold(s, maxSize)
    ensures ErrorsTold(Receive(s, m, maxSize, failed), maxSize)
  {
    hide ToldAndPending, ErrorLow, SendError, FindGraph;
    var t := s.(clientWaits := true, received := s.received + 1);
    if t.state.Error? {
      SendErrorTells(t, maxSize, failed);
    } else {
      var u := t.(msgsRecv := t.msgsRecv + 1);
      ErrorLowTells(t, MSG_CORRUPTED, None, maxSize);
      ErrorLowTells(u, MSG_LOST, None, maxSize);
      ErrorLowTells(u, BREAK_BY_CLIENT, None, maxSize);
      ErrorLowTells(u, EXTRANEOUS_MSG, None, maxSize);
      ErrorLowTells(u, STMT_NOT_FOUND, None, maxSize);
      ErrorLowTells(u, STMT_NOT_READY, None, maxSize);
    }
  }

  lemma StepTells(s: Sess, a: Action, maxSize: nat, failed: bool)
    requires maxSize >= SRV_MSG_DATA && ErrorsTold(s, maxSize)
    ensures ErrorsTold(Step(s, a, maxSize, failed), maxSize)
  {
    match a
    case ReceiveMsg(m) => ReceiveTells(s, m, maxSize, failed);
    case Parsed(_, _) =>
    case SendReply(no, body) =>
      if s.state.Error? {
        SendErrorTells(s, maxSize, failed);
      } else {
        HandOverTells(s, Reply(no, body), maxSize);
      }
    case SendSimple(body) =>
      if s.state.Error? {
        SendErrorTells(Init(s), maxSize, failed);
      } else {
        HandOverTells(Init(s), Reply(s.msgsSent + 1, body), maxSize);
      }
    case SendOutcome(f) => ErrorLowTells(s, REPLY_FAILED, None, maxSize);
    case Raise(no, text) => ErrorLowTells(s, no, text, maxSize);
  }

  // ----- whole runs, every interleaving of the steps of all threads

  datatype Event = Event(action: Action, sendFails: bool)

  function After(s: Sess, run: seq<Event>, maxSize: nat): Sess
    requires maxSize >= SRV_MSG_DATA
    decreases |run|
  {
    if run == [] then s else After(Step(s, run[0].action, maxSize, run[0].sendFails), run[1..], maxSize)
  }

  /** No run sends more replies than requests allow, and every stored error is told once and in order. */
  lemma {:induction false} RunKeeps(s: Sess, run: seq<Event>, maxSize: nat)
    requires maxSize >= SRV_MSG_DATA && Balanced(s) && ErrorsTold(s, maxSize)
    ensures Balanced(After(s, run, maxSize)) && ErrorsTold(After(s, run, maxSize), maxSize)
    decreases |run|
  {
    hide Step, Balanced, ErrorsTold;
    if run != [] {
      StepTells(s, run[0].action, maxSize, run[0].sendFails);
      StepKeepsBalance(s, run[0].action, maxSize, run[0].sendFails);
      RunKeeps(Step(s, run[0].action, maxSize, run[0].sendFails), run[1..], maxSize);
    }
  }

  lemma EveryRun(run: seq<Event>, maxSize: nat)
    requires maxSize >= SRV_MSG_DATA
    ensures Balanced(After(OPENED, run, maxSize)) && ErrorsTold(After(OPENED, run, maxSize), maxSize)
  {
    RunKeeps(OPENED, run, maxSize);
  }

  /** In the error state, the first error stays as it is and nothing is sent, or the next message sent is this
      error. */
  predicate PendingOrTold(s: Sess, t: Sess, maxSize: nat)
    requires maxSize >= SRV_MSG_DATA
  {
    if |t.sends| == |s.sends| then t.state.Error? && t.errNo == s.errNo && t.errText == s.errText
    else |t.sends| > |s.sends| && t.sends[|s.sends|].Fault? && t.sends[|s.sends|].text == FaultText(s.errText, maxSize)
  }

  lemma {:induction false} SendsGrow(s: Sess, run: seq<Event>, maxSize: nat)
    requires maxSize >= SRV_MSG_DATA
    ensures |s.sends| <= |After(s, run, maxSize).sends| && After(s, run, maxSize).sends[..|s.sends|] == s.sends
    decreases |run|
  {
    if run != [] {
      var t := Step(s, run[0].action, maxSize, run[0].sendFails);
      assert |s.sends| <= |t.sends| && t.sends[..|s.sends|] == s.sends;
      SendsGrow(t, run[1..], maxSize);
      var u := After(t, run[1..], maxSize);
      assert u.sends[..|s.sends|] == u.sends[..|t.sends|][..|s.sends|];
    }
  }

  /** From the error state on, in every run: the pending error is the next thing the client is told. */
  lemma {:induction false} PendingErrorComesFirst(s: Sess, run: seq<Event>, maxSize: nat)
    requires maxSize >= SRV_MSG_DATA && s.state.Error?
    ensures PendingOrTold(s, After(s, run, maxSize), maxSize)
    decreases |run|
  {
    if run != [] {
      var t := Step(s, run[0].action, maxSize, run[0].sendFails);
      assert PendingOrTold(s, t, maxSize);
      if |t.sends| == |s.sends| {
        PendingErrorComesFirst(t, run[1..], maxSize);
        assert t.sends == s.sends;
      } else {
        SendsGrow(t, run[1..], maxSize);
        var u := After(t, run[1..], maxSize);
        assert u.sends[|s.sends|] == u.sends[..|t.sends|][|s.sends|] == t.sends[|s.sends|];
      }
    }
  }

  // ----- a message answered with a pending error is not counted

  /** A message that finds a pending error is answered with it but does not advance the count, so the message after
      it passes the number check iff it repeats the number. */
  lemma AnsweredMessageNotCounted(s: Sess, first: ClientMsg, next: ClientMsg, maxSize: nat, failed: bool)
    requires maxSize >= SRV_MSG_DATA && s.state.Error? && next.consistent
    ensures var t := Receive(s, first, maxSize, false);
      var u := Receive(t, next, maxSize, failed);
      && t.state.Active? && t.msgsRecv == s.msgsRecv
      && (u.state.Error? && u.errNo == MSG_LOST <==> next.no != s.msgsRecv + 1)
  {
  }

  /** The messages of the run carry the numbers n + 1, n + 2, and so on. */
  predicate Numbered(run: seq<Event>, n: nat)
    decreases |run|
  {
    run == [] ||
    match run[0].action
    case ReceiveMsg(m) => m.no == n + 1 && Numbered(run[1..], n + 1)
    case _ => Numbered(run[1..], n)
  }

  function CountMessages(run: seq<Event>): nat
    decreases |run|
  {
    if run == [] then 0 else (if run[0].action.ReceiveMsg? then 1 else 0) + CountMessages(run[1..])
  }

  /** Did the last message of the run get past a pending error and the consistency check? */
  function LastCounted(s: Sess, run: seq<Event>, counted: bool, maxSize: nat): bool
    requires maxSize >= SRV_MSG_DATA
    decreases |run|
  {
    if run == [] then counted
    else
      var last := match run[0].action case ReceiveMsg(m) => s.state.Active? && m.consistent case _ => counted;
      LastCounted(Step(s, run[0].action, maxSize, run[0].sendFails), run[1..], last, maxSize)
  }

  /** For a client that numbers its messages one after the other: the session's count is that of the client iff the
      last message was counted. */
  lemma {:induction false} InStepIff(s: Sess, run: seq<Event>, n: nat, counted: bool, maxSize: nat)
    requires maxSize >= SRV_MSG_DATA && Numbered(run, n) && s.msgsRecv <= n && (counted <==> s.msgsRecv == n)
    ensures var t := After(s, run, maxSize);
      && t.msgsRecv <= n + CountMessages(run)
      && (LastCounted(s, run, counted, maxSize) <==> t.msgsRecv == n + CountMessages(run))
    decreases |run|
  {
    if run != [] {
      var t := Step(s, run[0].action, maxSize, run[0].sendFails);
      match run[0].action
      case ReceiveMsg(m) => InStepIff(t, run[1..], n + 1, s.state.Active? && m.consistent, maxSize);
      case _ => InStepIff(t, run[1..], n, counted, maxSize);
    }
  }

  /** In every run of such a client: a message that finds no pending error is declared lost iff the one before it was
      not counted, although no message was ever lost. */
  lemma ConsecutiveMessageLostIff(run: seq<Event>, m: ClientMsg, maxSize: nat, failed: bool)
    requires maxSize >= SRV_MSG_DATA && Numbered(run, 0) && m.no == CountMessages(run) + 1 && m.consistent
    requires After(OPENED, run, maxSize).state.Active?
    ensures var u := Receive(After(OPENED, run, maxSize), m, maxSize, failed);
      u.state.Error? && u.errNo == MSG_LOST <==> !LastCounted(OPENED, run, true, maxSize)
  {
    InStepIff(OPENED, run, 0, true, maxSize);
  }

  lemma EventFirst(s: Sess, e: Event, rest: seq<Event>, n: nat, maxSize: nat)
    requires maxSize >= SRV_MSG_DATA
    ensures After(s, [e] + rest, maxSize) == After(Step(s, e.action, maxSize, e.sendFails), rest, maxSize)
    ensures CountMessages([e] + rest) == (if e.action.ReceiveMsg? then 1 else 0) + CountMessages(rest)
    ensures !e.action.ReceiveMsg? && Numbered(rest, n) ==> Numbered([e] + rest, n)
    ensures e.action.ReceiveMsg? && e.action.msg.no == n + 1 && Numbered(rest, n + 1) ==> Numbered([e] + rest, n)
  {
    assert ([e] + rest)[1..] == rest;
  }

  /** A run in which this happens: the reply to the connection fails, the first message is answered with this error,
      and the second message is declared lost. */
  lemma ConsecutiveClientLoses(kind: Kind, maxSize: nat) returns (run: seq<Event>)
    requires maxSize >= SRV_MSG_DATA
    ensures Numbered(run, 0) && CountMessages(run) == 2
    ensures After(OPENED, run, maxSize).state.Error? && After(OPENED, run, maxSize).errNo == MSG_LOST
  {
    var first, second := ClientMsg(true, 1, kind), ClientMsg(true, 2, kind);
    var a, b := Event(SendSimple(0), false), Event(SendOutcome(true), false);
    var c, d := Event(ReceiveMsg(first), false), Event(ReceiveMsg(second), false);
    var s1 := Step(OPENED, a.action, maxSize, false);
    var s2 := Step(s1, b.action, maxSize, false);
    var s3 := Step(s2, c.action, maxSize, false);
    EventFirst(s3, d, [], 1, maxSize);
    EventFirst(s2, c, [d] + [], 0, maxSize);
    EventFirst(s1, b, [c] + ([d] + []), 0, maxSize);
    EventFirst(OPENED, a, [b] + ([c] + ([d] + [])), 0, maxSize);
    run := [a] + ([b] + ([c] + ([d] + [])));
  }

  // ----- the code, on a session object

  /** sess_t, changed in place. The outcome of com_sendto and the rollback signals are outside. */
  class SessionObject {
    const maxSize: nat  // com_endpoint_get_max_size
    var state: SessState
    var clientWaits: bool
    var msgsSent: nat
    var msgsRecv: nat
    var errNo: nat
    var errText: Option<string>
    var errors: nat
    var graphs: seq<Graph>
    var nextGraphId: nat
    ghost var sends: seq<Message>
    ghost var received: nat
    ghost var stored: seq<Option<string>>

    ghost function View(): Sess
      reads this
    {
      Sess(state, clientWaits, msgsSent, msgsRecv, errNo, errText, errors, graphs, nextGraphId, sends, received, stored)
    }

    /** sess_open. */
    constructor (maxSize: nat)
      ensures View() == OPENED && this.maxSize == maxSize
    {
      this.maxSize := maxSize;
      state, clientWaits, msgsSent, msgsRecv, errNo, errText, errors := Active, true, 0, 0, 0, None, 0;
      graphs, nextGraphId, sends, received, stored := [], 0, [], 0, [];
    }

    /** sess_error_low. */
    method RaiseLow(no: nat, text: Option<string>)
      modifies this
      ensures View() == ErrorLow(old(View()), no, text)
    {
      errors := errors + 1;
      if state == Error {
        return;
      }
      errNo := no;
      errText := text;
      state := Error;
      stored := stored + [text];
    }

    /** sess_srv_msg_send_low, for a caller that keeps the kernel mutex. */
    method SendLow(m: Message, failed: bool) returns (ret: nat)
      modifies this
      ensures old(clientWaits) ==> View() == Delivered(HandOver(old(View()), m), failed) && (ret == 0 <==> !failed)
      ensures !old(clientWaits) ==> View() == HandOver(old(View()), m) && ret == 1
    {
      if !clientWaits {
        RaiseLow(EXTRANEOUS_SRV_MSG, None);
        return 1;
      }
      if state == Error {
        state := Active;
      }
      clientWaits := false;
      sends := sends + [m];
      if failed {
        RaiseLow(REPLY_FAILED, None);
      }
      ret := if failed then 1 else 0;
    }

    /** sess_srv_msg_send_error. */
    method SendPending(failed: bool)
      requires maxSize >= SRV_MSG_DATA && state == Error
      modifies this
      ensures View() == SendError(old(View()), maxSize, failed)
    {
      if !clientWaits {
        return;
      }
      var maxLen := Min(ERR_BUF_SIZE, maxSize);
      msgsSent := msgsSent + 1;
      var errLen := if errText.Some? then |errText.value| else 0;
      if errLen + SRV_MSG_DATA > maxLen {
        errLen := maxLen - SRV_MSG_DATA;
      }
      var text := if errText.Some? then errText.value[..errLen] else "";
      var ret := SendLow(Fault(msgsSent, text), failed);
    }

    /** sess_receive_command up to the release of the mutex. */
    method ReceiveCommand(stmt: nat)
      modifies this
      ensures View() == Command(old(View()), stmt)
    {
      clientWaits := true;
      var graph := FindGraph(graphs, stmt);
      if graph.None? {
        RaiseLow(STMT_NOT_FOUND, None);
        return;
      }
      if !graph.value.ready {
        RaiseLow(STMT_NOT_READY, None);
        return;
      }
    }

    /** sess_receive_msg_rel_kernel up to the first release of the mutex: keeps what every run keeps. */
    method ReceiveMessage(m: ClientMsg, failed: bool)
      requires maxSize >= SRV_MSG_DATA
      modifies this
      ensures View() == Receive(old(View()), m, maxSize, failed)
      ensures old(Balanced(View())) ==> Balanced(View())
      ensures old(ErrorsTold(View(), maxSize)) ==> ErrorsTold(View(), maxSize)
    {
      ghost var before := View();
      ReceiveBody(m, failed);
      if ErrorsTold(before, maxSize) {
        ReceiveTells(before, m, maxSize, failed);
      }
    }

    method ReceiveBody(m: ClientMsg, failed: bool)
      requires maxSize >= SRV_MSG_DATA
      modifies this
      ensures View() == Receive(old(View()), m, maxSize, failed)
    {
      var clientWaited := clientWaits;
      clientWaits := true;
      received := received + 1;
      if state == Error {
        SendPending(failed);
        return;
      }
      if !m.consistent {
        RaiseLow(MSG_CORRUPTED, None);
        return;
      }
      msgsRecv := msgsRecv + 1;
      if m.no != msgsRecv {
        RaiseLow(MSG_LOST, None);
        msgsRecv := m.no;
        return;
      }
      if m.kind == Break {
        RaiseLow(BREAK_BY_CLIENT, None);
        return;
      }
      if clientWaited {
        RaiseLow(EXTRANEOUS_MSG, None);
        return;
      }
      if m.kind.Execute? {
        ReceiveCommand(m.kind.stmt);
      }
    }
  }
}
