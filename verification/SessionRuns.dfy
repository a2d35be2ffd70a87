/** Which runs of a session never meet an error, told from the messages and replies alone. */
module SessionRuns {
  import opened Wrappers
  import opened Session

  /** What the two parties know without looking at the session: does the client wait for a reply, how many messages
      has it sent, and which statements exist, with the readiness each had when it was parsed. */
  datatype Exchange = Exchange(waiting: bool, messages: nat, statements: seq<bool>)

  /** The client waits for the reply to its connection. */
  const CONNECTING := Exchange(true, 0, [])

  /** A client that is not waiting sends a sound message with the next number, which is no break and executes only a
      statement that is ready; the server replies only to a client that waits; no send fails and nothing is raised. */
  predicate Proper(x: Exchange, a: Action) {
    match a
    case ReceiveMsg(m) =>
      && !x.waiting && m.consistent && m.no == x.messages + 1 && !m.kind.Break?
      && (m.kind.Execute? ==> m.kind.stmt < |x.statements| && x.statements[m.kind.stmt])
    case Parsed(_, _) => true
    case SendReply(_, _) => x.waiting
    case SendSimple(_) => x.waiting
    case SendOutcome(failed) => !failed
    case Raise(_, _) => false
  }

  function Continued(x: Exchange, a: Action): Exchange {
    match a
    case ReceiveMsg(_) => x.(waiting := true, messages := x.messages + 1)
    case Parsed(ready, _) => x.(statements := x.statements + [ready])
    case SendReply(_, _) => x.(waiting := false)
    case SendSimple(_) => x.(waiting := false)
    case SendOutcome(_) => x
    case Raise(_, _) => x
  }

  predicate AllProper(x: Exchange, run: seq<Event>)
    decreases |run|
  {
    run == [] || (Proper(x, run[0].action) && AllProper(Continued(x, run[0].action), run[1..]))
  }

  function Exchanged(x: Exchange, run: seq<Event>): Exchange
    decreases |run|
  {
    if run == [] then x else Exchanged(Continued(x, run[0].action), run[1..])
  }

  ghost predicate SameStatements(graphs: seq<Graph>, statements: seq<bool>) {
    |graphs| == |statements| && forall k :: 0 <= k < |graphs| ==> graphs[k].id == k && graphs[k].ready == statements[k]
  }

  /** The session is without error and agrees with what the parties know. */
  ghost predicate Clean(s: Sess, x: Exchange) {
    && s.state.Active? && s.errors == 0 && s.stored == []
    && s.clientWaits == x.waiting && s.msgsRecv == x.messages == s.received
    && SameStatements(s.graphs, x.statements) && s.nextGraphId == |x.statements|
    && Told(s.sends) == [] && |s.sends| + (if x.waiting then 1 else 0) == 1 + s.received
  }

  lemma FoundStatement(graphs: seq<Graph>, statements: seq<bool>, id: nat)
    requires SameStatements(graphs, statements)
    ensures FindGraph(graphs, id) == if id < |graphs| then Some(graphs[id]) else None
  {
    var g := FindGraph(graphs, id);
    if id < |graphs| {
      assert graphs[id].id == id && graphs[id] in graphs;
      var k :| g.Some? && 0 <= k < |graphs| && graphs[k] == g.value;
    }
  }

  lemma ProperStep(s: Sess, x: Exchange, a: Action, maxSize: nat, failed: bool)
    requires maxSize >= SRV_MSG_DATA && Clean(s, x) && Proper(x, a)
    ensures Clean(Step(s, a, maxSize, failed), Continued(x, a))
  {
    match a
    case ReceiveMsg(m) =>
      if m.kind.Execute? {
        FoundStatement(s.graphs, x.statements, m.kind.stmt);
      }
    case SendReply(no, body) => ToldNext(s.sends, Reply(no, body));
    case SendSimple(body) => ToldNext(s.sends, Reply(s.msgsSent + 1, body));
    case _ =>
  }

  lemma ImproperStep(s: Sess, x: Exchange, a: Action, maxSize: nat, failed: bool)
    requires maxSize >= SRV_MSG_DATA && Clean(s, x) && !Proper(x, a)
    ensures Step(s, a, maxSize, failed).errors == 1
  {
    match a
    case ReceiveMsg(m) =>
      if m.kind.Execute? {
        FoundStatement(s.graphs, x.statements, m.kind.stmt);
      }
    case _ =>
  }

  lemma {:induction false} ErrorsStay(s: Sess, run: seq<Event>, maxSize: nat)
    requires maxSize >= SRV_MSG_DATA
    ensures After(s, run, maxSize).errors >= s.errors
    decreases |run|
  {
    if run != [] {
      ErrorsStay(Step(s, run[0].action, maxSize, run[0].sendFails), run[1..], maxSize);
    }
  }

  lemma {:induction false} CleanRun(s: Sess, x: Exchange, run: seq<Event>, maxSize: nat)
    requires maxSize >= SRV_MSG_DATA && Clean(s, x)
    ensures AllProper(x, run) ==> Clean(After(s, run, maxSize), Exchanged(x, run))
    ensures !AllProper(x, run) ==> After(s, run, maxSize).errors > 0
    decreases |run|
  {
    hide Step, Clean, Proper, Continued;
    if run != [] {
      var a, t := run[0].action, Step(s, run[0].action, maxSize, run[0].sendFails);
      if Proper(x, a) {
        ProperStep(s, x, a, maxSize, run[0].sendFails);
        CleanRun(t, Continued(x, a), run[1..], maxSize);
      } else {
        ImproperStep(s, x, a, maxSize, run[0].sendFails);
        ErrorsStay(t, run[1..], maxSize);
      }
    }
  }

  /** In every run of an opened session: no error is ever met iff every step is proper, and then every message but the
      one the client waits on has got one reply and nothing else was sent but the reply to the connection. */
  lemma NoErrorIffProper(run: seq<Event>, maxSize: nat)
    requires maxSize >= SRV_MSG_DATA
    ensures After(OPENED, run, maxSize).errors == 0 <==> AllProper(CONNECTING, run)
    ensures AllProper(CONNECTING, run) ==> Clean(After(OPENED, run, maxSize), Exchanged(CONNECTING, run))
  {
    CleanRun(OPENED, CONNECTING, run, maxSize);
  }

  /** The error a message raises in a session without error: corrupted, out of number, a break, sent while the client
      waits, or for a statement that does not exist or is not ready; in this order. */
  function Improper(x: Exchange, m: ClientMsg): Option<nat> {
    if !m.consistent then Some(MSG_CORRUPTED)
    else if m.no != x.messages + 1 then Some(MSG_LOST)
    else if m.kind.Break? then Some(BREAK_BY_CLIENT)
    else if x.waiting then Some(EXTRANEOUS_MSG)
    else if !m.kind.Execute? then None
    else if m.kind.stmt >= |x.statements| then Some(STMT_NOT_FOUND)
    else if !x.statements[m.kind.stmt] then Some(STMT_NOT_READY)
    else None
  }

  /** After any run without errors, a message raises the error it deserves, or none if it is proper. */
  lemma NextMessage(run: seq<Event>, m: ClientMsg, maxSize: nat, failed: bool)
    requires maxSize >= SRV_MSG_DATA && AllProper(CONNECTING, run)
    ensures var x := Exchanged(CONNECTING, run);
      var t := Receive(After(OPENED, run, maxSize), m, maxSize, failed);
      && (Improper(x, m).None? <==> Proper(x, ReceiveMsg(m)))
      && (Improper(x, m).Some? ==> t.state.Error? && t.errors == 1 && t.errNo == Improper(x, m).value)
      && (Improper(x, m).None? ==> t.state.Active? && t.errors == 0)
      && t.msgsRecv == (if m.consistent then m.no else x.messages)
  {
    CleanRun(OPENED, CONNECTING, run, maxSize);
    if m.kind.Execute? {
      FoundStatement(After(OPENED, run, maxSize).graphs, Exchanged(CONNECTING, run).statements, m.kind.stmt);
    }
  }

  /** How much of the text of an error is told: a leading part, all of it if it fits behind the fixed part of the message
      in the buffer and in the endpoint, and otherwise as much as fits. */
  lemma FaultTextFits(text: string, maxSize: nat)
    requires maxSize >= SRV_MSG_DATA
    ensures var told := FaultText(Some(text), maxSize);
      && |told| <= |text| && told == text[..|told|]
      && SRV_MSG_DATA + |told| <= 8192 && SRV_MSG_DATA + |told| <= maxSize
      && (told == text || SRV_MSG_DATA + |told| == 8192 || SRV_MSG_DATA + |told| == maxSize)
  {
  }

  // ----- numbers of the messages to the client

  /** How many messages the server has initialised in a run: one for each parsed statement and each simple message. */
  function Initialised(run: seq<Event>): nat
    decreases |run|
  {
    if run == [] then 0
    else (if run[0].action.Parsed? || run[0].action.SendSimple? then 1 else 0) + Initialised(run[1..])
  }

  /** At most one message more was sent; if it is an error or its number is given when it is sent, it carries the count;
      apart from the errors told, n messages more are counted. */
  ghost predicate CountedRight(s: Sess, t: Sess, n: nat, given: bool) {
    && (t.sends == s.sends ||
        (t.sends != [] && t.sends == s.sends + [t.sends[|t.sends| - 1]]
         && (given || t.sends[|t.sends| - 1].Fault? ==> t.sends[|t.sends| - 1].no == t.msgsSent)))
    && t.msgsSent - |Told(t.sends)| == s.msgsSent - |Told(s.sends)| + n
  }

  lemma SendErrorNumbers(s: Sess, maxSize: nat, failed: bool)
    requires maxSize >= SRV_MSG_DATA && s.state.Error?
    ensures CountedRight(s, SendError(s, maxSize, failed), 0, true)
  {
    hide Told, FaultText;
    ToldNext(s.sends, Fault(s.msgsSent + 1, FaultText(s.errText, maxSize)));
  }

  lemma SendNumbers(s: Sess, no: nat, body: nat, maxSize: nat, failed: bool)
    requires maxSize >= SRV_MSG_DATA
    ensures CountedRight(s, Send(s, Reply(no, body), maxSize, failed), 0, no == s.msgsSent)
  {
    hide Told, SendError;
    if s.state.Error? {
      SendErrorNumbers(s, maxSize, failed);
    } else {
      ToldNext(s.sends, Reply(no, body));
    }
  }

  lemma StepNumbers(s: Sess, a: Action, maxSize: nat, failed: bool)
    requires maxSize >= SRV_MSG_DATA
    ensures CountedRight(s, Step(s, a, maxSize, failed), if a.Parsed? || a.SendSimple? then 1 else 0, !a.SendReply?)
  {
    hide Told, SendError, Send, FindGraph;
    match a
    case ReceiveMsg(m) =>
      if s.state.Error? {
        SendErrorNumbers(s.(clientWaits := true, received := s.received + 1), maxSize, failed);
      }
    case SendReply(no, body) => SendNumbers(s, no, body, maxSize, failed);
    case SendSimple(body) => SendNumbers(Init(s), s.msgsSent + 1, body, maxSize, failed);
    case _ =>
  }

  /** In every run the messages counted are those that were initialised and the errors that were told. */
  lemma {:induction false} MessagesCounted(s: Sess, run: seq<Event>, maxSize: nat)
    requires maxSize >= SRV_MSG_DATA
    ensures var t := After(s, run, maxSize);
      t.msgsSent - |Told(t.sends)| == s.msgsSent - |Told(s.sends)| + Initialised(run)
    decreases |run|
  {
    hide Step, Told;
    if run != [] {
      StepNumbers(s, run[0].action, maxSize, run[0].sendFails);
      MessagesCounted(Step(s, run[0].action, maxSize, run[0].sendFails), run[1..], maxSize);
    }
  }
}
