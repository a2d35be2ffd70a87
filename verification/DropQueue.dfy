/**
  * The background drop queue of row0mysql.cc as a state machine: one step is one critical section of a client or
  * of the master thread. Handles are opened and foreign key checks start and end under the locks a drop holds.
  */
module DropQueue {
  type Name = string

  /** dict_table_t: an identity, n_mysql_handles_opened and n_foreign_key_checks_running. */
  datatype Table = Table(id: nat, handles: nat, checks: nat) {
    predicate InUse() {
      handles > 0 || checks > 0
    }
  }

  /** row_mysql_drop_t: entries are told apart by their address. */
  datatype Entry = Entry(address: nat, name: Name)

  /** Where the master thread is in row_drop_tables_for_mysql_in_background. */
  datatype Master =
    | Idle
    | Taken(drop: Entry)             // the first entry was read under the kernel mutex
    | Found(drop: Entry, id: nat)    // the table was looked up; the dictionary mutex is released again
    | Dropping(drop: Entry)          // no handles and no checks were seen
    | Removing(drop: Entry)          // already_dropped

  /** `accepted` holds the identities of the tables some client's drop of which was accepted, done or put off. */
  datatype State = State(tables: map<Name, Table>, queue: seq<Entry>, nextAddress: nat, nextId: nat, master: Master,
                         accepted: set<nat>)

  datatype Error = Success | TableNotFound

  /** row_drop_table_for_mysql, under the dictionary mutex: refused, put off, or done. A drop that is put off
      allocates its queue entry and appends it under the kernel mutex. */
  function Drop(s: State, name: Name): (State, Error) {
    if name !in s.tables then (s, TableNotFound)
    else if s.tables[name].InUse() then
      (s.(queue := s.queue + [Entry(s.nextAddress, name)], nextAddress := s.nextAddress + 1), Success)
    else (s.(tables := s.tables - {name}), Success)
  }

  /** A drop that a client asks for; the master thread repeats it on its own account. */
  function AskedDrop(s: State, name: Name): State {
    var t := Drop(s, name).0;
    if name in s.tables then t.(accepted := s.accepted + {s.tables[name].id}) else t
  }

  datatype Action =
    | Create(name: Name)
    | Rename(from: Name, to: Name)
    | Open(name: Name)
    | Close(name: Name)
    | BeginCheck(name: Name)
    | EndCheck(name: Name)
    | ClientDrop(name: Name)
    | MasterTake
    | MasterLookUp
    | MasterRead(handles: nat, checks: nat)
    | MasterDrop
    | MasterRemove

  /** The list without the entry at an address. */
  function Without(queue: seq<Entry>, address: nat): seq<Entry> {
    if queue == [] then []
    else if queue[0].address == address then queue[1..]
    else [queue[0]] + Without(queue[1..], address)
  }

  /** Is the action possible in the state? */
  predicate Enabled(s: State, a: Action) {
    match a
    case Create(n) => n !in s.tables
    case Rename(f, t) => f in s.tables && t !in s.tables
    case Open(n) => n in s.tables
    case Close(n) => n in s.tables && s.tables[n].handles > 0
    case BeginCheck(n) => n in s.tables
    case EndCheck(n) => n in s.tables && s.tables[n].checks > 0
    case ClientDrop(_) => true
    case MasterTake => s.master.Idle?
    case MasterLookUp => s.master.Taken?
    // Without the mutex the counters are those of the table only if it still is where it was found.
    case MasterRead(h, c) =>
      && s.master.Found?
      && var n := s.master.drop.name;
         n in s.tables && s.tables[n].id == s.master.id ==> h == s.tables[n].handles && c == s.tables[n].checks
    case MasterDrop => s.master.Dropping?
    case MasterRemove => s.master.Removing?
  }

  function Next(s: State, a: Action): State
    requires Enabled(s, a)
  {
    match a
    case Create(n) =>
      s.(tables := s.tables[n := Table(s.nextId, 0, 0)], nextId := s.nextId + 1)
    case Rename(f, t) => s.(tables := (s.tables - {f})[t := s.tables[f]])
    case Open(n) => s.(tables := s.tables[n := s.tables[n].(handles := s.tables[n].handles + 1)])
    case Close(n) => s.(tables := s.tables[n := s.tables[n].(handles := s.tables[n].handles - 1)])
    case BeginCheck(n) => s.(tables := s.tables[n := s.tables[n].(checks := s.tables[n].checks + 1)])
    case EndCheck(n) => s.(tables := s.tables[n := s.tables[n].(checks := s.tables[n].checks - 1)])
    case ClientDrop(n) => AskedDrop(s, n)
    case MasterTake => if s.queue == [] then s else s.(master := Taken(s.queue[0]))
    case MasterLookUp =>
      var e := s.master.drop;
      if e.name !in s.tables then s.(master := Removing(e)) else s.(master := Found(e, s.tables[e.name].id))
    case MasterRead(h, c) => if h > 0 || c > 0 then s.(master := Idle) else s.(master := Dropping(s.master.drop))
    case MasterDrop => Drop(s, s.master.drop.name).0.(master := Removing(s.master.drop))
    case MasterRemove => s.(queue := Without(s.queue, s.master.drop.address), master := Idle)
  }

  // ----- what every step keeps

  /** The entries the master thread has still to act on: it removes the first one when it is done with it. */
  function Live(s: State): seq<Entry> {
    if s.master.Removing? && s.queue != [] then s.queue[1..] else s.queue
  }

  ghost predicate Queued(queue: seq<Entry>, name: Name) {
    exists e :: e in queue && e.name == name
  }

  ghost predicate Addresses(queue: seq<Entry>, next: nat) {
    && (forall i :: 0 <= i < |queue| ==> queue[i].address < next)
    && (forall i, j :: 0 <= i < j < |queue| ==> queue[i].address != queue[j].address)
  }

  /** The entry the master thread works on is the first of the list. */
  ghost predicate MasterEntryFirst(s: State) {
    !s.master.Idle? ==> s.queue != [] && s.queue[0] == s.master.drop
  }

  /** No two tables share an identity, and none that was ever given will be given again. */
  ghost predicate Identities(s: State) {
    && (forall n :: n in s.tables ==> s.tables[n].id < s.nextId)
    && (forall m, n :: m in s.tables && n in s.tables && s.tables[m].id == s.tables[n].id ==> m == n)
    && forall id :: id in s.accepted ==> id < s.nextId
  }

  ghost predicate WellFormed(s: State) {
    Addresses(s.queue, s.nextAddress) && MasterEntryFirst(s) && Identities(s)
  }

  const INITIAL := State(map[], [], 0, 0, Idle, {})

  lemma StepKeepsAddresses(s: State, a: Action)
    requires Addresses(s.queue, s.nextAddress) && MasterEntryFirst(s) && Enabled(s, a)
    ensures Addresses(Next(s, a).queue, Next(s, a).nextAddress)
  {
    if a == MasterRemove {
      assert Next(s, a).queue == s.queue[1..];
    }
  }

  lemma StepKeepsFirst(s: State, a: Action)
    requires MasterEntryFirst(s) && Enabled(s, a)
    ensures MasterEntryFirst(Next(s, a))
  {
  }

  lemma StepKeepsIdentities(s: State, a: Action)
    requires Identities(s) && Enabled(s, a)
    ensures Identities(Next(s, a))
  {
    match a
    case Rename(_, _) =>
    case ClientDrop(_) =>
    case MasterDrop =>
    case _ =>
  }

  lemma StepKeepsWellFormed(s: State, a: Action)
    requires WellFormed(s) && Enabled(s, a)
    ensures WellFormed(Next(s, a))
  {
    hide Addresses, MasterEntryFirst, Identities, Next, Enabled;
    StepKeepsAddresses(s, a);
    StepKeepsFirst(s, a);
    StepKeepsIdentities(s, a);
  }

  // ----- an accepted drop is not forgotten

  /** A table whose drop was accepted is gone, or an entry the master thread has still to act on has its name. */
  ghost predicate Remembered(s: State) {
    forall n :: n in s.tables && s.tables[n].id in s.accepted ==> Queued(Live(s), n)
  }

  ghost predicate Invariant(s: State) {
    WellFormed(s) && Remembered(s)
  }

  /** A table whose drop was accepted is renamed away from its queue entry. */
  ghost predicate LosesDrop(s: State, a: Action)
    requires Enabled(s, a)
  {
    a.Rename? && s.tables[a.from].id in s.accepted && !Queued(Live(s), a.to)
  }

  lemma QueuedMore(queue: seq<Entry>, e: Entry, name: Name)
    ensures Queued(queue + [e], name) <==> Queued(queue, name) || e.name == name
  {
    if Queued(queue, name) {
      var d :| d in queue && d.name == name;
      assert d in queue + [e];
    }
    assert e in queue + [e];
  }

  lemma QueuedTail(queue: seq<Entry>, name: Name)
    requires queue != []
    ensures Queued(queue, name) <==> queue[0].name == name || Queued(queue[1..], name)
  {
    assert queue == [queue[0]] + queue[1..];
    if Queued(queue[1..], name) {
      var d :| d in queue[1..] && d.name == name;
      assert d in queue;
    }
  }

  /** What a drop, by a client or by the master thread, does to the names that are queued. */
  lemma DropQueues(s: State, name: Name, n: Name)
    requires WellFormed(s)
    ensures var t := Drop(s, name).0;
      Queued(Live(t), n) <==> Queued(Live(s), n) || (n == name && name in s.tables && s.tables[name].InUse())
  {
    if name in s.tables && s.tables[name].InUse() {
      var e := Entry(s.nextAddress, name);
      assert s.queue != [] ==> (s.queue + [e])[1..] == s.queue[1..] + [e];
      QueuedMore(Live(s), e, n);
    }
  }

  /** The master thread's own drop: an entry it has put off again is another one than the one it removes next. */
  lemma MasterDropRemembers(s: State)
    requires Invariant(s) && s.master.Dropping?
    ensures Invariant(Next(s, MasterDrop))
  {
    StepKeepsWellFormed(s, MasterDrop);
    var name := s.master.drop.name;
    var t, t' := Drop(s, name).0, Next(s, MasterDrop);
    forall n | n in t'.tables && t'.tables[n].id in t'.accepted ensures Queued(Live(t'), n) {
      DropQueues(s, name, n);
      QueuedTail(t.queue, n);
      if n == name {
        var e := t.queue[|t.queue| - 1];
        assert e == t.queue[1..][|t.queue| - 2] && e.name == name;
      }
    }
  }

  /** Every step of every thread keeps the invariant, except for a rename that leaves a queue entry behind. */
  lemma StepKeepsInvariantIff(s: State, a: Action)
    requires Invariant(s) && Enabled(s, a)
    ensures Invariant(Next(s, a)) <==> !LosesDrop(s, a)
  {
    StepKeepsWellFormed(s, a);
    var t := Next(s, a);
    match a
    case ClientDrop(name) =>
      forall n | n in t.tables && t.tables[n].id in t.accepted ensures Queued(Live(t), n) {
        DropQueues(s, name, n);
      }
    case MasterDrop => MasterDropRemembers(s);
    case MasterLookUp =>
      forall n | n in t.tables ensures Queued(Live(t), n) <==> Queued(Live(s), n) {
        QueuedTail(s.queue, n);
      }
    case MasterRemove =>
      assert t.queue == s.queue[1..];
    case Rename(f, to) =>
      assert to in t.tables && t.tables[to].id == s.tables[f].id;
    case _ =>
  }

  /** A table disappears only while nobody uses it. */
  lemma NoTableInUseDisappears(s: State, a: Action, n: Name)
    requires Enabled(s, a) && n in s.tables && s.tables[n].InUse()
    ensures exists m :: m in Next(s, a).tables && Next(s, a).tables[m].id == s.tables[n].id
  {
    var t := Next(s, a);
    match a
    case Rename(f, to) =>
      assert (if n == f then to else n) in t.tables;
    case _ =>
      assert n in t.tables && t.tables[n].id == s.tables[n].id;
  }

  // ----- whole runs

  ghost predicate Possible(s: State, run: seq<Action>)
    decreases |run|
  {
    run == [] || (Enabled(s, run[0]) && Possible(Next(s, run[0]), run[1..]))
  }

  ghost function After(s: State, run: seq<Action>): State
    requires Possible(s, run)
    decreases |run|
  {
    if run == [] then s else After(Next(s, run[0]), run[1..])
  }

  lemma Unroll(s: State, rest: seq<Action>, a: Action)
    ensures Possible(s, [a] + rest) <==> Enabled(s, a) && Possible(Next(s, a), rest)
    ensures Possible(s, [a] + rest) ==> After(s, [a] + rest) == After(Next(s, a), rest)
  {
    assert ([a] + rest)[1..] == rest;
  }

  lemma Prepend(s: State, a: Action, t: State, rest: seq<Action>) returns (run: seq<Action>)
    requires Enabled(s, a) && Next(s, a) == t && Possible(t, rest)
    ensures run == [a] + rest && Possible(s, run) && After(s, run) == After(t, rest)
  {
    run := [a] + rest;
    Unroll(s, rest, a);
  }

  /** No step of the run renames a table away from the entry that stands for its drop. */
  ghost predicate NeverLosesDrop(s: State, run: seq<Action>)
    requires Possible(s, run)
    decreases |run|
  {
    run == [] || (!LosesDrop(s, run[0]) && NeverLosesDrop(Next(s, run[0]), run[1..]))
  }

  ghost predicate AlwaysRemembers(s: State, run: seq<Action>)
    requires Possible(s, run)
    decreases |run|
  {
    Remembered(s) && (run == [] || AlwaysRemembers(Next(s, run[0]), run[1..]))
  }

  /** In every interleaving, accepted drops are remembered all along iff no table is renamed away from its entry. */
  lemma {:induction false} RunRemembersIff(s: State, run: seq<Action>)
    requires Invariant(s) && Possible(s, run)
    ensures AlwaysRemembers(s, run) <==> NeverLosesDrop(s, run)
    ensures NeverLosesDrop(s, run) ==> Invariant(After(s, run))
    decreases |run|
  {
    if run != [] {
      var t := Next(s, run[0]);
      StepKeepsWellFormed(s, run[0]);
      StepKeepsInvariantIff(s, run[0]);
      if Invariant(t) {
        RunRemembersIff(t, run[1..]);
      } else {
        assert !Remembered(t);
      }
    }
  }

  /** In every interleaving without such a rename, a table whose drop was accepted, known by its identity, is gone or
      queued under its name. */
  lemma AcceptedDropIsRemembered(run: seq<Action>, id: nat)
    requires Possible(INITIAL, run) && NeverLosesDrop(INITIAL, run) && id in After(INITIAL, run).accepted
    ensures var s := After(INITIAL, run);
      forall n :: n in s.tables && s.tables[n].id == id ==> Queued(s.queue, n)
  {
    RunRemembersIff(INITIAL, run);
    var s := After(INITIAL, run);
    forall n | n in s.tables && s.tables[n].id == id ensures Queued(s.queue, n) {
      assert Queued(Live(s), n);
      if s.master.Removing? {
        QueuedTail(s.queue, n);
      }
    }
  }

  /** A drop that is lost: it is put off, the table is renamed, and the master thread finds no table under the name in
      the entry. */
  lemma RenamedDropIsLost() returns (run: seq<Action>)
    ensures Possible(INITIAL, run)
    ensures var s := After(INITIAL, run);
      && "u" in s.tables && s.tables["u"].id in s.accepted && s.queue == [] && s.master.Idle?
  {
    var e := Entry(0, "t");
    var s1 := State(map["t" := Table(0, 0, 0)], [], 0, 1, Idle, {});
    var s2 := State(map["t" := Table(0, 1, 0)], [], 0, 1, Idle, {});
    var s3 := State(map["t" := Table(0, 1, 0)], [e], 1, 1, Idle, {0});
    var s4 := State(map["u" := Table(0, 1, 0)], [e], 1, 1, Idle, {0});
    run := Prepend(s4.(master := Removing(e)), MasterRemove, s4.(queue := []), []);
    run := Prepend(s4.(master := Taken(e)), MasterLookUp, s4.(master := Removing(e)), run);
    run := Prepend(s4, MasterTake, s4.(master := Taken(e)), run);
    run := Prepend(s3, Rename("t", "u"), s4, run);
    run := Prepend(s2, ClientDrop("t"), s3, run);
    run := Prepend(s1, Open("t"), s2, run);
    run := Prepend(INITIAL, Create("t"), s1, run);
  }

  // ----- entries that outlive their table

  /** Every name that the master thread has still to act on and that is the name of a table stands for an accepted
      drop of this table. */
  ghost predicate Justified(s: State) {
    forall e :: e in Live(s) && e.name in s.tables ==> s.tables[e.name].id in s.accepted
  }

  /** The action makes a table whose drop nobody asked for appear under a name that still stands in the queue. */
  ghost predicate TakesQueuedName(s: State, a: Action)
    requires Enabled(s, a)
  {
    match a
    case Create(n) => Queued(Live(s), n)
    case Rename(f, t) => Queued(Live(s), t) && s.tables[f].id !in s.accepted
    case _ => false
  }

  /** Queued names stay justified exactly as long as no such table is created, or renamed, to a queued name. */
  lemma JustifiedIff(s: State, a: Action)
    requires WellFormed(s) && Enabled(s, a) && Justified(s)
    ensures Justified(Next(s, a)) <==> !TakesQueuedName(s, a)
  {
    var t := Next(s, a);
    match a
    case Create(n) =>
      if e :| e in Live(s) && e.name == n {
        assert e in Live(t) && e.name in t.tables;
      }
    case Rename(f, n) =>
      if e :| e in Live(s) && e.name == n {
        assert e in Live(t) && e.name in t.tables;
      }
    case MasterRemove =>
      assert t.queue == s.queue[1..];
    case MasterDrop =>
      assert s.master.drop in Live(s);
    case _ =>
  }

  /** The master thread is about to drop a table whose drop nobody asked for. */
  ghost predicate DropsUnaccepted(s: State) {
    && s.master.Dropping? && s.master.drop.name in s.tables
    && !s.tables[s.master.drop.name].InUse() && s.tables[s.master.drop.name].id !in s.accepted
  }

  /** While queued names are justified, the master thread drops only tables whose drop was accepted. */
  lemma MasterDropsOnlyAccepted(s: State, n: Name)
    requires WellFormed(s) && Justified(s) && s.master.Dropping? && n in s.tables && n !in Next(s, MasterDrop).tables
    ensures s.tables[n].id in s.accepted
  {
    assert s.master.drop in Live(s) && n == s.master.drop.name;
  }

  lemma NothingUnacceptedNext(s: State)
    requires WellFormed(s) && Justified(s)
    ensures !DropsUnaccepted(s)
  {
    if s.master.Dropping? {
      assert s.master.drop in Live(s);
    }
  }

  ghost predicate NeverTakesQueuedName(s: State, run: seq<Action>)
    requires Possible(s, run)
    decreases |run|
  {
    run == [] || (!TakesQueuedName(s, run[0]) && NeverTakesQueuedName(Next(s, run[0]), run[1..]))
  }

  lemma {:induction false} RunStaysJustified(s: State, run: seq<Action>)
    requires WellFormed(s) && Possible(s, run) && Justified(s) && NeverTakesQueuedName(s, run)
    ensures WellFormed(After(s, run)) && Justified(After(s, run))
    decreases |run|
  {
    if run != [] {
      StepKeepsWellFormed(s, run[0]);
      JustifiedIff(s, run[0]);
      RunStaysJustified(Next(s, run[0]), run[1..]);
    }
  }

  /** How far the master thread is with its entry. */
  function StepsLeft(m: Master): nat {
    match m
    case Idle => 4
    case Taken(_) => 3
    case Found(_, _) => 2
    case Dropping(_) => 1
    case Removing(_) => 0
  }

  function UseOf(s: State): nat {
    if !s.master.Idle? && s.master.drop.name in s.tables then
      s.tables[s.master.drop.name].handles + s.tables[s.master.drop.name].checks
    else 0
  }

  predicate UsedNow(s: State, name: Name) {
    name in s.tables && s.tables[name].InUse()
  }

  function LetGo(s: State, name: Name): Action
    requires UsedNow(s, name)
  {
    if s.tables[name].handles > 0 then Close(name) else EndCheck(name)
  }

  /** What happens next when nobody but the master thread starts anything new, and its table is let go. */
  function Quiet(s: State): Action {
    match s.master
    case Idle => MasterTake
    case Taken(_) => MasterLookUp
    case Found(drop, _) => if UsedNow(s, drop.name) then LetGo(s, drop.name) else MasterRead(0, 0)
    case Dropping(drop) => if UsedNow(s, drop.name) then LetGo(s, drop.name) else MasterDrop
    case Removing(_) => MasterRemove
  }

  /** In a quiet step the master thread gets on. */
  lemma QuietStepProgresses(s: State)
    requires MasterEntryFirst(s) && s.queue != []
    ensures Enabled(s, Quiet(s)) && !TakesQueuedName(s, Quiet(s))
    ensures var t := Next(s, Quiet(s));
      DropsUnaccepted(s)
      || |t.queue| < |s.queue|
      || (|t.queue| == |s.queue| && StepsLeft(t.master) < StepsLeft(s.master))
      || (|t.queue| == |s.queue| && StepsLeft(t.master) == StepsLeft(s.master) && UseOf(t) < UseOf(s))
  {
  }

  ghost predicate Unjustified(s: State, e: Entry) {
    e in Live(s) && e.name in s.tables && s.tables[e.name].id !in s.accepted
  }

  /** A quiet step leaves an unjustified entry unjustified. */
  lemma QuietStepUnjustified(s: State, e: Entry)
    requires MasterEntryFirst(s) && Unjustified(s, e) && !DropsUnaccepted(s)
    ensures Enabled(s, Quiet(s)) && Unjustified(Next(s, Quiet(s)), e)
  {
    var t := Next(s, Quiet(s));
    assert s.queue == [s.queue[0]] + s.queue[1..];
    match s.master
    case Idle =>
    case Taken(_) =>
    case Found(_, _) =>
    case Dropping(_) =>
    case Removing(_) => assert t.queue == s.queue[1..];
  }

  /** From every state with an unjustified entry some run, in which no queued name is taken, makes the master thread
      drop a table whose drop nobody asked for. */
  lemma {:induction false} UnjustifiedDropsUnaccepted(s: State) returns (run: seq<Action>)
    requires WellFormed(s) && exists e :: Unjustified(s, e)
    ensures Possible(s, run) && NeverTakesQueuedName(s, run) && DropsUnaccepted(After(s, run))
    decreases |s.queue|, StepsLeft(s.master), UseOf(s)
  {
    run := [];
    if !DropsUnaccepted(s) {
      var a := Quiet(s);
      QuietStepProgresses(s);
      var e :| Unjustified(s, e);
      QuietStepUnjustified(s, e);
      StepKeepsWellFormed(s, a);
      var rest := UnjustifiedDropsUnaccepted(Next(s, a));
      run := Prepend(s, a, Next(s, a), rest);
      assert run[0] == a && run[1..] == rest;
    }
  }

  ghost predicate SafeIn(s: State, run: seq<Action>) {
    Possible(s, run) && NeverTakesQueuedName(s, run) ==> !DropsUnaccepted(After(s, run))
  }

  /** Queued names are justified iff, as long as no queued name is taken, only tables whose drop was accepted are
      dropped. */
  lemma JustifiedMeans(s: State)
    requires WellFormed(s)
    ensures Justified(s) <==> forall run :: SafeIn(s, run)
  {
    if Justified(s) {
      forall run ensures SafeIn(s, run) {
        if Possible(s, run) && NeverTakesQueuedName(s, run) {
          RunStaysJustified(s, run);
          NothingUnacceptedNext(After(s, run));
        }
      }
    } else {
      var e :| e in Live(s) && e.name in s.tables && s.tables[e.name].id !in s.accepted;
      assert Unjustified(s, e);
      var run := UnjustifiedDropsUnaccepted(s);
      assert !SafeIn(s, run);
    }
  }

  /** A run that leads to such an entry: a drop is put off, a second drop succeeds at once, the name is used again, and
      the entry is still in the list. */
  lemma StaleEntryDropsNewTable() returns (run: seq<Action>)
    ensures Possible(INITIAL, run) && DropsUnaccepted(After(INITIAL, run))
  {
    var e := Entry(0, "t");
    var s1 := State(map["t" := Table(0, 0, 0)], [], 0, 1, Idle, {});
    var s2 := State(map["t" := Table(0, 1, 0)], [], 0, 1, Idle, {});
    var s3 := State(map["t" := Table(0, 1, 0)], [e], 1, 1, Idle, {0});
    var s4 := State(map["t" := Table(0, 0, 0)], [e], 1, 1, Idle, {0});
    var s5 := State(map[], [e], 1, 1, Idle, {0});
    var s6 := State(map["t" := Table(1, 0, 0)], [e], 1, 2, Idle, {0});
    run := UnjustifiedDropsUnaccepted(s6) by {
      assert Unjustified(s6, e);
    }
    run := Prepend(s5, Create("t"), s6, run);
    run := Prepend(s4, ClientDrop("t"), s5, run);
    run := Prepend(s3, Close("t"), s4, run);
    run := Prepend(s2, ClientDrop("t"), s3, run);
    run := Prepend(s1, Open("t"), s2, run);
    run := Prepend(INITIAL, Create("t"), s1, run);
  }

  // ----- the critical sections themselves

  /** The dictionary cache, row_mysql_drop_list and the master thread's place, changed in place. */
  class Server {
    var tables: map<Name, Table>
    var queue: seq<Entry>
    var nextAddress: nat
    var nextId: nat
    var master: Master
    ghost var accepted: set<nat>

    constructor ()
      ensures View() == INITIAL
    {
      tables, queue, nextAddress, nextId, master, accepted := map[], [], 0, 0, Idle, {};
    }

    ghost function View(): State
      reads this
    {
      State(tables, queue, nextAddress, nextId, master, accepted)
    }

    /** row_add_table_to_background_drop_list. */
    method AddTableToBackgroundDropList(name: Name)
      modifies this`queue, this`nextAddress
      ensures View() == old(View()).(queue := old(queue) + [Entry(old(nextAddress), name)], nextAddress := old(nextAddress) + 1)
    {
      var drop := Entry(nextAddress, name);
      nextAddress := nextAddress + 1;
      queue := queue + [drop];
    }

    /** row_drop_table_for_mysql, while the dictionary mutex is held, `asked` for by a client or repeated by the master
        thread. */
    method DropTable(name: Name, ghost asked: bool) returns (err: Error)
      modifies this
      ensures View() == if asked then AskedDrop(old(View()), name) else Drop(old(View()), name).0
      ensures err == Drop(old(View()), name).1
      ensures err == TableNotFound <==> name !in old(tables)
      ensures err == Success ==> name !in tables || (Queued(queue, name) && tables == old(tables))
    {
      if name !in tables {
        return TableNotFound;
      }
      var table := tables[name];
      if asked {
        accepted := accepted + {table.id};
      }
      if table.handles > 0 {
        AddTableToBackgroundDropList(name);
        assert queue[|queue| - 1].name == name && queue[|queue| - 1] in queue;
        return Success;
      }
      if table.checks > 0 {
        AddTableToBackgroundDropList(name);
        assert queue[|queue| - 1].name == name && queue[|queue| - 1] in queue;
        return Success;
      }
      tables := tables - {name};
      err := Success;
    }

    /** One critical section of row_drop_tables_for_mysql_in_background. `handles` and `checks` are what a read of
        the table's counters gives when the table is no longer where it was found. */
    method MasterSection(handles: nat, checks: nat) returns (ghost a: Action)
      modifies this
      ensures Enabled(old(View()), a) && View() == Next(old(View()), a)
      ensures Invariant(old(View())) ==> Invariant(View())
    {
      ghost var before := View();
      match master {
        case Idle =>
          a := MasterTake;
          if queue != [] {
            master := Taken(queue[0]);
          }
        case Taken(drop) =>
          a := MasterLookUp;
          master := if drop.name !in tables then Removing(drop) else Found(drop, tables[drop.name].id);
        case Found(drop, id) =>
          var h, c := handles, checks;
          if drop.name in tables && tables[drop.name].id == id {
            h, c := tables[drop.name].handles, tables[drop.name].checks;
          }
          a := MasterRead(h, c);
          master := if h > 0 || c > 0 then Idle else Dropping(drop);
        case Dropping(drop) =>
          a := MasterDrop;
          var err := DropTable(drop.name, false);
          master := Removing(drop);
        case Removing(drop) =>
          a := MasterRemove;
          Remove(drop.address);
          master := Idle;
      }
      if Invariant(before) {
        StepKeepsInvariantIff(before, a);
      }
    }

    /** UT_LIST_REMOVE: the entry at an address. */
    method Remove(address: nat)
      modifies this`queue
      ensures queue == Without(old(queue), address)
    {
      var i := 0;
      assert old(queue)[..0] == [];
      while i < |queue| && queue[i].address != address
        invariant i <= |queue| && queue == old(queue)
        invariant Without(queue, address) == queue[..i] + Without(queue[i..], address)
      {
        assert queue[i..] == [queue[i]] + queue[i + 1..];
        assert queue[..i + 1] == queue[..i] + [queue[i]];
        i := i + 1;
      }
      if i < |queue| {
        assert queue[i..][1..] == queue[i + 1..];
        queue := queue[..i] + queue[i + 1..];
      } else {
        assert queue[i..] == [] && queue[..i] == queue;
      }
    }
  }
}
