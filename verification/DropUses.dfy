/** The counters of a table in the drop queue machine say who uses it. */
module DropUses {
  import opened DropQueue

  datatype Use = Opens | Closes | Begins | Ends

  /** Does the action concern the table of this identity in this way? */
  ghost predicate IsUse(s: State, a: Action, id: nat, use: Use) {
    match a
    case Open(n) => use.Opens? && n in s.tables && s.tables[n].id == id
    case Close(n) => use.Closes? && n in s.tables && s.tables[n].id == id
    case BeginCheck(n) => use.Begins? && n in s.tables && s.tables[n].id == id
    case EndCheck(n) => use.Ends? && n in s.tables && s.tables[n].id == id
    case _ => false
  }

  ghost function One(b: bool): nat {
    if b then 1 else 0
  }

  /** How many steps of a run use the table in this way. */
  ghost function Uses(s: State, run: seq<Action>, id: nat, use: Use): nat
    requires Possible(s, run)
    decreases |run|
  {
    if run == [] then 0 else One(IsUse(s, run[0], id, use)) + Uses(Next(s, run[0]), run[1..], id, use)
  }

  /** The counters of the table of this identity; a table that is not there counts as unused. */
  ghost predicate Counters(s: State, id: nat, handles: int, checks: int) {
    && (forall n :: n in s.tables && s.tables[n].id == id ==> s.tables[n].handles == handles && s.tables[n].checks == checks)
    && ((forall n :: n in s.tables ==> s.tables[n].id != id) ==> handles == 0 && checks == 0)
  }

  lemma DropCounts(s: State, name: Name, id: nat, handles: int, checks: int)
    requires Counters(s, id, handles, checks) && Identities(s)
    ensures Counters(Drop(s, name).0, id, handles, checks)
  {
    var t := Drop(s, name).0;
    if forall n :: n in t.tables ==> t.tables[n].id != id {
      if name in s.tables && s.tables[name].id == id {
        assert handles == s.tables[name].handles && checks == s.tables[name].checks;
      } else {
        assert forall n :: n in s.tables ==> n in t.tables || n == name;
      }
    }
  }

  lemma UseCounts(s: State, a: Action, id: nat, handles: int, checks: int)
    requires Counters(s, id, handles, checks) && Identities(s) && Enabled(s, a)
    requires a.Open? || a.Close? || a.BeginCheck? || a.EndCheck?
    ensures Counters(Next(s, a), id, handles + One(IsUse(s, a, id, Opens)) - One(IsUse(s, a, id, Closes)),
                     checks + One(IsUse(s, a, id, Begins)) - One(IsUse(s, a, id, Ends)))
  {
    var t := Next(s, a);
    assert forall n :: n in t.tables <==> n in s.tables;
    assert forall n :: n in t.tables ==> t.tables[n].id == s.tables[n].id;
  }

  lemma MoveCounts(s: State, a: Action, id: nat, handles: int, checks: int)
    requires Counters(s, id, handles, checks) && Identities(s) && Enabled(s, a) && (a.Create? || a.Rename?)
    ensures Counters(Next(s, a), id, handles, checks)
  {
    var t := Next(s, a);
    match a
    case Create(name) =>
      assert name in t.tables && t.tables[name].id == s.nextId;
      assert forall n :: n in s.tables ==> n in t.tables && t.tables[n] == s.tables[n];
    case Rename(f, to) =>
      assert to in t.tables && t.tables[to] == s.tables[f];
      assert forall n :: n in s.tables && n != f ==> n in t.tables && t.tables[n] == s.tables[n];
  }

  lemma StepCounts(s: State, a: Action, id: nat, handles: int, checks: int)
    requires Counters(s, id, handles, checks) && Identities(s) && Enabled(s, a)
    ensures Counters(Next(s, a), id, handles + One(IsUse(s, a, id, Opens)) - One(IsUse(s, a, id, Closes)),
                     checks + One(IsUse(s, a, id, Begins)) - One(IsUse(s, a, id, Ends)))
  {
    if a.Open? || a.Close? || a.BeginCheck? || a.EndCheck? {
      UseCounts(s, a, id, handles, checks);
    } else if a.Create? || a.Rename? {
      MoveCounts(s, a, id, handles, checks);
    } else if a.ClientDrop? {
      DropCounts(s, a.name, id, handles, checks);
    } else if a.MasterDrop? {
      DropCounts(s, s.master.drop.name, id, handles, checks);
    }
  }

  lemma {:induction false} RunCounts(s: State, run: seq<Action>, id: nat, handles: int, checks: int)
    requires Counters(s, id, handles, checks) && WellFormed(s) && Possible(s, run)
    ensures Counters(After(s, run), id, handles + Uses(s, run, id, Opens) - Uses(s, run, id, Closes),
                     checks + Uses(s, run, id, Begins) - Uses(s, run, id, Ends))
    decreases |run|
  {
    hide Counters, IsUse, Next, Enabled;
    if run != [] {
      StepCounts(s, run[0], id, handles, checks);
      StepKeepsWellFormed(s, run[0]);
      RunCounts(Next(s, run[0]), run[1..], id, handles + One(IsUse(s, run[0], id, Opens)) - One(IsUse(s, run[0], id, Closes)),
                checks + One(IsUse(s, run[0], id, Begins)) - One(IsUse(s, run[0], id, Ends)));
    }
  }

  /** In every run, whatever it is renamed to and whoever else comes and goes: a table has as many open handles as it was
      opened more often than closed, and as many running checks as were begun and not ended. A table that is gone was
      closed as often as it was opened, and all its checks had ended. */
  lemma CountersAreDifferences(run: seq<Action>, id: nat)
    requires Possible(INITIAL, run)
    ensures var t := After(INITIAL, run);
      && (forall n :: n in t.tables && t.tables[n].id == id ==>
            && t.tables[n].handles == Uses(INITIAL, run, id, Opens) - Uses(INITIAL, run, id, Closes)
            && t.tables[n].checks == Uses(INITIAL, run, id, Begins) - Uses(INITIAL, run, id, Ends))
      && ((forall n :: n in t.tables ==> t.tables[n].id != id) ==>
            && Uses(INITIAL, run, id, Opens) == Uses(INITIAL, run, id, Closes)
            && Uses(INITIAL, run, id, Begins) == Uses(INITIAL, run, id, Ends))
  {
    RunCounts(INITIAL, run, id, 0, 0);
  }

  /** One pass of the master thread over the first entry: what it reads without the mutex is what is there. */
  lemma MasterPass(s: State) returns (run: seq<Action>)
    requires WellFormed(s) && s.master.Idle? && s.queue != []
    ensures Possible(s, run)
    ensures var name := s.queue[0].name;
      if name in s.tables && s.tables[name].InUse() then After(s, run) == s
      else After(s, run) == s.(tables := s.tables - {name}, queue := s.queue[1..])
  {
    var e := s.queue[0];
    var taken := Next(s, MasterTake);
    var looked := Next(taken, MasterLookUp);
    if e.name !in s.tables {
      var gone := Next(looked, MasterRemove);
      assert gone == s.(tables := s.tables - {e.name}, queue := s.queue[1..]);
      run := Prepend(looked, MasterRemove, gone, []);
    } else {
      var read := MasterRead(s.tables[e.name].handles, s.tables[e.name].checks);
      var seen := Next(looked, read);
      if s.tables[e.name].InUse() {
        run := Prepend(looked, read, seen, []);
      } else {
        var dropped := Next(seen, MasterDrop);
        run := Prepend(dropped, MasterRemove, Next(dropped, MasterRemove), []);
        run := Prepend(seen, MasterDrop, dropped, run);
        run := Prepend(looked, read, seen, run);
      }
    }
    run := Prepend(taken, MasterLookUp, looked, run);
    run := Prepend(s, MasterTake, taken, run);
  }
}
