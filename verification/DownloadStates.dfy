/**
  The life of a row: what each step does to it, when it is taken up, and that a download
  which went through, or was given up, is never tried again.
 */
module DownloadStates {
  import opened Text
  import opened Downloads
  import opened DownloadRuns

  // ----- one step -----

  /** The step is about the row that the thread has in work. */
  predicate On(s: System, i: nat) { Active(s.pc) && s.pc.i == i }

  /** The transfer of row i comes to its end: well, or badly; outside rest a failure goes on record. */
  predicate EndsWith(s: System, a: Action, i: nat, ok: bool) {
    a.Finish? && s.pc.Done? && s.pc.i == i && s.pc.ok == ok
  }

  predicate Recorded(s: System, a: Action, i: nat) { EndsWith(s, a, i, false) && !s.rest }

  predicate Settles(s: System, a: Action, i: nat) { EndsWith(s, a, i, true) || Recorded(s, a, i) }

  predicate Begins(s: System, a: Action, i: nat) { a.Mark? && s.pc.Chosen? && s.pc.i == i }

  /** How the state of row i is entered and left. */
  ghost predicate StateTable(s: System, a: Action, i: nat, r: Row, r': Row) {
    && (r'.state.Success? <==> r.state.Success? || EndsWith(s, a, i, true))
    && (r'.state.Failed? <==> Recorded(s, a, i) || (r.state.Failed? && !Begins(s, a, i)))
    && (r'.state.Pending? <==> r.state.Pending? && !Begins(s, a, i))
    && (r'.state.Downloading? <==>
        (Begins(s, a, i) && r.state.Pending?) || (r.state.Downloading? && !Begins(s, a, i) && !Settles(s, a, i)))
    && (r'.state.Resumed? <==> (Begins(s, a, i) && !r.state.Pending?) || (r.state.Resumed? && !Settles(s, a, i)))
  }

  /** What is counted: failures of resumed transfers outside rest, calls of Get, and the flag of the handler. */
  ghost predicate CountTable(s: System, a: Action, i: nat, r: Row, r': Row) {
    && r'.failed == r.failed + (if Recorded(s, a, i) && r.state.Resumed? then 1 else 0)
    && r'.gets == r.gets + (if a.CallGet? && On(s, i) then 1 else 0)
    && (r'.flagged <==> r.flagged || a == FlagRow(i))
  }

  /** A step does to a row what the two tables say and no more; only the sweep before a pass erases rows. */
  lemma StepTables(s: System, a: Action, i: nat)
    requires Invariant(s) && Enabled(s, a) && i < |s.rows| && !a.StartPass?
    ensures var s' := Next(s, a);
            i < |s'.rows| && StateTable(s, a, i, s.rows[i], s'.rows[i]) && CountTable(s, a, i, s.rows[i], s'.rows[i])
  {
    match a
    case Mark => MarkTable(s, i);
    case Finish => FinishTable(s, i);
    case OpenWorks => BytesTable(s, a, i);
    case ReadChunk(_) => BytesTable(s, a, i);
    case ForeignWrite(_, _) => BytesTable(s, a, i);
    case _ => QuietTable(s, a, i);
  }

  lemma QuietTable(s: System, a: Action, i: nat)
    requires Invariant(s) && Enabled(s, a) && i < |s.rows| && !a.StartPass? && !a.Mark? && !a.Finish?
    requires !a.OpenWorks? && !a.ReadChunk? && !a.ForeignWrite?
    ensures var s' := Next(s, a);
            i < |s'.rows| && StateTable(s, a, i, s.rows[i], s'.rows[i]) && CountTable(s, a, i, s.rows[i], s'.rows[i])
  {
  }

  lemma MarkTable(s: System, i: nat)
    requires Invariant(s) && Enabled(s, Mark) && i < |s.rows|
    ensures var s' := Next(s, Mark);
            StateTable(s, Mark, i, s.rows[i], s'.rows[i]) && CountTable(s, Mark, i, s.rows[i], s'.rows[i])
  {
  }

  lemma FinishTable(s: System, i: nat)
    requires Invariant(s) && Enabled(s, Finish) && i < |s.rows|
    ensures var s' := Next(s, Finish);
            StateTable(s, Finish, i, s.rows[i], s'.rows[i]) && CountTable(s, Finish, i, s.rows[i], s'.rows[i])
  {
  }

  lemma BytesTable(s: System, a: Action, i: nat)
    requires Invariant(s) && Enabled(s, a) && i < |s.rows| && (a.OpenWorks? || a.ReadChunk? || a.ForeignWrite?)
    ensures var s' := Next(s, a);
            i < |s'.rows| && StateTable(s, a, i, s.rows[i], s'.rows[i]) && CountTable(s, a, i, s.rows[i], s'.rows[i])
  {
  }

  /** A row that the thread comes to, with a client at hand, is taken up exactly in these states. */
  lemma TakenUpIff(s: System, acquired: bool)
    requires s.pc.Scan? && s.pc.i < |s.rows|
    ensures var r, pc := s.rows[s.pc.i], Next(s, ScanRow(acquired)).pc;
            if acquired && r.state.Pending? then pc == Chosen(s.pc.i, false)
            else if acquired && (r.state.Downloading? || (r.state.Failed? && r.failed < 5)) then
              pc == Chosen(s.pc.i, true)
            else pc == Scan(s.pc.i + 1)
  {
  }

  /** A row is finished exactly if the thread passes it over for good, though it is not stranded. */
  lemma FinishedIffPassedOver(s: System)
    requires s.pc.Scan? && s.pc.i < |s.rows|
    ensures var r := s.rows[s.pc.i];
            Terminal(r) <==> Next(s, ScanRow(true)).pc.Scan? && !r.state.Resumed?
    ensures Terminal(s.rows[s.pc.i]) <==>
              s.rows[s.pc.i].state.Success? || (s.rows[s.pc.i].state.Failed? && s.rows[s.pc.i].failed >= 5)
  {
  }

  // ----- finished for good -----

  /** The row with this id is finished, with so many calls of Get made for it, or has been erased. */
  predicate Settled(s: System, id: nat, state: RowState, gets: nat) {
    id < s.nextId &&
    forall i :: 0 <= i < |s.rows| && s.rows[i].id == id ==>
      Terminal(s.rows[i]) && s.rows[i].state == state && s.rows[i].gets == gets
  }

  lemma SettledStep(s: System, a: Action, id: nat, state: RowState, gets: nat)
    requires Invariant(s) && Enabled(s, a) && Settled(s, id, state, gets)
    ensures Settled(Next(s, a), id, state, gets) && !(a.CallGet? && s.rows[s.pc.i].id == id)
  {
    var s' := Next(s, a);
    if a.StartPass? {
      UnflaggedMembers(s.rows);
      forall i | 0 <= i < |s'.rows| && s'.rows[i].id == id
        ensures Terminal(s'.rows[i]) && s'.rows[i].state == state && s'.rows[i].gets == gets
      {
        assert s'.rows[i] in s'.rows;
      }
    } else {
      forall i | 0 <= i < |s'.rows| && s'.rows[i].id == id
        ensures Terminal(s'.rows[i]) && s'.rows[i].state == state && s'.rows[i].gets == gets
      {
        SettledRow(s, a, i, id);
      }
    }
  }

  lemma SettledRow(s: System, a: Action, i: nat, id: nat)
    requires Invariant(s) && Enabled(s, a) && !a.StartPass? && id < s.nextId
    requires i < |Next(s, a).rows| && Next(s, a).rows[i].id == id
    ensures i < |s.rows| && s.rows[i].id == id
    ensures var r, r' := s.rows[i], Next(s, a).rows[i];
            Terminal(r) ==> Terminal(r') && r'.state == r.state && r'.gets == r.gets
  {
    if i < |s.rows| {
      RowsEvolve(s, a, i);
      StepTables(s, a, i);
    }
  }

  /** A call of Get for the row with this id happens in the run. */
  ghost predicate GetsAgain(s: System, run: seq<Action>, id: nat)
    requires Legal(s, run)
    decreases |run|
  {
    run != [] &&
    ((run[0].CallGet? && s.rows[s.pc.i].id == id) || GetsAgain(Next(s, run[0]), run[1..], id))
  }

  lemma {:induction false} SettledForever(s: System, run: seq<Action>, id: nat, state: RowState, gets: nat)
    requires Invariant(s) && Legal(s, run) && Settled(s, id, state, gets)
    ensures Settled(After(s, run), id, state, gets) && !GetsAgain(s, run, id)
    decreases |run|
  {
    if run != [] {
      StepKeeps(s, run[0]);
      SettledStep(s, run[0], id, state, gets);
      SettledForever(Next(s, run[0]), run[1..], id, state, gets);
    }
  }

  /**
    A transfer that went through is recorded as such, and no continuation calls Get for its
    row again.
   */
  lemma SuccessIsFinal(s: System, run: seq<Action>)
    requires Invariant(s) && Enabled(s, Finish) && Legal(Next(s, Finish), run)
    ensures Next(s, Finish).rows[s.pc.i].state.Success? <==> s.pc.ok
    ensures s.pc.ok ==>
              var r := s.rows[s.pc.i];
              Settled(After(Next(s, Finish), run), r.id, Success, r.gets) && !GetsAgain(Next(s, Finish), run, r.id)
  {
    StepKeeps(s, Finish);
    FinishTable(s, s.pc.i);
    if s.pc.ok {
      var r, s' := s.rows[s.pc.i], Next(s, Finish);
      assert Settled(s', r.id, Success, r.gets);
      SettledForever(s', run, r.id, Success, r.gets);
    }
  }

  /** So is one that was given up: after the fifth failure of a resumed transfer there is no further try. */
  lemma GivenUpIsFinal(s: System, run: seq<Action>)
    requires Invariant(s) && Enabled(s, Finish) && Legal(Next(s, Finish), run)
    requires !s.pc.ok && !s.rest && s.pc.resume && s.rows[s.pc.i].failed == 4
    ensures var r := s.rows[s.pc.i];
            Settled(After(Next(s, Finish), run), r.id, Failed, r.gets) && !GetsAgain(Next(s, Finish), run, r.id)
  {
    StepKeeps(s, Finish);
    var r, s' := s.rows[s.pc.i], Next(s, Finish);
    assert Settled(s', r.id, Failed, r.gets);
    SettledForever(s', run, r.id, Failed, r.gets);
  }

  // ----- the bound on the tries is attained -----

  /** Row v fails once more, before any byte has come. */
  lemma FailOnce(s: System, v: nat) returns (run: seq<Action>, e: System)
    requires Idle(s) && v < |s.rows| && (s.rows[v].state.Pending? || Resumable(s.rows[v]))
    ensures Leads(s, run, e) && Idle(e) && |e.rows| == |s.rows|
    ensures e.rows[v].state.Failed? && e.rows[v].gets == s.rows[v].gets + 1
    ensures e.rows[v].failed == s.rows[v].failed + if s.rows[v].state.Pending? then 0 else 1
  {
    var p := TakeUp(s, v);
    var m := Called(s, v);
    var q := FailsAtOnce(m);
    e := Failing(m);
    Join(s, p, m, q, e);
    run := p + q;
  }

  /** Row v fails until it is given up. */
  lemma {:induction false} FailsOften(s: System, v: nat) returns (run: seq<Action>, e: System)
    requires Idle(s) && v < |s.rows| && s.rows[v].state.Failed? && s.rows[v].failed <= 5
    ensures Leads(s, run, e) && v < |e.rows| && Terminal(e.rows[v])
    ensures e.rows[v].failed == 5 && e.rows[v].gets == s.rows[v].gets + (5 - s.rows[v].failed)
    decreases 5 - s.rows[v].failed
  {
    if s.rows[v].failed == 5 {
      run, e := [], s;
    } else {
      var p, m := FailOnce(s, v);
      var q;
      q, e := FailsOften(m, v);
      Join(s, p, m, q, e);
      run := p + q;
    }
  }

  /** From the start of the process: a download that always fails gets its six calls and is then given up. */
  lemma SixGetsAttained(remote: map<Path, string>, files: map<Path, string>, src: Path, dest: Path)
    returns (run: seq<Action>)
    ensures var s := Queued(remote, files, src, dest);
            Legal(s, run) && var e := After(s, run);
            e.rows != [] && e.rows[0].gets == 6 && e.rows[0].failed == 5 && Terminal(e.rows[0])
  {
    var s := Queued(remote, files, src, dest);
    var p, m := FailOnce(s, 0);
    var q, e := FailsOften(m, 0);
    Join(s, p, m, q, e);
    run := p + q;
  }

  // ----- a pass looks at every row -----

  /** In the run the thread comes to row i and decides whether to take it up. */
  ghost predicate LooksAt(s: System, run: seq<Action>, i: nat)
    requires Legal(s, run)
    decreases |run|
  {
    run != [] && ((run[0].ScanRow? && s.pc == Scan(i)) || LooksAt(Next(s, run[0]), run[1..], i))
  }

  /** The first row that the pass has not come to yet. */
  function Ahead(pc: Pc): nat
    requires !pc.Top?
  {
    if pc.Scan? then pc.i else pc.i + 1
  }

  ghost predicate SamePass(run: seq<Action>) { forall a :: a in run ==> !a.StartPass? }

  lemma {:induction false} TopStays(s: System, run: seq<Action>)
    requires s.pc.Top? && Legal(s, run) && SamePass(run)
    ensures After(s, run).pc.Top?
    decreases |run|
  {
    if run != [] {
      assert run[0] in run && forall a :: a in run[1..] ==> a in run;
      TopStays(Next(s, run[0]), run[1..]);
    }
  }

  lemma AheadStep(s: System, a: Action)
    requires Enabled(s, a) && !a.StartPass? && !s.pc.Top? && !Next(s, a).pc.Top?
    ensures Ahead(Next(s, a).pc) == Ahead(s.pc) || (a.ScanRow? && Ahead(Next(s, a).pc) == Ahead(s.pc) + 1)
  {
  }

  /** No row between where the pass was and where it is now has been left out. */
  lemma {:induction false} NoRowSkipped(s: System, run: seq<Action>, i: nat)
    requires Legal(s, run) && SamePass(run) && !s.pc.Top? && !After(s, run).pc.Top?
    requires Ahead(s.pc) <= i < Ahead(After(s, run).pc)
    ensures LooksAt(s, run, i)
    decreases |run|
  {
    if run != [] {
      var a, s' := run[0], Next(s, run[0]);
      assert a in run && forall b :: b in run[1..] ==> b in run;
      if s'.pc.Top? {
        TopStays(s', run[1..]);
      } else {
        AheadStep(s, a);
        if !(a.ScanRow? && s.pc == Scan(i)) {
          NoRowSkipped(s', run[1..], i);
        }
      }
    }
  }

  /** A pass that comes to its end without a failure has looked at every row of the list, old or new. */
  lemma PassIsComplete(s: System, run: seq<Action>, acquired: bool, i: nat)
    requires s.pc == Scan(0) && Legal(s, run) && SamePass(run)
    requires var e := After(s, run); e.pc.Scan? && Next(e, ScanRow(acquired)).pc.Top? && i < |e.rows|
    ensures LooksAt(s, run, i)
  {
    NoRowSkipped(s, run, i);
  }

  // ----- clearing the history -----

  function FlagUpTo(rows: seq<Row>, k: nat): (r: seq<Row>)
    requires k <= |rows|
    ensures |r| == |rows|
  {
    FlagAll(rows[..k]) + rows[k..]
  }

  lemma FlagNext(rows: seq<Row>, k: nat)
    requires k < |rows|
    ensures var f := FlagUpTo(rows, k);
            f[k] == rows[k] &&
            FlagUpTo(rows, k + 1) == if Terminal(rows[k]) then f[k := rows[k].(flagged := true)] else f
  {
    var f, g := FlagUpTo(rows, k), FlagUpTo(rows, k + 1);
    forall j | 0 <= j < |rows|
      ensures g[j] == if j == k && Terminal(rows[k]) then rows[k].(flagged := true) else f[j]
    {
    }
  }

  predicate AllFlags(run: seq<Action>) { forall a :: a in run ==> a.FlagRow? }

  /** The handler's loop is a run of flagging steps, each on a finished row; after it every finished row is flagged. */
  lemma {:induction false} ClearingIsARun(s: System, k: nat) returns (run: seq<Action>)
    requires k <= |s.rows|
    ensures AllFlags(run) && Leads(s, run, s.(rows := FlagUpTo(s.rows, k)))
  {
    if k == 0 {
      run := [];
      assert FlagUpTo(s.rows, 0) == s.rows;
    } else {
      run := ClearingIsARun(s, k - 1);
      FlagNext(s.rows, k - 1);
      if Terminal(s.rows[k - 1]) {
        AndStep(s, run, s.(rows := FlagUpTo(s.rows, k - 1)), FlagRow(k - 1));
        run := run + [FlagRow(k - 1)];
      }
    }
  }

  lemma ClearHistoryIsARun(s: System) returns (run: seq<Action>)
    ensures AllFlags(run) && Leads(s, run, s.(rows := FlagAll(s.rows)))
    ensures forall i :: 0 <= i < |s.rows| && !s.rows[i].flagged ==>
              (FlagAll(s.rows)[i].flagged <==> Terminal(s.rows[i]))
  {
    run := ClearingIsARun(s, |s.rows|);
    assert s.rows[..|s.rows|] == s.rows && FlagUpTo(s.rows, |s.rows|) == FlagAll(s.rows);
  }
}
