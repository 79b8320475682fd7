/**
  Runs of the download queue that go wrong, built step by step from the start of the
  process, and from them the exact conditions under which none does.
 */
module DownloadRuns {
  import opened Text
  import opened Downloads

  // ----- putting runs together -----

  predicate NoAppend(run: seq<Action>) { forall a :: a in run ==> !a.Append? }

  /** The run leads from s to e and queues nothing. */
  ghost predicate Leads(s: System, run: seq<Action>, e: System) {
    NoAppend(run) && Legal(s, run) && After(s, run) == e
  }

  lemma OneStep(s: System, a: Action)
    requires Enabled(s, a) && !a.Append?
    ensures Leads(s, [a], Next(s, a))
  {
    assert [a][1..] == [];
    assert Legal(Next(s, a), []);
  }

  lemma {:induction false} ThenMore(s: System, p: seq<Action>, m: System, q: seq<Action>)
    requires Leads(s, p, m) && Legal(m, q)
    ensures Legal(s, p + q) && After(s, p + q) == After(m, q) && (Exact(s, p + q) ==> Exact(m, q))
    decreases |p|
  {
    if p == [] {
      assert p + q == q;
    } else {
      assert (p + q)[0] == p[0] && (p + q)[1..] == p[1..] + q;
      assert p[0] in p && forall a :: a in p[1..] ==> a in p;
      ThenMore(Next(s, p[0]), p[1..], m, q);
    }
  }

  lemma Join(s: System, p: seq<Action>, m: System, q: seq<Action>, e: System)
    requires Leads(s, p, m) && Leads(m, q, e)
    ensures Leads(s, p + q, e)
  {
    ThenMore(s, p, m, q);
  }

  lemma AndStep(s: System, p: seq<Action>, m: System, a: Action)
    requires Leads(s, p, m) && Enabled(m, a) && !a.Append?
    ensures Leads(s, p + [a], Next(m, a))
  {
    OneStep(m, a);
    Join(s, p, m, [a], Next(m, a));
  }

  // ----- the thread takes up a row -----

  /** Between passes, with nothing to erase. */
  predicate Idle(s: System) { s.pc.Top? && !s.rest && forall i :: 0 <= i < |s.rows| ==> !s.rows[i].flagged }

  lemma {:induction false} NothingErased(rows: seq<Row>)
    requires forall i :: 0 <= i < |rows| ==> !rows[i].flagged
    ensures Unflagged(rows) == rows
  {
    if rows != [] {
      NothingErased(rows[..|rows| - 1]);
    }
  }

  /** Rows for which no client can be had are passed over. */
  lemma {:induction false} PassOver(s: System, j: nat) returns (run: seq<Action>)
    requires s.pc.Scan? && s.pc.i <= j <= |s.rows|
    ensures Leads(s, run, s.(pc := Scan(j)))
    decreases j - s.pc.i
  {
    if s.pc.i == j {
      run := [];
    } else {
      OneStep(s, ScanRow(false));
      var next := s.(pc := Scan(s.pc.i + 1));
      var more := PassOver(next, j);
      Join(s, [ScanRow(false)], next, more, s.(pc := Scan(j)));
      run := [ScanRow(false)] + more;
    }
  }

  function Offset(files: map<Path, string>, dest: Path): nat {
    if TempOf(dest) in files then |files[TempOf(dest)]| else 0
  }

  /** Row j taken up: marked, the progress pointer on it, and Get called. */
  function Called(s: System, j: nat): System
    requires j < |s.rows|
  {
    var r := s.rows[j];
    var resume := !r.state.Pending?;
    s.(rows := s.rows[j := r.(state := if resume then Resumed else Downloading, gets := r.gets + 1)],
       pc := Opening(j, resume, if resume then Offset(s.files, r.dest) else 0),
       progress := Some(r.id), failures := 0)
  }

  lemma TakeUp(s: System, j: nat) returns (run: seq<Action>)
    requires Idle(s) && j < |s.rows| && (s.rows[j].state.Pending? || Resumable(s.rows[j]))
    ensures Leads(s, run, Called(s, j))
  {
    NothingErased(s.rows);
    OneStep(s, StartPass);
    var s1 := s.(pc := Scan(0), failures := 0);
    var s2 := s1.(pc := Scan(j));
    var skip := PassOver(s1, j);
    Join(s, [StartPass], s1, skip, s2);
    AndStep(s, [StartPass] + skip, s2, ScanRow(true));
    var resume := !s.rows[j].state.Pending?;
    var s3 := s1.(pc := Chosen(j, resume));
    assert Next(s2, ScanRow(true)) == s3;
    run := MarkAndCall(s, [StartPass] + skip + [ScanRow(true)], s3);
    CalledIs(s, j);
  }

  lemma MarkAndCall(s: System, p: seq<Action>, m: System) returns (run: seq<Action>)
    requires Leads(s, p, m) && m.pc.Chosen? && m.pc.i < |m.rows|
    ensures Leads(s, run, Next(Next(m, Mark), CallGet))
  {
    AndStep(s, p, m, Mark);
    AndStep(s, p + [Mark], Next(m, Mark), CallGet);
    run := (p + [Mark]) + [CallGet];
  }

  lemma CalledIs(s: System, j: nat)
    requires j < |s.rows|
    ensures var m := s.(pc := Chosen(j, !s.rows[j].state.Pending?), failures := 0);
            Next(Next(m, Mark), CallGet) == Called(s, j)
  {
    var r := s.rows[j];
    var m := s.(pc := Chosen(j, !r.state.Pending?), failures := 0);
    var n := Next(m, Mark);
    assert n.rows[j := n.rows[j].(gets := r.gets + 1)] == Called(s, j).rows;
  }

  // ----- how a Get ends -----

  /** The row in work has failed. */
  function Failing(s: System): System
    requires Active(s.pc) && s.pc.i < |s.rows|
  {
    s.(rows := s.rows[s.pc.i := FinishRow(s.rows[s.pc.i], s.pc.resume, false, s.rest)], pc := Top,
       failures := s.failures + 1)
  }

  lemma FailsAtOnce(s: System) returns (run: seq<Action>)
    requires s.pc.Opening? && s.pc.i < |s.rows|
    ensures Leads(s, run, Failing(s))
  {
    OneStep(s, OpenFails);
    AndStep(s, [OpenFails], Next(s, OpenFails), Finish);
    run := [OpenFails] + [Finish];
  }

  /** The same but for the byte counters. */
  predicate Alike(r: Row, r': Row) { r' == r.(bytes := r'.bytes) }

  ghost predicate AllAlike(rows: seq<Row>, rows': seq<Row>) {
    |rows| == |rows'| && forall j :: 0 <= j < |rows| ==> Alike(rows[j], rows'[j])
  }

  /** A new transfer gets n bytes and then fails. */
  lemma FailsAfter(s: System, n: nat) returns (run: seq<Action>, e: System)
    requires s.pc.Opening? && s.pc.i < |s.rows| && s.pc.offset == 0 && s.rows[s.pc.i].seeks
    requires s.rows[s.pc.i].src in s.remote && 1 <= n <= |s.remote[s.rows[s.pc.i].src]|
    ensures Leads(s, run, e)
    ensures AllAlike(Failing(s).rows, e.rows) && e.pc.Top? && e.rest == s.rest && e.remote == s.remote
    ensures var r := s.rows[s.pc.i]; e.files == s.files[TempOf(r.dest) := s.remote[r.src][..n]]
  {
    var s1 := Next(s, OpenWorks);
    OneStep(s, OpenWorks);
    var s2 := Next(s1, ReadChunk(n));
    AndStep(s, [OpenWorks], s1, ReadChunk(n));
    AndStep(s, [OpenWorks] + [ReadChunk(n)], s2, ReadFails);
    var s3 := Next(s2, ReadFails);
    AndStep(s, [OpenWorks] + [ReadChunk(n)] + [ReadFails], s3, Finish);
    e := Next(s3, Finish);
    run := [OpenWorks] + [ReadChunk(n)] + [ReadFails] + [Finish];
    BytesAlike(s, n);
  }

  lemma BytesAlike(s: System, n: nat)
    requires s.pc.Opening? && s.pc.i < |s.rows| && s.pc.offset == 0 && s.rows[s.pc.i].seeks
    requires s.rows[s.pc.i].src in s.remote && 1 <= n <= |s.remote[s.rows[s.pc.i].src]|
    ensures var e := Next(Next(s, OpenWorks), ReadChunk(n));
            var r := s.rows[s.pc.i];
            AllAlike(s.rows, e.rows) && e.files == s.files[TempOf(r.dest) := s.remote[r.src][..n]]
  {
    var r, t := s.rows[s.pc.i], TempOf(s.rows[s.pc.i].dest);
    var all := s.remote[r.src];
    assert "" + all[0..n] == all[..n];
    assert s.files[t := ""][t := all[..n]] == s.files[t := all[..n]];
  }

  /** What continuing left with the bytes of all from there on gives. */
  function Continued(left: string, all: string): string {
    if |left| < |all| then left + all[|left|..] else left
  }

  lemma ContinuedIff(left: string, all: string)
    ensures Continued(left, all) == all <==> left <= all
  {
    if |left| < |all| {
      assert all == all[..|left|] + all[|left|..];
      assert (left + all[|left|..])[..|left|] == left;
    }
  }

  /** A resumed transfer that goes through to the end. */
  lemma Completes(s: System) returns (run: seq<Action>)
    requires s.pc.Opening? && s.pc.i < |s.rows| && s.rows[s.pc.i].seeks && s.rows[s.pc.i].src in s.remote
    requires var t := TempOf(s.rows[s.pc.i].dest); t in s.files && 0 < |s.files[t]| == s.pc.offset
    ensures NoAppend(run) && Legal(s, run)
    ensures var r, e := s.rows[s.pc.i], After(s, run);
            r.dest in e.files && e.files[r.dest] == Continued(s.files[TempOf(r.dest)], s.remote[r.src]) &&
            (Exact(s, run) ==> e.files[r.dest] == s.remote[r.src])
  {
    var r := s.rows[s.pc.i];
    var all, left := s.remote[r.src], s.files[TempOf(r.dest)];
    var s1 := Next(s, OpenWorks);
    OneStep(s, OpenWorks);
    if |left| < |all| {
      var n := |all| - |left|;
      assert all[|left|..|left| + n] == all[|left|..];
      var s2 := Next(s1, ReadChunk(n));
      AndStep(s, [OpenWorks], s1, ReadChunk(n));
      run := EndsWell(s, [OpenWorks] + [ReadChunk(n)], s2);
    } else {
      run := EndsWell(s, [OpenWorks], s1);
    }
  }

  lemma EndsWell(s: System, p: seq<Action>, m: System) returns (run: seq<Action>)
    requires Leads(s, p, m) && m.pc.Reading? && m.pc.i < |m.rows| && m.rows[m.pc.i].seeks
    requires m.rows[m.pc.i].src in m.remote && m.pc.pos >= |m.remote[m.rows[m.pc.i].src]|
    requires TempOf(m.rows[m.pc.i].dest) in m.files
    ensures NoAppend(run) && Legal(s, run)
    ensures var r, e := m.rows[m.pc.i], After(s, run);
            r.dest in e.files && e.files[r.dest] == m.files[TempOf(r.dest)] &&
            (Exact(s, run) ==> e.files[r.dest] == m.remote[r.src])
  {
    var r := m.rows[m.pc.i];
    var d := Next(m, ReadEnds);
    AndStep(s, p, m, ReadEnds);
    assert TempOf(r.dest)[..|r.dest|] == r.dest;
    OneStep(d, Finish);
    ThenMore(s, p + [ReadEnds], d, [Finish]);
    run := (p + [ReadEnds]) + [Finish];
    assert Exact(d, [Finish]) ==> CompletesRight(d, Finish);
  }

  // ----- one row and a file left over -----

  /** A row not yet tried, read by seeking, whose source is there. */
  predicate Waiting(s: System, v: nat) {
    v < |s.rows| && s.rows[v].state.Pending? && s.rows[v].failed == 0 && s.rows[v].seeks && s.rows[v].src in s.remote
  }

  /** A row whose first Get failed. */
  predicate FailedOnce(s: System, v: nat) {
    v < |s.rows| && s.rows[v].state.Failed? && s.rows[v].failed == 0 && s.rows[v].seeks && s.rows[v].src in s.remote
  }

  function Bytes(s: System, v: nat): string
    requires v < |s.rows| && s.rows[v].src in s.remote
  {
    s.remote[s.rows[v].src]
  }

  /** The first Get for row v fails before it makes its temporary file. */
  lemma FirstTryFails(s: System, v: nat) returns (run: seq<Action>, e: System)
    requires Idle(s) && Waiting(s, v)
    ensures Leads(s, run, e) && Idle(e) && FailedOnce(e, v) && e.remote == s.remote && e.files == s.files
    ensures |e.rows| == |s.rows| && e.rows[v].src == s.rows[v].src && e.rows[v].dest == s.rows[v].dest
    ensures forall j :: 0 <= j < |s.rows| && j != v ==> e.rows[j] == s.rows[j]
  {
    var p := TakeUp(s, v);
    var m := Called(s, v);
    var q := FailsAtOnce(m);
    e := Failing(m);
    Join(s, p, m, q, e);
    run := p + q;
  }

  /** Row v, failed before, is resumed from a file already there and goes through. */
  lemma ResumedToEnd(s: System, v: nat) returns (run: seq<Action>)
    requires Idle(s) && FailedOnce(s, v)
    requires TempOf(s.rows[v].dest) in s.files && s.files[TempOf(s.rows[v].dest)] != ""
    ensures NoAppend(run) && Legal(s, run)
    ensures var r, e := s.rows[v], After(s, run);
            r.dest in e.files && e.files[r.dest] == Continued(s.files[TempOf(r.dest)], Bytes(s, v)) &&
            (Exact(s, run) ==> e.files[r.dest] == Bytes(s, v))
  {
    var p := TakeUp(s, v);
    var m := Called(s, v);
    var q := Completes(m);
    ThenMore(s, p, m, q);
    run := p + q;
  }

  /** A file left over under the temporary name is continued. */
  lemma LeftoverContinued(s: System, v: nat) returns (run: seq<Action>)
    requires Idle(s) && Waiting(s, v)
    requires TempOf(s.rows[v].dest) in s.files && s.files[TempOf(s.rows[v].dest)] != ""
    ensures NoAppend(run) && Legal(s, run)
    ensures var r, e := s.rows[v], After(s, run);
            r.dest in e.files && e.files[r.dest] == Continued(s.files[TempOf(r.dest)], Bytes(s, v)) &&
            (Exact(s, run) ==> e.files[r.dest] == Bytes(s, v))
  {
    var p, m := FirstTryFails(s, v);
    var q := ResumedToEnd(m, v);
    ThenMore(s, p, m, q);
    run := p + q;
  }

  /** The process with one row queued. */
  function Queued(remote: map<Path, string>, files: map<Path, string>, src: Path, dest: Path): System {
    Next(Started(remote, files), Append(true, src, dest))
  }

  lemma {:induction false} NoAppendClean(s: System, run: seq<Action>)
    requires Legal(s, run) && NoAppend(run)
    ensures Downloads.Clean(s, run)
    decreases |run|
  {
    if run != [] {
      assert run[0] in run && forall a :: a in run[1..] ==> a in run;
      NoAppendClean(Next(s, run[0]), run[1..]);
    }
  }

  /** No run from s that queues nothing more completes a download wrongly. */
  ghost predicate AlwaysExact(s: System) { forall run :: Legal(s, run) && NoAppend(run) ==> Exact(s, run) }

  lemma ContentsExact(s: System)
    requires Invariant(s) && Contents(s)
    ensures AlwaysExact(s)
  {
    forall run | Legal(s, run) && NoAppend(run)
      ensures Exact(s, run)
    {
      NoAppendClean(s, run);
      CleanRunExact(s, run);
    }
  }

  /** What may already be under a temporary name: nothing, or a beginning of the source. */
  predicate Beginning(remote: map<Path, string>, files: map<Path, string>, src: Path, dest: Path) {
    TempOf(dest) in files && src in remote ==> files[TempOf(dest)] <= remote[src]
  }

  /**
    A single download is right in every run, whatever fails and whenever it is resumed, if
    and only if nothing but a beginning of its source is there under its temporary name.
   */
  lemma OneDownloadExactIff(remote: map<Path, string>, files: map<Path, string>, src: Path, dest: Path)
    ensures AlwaysExact(Queued(remote, files, src, dest)) <==> Beginning(remote, files, src, dest)
  {
    var s := Queued(remote, files, src, dest);
    if Beginning(remote, files, src, dest) {
      ContentsExact(s);
    } else {
      var run := LeftoverContinued(s, 0);
      ContinuedIff(files[TempOf(dest)], remote[src]);
      assert !Exact(s, run);
    }
  }

  /**
    From the start of the process: a file left over under the temporary name is continued
    on resume, or taken for the whole if it is as long as the source, and the result is the
    source exactly if what was left was a beginning of it.
   */
  lemma StaleTempIsContinued(remote: map<Path, string>, files: map<Path, string>, src: Path, dest: Path)
    returns (run: seq<Action>)
    requires src in remote && TempOf(dest) in files && files[TempOf(dest)] != ""
    ensures var s, left := Started(remote, files), files[TempOf(dest)];
            Legal(s, run) && dest in After(s, run).files &&
            After(s, run).files[dest] == Continued(left, remote[src]) &&
            (After(s, run).files[dest] == remote[src] <==> left <= remote[src])
  {
    var more := LeftoverContinued(Queued(remote, files, src, dest), 0);
    run := [Append(true, src, dest)] + more;
    assert run[1..] == more;
    ContinuedIff(files[TempOf(dest)], remote[src]);
  }

  // ----- two rows with one destination -----

  /** Row o gets n bytes of its source and then fails. */
  lemma OtherFailsAfter(s: System, o: nat, n: nat) returns (run: seq<Action>, e: System)
    requires Idle(s) && Waiting(s, o) && 1 <= n <= |Bytes(s, o)|
    ensures Leads(s, run, e) && Idle(e) && |e.rows| == |s.rows| && e.remote == s.remote
    ensures e.files == s.files[TempOf(s.rows[o].dest) := Bytes(s, o)[..n]]
    ensures forall j :: 0 <= j < |s.rows| && j != o ==> Alike(s.rows[j], e.rows[j])
  {
    var p := TakeUp(s, o);
    var m := Called(s, o);
    var q;
    q, e := FailsAfter(m, n);
    Join(s, p, m, q, e);
    run := p + q;
    OthersAlike(s, o, m, e);
  }

  lemma OthersAlike(s: System, o: nat, m: System, e: System)
    requires Idle(s) && o < |s.rows| && m == Called(s, o) && AllAlike(Failing(m).rows, e.rows)
    ensures |e.rows| == |s.rows| && forall j :: 0 <= j < |s.rows| ==> !e.rows[j].flagged
    ensures forall j :: 0 <= j < |s.rows| && j != o ==> Alike(s.rows[j], e.rows[j])
  {
    forall j | 0 <= j < |s.rows|
      ensures !e.rows[j].flagged && (j != o ==> Alike(s.rows[j], e.rows[j]))
    {
      assert Alike(Failing(m).rows[j], e.rows[j]);
    }
  }

  /** Row v is completed with n bytes of row o in front. */
  lemma BytesMixed(s: System, v: nat, o: nat, n: nat) returns (run: seq<Action>)
    requires Idle(s) && Waiting(s, v) && Waiting(s, o) && v != o && s.rows[v].dest == s.rows[o].dest
    requires 1 <= n <= |Bytes(s, o)|
    ensures NoAppend(run) && Legal(s, run)
    ensures var r, e := s.rows[v], After(s, run);
            r.dest in e.files && e.files[r.dest] == Continued(Bytes(s, o)[..n], Bytes(s, v)) &&
            (Exact(s, run) ==> e.files[r.dest] == Bytes(s, v))
  {
    var p, m := FirstTryFails(s, v);
    var q, w := OtherFailsAfter(m, o, n);
    Join(s, p, m, q, w);
    assert Alike(m.rows[v], w.rows[v]);
    var x := ResumedToEnd(w, v);
    ThenMore(s, p + q, w, x);
    run := (p + q) + x;
  }

  /** If the sources of two such rows differ, one of the rows can be completed wrongly. */
  lemma DifferentSourcesMix(s: System, v: nat, o: nat) returns (run: seq<Action>)
    requires Idle(s) && Waiting(s, v) && Waiting(s, o) && v != o && s.rows[v].dest == s.rows[o].dest
    requires Bytes(s, v) != Bytes(s, o)
    ensures NoAppend(run) && Legal(s, run) && !Exact(s, run)
  {
    var x, y := Bytes(s, v), Bytes(s, o);
    if y != "" && !(y <= x) {
      run := BytesMixed(s, v, o, |y|);
      assert y[..|y|] == y;
      ContinuedIff(y, x);
    } else {
      run := BytesMixed(s, o, v, |x|);
      assert x[..|x|] == x;
      ContinuedIff(x, y);
    }
  }

  /** The process with two rows queued for one destination. */
  function QueuedTwice(remote: map<Path, string>, files: map<Path, string>, src: Path, src': Path, dest: Path): System {
    Next(Queued(remote, files, src, dest), Append(true, src', dest))
  }

  /**
    Two downloads to one destination are right in every run if and only if their sources
    have the same bytes, provided that nothing but a beginning of both is there already.
   */
  lemma SharedDestinationExactIff(remote: map<Path, string>, files: map<Path, string>, src: Path, src': Path,
                                  dest: Path)
    requires src in remote && src' in remote
    requires Beginning(remote, files, src, dest) && Beginning(remote, files, src', dest)
    ensures AlwaysExact(QueuedTwice(remote, files, src, src', dest)) <==> remote[src] == remote[src']
  {
    var s := QueuedTwice(remote, files, src, src', dest);
    if remote[src] == remote[src'] {
      TempApart(dest, dest);
      ContentsExact(s);
    } else {
      var run := DifferentSourcesMix(s, 0, 1);
    }
  }

  /**
    From the start of the process: the first of two rows with one destination is completed
    with n bytes of the second in front, and that is right exactly if they are a beginning
    of its own source.
   */
  lemma SharedDestinationMixes(remote: map<Path, string>, files: map<Path, string>, src: Path, src': Path, dest: Path,
                               n: nat)
    returns (run: seq<Action>)
    requires src in remote && src' in remote && 1 <= n <= |remote[src']|
    ensures var s := Started(remote, files);
            Legal(s, run) && dest in After(s, run).files &&
            After(s, run).files[dest] == Continued(remote[src'][..n], remote[src]) &&
            (After(s, run).files[dest] == remote[src] <==> remote[src'][..n] <= remote[src])
  {
    var s2 := QueuedTwice(remote, files, src, src', dest);
    var more := BytesMixed(s2, 0, 1, n);
    var rest := [Append(true, src', dest)] + more;
    assert rest[1..] == more;
    run := [Append(true, src, dest)] + rest;
    assert run[1..] == rest;
    ContinuedIff(remote[src'][..n], remote[src]);
  }

  // ----- a row that is stranded -----

  /** A run from the start of the process that leaves its only row stranded. */
  lemma StrandedRun(remote: map<Path, string>, files: map<Path, string>, src: Path, dest: Path)
    returns (run: seq<Action>)
    requires src in remote
    ensures Legal(Started(remote, files), run) && !NoneStranded(After(Started(remote, files), run))
  {
    var s := Queued(remote, files, src, dest);
    var p, m := FirstTryFails(s, 0);
    var q := TakeUp(m, 0);
    var c := Called(m, 0);
    Join(s, p, m, q, c);
    var w := Next(c, SetRest(true));
    AndStep(s, p + q, c, SetRest(true));
    var x := FailsAtOnce(w);
    Join(s, p + q + [SetRest(true)], w, x, Failing(w));
    var more := (p + q + [SetRest(true)]) + x;
    run := [Append(true, src, dest)] + more;
    assert run[1..] == more;
    assert Failing(w).rows[0].state.Resumed?;
  }
}
