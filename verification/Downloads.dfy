/**
  The background download queue: one thread walks the rows and transfers files, while
  request handlers append rows and flag finished ones, and the system pauses and
  resumes the thread.  Every statement that matters to another thread is one step.
 */
module Downloads {
  import opened Text

  type Path = string

  datatype RowState = Pending | Downloading | Resumed | Failed | Success

  const MAX_ATTEMPTS := 5

  /**
    One row.  id stands for the address of the list element; seeks says that the host
    is read by seeking (SMB, NFS, SFTP); gets counts the Get calls made for the row.
   */
  datatype Row = Row(
    id: nat, seeks: bool, src: Path, dest: Path,
    bytes: nat, state: RowState, failed: nat, flagged: bool, gets: nat
  )

  predicate Terminal(r: Row) { r.state.Success? || (r.state.Failed? && r.failed >= MAX_ATTEMPTS) }

  predicate Resumable(r: Row) { r.state.Downloading? || (r.state.Failed? && r.failed < MAX_ATTEMPTS) }

  function TempOf(dest: Path): Path { dest + ".tmp" }

  // ----- loops over the list -----

  function Unflagged(rows: seq<Row>): seq<Row> {
    if rows == [] then []
    else Unflagged(rows[..|rows| - 1]) + if rows[|rows| - 1].flagged then [] else [rows[|rows| - 1]]
  }

  lemma UnflaggedSnoc(rows: seq<Row>, k: nat)
    requires k < |rows|
    ensures Unflagged(rows[..k + 1]) == Unflagged(rows[..k]) + if rows[k].flagged then [] else [rows[k]]
  {
    assert rows[..k + 1][..k] == rows[..k];
  }

  lemma EraseAt(rows: seq<Row>, k: nat)
    requires k < |rows|
    ensures var r := rows[..k] + rows[k + 1..]; r[..k] == rows[..k] && r[k..] == rows[k + 1..]
  {
  }

  function FlagAll(rows: seq<Row>): (r: seq<Row>)
    ensures |r| == |rows|
  {
    seq(|rows|, i requires 0 <= i < |rows| => if Terminal(rows[i]) then rows[i].(flagged := true) else rows[i])
  }

  /** Where finished rows stand among the first k. */
  ghost function FinishedBelow(rows: seq<Row>, k: nat): set<nat>
    requires k <= |rows|
  {
    set i: nat | i < k && Terminal(rows[i])
  }

  lemma FinishedNext(rows: seq<Row>, k: nat)
    requires k < |rows|
    ensures |FinishedBelow(rows, k + 1)| == |FinishedBelow(rows, k)| + if Terminal(rows[k]) then 1 else 0
  {
    var f := FinishedBelow(rows, k);
    assert FinishedBelow(rows, k + 1) == if Terminal(rows[k]) then f + {k} else f;
  }

  class DownloadList {
    var rows: seq<Row>

    /** New rows go to the end. */
    method Add(r: Row)
      modifies this
      ensures rows == old(rows) + [r]
    {
      rows := rows + [r];
    }

    /** Between passes: erase the flagged rows while walking the list. */
    method Sweep() returns (removedAny: bool)
      modifies this
      ensures rows == Unflagged(old(rows))
      ensures removedAny <==> exists r :: r in old(rows) && r.flagged
    {
      removedAny := false;
      var it := 0;
      ghost var seen: nat := 0;
      ghost var before := rows;
      while it < |rows|
        invariant 0 <= it <= |rows| && seen <= |before|
        invariant rows[..it] == Unflagged(before[..seen])
        invariant rows[it..] == before[seen..]
        invariant removedAny <==> exists r :: r in before[..seen] && r.flagged
        decreases |rows| - it
      {
        assert rows[it] == before[seen] && rows[it + 1..] == before[seen + 1..];
        assert before[..seen + 1] == before[..seen] + [before[seen]];
        UnflaggedSnoc(before, seen);
        if rows[it].flagged {
          assert before[seen] in before[..seen + 1];
          EraseAt(rows, it);
          rows := rows[..it] + rows[it + 1..];
          removedAny := true;
        } else {
          assert rows[..it + 1] == rows[..it] + [rows[it]];
          it := it + 1;
        }
        seen := seen + 1;
      }
      assert before[..seen] == before && rows[..it] == rows;
    }

    /** The handler that clears the history only flags; nothing is erased here. */
    method ClearHistory() returns (removed: nat)
      modifies this
      ensures rows == FlagAll(old(rows))
      ensures removed == |FinishedBelow(old(rows), |rows|)|
    {
      removed := 0;
      var i := 0;
      while i < |rows|
        invariant 0 <= i <= |rows| == |old(rows)|
        invariant forall j :: 0 <= j < i ==> rows[j] == FlagAll(old(rows))[j]
        invariant forall j :: i <= j < |rows| ==> rows[j] == old(rows)[j]
        invariant removed == |FinishedBelow(old(rows), i)|
      {
        FinishedNext(old(rows), i);
        if Terminal(rows[i]) {
          rows := rows[i := rows[i].(flagged := true)];
          removed := removed + 1;
        }
        i := i + 1;
      }
    }
  }

  // ----- the machine -----

  /** Where the download thread is; resume says which of the two branches it took. */
  datatype Pc =
    | Top
    | Scan(i: nat)
    | Chosen(i: nat, resume: bool)
    | Marked(i: nat, resume: bool)
    | Opening(i: nat, resume: bool, offset: nat)
    | Reading(i: nat, resume: bool, pos: nat)
    | Done(i: nat, resume: bool, ok: bool)

  datatype System = System(
    rows: seq<Row>, nextId: nat, remote: map<Path, string>, files: map<Path, string>,
    rest: bool, pc: Pc, progress: Option<nat>, failures: nat
  )

  datatype Action =
    | Append(seeks: bool, src: Path, dest: Path)
    | FlagRow(row: nat)
    | SetRest(on: bool)
    | StartPass
    | ScanRow(acquired: bool)
    | Mark
    | CallGet
    | OpenFails
    | OpenWorks
    | ReadChunk(n: nat)
    | ReadFails
    | ReadEnds
    | ForeignWrite(data: string, count: nat)
    | ForeignEnds(ok: bool)
    | Finish

  predicate Active(pc: Pc) { !pc.Top? && !pc.Scan? }

  predicate Enabled(s: System, a: Action) {
    match a
    case Append(_, _, _) => true
    case FlagRow(k) => k < |s.rows| && Terminal(s.rows[k])
    case SetRest(_) => true
    case StartPass => s.pc.Top? && !s.rest
    case ScanRow(_) => s.pc.Scan?
    case Mark => s.pc.Chosen? && s.pc.i < |s.rows|
    case CallGet => s.pc.Marked? && s.pc.i < |s.rows|
    case OpenFails => s.pc.Opening? && s.pc.i < |s.rows|
    case OpenWorks => s.pc.Opening? && s.pc.i < |s.rows| && s.rows[s.pc.i].seeks && s.rows[s.pc.i].src in s.remote
    case ReadChunk(n) =>
      s.pc.Reading? && s.pc.i < |s.rows| && s.rows[s.pc.i].src in s.remote &&
      TempOf(s.rows[s.pc.i].dest) in s.files &&
      1 <= n && s.pc.pos + n <= |s.remote[s.rows[s.pc.i].src]|
    case ReadFails => s.pc.Reading?
    case ReadEnds =>
      s.pc.Reading? && s.pc.i < |s.rows| && s.rows[s.pc.i].src in s.remote &&
      s.pc.pos >= |s.remote[s.rows[s.pc.i].src]|
    case ForeignWrite(_, _) => s.pc.Opening? && s.pc.i < |s.rows| && !s.rows[s.pc.i].seeks
    case ForeignEnds(_) => s.pc.Opening? && s.pc.i < |s.rows| && !s.rows[s.pc.i].seeks
    case Finish => s.pc.Done? && s.pc.i < |s.rows|
  }

  /** A store through the progress pointer: it lands in the row that the pointer denotes. */
  function StoreBytes(rows: seq<Row>, p: Option<nat>, v: nat): (r: seq<Row>)
    ensures |r| == |rows|
    ensures forall j :: 0 <= j < |rows| ==>
              r[j] == if p == Some(rows[j].id) then rows[j].(bytes := v) else rows[j]
  {
    seq(|rows|, j requires 0 <= j < |rows| => if p == Some(rows[j].id) then rows[j].(bytes := v) else rows[j])
  }

  function AddBytes(rows: seq<Row>, p: Option<nat>, n: nat): (r: seq<Row>)
    ensures |r| == |rows|
    ensures forall j :: 0 <= j < |rows| ==>
              r[j] == if p == Some(rows[j].id) then rows[j].(bytes := rows[j].bytes + n) else rows[j]
  {
    seq(|rows|, j requires 0 <= j < |rows| =>
          if p == Some(rows[j].id) then rows[j].(bytes := rows[j].bytes + n) else rows[j])
  }

  function FinishRow(r: Row, resume: bool, ok: bool, rest: bool): Row {
    if ok then r.(state := Success)
    else if rest then r
    else r.(state := Failed, failed := if resume then r.failed + 1 else r.failed)
  }

  function Rename(files: map<Path, string>, from: Path, to: Path): map<Path, string> {
    if from in files then (files - {from})[to := files[from]] else files
  }

  function Next(s: System, a: Action): System
    requires Enabled(s, a)
  {
    match a
    case Append(seeks, src, dest) =>
      s.(rows := s.rows + [Row(s.nextId, seeks, src, dest, 0, Pending, 0, false, 0)], nextId := s.nextId + 1)
    case FlagRow(k) => s.(rows := s.rows[k := s.rows[k].(flagged := true)])
    case SetRest(on) => s.(rest := on)
    case StartPass => s.(rows := Unflagged(s.rows), pc := Scan(0), failures := 0)
    case ScanRow(acquired) =>
      var i := s.pc.i;
      if i >= |s.rows| then s.(pc := Top)
      else if acquired && s.rows[i].state.Pending? then s.(pc := Chosen(i, false))
      else if acquired && Resumable(s.rows[i]) then s.(pc := Chosen(i, true))
      else s.(pc := Scan(i + 1))
    case Mark =>
      var i := s.pc.i;
      s.(progress := Some(s.rows[i].id), pc := Marked(i, s.pc.resume),
         rows := s.rows[i := s.rows[i].(state := if s.pc.resume then Resumed else Downloading)])
    case CallGet =>
      var i := s.pc.i;
      var t := TempOf(s.rows[i].dest);
      var offset := if s.pc.resume && t in s.files then |s.files[t]| else 0;
      s.(rows := s.rows[i := s.rows[i].(gets := s.rows[i].gets + 1)], pc := Opening(i, s.pc.resume, offset))
    case OpenFails => s.(pc := Done(s.pc.i, s.pc.resume, false))
    case OpenWorks =>
      var t := TempOf(s.rows[s.pc.i].dest);
      s.(files := if s.pc.offset > 0 && t in s.files then s.files else s.files[t := ""],
         rows := StoreBytes(s.rows, s.progress, s.pc.offset),
         pc := Reading(s.pc.i, s.pc.resume, s.pc.offset))
    case ReadChunk(n) =>
      var r := s.rows[s.pc.i];
      var t := TempOf(r.dest);
      s.(files := s.files[t := s.files[t] + s.remote[r.src][s.pc.pos..s.pc.pos + n]],
         rows := AddBytes(s.rows, s.progress, n),
         pc := s.pc.(pos := s.pc.pos + n))
    case ReadFails => s.(pc := Done(s.pc.i, s.pc.resume, false))
    case ReadEnds => s.(pc := Done(s.pc.i, s.pc.resume, true))
    case ForeignWrite(data, count) =>
      s.(files := s.files[TempOf(s.rows[s.pc.i].dest) := data], rows := StoreBytes(s.rows, s.progress, count))
    case ForeignEnds(ok) => s.(pc := Done(s.pc.i, s.pc.resume, ok))
    case Finish =>
      var i := s.pc.i;
      var r := s.rows[i];
      s.(rows := s.rows[i := FinishRow(r, s.pc.resume, s.pc.ok, s.rest)],
         files := if s.pc.ok then Rename(s.files, TempOf(r.dest), r.dest) else s.files,
         failures := if s.pc.ok then s.failures else s.failures + 1,
         pc := if s.pc.ok then Scan(i + 1) else Top)
  }

  // ----- queue safety and the retry bound -----

  /** How often Get can have been called for a row, given its state; a flagged row is terminal. */
  predicate RowOk(r: Row) {
    && (r.flagged ==> Terminal(r))
    && match r.state
       case Pending => r.gets == 0 && r.failed == 0
       case Downloading => r.gets <= 1 && r.failed == 0
       case Failed => r.gets <= 1 + r.failed && r.failed <= MAX_ATTEMPTS
       case Resumed => r.gets <= 2 + r.failed && r.failed < MAX_ATTEMPTS
       case Success => r.gets <= 2 + r.failed && r.failed < MAX_ATTEMPTS
  }

  /** The row in work is the one the progress pointer denotes, in the state its branch gave it. */
  predicate WorkOk(r: Row, pc: Pc, progress: Option<nat>)
    requires Active(pc)
  {
    && !r.flagged
    && (pc.Chosen? ==> if pc.resume then Resumable(r) else r.state.Pending?)
    && (!pc.Chosen? ==> progress == Some(r.id) && if pc.resume then r.state.Resumed? else r.state.Downloading?)
    && (pc.Marked? ==> r.gets <= if pc.resume then 1 + r.failed else 0)
    && (pc.Reading? ==> r.seeks)
  }

  predicate DistinctIds(rows: seq<Row>) {
    forall i, j :: 0 <= i < j < |rows| ==> rows[i].id != rows[j].id
  }

  ghost predicate Invariant(s: System) {
    && (forall i :: 0 <= i < |s.rows| ==> s.rows[i].id < s.nextId && RowOk(s.rows[i]))
    && DistinctIds(s.rows)
    && (Active(s.pc) ==> s.pc.i < |s.rows| && WorkOk(s.rows[s.pc.i], s.pc, s.progress))
    && s.failures <= (if s.pc.Top? then 1 else 0)
  }

  lemma {:induction false} UnflaggedMembers(rows: seq<Row>)
    ensures forall r :: r in Unflagged(rows) <==> r in rows && !r.flagged
  {
    if rows != [] {
      var init, last := rows[..|rows| - 1], rows[|rows| - 1];
      UnflaggedMembers(init);
      assert rows == init + [last];
    }
  }

  lemma {:induction false} UnflaggedIds(rows: seq<Row>)
    requires DistinctIds(rows)
    ensures DistinctIds(Unflagged(rows))
  {
    if rows != [] {
      var init, last := rows[..|rows| - 1], rows[|rows| - 1];
      UnflaggedIds(init);
      UnflaggedMembers(init);
      var u := Unflagged(init);
      forall i | 0 <= i < |u|
        ensures u[i].id != last.id
      {
        assert u[i] in u && u[i] in init;
      }
    }
  }

  lemma SweepKeeps(s: System)
    requires Invariant(s) && Enabled(s, StartPass)
    ensures Invariant(Next(s, StartPass))
  {
    UnflaggedMembers(s.rows);
    UnflaggedIds(s.rows);
    var u := Unflagged(s.rows);
    forall i | 0 <= i < |u|
      ensures u[i].id < s.nextId && RowOk(u[i])
    {
      assert u[i] in u;
    }
  }

  lemma UpdateKeeps(s: System, i: nat, r: Row, s': System)
    requires Invariant(s) && i < |s.rows| && r.id == s.rows[i].id && RowOk(r)
    requires s'.rows == s.rows[i := r] && s'.nextId == s.nextId
    requires Active(s'.pc) ==> s'.pc.i < |s.rows| && WorkOk(s'.rows[s'.pc.i], s'.pc, s'.progress)
    requires s'.failures <= (if s'.pc.Top? then 1 else 0)
    ensures Invariant(s')
  {
  }

  lemma BytesKeep(s: System, s': System)
    requires Invariant(s) && |s'.rows| == |s.rows| && s'.nextId == s.nextId
    requires forall j :: 0 <= j < |s.rows| ==> s'.rows[j] == s.rows[j].(bytes := s'.rows[j].bytes)
    requires Active(s.pc) && Active(s'.pc) && s'.pc.i == s.pc.i && s'.pc.resume == s.pc.resume
    requires !s.pc.Chosen? && !s'.pc.Chosen? && !s'.pc.Marked? && s'.progress == s.progress && s'.failures == s.failures
    requires s'.pc.Reading? ==> s.rows[s.pc.i].seeks
    ensures Invariant(s')
  {
  }

  lemma ThreadKeeps(s: System, a: Action)
    requires Invariant(s) && Enabled(s, a)
    requires a.Mark? || a.CallGet? || a.Finish? || a.FlagRow?
    ensures Invariant(Next(s, a))
  {
    var s' := Next(s, a);
    var i := if a.FlagRow? then a.row else s.pc.i;
    UpdateKeeps(s, i, s'.rows[i], s');
  }

  lemma TransferKeeps(s: System, a: Action)
    requires Invariant(s) && Enabled(s, a)
    requires a.OpenWorks? || a.ReadChunk? || a.ForeignWrite?
    ensures Invariant(Next(s, a))
  {
    BytesKeep(s, Next(s, a));
  }

  /** Every step of the thread and of the handlers keeps the queue sound. */
  lemma StepKeeps(s: System, a: Action)
    requires Invariant(s) && Enabled(s, a)
    ensures Invariant(Next(s, a))
  {
    match a
    case StartPass => SweepKeeps(s);
    case Mark => ThreadKeeps(s, a);
    case CallGet => ThreadKeeps(s, a);
    case Finish => ThreadKeeps(s, a);
    case FlagRow(_) => ThreadKeeps(s, a);
    case OpenWorks => TransferKeeps(s, a);
    case ReadChunk(_) => TransferKeeps(s, a);
    case ForeignWrite(_, _) => TransferKeeps(s, a);
    case _ =>
  }

  /** What may happen to a row in one step. */
  predicate Evolves(r: Row, r': Row) {
    && r'.id == r.id && r'.src == r.src && r'.dest == r.dest && r'.seeks == r.seeks
    && r.failed <= r'.failed && r.gets <= r'.gets
    && (r.flagged ==> r'.flagged)
    && (r.state.Success? ==> r'.state.Success?)
    && (Terminal(r) ==> Terminal(r') && r'.failed == r.failed && r'.gets == r.gets)
    && (r.state.Resumed? && r'.state.Resumed? ==> r'.failed == r.failed)
  }

  /** A row either evolves in place or was flagged, hence terminal, and is erased between passes. */
  lemma RowsEvolve(s: System, a: Action, i: nat)
    requires Invariant(s) && Enabled(s, a) && i < |s.rows|
    ensures var s' := Next(s, a);
            if a.StartPass? then s.rows[i] in s'.rows || (s.rows[i].flagged && Terminal(s.rows[i]))
            else i < |s'.rows| && Evolves(s.rows[i], s'.rows[i])
  {
    if a.StartPass? {
      UnflaggedMembers(s.rows);
      assert s.rows[i] in s.rows;
    } else if a.OpenWorks? || a.ReadChunk? || a.ForeignWrite? {
      BytesEvolve(s, a, i);
    } else if a.Mark? || a.CallGet? || a.Finish? || a.FlagRow? {
      RowEvolves(s, a, i);
    }
  }

  lemma BytesEvolve(s: System, a: Action, i: nat)
    requires Invariant(s) && Enabled(s, a) && i < |s.rows| && (a.OpenWorks? || a.ReadChunk? || a.ForeignWrite?)
    ensures i < |Next(s, a).rows| && Evolves(s.rows[i], Next(s, a).rows[i])
  {
  }

  lemma RowEvolves(s: System, a: Action, i: nat)
    requires Invariant(s) && Enabled(s, a) && i < |s.rows| && (a.Mark? || a.CallGet? || a.Finish? || a.FlagRow?)
    ensures i < |Next(s, a).rows| && Evolves(s.rows[i], Next(s, a).rows[i])
  {
  }

  // ----- contents -----

  /** Two sources with the same bytes, or both missing. */
  predicate SameSource(remote: map<Path, string>, x: Path, y: Path) {
    if x in remote then y in remote && remote[x] == remote[y] else y !in remote
  }

  /** Two rows do not get in each other's way: their files are different, or they ask for the same bytes. */
  predicate Compatible(r: Row, q: Row, remote: map<Path, string>) {
    TempOf(r.dest) != q.dest && (r.dest == q.dest ==> r.seeks && q.seeks && SameSource(remote, r.src, q.src))
  }

  /** No unfinished row gets in the way of another. */
  predicate NoClash(rows: seq<Row>, remote: map<Path, string>) {
    forall i, j :: 0 <= i < |rows| && 0 <= j < |rows| && i != j && !Terminal(rows[i]) && !Terminal(rows[j]) ==>
      Compatible(rows[i], rows[j], remote)
  }

  /** What a temporary file holds of its source: a beginning, if anything. */
  ghost predicate TempOk(r: Row, remote: map<Path, string>, files: map<Path, string>) {
    var t := TempOf(r.dest);
    r.seeks && t in files && r.src in remote ==> files[t] <= remote[r.src]
  }

  /** In mid-transfer the file is exactly what has been read, and the counter is its length. */
  ghost predicate TransferOk(r: Row, pc: Pc, remote: map<Path, string>, files: map<Path, string>) {
    var t := TempOf(r.dest);
    r.seeks ==>
      && (pc.Opening? && pc.offset > 0 ==> t in files && |files[t]| == pc.offset)
      && (pc.Reading? ==> t in files && r.src in remote && files[t] <= remote[r.src] && |files[t]| == pc.pos == r.bytes)
      && (pc.Done? && pc.ok ==> t in files && r.src in remote && files[t] == remote[r.src])
  }

  ghost predicate Contents(s: System) {
    && NoClash(s.rows, s.remote)
    && (forall i :: 0 <= i < |s.rows| && !Terminal(s.rows[i]) ==> TempOk(s.rows[i], s.remote, s.files))
    && (Active(s.pc) && s.pc.i < |s.rows| ==> TransferOk(s.rows[s.pc.i], s.pc, s.remote, s.files))
  }

  /**
    What a new row must meet for its content to be exact: among the unfinished rows its
    paths are its own, or the row that shares them asks for the same bytes, and a
    temporary file already there is a beginning of what it will download.
   */
  ghost predicate CleanAppend(s: System, a: Action) {
    a.Append? ==>
      var r := Row(s.nextId, a.seeks, a.src, a.dest, 0, Pending, 0, false, 0);
      NoClash(s.rows + [r], s.remote) && TempOk(r, s.remote, s.files)
  }

  lemma TempApart(x: Path, y: Path)
    ensures TempOf(x) == TempOf(y) ==> x == y
    ensures TempOf(x) != x
  {
    assert TempOf(x)[..|x|] == x && TempOf(y)[..|y|] == y;
  }

  /** Changing one row's own files leaves right what the other rows have. */
  lemma OwnFileKeeps(s: System, i: nat, s': System)
    requires Contents(s) && i < |s.rows| == |s'.rows| && s'.remote == s.remote && !Terminal(s.rows[i])
    requires forall j :: 0 <= j < |s.rows| ==> SamePlace(s.rows[j], s'.rows[j])
    requires forall p :: p != TempOf(s.rows[i].dest) && p != s.rows[i].dest ==>
               (p in s'.files <==> p in s.files) && (p in s.files ==> s'.files[p] == s.files[p])
    requires TempOk(s'.rows[i], s'.remote, s'.files)
    requires Active(s'.pc) && s'.pc.i < |s.rows| ==> TransferOk(s'.rows[s'.pc.i], s'.pc, s'.remote, s'.files)
    ensures Contents(s')
  {
    forall j | 0 <= j < |s.rows| && !Terminal(s'.rows[j])
      ensures TempOk(s'.rows[j], s'.remote, s'.files)
    {
      if j != i {
        assert Compatible(s.rows[j], s.rows[i], s.remote) && TempOk(s.rows[j], s.remote, s.files);
        TempApart(s.rows[j].dest, s.rows[i].dest);
      }
    }
  }

  /** The same paths, and finished stays finished. */
  predicate SamePlace(r: Row, r': Row) {
    r'.dest == r.dest && r'.src == r.src && r'.seeks == r.seeks && (Terminal(r) ==> Terminal(r'))
  }

  lemma ReadKeeps(s: System, n: nat)
    requires Invariant(s) && Contents(s) && Enabled(s, ReadChunk(n))
    ensures Contents(Next(s, ReadChunk(n)))
  {
    var i, s' := s.pc.i, Next(s, ReadChunk(n));
    var r := s.rows[i];
    var all, pos := s.remote[r.src], s.pc.pos;
    assert s.files[TempOf(r.dest)] == all[..pos];
    assert all[..pos] + all[pos..pos + n] == all[..pos + n];
    OwnFileKeeps(s, i, s');
  }

  lemma SweepContents(s: System)
    requires Contents(s) && Enabled(s, StartPass) && DistinctIds(s.rows)
    ensures Contents(Next(s, StartPass))
  {
    UnflaggedMembers(s.rows);
    UnflaggedIds(s.rows);
    var u := Unflagged(s.rows);
    forall i | 0 <= i < |u|
      ensures u[i] in s.rows
    {
      assert u[i] in u;
    }
    forall i, j | 0 <= i < |u| && 0 <= j < |u| && i != j && !Terminal(u[i]) && !Terminal(u[j])
      ensures Compatible(u[i], u[j], s.remote)
    {
      var x :| 0 <= x < |s.rows| && s.rows[x] == u[i];
      var y :| 0 <= y < |s.rows| && s.rows[y] == u[j];
      assert u[i].id != u[j].id;
    }
  }

  lemma FileStepKeeps(s: System, a: Action)
    requires Invariant(s) && Contents(s) && Enabled(s, a)
    requires a.OpenWorks? || a.ForeignWrite? || a.Finish?
    ensures Contents(Next(s, a))
  {
    var i, s' := s.pc.i, Next(s, a);
    assert TempOk(s.rows[i], s.remote, s.files);
    OwnFileKeeps(s, i, s');
  }

  /** Every step keeps the contents right, as long as rows are appended cleanly. */
  lemma ContentsStep(s: System, a: Action)
    requires Invariant(s) && Contents(s) && Enabled(s, a) && CleanAppend(s, a)
    ensures Contents(Next(s, a))
  {
    match a
    case StartPass => SweepContents(s);
    case ReadChunk(n) => ReadKeeps(s, n);
    case OpenWorks => FileStepKeeps(s, a);
    case ForeignWrite(_, _) => FileStepKeeps(s, a);
    case Finish => FileStepKeeps(s, a);
    case Append(_, _, _) => RowStepKeeps(s, a);
    case FlagRow(_) => RowStepKeeps(s, a);
    case Mark => RowStepKeeps(s, a);
    case CallGet => RowStepKeeps(s, a);
    case _ => QuietStepKeeps(s, a);
  }

  /** Steps that leave the files alone and change no path of a row. */
  lemma RowStepKeeps(s: System, a: Action)
    requires Invariant(s) && Contents(s) && Enabled(s, a) && CleanAppend(s, a)
    requires a.Append? || a.FlagRow? || a.Mark? || a.CallGet?
    ensures Contents(Next(s, a))
  {
  }

  lemma QuietStepKeeps(s: System, a: Action)
    requires Invariant(s) && Contents(s) && Enabled(s, a)
    requires a.SetRest? || a.ScanRow? || a.OpenFails? || a.ReadFails? || a.ReadEnds? || a.ForeignEnds?
    ensures Contents(Next(s, a))
  {
  }

  /** A destination gets a file only when the transfer is complete, and then all of it. */
  lemma RenamedIsComplete(s: System)
    requires Invariant(s) && Contents(s) && Enabled(s, Finish) && s.pc.ok && s.rows[s.pc.i].seeks
    ensures var r, s' := s.rows[s.pc.i], Next(s, Finish);
            r.dest in s'.files && s'.files[r.dest] == s.remote[r.src] && r.dest + ".tmp" !in s'.files
  {
    var r := s.rows[s.pc.i];
    assert TempOf(r.dest)[..|r.dest|] == r.dest;
  }

  // ----- whole runs -----

  ghost predicate Legal(s: System, run: seq<Action>)
    decreases |run|
  {
    run == [] || (Enabled(s, run[0]) && Legal(Next(s, run[0]), run[1..]))
  }

  ghost function After(s: System, run: seq<Action>): System
    requires Legal(s, run)
    decreases |run|
  {
    if run == [] then s else After(Next(s, run[0]), run[1..])
  }

  ghost predicate Clean(s: System, run: seq<Action>)
    requires Legal(s, run)
    decreases |run|
  {
    run == [] || (CleanAppend(s, run[0]) && Clean(Next(s, run[0]), run[1..]))
  }

  /** A process that starts with an empty list, whatever files there are. */
  function Started(remote: map<Path, string>, files: map<Path, string>): System {
    System([], 0, remote, files, false, Top, None, 0)
  }

  /**
    Queue safety and the retry bound: whatever the interleaving and whatever fails, at
    most six Get calls are made for a row, attempts stay within five, a flagged row is
    finished for good, and a pass has at most one failed transfer.
   */
  lemma {:induction false} EveryRunSafe(s: System, run: seq<Action>)
    requires Invariant(s) && Legal(s, run)
    ensures Invariant(After(s, run))
    ensures forall r :: r in After(s, run).rows ==>
              r.gets <= 6 && r.failed <= 5 && (r.flagged ==> Terminal(r))
    ensures After(s, run).failures <= 1
    decreases |run|
  {
    if run != [] {
      StepKeeps(s, run[0]);
      EveryRunSafe(Next(s, run[0]), run[1..]);
    }
  }

  /** Resumed downloads are exact: over every run with clean appends, files and counter stay right. */
  lemma {:induction false} EveryRunExact(s: System, run: seq<Action>)
    requires Invariant(s) && Contents(s) && Legal(s, run) && Clean(s, run)
    ensures Contents(After(s, run))
    decreases |run|
  {
    if run != [] {
      StepKeeps(s, run[0]);
      ContentsStep(s, run[0]);
      EveryRunExact(Next(s, run[0]), run[1..]);
    }
  }

  /** If this step completes a download from a host that is read by seeking, its destination gets all of the source. */
  ghost predicate CompletesRight(s: System, a: Action)
    requires Enabled(s, a)
  {
    a.Finish? && s.pc.ok && s.rows[s.pc.i].seeks ==>
      var r, files := s.rows[s.pc.i], Next(s, a).files;
      r.src in s.remote && r.dest in files && files[r.dest] == s.remote[r.src]
  }

  /** Every download that the run completes is right. */
  ghost predicate Exact(s: System, run: seq<Action>)
    requires Legal(s, run)
    decreases |run|
  {
    run == [] || (CompletesRight(s, run[0]) && Exact(Next(s, run[0]), run[1..]))
  }

  lemma {:induction false} CleanRunExact(s: System, run: seq<Action>)
    requires Invariant(s) && Contents(s) && Legal(s, run) && Clean(s, run)
    ensures Exact(s, run)
    decreases |run|
  {
    if run != [] {
      if run[0].Finish? && s.pc.ok && s.rows[s.pc.i].seeks {
        RenamedIsComplete(s);
      }
      StepKeeps(s, run[0]);
      ContentsStep(s, run[0]);
      CleanRunExact(Next(s, run[0]), run[1..]);
    }
  }

  /** From the start of the process, over every run with clean appends. */
  lemma EveryDownloadExact(remote: map<Path, string>, files: map<Path, string>, run: seq<Action>)
    requires Legal(Started(remote, files), run) && Clean(Started(remote, files), run)
    ensures Exact(Started(remote, files), run) && Contents(After(Started(remote, files), run))
  {
    CleanRunExact(Started(remote, files), run);
    EveryRunExact(Started(remote, files), run);
  }

  // ----- downloads that are never taken up again -----

  /** Row i has been left in the resumed state and the thread is not at work on it. */
  predicate Stranded(s: System, i: nat, id: nat, gets: nat) {
    i < |s.rows| && s.rows[i].id == id && s.rows[i].state.Resumed? && s.rows[i].gets == gets &&
    !(Active(s.pc) && s.pc.i == i)
  }

  predicate NoneStranded(s: System) {
    forall i :: 0 <= i < |s.rows| && s.rows[i].state.Resumed? ==> Active(s.pc) && s.pc.i == i
  }

  /** A resumed transfer comes to its end without success while the console is going to rest. */
  predicate RestFailure(s: System, a: Action) {
    a.Finish? && s.pc.Done? && s.pc.resume && !s.pc.ok && s.rest
  }

  lemma RestFailureStrands(s: System, a: Action)
    requires Invariant(s) && Enabled(s, a) && RestFailure(s, a)
    ensures Stranded(Next(s, a), s.pc.i, s.rows[s.pc.i].id, s.rows[s.pc.i].gets)
  {
  }

  lemma PassStrandsNone(s: System)
    requires Enabled(s, StartPass) && NoneStranded(s)
    ensures NoneStranded(Next(s, StartPass))
  {
    UnflaggedMembers(s.rows);
    var u := Unflagged(s.rows);
    forall i | 0 <= i < |u|
      ensures !u[i].state.Resumed?
    {
      assert u[i] in u && u[i] in s.rows;
    }
  }

  /** That, and nothing else that any thread can do, strands a row. */
  lemma StrandsIff(s: System, a: Action)
    requires Invariant(s) && Enabled(s, a) && NoneStranded(s)
    ensures NoneStranded(Next(s, a)) <==> !RestFailure(s, a)
  {
    if a.StartPass? {
      PassStrandsNone(s);
    } else if RestFailure(s, a) {
      RestFailureStrands(s, a);
    } else if a.OpenWorks? || a.ReadChunk? || a.ForeignWrite? {
      BytesStrandNone(s, a);
    }
  }

  lemma BytesStrandNone(s: System, a: Action)
    requires Invariant(s) && Enabled(s, a) && NoneStranded(s) && (a.OpenWorks? || a.ReadChunk? || a.ForeignWrite?)
    ensures NoneStranded(Next(s, a))
  {
    var s' := Next(s, a);
    assert forall j :: 0 <= j < |s'.rows| ==> s'.rows[j].state == s.rows[j].state;
  }

  ghost predicate MeetsRestFailure(s: System, run: seq<Action>)
    requires Legal(s, run)
    decreases |run|
  {
    run != [] && (RestFailure(s, run[0]) || MeetsRestFailure(Next(s, run[0]), run[1..]))
  }

  lemma StrandedStep(s: System, a: Action, i: nat, id: nat, gets: nat) returns (j: nat)
    requires Invariant(s) && Enabled(s, a) && Stranded(s, i, id, gets)
    ensures Stranded(Next(s, a), j, id, gets)
  {
    j := i;
    if a.StartPass? {
      UnflaggedMembers(s.rows);
      assert s.rows[i] in s.rows && !s.rows[i].flagged;
      j :| 0 <= j < |Unflagged(s.rows)| && Unflagged(s.rows)[j] == s.rows[i];
    }
  }

  /** Neither branch takes such a row up again: in every continuation it stays, untried and unfinished. */
  lemma {:induction false} StrandedForever(s: System, run: seq<Action>, i: nat, id: nat, gets: nat) returns (j: nat)
    requires Invariant(s) && Legal(s, run) && Stranded(s, i, id, gets)
    ensures Stranded(After(s, run), j, id, gets) && !Terminal(After(s, run).rows[j])
    decreases |run|
  {
    j := i;
    if run != [] {
      j := StrandedStep(s, run[0], i, id, gets);
      StepKeeps(s, run[0]);
      j := StrandedForever(Next(s, run[0]), run[1..], j, id, gets);
    }
  }

  /** Over whole runs: some row is stranded at the end exactly if a resumed transfer failed during rest on the way. */
  lemma {:induction false} RunStrandsIff(s: System, run: seq<Action>)
    requires Invariant(s) && NoneStranded(s) && Legal(s, run)
    ensures NoneStranded(After(s, run)) <==> !MeetsRestFailure(s, run)
    decreases |run|
  {
    if run != [] {
      var s' := Next(s, run[0]);
      StepKeeps(s, run[0]);
      StrandsIff(s, run[0]);
      if RestFailure(s, run[0]) {
        RestFailureStrands(s, run[0]);
        var j := StrandedForever(s', run[1..], s.pc.i, s.rows[s.pc.i].id, s.rows[s.pc.i].gets);
      } else {
        RunStrandsIff(s', run[1..]);
      }
    }
  }
}
