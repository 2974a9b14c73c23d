/** The redirection protocol on values: what one list of redirections means,
    which states lie between "apply" and "restore", and why restore undoes
    them (src/exec_redirect.c, section 2.7 of the POSIX.1-2017 Shell Command
    Language). */
module RedirectState {
  import opened Options
  import opened Kernel
  import opened FdTable
  import opened FdNumber

  const MIN_BACKUP_FD: nat := 10
  const HEREDOC_PIPE_LIMIT: nat := 4096

  /** The system's FD_SETSIZE; POSIX asks for at least 20. */
  type SetSize = n: nat | n >= MIN_BACKUP_FD witness 10

  datatype RedirType =
    | Read | Write | Append | ReadWriteBoth | WriteForce
    | DupIn | DupOut | FromBuffer | FromBufferStrip

  /** The target after expansion; None is an expansion that failed. */
  datatype Target =
    | ToFile(name: Option<string>)
    | ToDescriptor(text: Option<string>)
    | ToNothing
    | ToBuffer(content: Option<string>)
    | Unknown

  datatype Redirection = Redirection(kind: RedirType, explicitFd: int, target: Target)

  function DefaultFd(r: Redirection): (fd: int)
    ensures fd >= 0
    ensures r.explicitFd >= 0 ==> fd == r.explicitFd
  {
    if r.explicitFd >= 0 then r.explicitFd
    else match r.kind
      case Read | FromBuffer | FromBufferStrip | ReadWriteBoth => 0
      case _ => 1
  }

  function Mode(kind: RedirType, noclobber: bool): Option<OpenMode> {
    match kind
    case Read => Some(ReadOnly)
    case Write => Some(if noclobber then CreateExclusive else CreateTruncate)
    case Append => Some(CreateAppend)
    case ReadWriteBoth => Some(OpenMode.ReadWrite)
    case WriteForce => Some(CreateTruncate)
    case _ => None
  }

  /** The source a move redirection "n>&m-" closes. */
  predicate MovesFrom(r: Redirection, fd: int) {
    && r.target.ToDescriptor? && r.target.text.Some?
    && var p := ParseFd(r.target.text.value); p.Source? && p.fd == fd && p.move
  }

  /** The descriptors r may change: its target and a moved-from source. */
  predicate Touches(r: Redirection, fd: int) {
    DefaultFd(r) == fd || MovesFrom(r, fd)
  }

  predicate Listed(items: seq<Redirection>, fd: int) {
    exists i :: 0 <= i < |items| && Touches(items[i], fd)
  }

  /** Every touched descriptor lies below the backups. */
  ghost predicate LowTargets(items: seq<Redirection>) {
    forall fd :: Listed(items, fd) ==> fd < MIN_BACKUP_FD
  }

  /** A source no backup can be mistaken for. */
  predicate SourceVisible(orig: Descriptors, r: Redirection) {
    r.target.ToDescriptor? && r.target.text.Some? ==>
      match ParseFd(r.target.text.value)
      case Source(fd, _) => fd < MIN_BACKUP_FD || fd in orig
      case _ => true
  }

  // ------------------------------------------------------------- the meaning

  /** Descriptors, the number of open file descriptions made, and what was
      written to them. */
  datatype Effect = Effect(fds: Descriptors, serial: nat, data: map<nat, string>)

  function Unwire(e: Effect, fd: int): Option<Effect> {
    if fd in e.fds then Some(e.(fds := e.fds - {fd})) else None
  }

  /** The plain meaning of one redirection; None is an error. */
  function Meaning(e: Effect, r: Redirection, noclobber: bool): Option<Effect> {
    var t := DefaultFd(r);
    match r.target
    case ToFile(Some(name)) =>
      (match Mode(r.kind, noclobber)
       case Some(how) => Some(e.(fds := e.fds[t := File(name, how, e.serial)], serial := e.serial + 1))
       case None => None)
    case ToDescriptor(Some(text)) =>
      (match ParseFd(text)
       case Bad => None
       case CloseTarget => Unwire(e, t)
       case Source(m, move) =>
         if m !in e.fds then None
         else
           var wired := e.fds[t := e.fds[m]];
           Some(e.(fds := if move && m != t then wired - {m} else wired)))
    case ToNothing => Unwire(e, t)
    case ToBuffer(Some(content)) =>
      var file := if |content| > HEREDOC_PIPE_LIMIT then TempFile(e.serial) else PipeRead(e.serial);
      Some(Effect(e.fds[t := file], e.serial + 1, e.data[e.serial := content]))
    case _ => None
  }

  /** t is closed and is the descriptor the next open would return. */
  ghost predicate NextToOpen(fds: Descriptors, t: int) {
    LowestFree(fds, 0, t)
  }

  predicate MakesFile(r: Redirection) {
    r.target.ToFile? || r.target.ToBuffer?
  }

  /** What the code does. Opening straight onto a closed target makes dup2 a
      no-op, and closing the "temporary" descriptor then closes the target. */
  ghost function CodeMeaning(e: Effect, r: Redirection, noclobber: bool): Option<Effect> {
    var m := Meaning(e, r, noclobber);
    if m.Some? && MakesFile(r) && NextToOpen(e.fds, DefaultFd(r)) then Some(m.value.(fds := e.fds)) else m
  }

  /** One item goes wrong exactly when its target is the next descriptor to open. */
  lemma CodeMeaningIsRight(e: Effect, r: Redirection, noclobber: bool)
    requires Meaning(e, r, noclobber).Some?
    ensures CodeMeaning(e, r, noclobber) == Meaning(e, r, noclobber) <==>
            !(MakesFile(r) && NextToOpen(e.fds, DefaultFd(r)))
  {
    var m := Meaning(e, r, noclobber).value;
    assert MakesFile(r) ==> DefaultFd(r) in m.fds;
  }

  ghost function CodeFold(e: Effect, items: seq<Redirection>, noclobber: bool): Option<Effect> {
    if items == [] then Some(e)
    else
      match CodeFold(e, items[..|items|-1], noclobber)
      case None => None
      case Some(e') => CodeMeaning(e', items[|items|-1], noclobber)
  }

  function Fold(e: Effect, items: seq<Redirection>, noclobber: bool): Option<Effect> {
    if items == [] then Some(e)
    else
      match Fold(e, items[..|items|-1], noclobber)
      case None => None
      case Some(e') => Meaning(e', items[|items|-1], noclobber)
  }

  /** Whether r closes fd: "fd>&-" or the source of a move. */
  predicate Closes(r: Redirection, fd: int) {
    || MovesFrom(r, fd)
    || (DefaultFd(r) == fd && r.target.ToNothing?)
    || (DefaultFd(r) == fd && r.target.ToDescriptor? && r.target.text.Some?
        && ParseFd(r.target.text.value) == CloseTarget)
  }

  /** No file or here-document item targets a descriptor an earlier item closed. */
  ghost predicate NeverReopens(items: seq<Redirection>) {
    forall i, j :: 0 <= i < j < |items| && MakesFile(items[j]) ==> !Closes(items[i], DefaultFd(items[j]))
  }

  /** Then, when every target is open at the start, the code folds the plain meanings. */
  lemma {:induction false} FoldsAgree(e: Effect, items: seq<Redirection>, noclobber: bool)
    requires NeverReopens(items)
    requires forall i :: 0 <= i < |items| ==> DefaultFd(items[i]) in e.fds
    ensures CodeFold(e, items, noclobber) == Fold(e, items, noclobber)
    ensures Fold(e, items, noclobber).Some? ==>
      forall fd :: fd in e.fds && (forall i :: 0 <= i < |items| ==> !Closes(items[i], fd)) ==>
        fd in Fold(e, items, noclobber).value.fds
  {
    if items == [] {
    } else {
      var rest, last := items[..|items|-1], items[|items|-1];
      assert forall i :: 0 <= i < |rest| ==> rest[i] == items[i];
      FoldsAgree(e, rest, noclobber);
      if Fold(e, rest, noclobber).Some? && MakesFile(last) {
        assert forall i :: 0 <= i < |rest| ==> !Closes(rest[i], DefaultFd(last));
      }
    }
  }

  /** Item i makes a file that its target never gets: after the items before
      it, the target is the next descriptor to open. */
  ghost predicate Loses(e: Effect, items: seq<Redirection>, i: nat, noclobber: bool)
    requires i < |items|
  {
    var m := Fold(e, items[..i], noclobber);
    && m.Some? && Meaning(m.value, items[i], noclobber).Some?
    && MakesFile(items[i]) && NextToOpen(m.value.fds, DefaultFd(items[i]))
  }

  ghost predicate SameFold(e: Effect, items: seq<Redirection>, i: nat, noclobber: bool)
    requires i <= |items|
  {
    CodeFold(e, items[..i], noclobber) == Fold(e, items[..i], noclobber)
  }

  lemma SameFoldStep(e: Effect, items: seq<Redirection>, i: nat, noclobber: bool)
    requires i < |items| && SameFold(e, items, i, noclobber)
    ensures SameFold(e, items, i + 1, noclobber) <==> !Loses(e, items, i, noclobber)
  {
    assert items[..i+1][..i] == items[..i];
    var m := Fold(e, items[..i], noclobber);
    if m.Some? && Meaning(m.value, items[i], noclobber).Some? {
      CodeMeaningIsRight(m.value, items[i], noclobber);
    }
  }

  /** The exact condition, for every list: the code follows the plain reading
      item by item if and only if no item loses its file. */
  lemma FoldsAgreeExactly(e: Effect, items: seq<Redirection>, noclobber: bool)
    ensures (forall i :: 0 <= i <= |items| ==> SameFold(e, items, i, noclobber)) <==>
            (forall i :: 0 <= i < |items| ==> !Loses(e, items, i, noclobber))
  {
    assert items[..0] == [] && SameFold(e, items, 0, noclobber);
    forall i | 0 <= i < |items| && SameFold(e, items, i, noclobber)
      ensures SameFold(e, items, i + 1, noclobber) <==> !Loses(e, items, i, noclobber)
    {
      SameFoldStep(e, items, i, noclobber);
    }
    if forall i :: 0 <= i < |items| ==> !Loses(e, items, i, noclobber) {
      for i := 0 to |items|
        invariant forall k :: 0 <= k <= i ==> SameFold(e, items, k, noclobber)
      {
        assert !Loses(e, items, i, noclobber);
      }
    } else {
      var i :| 0 <= i < |items| && Loses(e, items, i, noclobber);
      assert SameFold(e, items, i, noclobber) ==> !SameFold(e, items, i + 1, noclobber);
    }
  }

  /** A list that loses no file ends as the plain reading says. */
  ghost predicate LosesNothing(e: Effect, items: seq<Redirection>, noclobber: bool) {
    forall i :: 0 <= i < |items| ==> !Loses(e, items, i, noclobber)
  }

  lemma LosesNothingFolds(e: Effect, items: seq<Redirection>, noclobber: bool)
    requires LosesNothing(e, items, noclobber)
    ensures CodeFold(e, items, noclobber) == Fold(e, items, noclobber)
  {
    FoldsAgreeExactly(e, items, noclobber);
    assert SameFold(e, items, |items|, noclobber) && items[..|items|] == items;
  }

  /** Without the premise it fails: "1>&- 1>f" leaves 1 closed. */
  lemma ReopeningAClosedDescriptorLosesIt()
    ensures var e := Effect(map[0 := Inherited(0), 1 := Inherited(1)], 0, map[]);
            var items := [Redirection(Write, 1, ToNothing), Redirection(Write, 1, ToFile(Some("f")))];
            && Fold(e, items, false).Some? && 1 in Fold(e, items, false).value.fds
            && CodeFold(e, items, false).Some? && 1 !in CodeFold(e, items, false).value.fds
  {
    var e := Effect(map[0 := Inherited(0), 1 := Inherited(1)], 0, map[]);
    var items := [Redirection(Write, 1, ToNothing), Redirection(Write, 1, ToFile(Some("f")))];
    assert items[..1] == [items[0]] && items[..1][..0] == [];
    assert NextToOpen(e.fds - {1}, 1);
  }

  /** A closed target is refused before anything is opened: "3>f" with 3
      closed opens it by the plain reading, but cannot be applied. */
  lemma ClosedTargetIsRefused(e: Effect, n: nat, name: string, noclobber: bool)
    requires n !in e.fds
    ensures var items := [Redirection(Write, n, ToFile(Some(name)))];
            && Fold(e, items, noclobber).Some? && n in Fold(e, items, noclobber).value.fds
            && Listed(items, n) && !AllOpen(items, e.fds) && Hopeless(e, items, noclobber)
  {
    var items := [Redirection(Write, n, ToFile(Some(name)))];
    assert items[..0] == [];
    assert Touches(items[0], n);
  }

  // ------------------------------------------------------------ in between

  /** Which descriptor each backup is a copy of. */
  function Backups(t: Table): map<int, int> {
    map b | b in t && HasFlag(t, b, Saved) :: t[b].original
  }

  /** fd is one of the descriptors a backup remembers. */
  ghost predicate Covers(backups: map<int, int>, fd: int) {
    exists b :: b in backups && backups[b] == fd
  }

  ghost predicate NothingPending(t: Table) {
    forall fd :: !HasFlag(t, fd, Saved) && !HasFlag(t, fd, Redirected)
  }

  /** b is a backup, out of the way, of orig's descriptor o. */
  predicate BackupOf(orig: Descriptors, fds: Descriptors, b: int, o: int) {
    && b >= MIN_BACKUP_FD && b !in orig && b in fds
    && 0 <= o < MIN_BACKUP_FD && o in orig && fds[b] == orig[o]
  }

  predicate SameAt(a: Descriptors, b: Descriptors, fd: int) {
    (fd in a <==> fd in b) && (fd in a ==> a[fd] == b[fd])
  }

  /** fds differs from orig only where a backup remembers orig. */
  ghost predicate Backed(orig: Descriptors, bk: map<int, int>, fds: Descriptors) {
    && (forall b :: b in bk ==> BackupOf(orig, fds, b, bk[b]))
    && (forall b, c :: b in bk && c in bk && bk[b] == bk[c] ==> b == c)
    && (forall fd :: fd !in bk && !Covers(bk, fd) ==> SameAt(fds, orig, fd))
  }

  ghost predicate RedirectedCovered(t: Table) {
    forall fd :: HasFlag(t, fd, Redirected) ==> Covers(Backups(t), fd)
  }

  ghost predicate InFlight(orig: Descriptors, t: Table, fds: Descriptors) {
    Backed(orig, Backups(t), fds) && RedirectedCovered(t)
  }

  lemma NothingPendingIsInFlight(orig: Descriptors, t: Table)
    requires NothingPending(t)
    ensures Backups(t) == map[] && InFlight(orig, t, orig)
  {
    assert forall b :: b !in Backups(t);
  }

  lemma SettledIsOriginal(orig: Descriptors, t: Table, fds: Descriptors)
    requires InFlight(orig, t, fds) && Backups(t) == map[]
    ensures fds == orig && NothingPending(t)
  {
    var bk := Backups(t);
    assert forall fd :: fd !in bk && !Covers(bk, fd);
    forall fd ensures fd in fds <==> fd in orig {
      assert SameAt(fds, orig, fd);
    }
    forall fd | fd in fds ensures fds[fd] == orig[fd] {
      assert SameAt(fds, orig, fd);
    }
    forall fd ensures !HasFlag(t, fd, Saved) && !HasFlag(t, fd, Redirected) {
      assert HasFlag(t, fd, Saved) ==> fd in Backups(t);
    }
  }

  /** Changing only a covered descriptor, in the kernel and in the table, stays in flight. */
  lemma LocalStep(orig: Descriptors, t: Table, fds: Descriptors, fd: int, t': Table, fds': Descriptors)
    requires InFlight(orig, t, fds) && Covers(Backups(t), fd)
    requires forall k :: k != fd ==> (k in t' <==> k in t) && (k in t ==> t'[k] == t[k])
    requires forall k :: k != fd ==> SameAt(fds', fds, k)
    requires !HasFlag(t', fd, Saved)
    ensures InFlight(orig, t', fds') && Backups(t') == Backups(t)
    ensures fd !in Backups(t)
  {
    var bk := Backups(t);
    assert fd < MIN_BACKUP_FD && fd !in bk;
    assert HasFlag(t, fd, Saved) ==> fd in bk;
    forall k ensures k in Backups(t') <==> k in bk {
      if k != fd {
        assert HasFlag(t', k, Saved) <==> HasFlag(t, k, Saved);
      }
    }
    assert Backups(t') == bk;
    forall b | b in bk ensures BackupOf(orig, fds', b, bk[b]) {
      assert BackupOf(orig, fds, b, bk[b]);
      assert SameAt(fds', fds, b);
    }
    forall k | k !in bk && !Covers(bk, k) ensures SameAt(fds', orig, k) {
      assert SameAt(fds, orig, k) && SameAt(fds', fds, k);
    }
    forall k | HasFlag(t', k, Redirected) ensures Covers(bk, k) {
      assert k != fd ==> HasFlag(t, k, Redirected);
    }
  }

  /** The table after dup'ing fd to the fresh backup b. */
  function Remembered(t: Table, b: int, fd: int, path: string): Table {
    MarkedSaved(Added(t, b, {Saved, CloseOnExec}, path), b, fd)
  }

  lemma SaveStep(orig: Descriptors, t: Table, fds: Descriptors, fd: int, b: int, path: string)
    requires InFlight(orig, t, fds)
    requires fd in fds && 0 <= fd < MIN_BACKUP_FD && !Covers(Backups(t), fd)
    requires b >= MIN_BACKUP_FD && b !in fds
    ensures b !in Backups(t)
    ensures InFlight(orig, Remembered(t, b, fd, path), fds[b := fds[fd]])
    ensures Backups(Remembered(t, b, fd, path)) == Backups(t)[b := fd]
    ensures fds[b := fds[fd]] - Backups(Remembered(t, b, fd, path)).Keys == fds - Backups(t).Keys
    ensures SameAt(fds, orig, fd)
  {
    SaveBacked(orig, Backups(t), fds, fd, b);
    RememberedTable(t, b, fd, path);
    hide *;
    var bk := Backups(t);
    assert fds[b := fds[fd]] - bk[b := fd].Keys == fds - bk.Keys;
  }

  lemma RememberedTable(t: Table, b: int, fd: int, path: string)
    requires RedirectedCovered(t) && b !in Backups(t)
    ensures Backups(Remembered(t, b, fd, path)) == Backups(t)[b := fd]
    ensures RedirectedCovered(Remembered(t, b, fd, path))
  {
    var bk, t' := Backups(t), Remembered(t, b, fd, path);
    var bk' := bk[b := fd];
    assert Backups(t') == bk';
    forall k | HasFlag(t', k, Redirected) ensures Covers(bk', k) {
      assert HasFlag(t, k, Redirected);
      var c :| c in bk && bk[c] == k;
      assert c in bk' && bk'[c] == k;
    }
  }

  lemma SaveBacked(orig: Descriptors, bk: map<int, int>, fds: Descriptors, fd: int, b: int)
    requires Backed(orig, bk, fds)
    requires fd in fds && 0 <= fd < MIN_BACKUP_FD && !Covers(bk, fd)
    requires b >= MIN_BACKUP_FD && b !in fds
    ensures b !in bk && Backed(orig, bk[b := fd], fds[b := fds[fd]])
    ensures SameAt(fds, orig, fd)
  {
    var bk', fds' := bk[b := fd], fds[b := fds[fd]];
    SaveFresh(orig, bk, fds, fd, b);
    forall c | c in bk' ensures BackupOf(orig, fds', c, bk'[c]) {
      assert c != b ==> BackupOf(orig, fds, c, bk[c]);
    }
    forall k | k !in bk' && !Covers(bk', k) ensures SameAt(fds', orig, k) {
      assert b in bk' && bk'[b] == fd;
      CoversMore(bk, b, fd, k);
      assert SameAt(fds, orig, k);
    }
    assert forall c :: c in bk ==> Covers(bk, bk[c]);
  }

  lemma CoveredIsLow(orig: Descriptors, bk: map<int, int>, fds: Descriptors, k: int)
    requires Backed(orig, bk, fds)
    ensures Covers(bk, k) ==> 0 <= k < MIN_BACKUP_FD && k in orig && k !in bk
  {
    forall c | c in bk && bk[c] == k ensures 0 <= k < MIN_BACKUP_FD && k in orig && k !in bk {
      assert BackupOf(orig, fds, c, k);
      assert k in bk ==> BackupOf(orig, fds, k, bk[k]);
    }
  }

  lemma SaveFresh(orig: Descriptors, bk: map<int, int>, fds: Descriptors, fd: int, b: int)
    requires Backed(orig, bk, fds) && fd in fds && 0 <= fd < MIN_BACKUP_FD <= b && b !in fds && !Covers(bk, fd)
    ensures b !in bk && fd !in bk && b !in orig && SameAt(fds, orig, fd)
  {
    assert b in bk ==> BackupOf(orig, fds, b, bk[b]);
    assert fd in bk ==> BackupOf(orig, fds, fd, bk[fd]);
    CoveredIsLow(orig, bk, fds, b);
    assert SameAt(fds, orig, b) && SameAt(fds, orig, fd);
  }

  lemma CoversMore(bk: map<int, int>, b: int, fd: int, k: int)
    requires b !in bk
    ensures Covers(bk, k) ==> Covers(bk[b := fd], k)
  {
    if Covers(bk, k) {
      var c :| c in bk && bk[c] == k;
      assert c in bk[b := fd] && bk[b := fd][c] == k;
    }
  }

  // ---------------------------------------------------------------- restore

  datatype State = State(fds: Descriptors, table: Table)

  /** What the restore loop does for the saved descriptor b. */
  function RestoreOne(s: State, b: int, openMax: nat): State {
    var o := if b in s.table then s.table[b].original else -1;
    if o < 0 then
      State(s.fds - {b}, OpenSet(s.table, b, false) - {b})
    else
      var ok := b in s.fds && o < openMax;
      var fds := if ok then s.fds[o := s.fds[b]] else s.fds;
      var table := if ok then OpenSet(s.table, o, true) else s.table;
      State(fds - {b}, OpenSet(FlagCleared(table, o, Redirected), b, false) - {b})
  }

  function RestoreAll(s: State, order: seq<int>, openMax: nat): State {
    if order == [] then s
    else RestoreOne(RestoreAll(s, order[..|order|-1], openMax), order[|order|-1], openMax)
  }

  lemma RestoreStep(orig: Descriptors, s: State, b: int, openMax: nat)
    requires InFlight(orig, s.table, s.fds) && b in Backups(s.table) && openMax >= MIN_BACKUP_FD
    ensures var s' := RestoreOne(s, b, openMax);
            InFlight(orig, s'.table, s'.fds) && Backups(s'.table) == Backups(s.table) - {b}
  {
    var bk := Backups(s.table);
    var o := bk[b];
    assert BackupOf(orig, s.fds, b, o);
    var s' := RestoreOne(s, b, openMax);
    assert o !in bk by { assert o in bk ==> BackupOf(orig, s.fds, o, bk[o]); }
    var bk' := bk - {b};
    assert Backups(s'.table) == bk';
    forall c | c in bk' ensures BackupOf(orig, s'.fds, c, bk'[c]) {
      assert BackupOf(orig, s.fds, c, bk[c]);
    }
    CoversOthers(bk, b);
    forall k | k !in bk' && !Covers(bk', k) ensures SameAt(s'.fds, orig, k) {
      assert k != b && k != o ==> SameAt(s.fds, orig, k);
    }
    forall k | HasFlag(s'.table, k, Redirected) ensures Covers(bk', k) {
      assert HasFlag(s.table, k, Redirected) && k != o;
    }
  }

  lemma CoversOthers(bk: map<int, int>, b: int)
    requires b in bk
    ensures forall v :: Covers(bk, v) && v != bk[b] ==> Covers(bk - {b}, v)
  {
    forall v | Covers(bk, v) && v != bk[b] ensures Covers(bk - {b}, v) {
      var c :| c in bk && bk[c] == v;
      assert (bk - {b})[c] == v;
    }
  }

  lemma {:induction false} RestorePrefix(orig: Descriptors, s: State, order: seq<int>, openMax: nat)
    requires InFlight(orig, s.table, s.fds) && openMax >= MIN_BACKUP_FD
    requires forall i, j :: 0 <= i < j < |order| ==> order[i] != order[j]
    requires forall i :: 0 <= i < |order| ==> order[i] in Backups(s.table)
    ensures var s' := RestoreAll(s, order, openMax);
            InFlight(orig, s'.table, s'.fds) && Backups(s'.table) == Backups(s.table) - (set b | b in order)
  {
    hide InFlight, Backups, RestoreOne;
    if order == [] {
    } else {
      var rest, b := order[..|order|-1], order[|order|-1];
      RestorePrefix(orig, s, rest, openMax);
      assert b !in rest;
      RestoreStep(orig, RestoreAll(s, rest, openMax), b, openMax);
      assert (set x | x in order) == (set x | x in rest) + {b};
    }
  }

  /** Restoring every backup, in whatever order the table lists them, gives
      back the original descriptors and leaves nothing pending. */
  lemma RestoreUndoes(orig: Descriptors, s: State, order: seq<int>, openMax: nat)
    requires InFlight(orig, s.table, s.fds) && openMax >= MIN_BACKUP_FD
    requires forall i, j :: 0 <= i < j < |order| ==> order[i] != order[j]
    requires forall b :: b in order <==> b in Backups(s.table)
    ensures var s' := RestoreAll(s, order, openMax);
            s'.fds == orig && NothingPending(s'.table)
  {
    assert forall i :: 0 <= i < |order| ==> order[i] in order;
    RestorePrefix(orig, s, order, openMax);
    var s' := RestoreAll(s, order, openMax);
    assert forall b :: b in Backups(s.table) ==> b in (set x | x in order);
    assert forall b :: b !in Backups(s'.table);
    assert Backups(s'.table) == map[];
    SettledIsOriginal(orig, s'.table, s'.fds);
  }

  /** A backup is a descriptor the list itself can name: a plain fold refuses
      it as a source, the code finds it open. */
  lemma BackupsAreVisibleSources(orig: Descriptors, t: Table, e: Effect, b: nat, n: nat)
    requires InFlight(orig, t, e.fds) && b in Backups(t) && b <= INT_MAX
    ensures var r := Redirection(DupOut, n, ToDescriptor(Some(Decimal(b))));
            && CodeMeaning(e, r, false) == Some(e.(fds := e.fds[n := orig[Backups(t)[b]]]))
            && Meaning(Visible(e, t), r, false) == None
            && !SourceVisible(orig, r)
  {
    assert BackupOf(orig, e.fds, b, Backups(t)[b]);
    DecimalRoundTrip(b, false);
    assert Decimal(b) + "" == Decimal(b);
  }

  // ------------------------------------------------------------ table steps

  function SavedName(fd: nat): string { "(saved copy of fd " + Decimal(fd) + ")" }

  function RedirectedName(source: nat): string { "(redirected fd " + Decimal(source) + ")" }

  function StreamName(fd: nat): string {
    if fd == 0 then "(stdin)" else if fd == 1 then "(stdout)" else if fd == 2 then "(stderr)"
    else "(fd " + Decimal(fd) + ")"
  }

  function Unwired(t: Table, fd: int): Table {
    FlagCleared(OpenSet(t, fd, false), fd, Redirected)
  }

  function Rewired(t: Table, fd: int, path: string): Table {
    Added(t, fd, {Redirected}, path)
  }

  /** The table after an item succeeded. */
  function TableAfter(t: Table, r: Redirection): Table {
    var fd := DefaultFd(r);
    match r.target
    case ToFile(Some(name)) => Rewired(t, fd, name)
    case ToBuffer(_) => Rewired(t, fd, StreamName(fd))
    case ToDescriptor(Some(text)) =>
      (match ParseFd(text)
       case Source(m, move) =>
         var t' := Rewired(t, fd, RedirectedName(m));
         if move && m != fd then OpenSet(t', m, false) - {m} else t'
       case _ => Unwired(t, fd))
    case _ => Unwired(t, fd)
  }

  /** One successful item keeps the state in flight. */
  lemma InFlightStep(orig: Descriptors, t: Table, e: Effect, r: Redirection, noclobber: bool)
    requires InFlight(orig, t, e.fds) && CodeMeaning(e, r, noclobber).Some?
    requires forall fd :: Touches(r, fd) ==> Covers(Backups(t), fd)
    ensures InFlight(orig, TableAfter(t, r), CodeMeaning(e, r, noclobber).value.fds)
    ensures Backups(TableAfter(t, r)) == Backups(t)
  {
    hide InFlight, Backups, Covers;
    var fd := DefaultFd(r);
    var fds' := CodeMeaning(e, r, noclobber).value.fds;
    assert Touches(r, fd);
    if r.target.ToDescriptor? && ParseFd(r.target.text.value).Source? {
      var Source(m, move) := ParseFd(r.target.text.value);
      var t', wired := Rewired(t, fd, RedirectedName(m)), e.fds[fd := e.fds[m]];
      LocalStep(orig, t, e.fds, fd, t', wired);
      if move && m != fd {
        assert Touches(r, m);
        LocalStep(orig, t', wired, m, OpenSet(t', m, false) - {m}, wired - {m});
      }
    } else if r.target.ToFile? || r.target.ToBuffer? {
      LocalStep(orig, t, e.fds, fd, TableAfter(t, r), fds');
    } else {
      NoSavedFlag(orig, t, e.fds, fd);
      LocalStep(orig, t, e.fds, fd, Unwired(t, fd), fds');
    }
  }

  lemma NoSavedFlag(orig: Descriptors, t: Table, fds: Descriptors, fd: int)
    requires InFlight(orig, t, fds) && Covers(Backups(t), fd)
    ensures !HasFlag(t, fd, Saved)
  {
    CoveredIsLow(orig, Backups(t), fds, fd);
    assert HasFlag(t, fd, Saved) ==> fd in Backups(t);
  }

  function Visible(e: Effect, t: Table): Effect {
    e.(fds := e.fds - Backups(t).Keys)
  }

  /** An item does the same to the descriptors a script can see as it would
      if there were no backups. */
  lemma BackupsChangeNothing(orig: Descriptors, t: Table, e: Effect, r: Redirection, noclobber: bool)
    requires InFlight(orig, t, e.fds) && CodeMeaning(e, r, noclobber).Some?
    requires forall fd :: Touches(r, fd) ==> Covers(Backups(t), fd)
    requires SourceVisible(orig, r)
    ensures CodeMeaning(Visible(e, t), r, noclobber) == Some(CodeMeaning(e, r, noclobber).value.(
              fds := CodeMeaning(e, r, noclobber).value.fds - Backups(t).Keys))
  {
    var bk, fd := Backups(t), DefaultFd(r);
    assert Touches(r, fd);
    CoveredIsLow(orig, bk, e.fds, fd);
    BackupsAreHigh(orig, bk, e.fds);
    hide Covers, Backed, InFlight, Backups, Touches, LowestFree, NextToOpen, CodeMeaning;
    if r.target.ToDescriptor? && ParseFd(r.target.text.value).Source? {
      var Source(m, move) := ParseFd(r.target.text.value);
      assert m !in bk;
      SourceBesides(bk.Keys, e, r, noclobber, m, move);
    } else {
      OtherBesides(bk.Keys, e, r, noclobber);
    }
  }

  /** Taking away descriptors an item has nothing to do with. */
  function Without(e: Effect, backups: set<int>): Effect {
    e.(fds := e.fds - backups)
  }

  lemma SourceBesides(backups: set<int>, e: Effect, r: Redirection, noclobber: bool, m: nat, move: bool)
    requires r.target.ToDescriptor? && r.target.text.Some? && ParseFd(r.target.text.value) == Source(m, move)
    requires CodeMeaning(e, r, noclobber).Some? && DefaultFd(r) !in backups && m !in backups
    ensures CodeMeaning(Without(e, backups), r, noclobber) ==
            Some(Without(CodeMeaning(e, r, noclobber).value, backups))
  {
    hide NextToOpen, ParseFd, DefaultFd;
    var fd, v := DefaultFd(r), e.fds - backups;
    assert e.fds[fd := e.fds[m]] - backups == v[fd := v[m]];
    assert e.fds[fd := e.fds[m]] - {m} - backups == v[fd := v[m]] - {m};
  }

  lemma OtherBesides(backups: set<int>, e: Effect, r: Redirection, noclobber: bool)
    requires r.target.ToDescriptor? && r.target.text.Some? ==> !ParseFd(r.target.text.value).Source?
    requires CodeMeaning(e, r, noclobber).Some? && DefaultFd(r) < MIN_BACKUP_FD
    requires forall b :: b in backups ==> b >= MIN_BACKUP_FD
    ensures CodeMeaning(Without(e, backups), r, noclobber) ==
            Some(Without(CodeMeaning(e, r, noclobber).value, backups))
  {
    hide NextToOpen, ParseFd, DefaultFd;
    var fd, v := DefaultFd(r), e.fds - backups;
    SameNextToOpen(e.fds, backups, fd);
    if MakesFile(r) {
      var f := Meaning(e, r, noclobber).value.fds[fd];
      assert e.fds[fd := f] - backups == v[fd := f];
    } else {
      assert e.fds - {fd} - backups == v - {fd};
    }
  }

  /** The exact condition for one item the code carries out: it means anything
      at all without the backups if and only if its source is none of them. */
  lemma BackupSourcesMeanAnError(orig: Descriptors, t: Table, e: Effect, r: Redirection, noclobber: bool)
    requires InFlight(orig, t, e.fds) && CodeMeaning(e, r, noclobber).Some?
    requires forall fd :: Touches(r, fd) ==> Covers(Backups(t), fd)
    ensures CodeMeaning(Visible(e, t), r, noclobber).Some? <==> SourceVisible(orig, r)
  {
    if SourceVisible(orig, r) {
      BackupsChangeNothing(orig, t, e, r, noclobber);
    } else {
      var Source(m, move) := ParseFd(r.target.text.value);
      HighIsBackupOrOriginal(orig, t, e.fds, m);
    }
  }

  lemma HighIsBackupOrOriginal(orig: Descriptors, t: Table, fds: Descriptors, m: int)
    requires InFlight(orig, t, fds) && m >= MIN_BACKUP_FD
    ensures m in Backups(t) || SameAt(fds, orig, m)
  {
    if Covers(Backups(t), m) {
      CoveredIsLow(orig, Backups(t), fds, m);
      assert false;
    }
  }

  /** Nor does a backup make an item succeed that would fail without it. */
  lemma BackupsAddNoFailure(e: Effect, t: Table, r: Redirection, noclobber: bool)
    requires CodeMeaning(e, r, noclobber) == None
    ensures CodeMeaning(Visible(e, t), r, noclobber) == None
  {
  }

  lemma SameNextToOpen(fds: Descriptors, backups: set<int>, fd: int)
    requires forall b :: b in backups ==> b >= MIN_BACKUP_FD
    requires fd < MIN_BACKUP_FD
    ensures NextToOpen(fds - backups, fd) <==> NextToOpen(fds, fd)
  {
    var v := fds - backups;
    assert forall k :: k < MIN_BACKUP_FD ==> (k in v <==> k in fds);
  }

  lemma BackupsAreHigh(orig: Descriptors, bk: map<int, int>, fds: Descriptors)
    requires Backed(orig, bk, fds)
    ensures forall b :: b in bk ==> b >= MIN_BACKUP_FD && b !in orig
  {
    forall b | b in bk ensures b >= MIN_BACKUP_FD && b !in orig {
      assert BackupOf(orig, fds, b, bk[b]);
    }
  }

  // ------------------------------------------------------ phase by phase

  ghost predicate AllLow(will: seq<bool>) {
    forall fd :: 0 <= fd < |will| && will[fd] ==> fd < MIN_BACKUP_FD
  }

  /** Exactly the marked descriptors below fd are backed up, and nothing else changed. */
  ghost predicate Saving(orig: Descriptors, will: seq<bool>, fd: nat, t: Table, fds: Descriptors) {
    var bk := Backups(t);
    && fd <= |will|
    && InFlight(orig, t, fds)
    && (forall k :: !HasFlag(t, k, Redirected))
    && fds - bk.Keys == orig
    && (forall k :: Covers(bk, k) <==> 0 <= k < fd && will[k])
    && (forall k :: 0 <= k < fd && will[k] ==> k in orig)
  }

  lemma StartSaving(orig: Descriptors, will: seq<bool>, t: Table)
    requires NothingPending(t)
    ensures Saving(orig, will, 0, t, orig)
  {
    NothingPendingIsInFlight(orig, t);
  }

  lemma SavingFacts(orig: Descriptors, will: seq<bool>, fd: nat, t: Table, fds: Descriptors)
    requires Saving(orig, will, fd, t, fds)
    ensures InFlight(orig, t, fds) && !HasFlag(t, fd, Redirected)
    ensures fd < |will| && !will[fd] ==> Saving(orig, will, fd + 1, t, fds)
  {
  }

  lemma SavedOne(orig: Descriptors, will: seq<bool>, fd: nat, t: Table, fds: Descriptors, b: int, path: string)
    requires Saving(orig, will, fd, t, fds) && AllLow(will)
    requires fd < |will| && will[fd] && fd in fds
    requires LowestFree(fds, MIN_BACKUP_FD, b)
    ensures Saving(orig, will, fd + 1, Remembered(t, b, fd, path), fds[b := fds[fd]])
  {
    var bk, t' := Backups(t), Remembered(t, b, fd, path);
    SaveStep(orig, t, fds, fd, b, path);
    hide InFlight, Backups;
    CoversOneMore(bk, b, fd);
    assert Backups(t') == bk[b := fd] && fd in orig;
    assert forall k :: Covers(Backups(t'), k) <==> 0 <= k < fd + 1 && will[k];
    forall k ensures !HasFlag(t', k, Redirected) {
      assert !HasFlag(t, k, Redirected);
    }
  }

  lemma CoversOneMore(bk: map<int, int>, b: int, fd: int)
    requires b !in bk
    ensures forall k :: Covers(bk[b := fd], k) <==> Covers(bk, k) || k == fd
  {
    var bk' := bk[b := fd];
    forall k ensures Covers(bk', k) <==> Covers(bk, k) || k == fd {
      CoversMore(bk, b, fd, k);
      assert b in bk' && bk'[b] == fd;
      if Covers(bk', k) && k != fd {
        var c :| c in bk' && bk'[c] == k;
        assert c in bk && bk[c] == k;
      }
    }
  }

  /** The theorem's premise: nothing saved or redirected at entry, and every
      touched descriptor below the backups. */
  ghost predicate Premise(items: seq<Redirection>, t: Table, openMax: nat) {
    NothingPending(t) && LowTargets(items) && openMax >= MIN_BACKUP_FD
  }

  ghost predicate AllVisible(orig: Descriptors, items: seq<Redirection>) {
    forall i :: 0 <= i < |items| ==> SourceVisible(orig, items[i])
  }

  /** Every touched descriptor is open. */
  ghost predicate AllOpen(items: seq<Redirection>, fds: Descriptors) {
    forall fd :: Listed(items, fd) ==> fd in fds
  }

  lemma OpenListFolds(e: Effect, items: seq<Redirection>, noclobber: bool)
    requires AllOpen(items, e.fds)
    ensures NeverReopens(items) ==> CodeFold(e, items, noclobber) == Fold(e, items, noclobber)
  {
    if NeverReopens(items) {
      forall i | 0 <= i < |items| ensures DefaultFd(items[i]) in e.fds {
        assert Touches(items[i], DefaultFd(items[i]));
        assert Listed(items, DefaultFd(items[i]));
      }
      FoldsAgree(e, items, noclobber);
    }
  }

  /** Why the code gives up although no system call was refused: a touched
      descriptor is not open, or the list means an error. */
  ghost predicate Hopeless(e: Effect, items: seq<Redirection>, noclobber: bool) {
    !AllOpen(items, e.fds) || CodeFold(e, items, noclobber) == None
  }

  lemma {:induction false} FoldStops(e: Effect, items: seq<Redirection>, i: nat, noclobber: bool)
    requires i <= |items| && CodeFold(e, items[..i], noclobber) == None
    ensures CodeFold(e, items, noclobber) == None
  {
    if i == |items| {
      assert items[..i] == items;
    } else {
      assert items[..|items|-1][..i] == items[..i];
      FoldStops(e, items[..|items|-1], i, noclobber);
    }
  }

  /** After i items the code has done what its fold says, and the fold is an
      error exactly when a source was a backup. */
  ghost predicate FoldedTo(e0: Effect, items: seq<Redirection>, i: nat, t: Table, e: Effect, noclobber: bool)
    requires i <= |items|
  {
    CodeFold(e0, items[..i], noclobber) == if AllVisible(e0.fds, items[..i]) then Some(Visible(e, t)) else None
  }

  lemma ItemFailed(e0: Effect, items: seq<Redirection>, i: nat, t: Table, e: Effect, noclobber: bool)
    requires i < |items| && CodeMeaning(e, items[i], noclobber) == None
    requires FoldedTo(e0, items, i, t, e, noclobber)
    ensures Hopeless(e0, items, noclobber)
  {
    BackupsAddNoFailure(e, t, items[i], noclobber);
    assert items[..i+1][..i] == items[..i];
    FoldStops(e0, items, i + 1, noclobber);
  }

  lemma SaveFailed(orig: Descriptors, will: seq<bool>, fd: nat, t: Table, fds: Descriptors)
    requires Saving(orig, will, fd, t, fds) && AllLow(will) && fd < |will| && will[fd] && fd !in fds
    ensures exists k :: 0 <= k < |will| && will[k] && k !in orig
  {
    assert fd !in (fds - Backups(t).Keys);
  }

  ghost predicate AllCovered(items: seq<Redirection>, bk: map<int, int>) {
    forall fd :: Listed(items, fd) ==> Covers(bk, fd)
  }

  lemma NothingToApply(e: Effect, t: Table, openMax: nat, noclobber: bool)
    requires NothingPending(t)
    ensures InFlight(e.fds, t, e.fds) && FoldedTo(e, [], 0, t, e, noclobber)
    ensures AllOpen([], e.fds)
  {
    NothingPendingIsInFlight(e.fds, t);
    assert e.fds - Backups(t).Keys == e.fds;
  }

  lemma ListedAreLow(items: seq<Redirection>, will: seq<bool>)
    requires LowTargets(items)
    requires forall fd :: 0 <= fd < |will| ==> (will[fd] <==> Listed(items, fd))
    ensures AllLow(will)
  {
  }

  lemma NotAllOpen(e: Effect, items: seq<Redirection>, will: seq<bool>, noclobber: bool)
    requires forall fd :: 0 <= fd < |will| ==> (will[fd] <==> Listed(items, fd))
    requires exists k :: 0 <= k < |will| && will[k] && k !in e.fds
    ensures Hopeless(e, items, noclobber)
  {
  }

  lemma TargetIsLow(items: seq<Redirection>, i: nat)
    requires LowTargets(items) && i < |items|
    ensures DefaultFd(items[i]) < MIN_BACKUP_FD
  {
    assert Touches(items[i], DefaultFd(items[i]));
    assert Listed(items, DefaultFd(items[i]));
  }

  lemma SavedAll(e: Effect, items: seq<Redirection>, will: seq<bool>, t: Table, e': Effect, noclobber: bool)
    requires LowTargets(items) && |will| >= MIN_BACKUP_FD && Saving(e.fds, will, |will|, t, e'.fds)
    requires e'.serial == e.serial && e'.data == e.data
    requires forall fd :: 0 <= fd < |will| ==> (will[fd] <==> Listed(items, fd))
    ensures InFlight(e.fds, t, e'.fds) && AllCovered(items, Backups(t))
    ensures AllOpen(items, e.fds)
    ensures FoldedTo(e, items, 0, t, e', noclobber)
  {
    assert items[..0] == [];
    forall fd | Listed(items, fd) ensures Covers(Backups(t), fd) && fd in e.fds {
      assert 0 <= fd < MIN_BACKUP_FD;
      assert will[fd];
    }
  }

  lemma ItemApplied(e0: Effect, items: seq<Redirection>, i: nat, t: Table, e: Effect, e': Effect, noclobber: bool)
    requires i < |items| && AllCovered(items, Backups(t)) && InFlight(e0.fds, t, e.fds)
    requires CodeMeaning(e, items[i], noclobber) == Some(e')
    ensures InFlight(e0.fds, TableAfter(t, items[i]), e'.fds)
    ensures Backups(TableAfter(t, items[i])) == Backups(t)
    ensures FoldedTo(e0, items, i, t, e, noclobber) ==>
      FoldedTo(e0, items, i + 1, TableAfter(t, items[i]), e', noclobber)
  {
    hide InFlight, Backups, Covers, CodeMeaning, TableAfter;
    forall fd | Touches(items[i], fd) ensures Covers(Backups(t), fd) {
      assert Listed(items, fd);
    }
    InFlightStep(e0.fds, t, e, items[i], noclobber);
    VisibleMore(e0.fds, items, i);
    assert items[..i+1][..i] == items[..i];
    BackupSourcesMeanAnError(e0.fds, t, e, items[i], noclobber);
    if SourceVisible(e0.fds, items[i]) {
      BackupsChangeNothing(e0.fds, t, e, items[i], noclobber);
    }
  }

  lemma VisibleMore(orig: Descriptors, items: seq<Redirection>, i: nat)
    requires i < |items|
    ensures AllVisible(orig, items[..i+1]) <==> AllVisible(orig, items[..i]) && SourceVisible(orig, items[i])
  {
    assert forall k :: 0 <= k < i ==> items[..i+1][k] == items[..i][k];
    assert items[..i+1][i] == items[i];
  }

  /** What the whole list has come to. */
  lemma ListFolded(e0: Effect, items: seq<Redirection>, t: Table, e: Effect, noclobber: bool)
    requires AllOpen(items, e0.fds) && FoldedTo(e0, items, |items|, t, e, noclobber)
    ensures AllVisible(e0.fds, items) <==> CodeFold(e0, items, noclobber).Some?
    ensures AllVisible(e0.fds, items) ==>
      && CodeFold(e0, items, noclobber) == Some(Visible(e, t))
      && (LosesNothing(e0, items, noclobber) || NeverReopens(items) ==>
            Fold(e0, items, noclobber) == Some(Visible(e, t)))
  {
    hide AllOpen, AllVisible, CodeFold, Fold, Visible, LosesNothing, NeverReopens;
    assert items[..|items|] == items;
    OpenListFolds(e0, items, noclobber);
    if LosesNothing(e0, items, noclobber) {
      LosesNothingFolds(e0, items, noclobber);
    }
  }

  // ------------------------------------------------- one item, in plain words

  /** The descriptor an item is for: the one written before it, else standard
      input for "<", "<>" and here-documents and standard output for the rest,
      "<&" included. */
  predicate Aims(r: Redirection, n: int) {
    if r.explicitFd >= 0 then n == r.explicitFd
    else
      || (n == 0 && r.kind in {Read, ReadWriteBoth, FromBuffer, FromBufferStrip})
      || (n == 1 && r.kind in {Write, Append, WriteForce, DupIn, DupOut})
  }

  predicate OpensAs(kind: RedirType, noclobber: bool, how: OpenMode) {
    || (kind == Read && how == ReadOnly)
    || (kind == Write && how == if noclobber then CreateExclusive else CreateTruncate)
    || (kind == WriteForce && how == CreateTruncate)
    || (kind == Append && how == CreateAppend)
    || (kind == ReadWriteBoth && how == OpenMode.ReadWrite)
  }

  /** Only descriptor n differs, and it is f. */
  predicate OnlyWired(before: Effect, after: Effect, n: int, f: OpenFile) {
    after.fds == before.fds[n := f]
  }

  /** What one item for descriptor n has done to the visible descriptors. */
  ghost predicate OneItemDone(before: Effect, after: Effect, r: Redirection, n: int, noclobber: bool) {
    match r.target
    case ToFile(Some(name)) =>
      && n in after.fds && after.fds[n].File? && after.fds[n].name == name && after.fds[n].serial == before.serial
      && OpensAs(r.kind, noclobber, after.fds[n].how) && OnlyWired(before, after, n, after.fds[n])
      && after.serial == before.serial + 1 && after.data == before.data
    case ToBuffer(Some(content)) =>
      && OnlyWired(before, after, n, if |content| > 4096 then TempFile(before.serial) else PipeRead(before.serial))
      && after.serial == before.serial + 1 && after.data == before.data[before.serial := content]
    case ToNothing => n in before.fds && after == before.(fds := before.fds - {n})
    case ToDescriptor(Some(text)) =>
      && (text == "-" ==> n in before.fds && after == before.(fds := before.fds - {n}))
      && (forall m: nat :: m <= 2147483647 && text == Decimal(m) ==>
            m in before.fds && after == before.(fds := before.fds[n := before.fds[m]]))
      && (forall m: nat :: m <= 2147483647 && m != n && text == Decimal(m) + "-" ==>
            m in before.fds && after == before.(fds := before.fds[n := before.fds[m]] - {m}))
    case _ => false
  }

  lemma OneItemMeans(e: Effect, r: Redirection, n: int, noclobber: bool, e': Effect)
    requires Aims(r, n) && AllOpen([r], e.fds) && CodeFold(e, [r], noclobber) == Some(e')
    ensures OneItemDone(e, e', r, n, noclobber)
  {
    assert DefaultFd(r) == n;
    assert Touches([r][0], n) && Listed([r], n);
    assert [r][..0] == [];
    assert CodeMeaning(e, r, noclobber) == Some(e');
    hide AllOpen, Listed, CodeFold, ParseFd;
    match r.target {
      case ToDescriptor(Some(text)) => DescriptorItemMeans(e, r, n, noclobber, e', text);
      case _ =>
    }
  }

  lemma DescriptorItemMeans(e: Effect, r: Redirection, n: int, noclobber: bool, e': Effect, text: string)
    requires DefaultFd(r) == n && r.target == ToDescriptor(Some(text)) && CodeMeaning(e, r, noclobber) == Some(e')
    ensures OneItemDone(e, e', r, n, noclobber)
  {
    hide DefaultFd, ParseFd;
    if text == "-" {
      DashCloses();
    }
    forall m: nat | m <= 2147483647 && text == Decimal(m)
      ensures m in e.fds && e' == e.(fds := e.fds[n := e.fds[m]])
    {
      DecimalRoundTrip(m, false);
      assert Decimal(m) + "" == Decimal(m);
    }
    forall m: nat | m <= 2147483647 && m != n && text == Decimal(m) + "-"
      ensures m in e.fds && e' == e.(fds := e.fds[n := e.fds[m]] - {m})
    {
      DecimalRoundTrip(m, true);
    }
  }

  lemma DashCloses()
    ensures ParseFd("-") == CloseTarget
  {
    assert AllBlank("-"[1..]);
    SpelledIsRead("-", CloseTarget, 0, 0, 0);
  }

  /** An item that names no descriptor meets the premises as soon as its own
      descriptor is low. */
  lemma OneItemIsLow(r: Redirection, n: int, t: Table, openMax: nat, orig: Descriptors)
    requires Aims(r, n) && n < 10 && !r.target.ToDescriptor? && NothingPending(t) && openMax >= 10
    ensures Premise([r], t, openMax) && AllVisible(orig, [r])
  {
    assert DefaultFd(r) == n;
    forall fd | Listed([r], fd) ensures fd < MIN_BACKUP_FD {
      assert Touches(r, fd);
    }
  }

  lemma BackupsAreSaved(t: Table)
    ensures forall b :: b in Backups(t) <==> HasFlag(t, b, Saved)
  {
  }

  lemma RestoreNothing(s: State, openMax: nat)
    ensures RestoreAll(s, [], openMax) == s
  {
  }

  lemma RestoreNext(s: State, order: seq<int>, i: nat, openMax: nat)
    requires i < |order|
    ensures RestoreAll(s, order[..i+1], openMax) == RestoreOne(RestoreAll(s, order[..i], openMax), order[i], openMax)
  {
    assert order[..i+1][..i] == order[..i];
  }

  // ------------------------------------------------------- safe slots

  /** The parked slots are low copies of fd on top of before. */
  ghost predicate Parked(before: Descriptors, slots: set<int>, now: Descriptors, fd: int) {
    && (forall p :: p in slots ==> 0 <= p < MIN_BACKUP_FD && p !in before)
    && now - slots == before
    && slots <= now.Keys
    && (fd in now ==> fd in before && now[fd] == before[fd])
  }

  lemma ParkOne(before: Descriptors, slots: set<int>, now: Descriptors, fd: int, dup: int)
    requires Parked(before, slots, now, fd) && fd in now && LowestFree(now, 0, dup)
    ensures dup !in slots
    ensures dup < MIN_BACKUP_FD ==> Parked(before, slots + {dup}, now[dup := now[fd]], fd) && |slots| < MIN_BACKUP_FD
    ensures dup >= MIN_BACKUP_FD ==>
      && fd in before && LowestFree(before, MIN_BACKUP_FD, dup)
      && now[dup := now[fd]] - slots == before[dup := before[fd]]
  {
    if dup < MIN_BACKUP_FD {
      Pigeonhole(slots + {dup}, MIN_BACKUP_FD);
      assert now[dup := now[fd]] - (slots + {dup}) == now - slots;
    } else {
      assert now[dup := now[fd]] - slots == (now - slots)[dup := now[fd]];
      assert forall k :: MIN_BACKUP_FD <= k < dup ==> k in now - slots;
    }
  }

  lemma {:induction false} Pigeonhole(slots: set<int>, n: nat)
    requires forall p :: p in slots ==> 0 <= p < n
    ensures |slots| <= n
  {
    if n == 0 {
      assert forall p :: p !in slots;
      assert slots <= {};
    } else {
      Pigeonhole(slots - {n - 1}, n - 1);
    }
  }
}
