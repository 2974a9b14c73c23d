/** Applying and restoring redirections (src/exec_redirect.c) over the kernel
    and the shell's descriptor table. */
module Redirect {
  import opened Options
  import opened Kernel
  import opened FdTable
  import opened FdNumber
  import opened RedirectState

  class Frame {
    const kernel: Kernel
    const fds: FdTable
    const noclobber: bool
    const setSize: SetSize

    constructor (kernel: Kernel, fds: FdTable, noclobber: bool, setSize: SetSize)
      ensures this.kernel == kernel && this.fds == fds && this.noclobber == noclobber && this.setSize == setSize
    {
      this.kernel, this.fds, this.noclobber, this.setSize := kernel, fds, noclobber, setSize;
    }

    ghost function Now(): (e: Effect)
      reads kernel
      ensures e == Effect(kernel.fds, kernel.serial, kernel.data)
    {
      Effect(kernel.fds, kernel.serial, kernel.data)
    }

    // --------------------------------------------------------- wiring one fd

    /** open, dup2, close. */
    method WireFile(target: int, name: string, how: OpenMode) returns (ok: bool)
      requires fds.Valid()
      modifies kernel, fds, fds.entries
      ensures fds.Valid() && (fds.entries == old(fds.entries) || fresh(fds.entries))
      ensures kernel.refusals >= old(kernel.refusals)
      ensures !ok ==> kernel.fds == old(kernel.fds) && fds.contents == old(fds.contents)
      ensures !ok && kernel.refusals == old(kernel.refusals) ==> !(0 <= target < kernel.openMax)
      ensures ok ==> kernel.serial == old(kernel.serial) + 1 && kernel.data == old(kernel.data)
      ensures ok ==> kernel.fds == if NextToOpen(old(kernel.fds), target) then old(kernel.fds)
                                   else old(kernel.fds)[target := File(name, how, old(kernel.serial))]
      ensures ok ==> fds.contents == Rewired(old(fds.contents), target, name)
    {
      var newfd := kernel.Open(name, how);
      if newfd < 0 {
        return false;
      }
      var r := kernel.Dup2(newfd, target);
      if r < 0 {
        var _ := kernel.Close(newfd);
        assert kernel.fds == old(kernel.fds);
        return false;
      }
      var _ := kernel.Close(newfd);
      OnlyOneLowest(old(kernel.fds), newfd, target);
      fds.Add(target, {Redirected}, name);
      return true;
    }

    lemma OnlyOneLowest(m: Descriptors, a: int, b: int)
      requires NextToOpen(m, a)
      ensures NextToOpen(m, b) <==> a == b
    {
      assert b < 0 || b < a ==> b < 0 || b in m;
    }

    /** Text over the pipe limit goes through an unlinked temporary file, the
        rest through a pipe. */
    method WireBuffer(target: nat, content: string) returns (ok: bool)
      requires fds.Valid()
      modifies kernel, fds, fds.entries
      ensures fds.Valid() && (fds.entries == old(fds.entries) || fresh(fds.entries))
      ensures kernel.refusals >= old(kernel.refusals)
      ensures !ok ==> kernel.fds == old(kernel.fds) && fds.contents == old(fds.contents)
      ensures !ok && kernel.refusals == old(kernel.refusals) ==> !(0 <= target < kernel.openMax)
      ensures ok ==>
        kernel.serial == old(kernel.serial) + 1 && kernel.data == old(kernel.data)[old(kernel.serial) := content]
      ensures ok ==> kernel.fds == if NextToOpen(old(kernel.fds), target) then old(kernel.fds)
                                   else old(kernel.fds)[target := if |content| > HEREDOC_PIPE_LIMIT
                                                                  then TempFile(old(kernel.serial))
                                                                  else PipeRead(old(kernel.serial))]
      ensures ok ==> fds.contents == Rewired(old(fds.contents), target, StreamName(target))
    {
      if |content| > HEREDOC_PIPE_LIMIT {
        ok := WireTemp(target, content);
      } else {
        ok := WirePipe(target, content);
      }
      if ok {
        fds.Add(target, {Redirected}, StreamName(target));
      }
    }

    method WireTemp(target: nat, content: string) returns (ok: bool)
      modifies kernel
      ensures kernel.refusals >= old(kernel.refusals)
      ensures !ok ==> kernel.fds == old(kernel.fds)
      ensures !ok && kernel.refusals == old(kernel.refusals) ==> target >= kernel.openMax
      ensures ok ==>
        kernel.serial == old(kernel.serial) + 1 && kernel.data == old(kernel.data)[old(kernel.serial) := content]
      ensures ok ==> kernel.fds == if NextToOpen(old(kernel.fds), target) then old(kernel.fds)
                                   else old(kernel.fds)[target := TempFile(old(kernel.serial))]
    {
      var tmpfd := kernel.MakeTemp();
      if tmpfd < 0 {
        return false;
      }
      var written := kernel.Write(tmpfd, content);
      assert "" + content == content;
      if !written {
        var _ := kernel.Close(tmpfd);
        assert kernel.fds == old(kernel.fds);
        return false;
      }
      var r := kernel.Dup2(tmpfd, target);
      if r < 0 {
        var _ := kernel.Close(tmpfd);
        assert kernel.fds == old(kernel.fds);
        return false;
      }
      var _ := kernel.Close(tmpfd);
      OnlyOneLowest(old(kernel.fds), tmpfd, target);
      return true;
    }

    method WirePipe(target: nat, content: string) returns (ok: bool)
      modifies kernel
      ensures kernel.refusals >= old(kernel.refusals)
      ensures !ok ==> kernel.fds == old(kernel.fds)
      ensures !ok && kernel.refusals == old(kernel.refusals) ==> target >= kernel.openMax
      ensures ok ==>
        kernel.serial == old(kernel.serial) + 1 && kernel.data == old(kernel.data)[old(kernel.serial) := content]
      ensures ok ==> kernel.fds == if NextToOpen(old(kernel.fds), target) then old(kernel.fds)
                                   else old(kernel.fds)[target := PipeRead(old(kernel.serial))]
    {
      var readEnd, writeEnd := kernel.Pipe();
      if readEnd < 0 {
        return false;
      }
      var written := kernel.Write(writeEnd, content);
      assert "" + content == content;
      if !written {
        var _ := kernel.Close(readEnd);
        var _ := kernel.Close(writeEnd);
        assert kernel.fds == old(kernel.fds);
        return false;
      }
      var _ := kernel.Close(writeEnd);
      assert kernel.fds == old(kernel.fds)[readEnd := PipeRead(old(kernel.serial))];
      var r := kernel.Dup2(readEnd, target);
      if r < 0 {
        var _ := kernel.Close(readEnd);
        assert kernel.fds == old(kernel.fds);
        return false;
      }
      var _ := kernel.Close(readEnd);
      OnlyOneLowest(old(kernel.fds), readEnd, target);
      return true;
    }

    /** n>&m and n>&m-. A self-move is only warned about. */
    method WireDescriptor(target: int, m: nat, move: bool) returns (ok: bool)
      requires fds.Valid()
      modifies kernel, fds, fds.entries
      ensures fds.Valid() && (fds.entries == old(fds.entries) || fresh(fds.entries))
      ensures ok <==> m in old(kernel.fds) && 0 <= target < kernel.openMax
      ensures !ok ==> kernel.fds == old(kernel.fds) && fds.contents == old(fds.contents)
      ensures kernel.serial == old(kernel.serial) && kernel.data == old(kernel.data)
      ensures kernel.refusals == old(kernel.refusals)
      ensures ok ==>
        var wired := old(kernel.fds)[target := old(kernel.fds)[m]];
        var t := Rewired(old(fds.contents), target, RedirectedName(m));
        if move && m != target
        then kernel.fds == wired - {m} && fds.contents == OpenSet(t, m, false) - {m}
        else kernel.fds == wired && fds.contents == t
    {
      hide fds.Valid;
      var r := kernel.Dup2(m, target);
      if r < 0 {
        return false;
      }
      fds.Add(target, {Redirected}, RedirectedName(m));
      if move && m != target {
        var c := kernel.Close(m);
        if c >= 0 {
          var _ := fds.MarkOpen(m, false);
          var _ := fds.Remove(m);
        }
      }
      return true;
    }

    method Unwire(target: int) returns (ok: bool)
      requires fds.Valid()
      modifies kernel, fds, fds.entries
      ensures fds.Valid() && (fds.entries == old(fds.entries) || fresh(fds.entries))
      ensures ok <==> target in old(kernel.fds)
      ensures kernel.fds == old(kernel.fds) - {target}
      ensures kernel.serial == old(kernel.serial) && kernel.data == old(kernel.data)
      ensures kernel.refusals == old(kernel.refusals)
      ensures fds.contents == if ok then Unwired(old(fds.contents), target) else old(fds.contents)
    {
      var c := kernel.Close(target);
      if c < 0 {
        return false;
      }
      var _ := fds.MarkOpen(target, false);
      var _ := fds.ClearFlag(target, Redirected);
      return true;
    }

    /** One item of the list: on success the kernel does what CodeMeaning says,
        on failure it is left as it was; unless a system call was refused, it
        fails only when CodeMeaning says so. */
    method ApplyItem(r: Redirection) returns (ok: bool)
      requires fds.Valid()
      modifies kernel, fds, fds.entries
      ensures fds.Valid() && (fds.entries == old(fds.entries) || fresh(fds.entries))
      ensures !ok ==> kernel.fds == old(kernel.fds) && fds.contents == old(fds.contents)
      ensures kernel.refusals >= old(kernel.refusals)
      ensures ok ==> CodeMeaning(old(Now()), r, noclobber) == Some(Now())
      ensures !ok && kernel.refusals == old(kernel.refusals) && DefaultFd(r) < kernel.openMax ==>
        CodeMeaning(old(Now()), r, noclobber) == None
      ensures ok ==> fds.contents == TableAfter(old(fds.contents), r)
    {
      hide NextToOpen, fds.Valid;
      var target := DefaultFd(r);
      match r.target {
        case ToFile(None) => return false;
        case ToFile(Some(name)) =>
          match Mode(r.kind, noclobber) {
            case None => return false;
            case Some(how) => ok := WireFile(target, name, how);
          }
        case ToDescriptor(None) => return false;
        case ToDescriptor(Some(text)) =>
          var source := ParseFdNumber(text);
          match source {
            case Bad => return false;
            case CloseTarget =>
              ok := Unwire(target);
              assert !ok ==> kernel.fds == old(kernel.fds);
            case Source(m, move) => ok := WireDescriptor(target, m, move);
          }
        case ToNothing =>
          ok := Unwire(target);
          assert !ok ==> kernel.fds == old(kernel.fds);
        case ToBuffer(None) => return false;
        case ToBuffer(Some(content)) => ok := WireBuffer(target, content);
        case Unknown => return false;
      }
    }

    // ------------------------------------------------------------- the phases

    /** Step 1: mark every descriptor the list touches. */
    method CollectTargets(items: seq<Redirection>) returns (will: array<bool>)
      ensures fresh(will) && will.Length == setSize
      ensures forall fd :: 0 <= fd < setSize ==> (will[fd] <==> Listed(items, fd))
    {
      will := new bool[setSize](_ => false);
      for i := 0 to |items|
        modifies will
        invariant forall fd :: 0 <= fd < setSize ==> (will[fd] <==> Listed(items[..i], fd))
      {
        ListedMore(items, i);
        var target := DefaultFd(items[i]);
        if target < setSize {
          will[target] := true;
        }
        if items[i].target.ToDescriptor? && items[i].target.text.Some? {
          var source := ParseFdNumber(items[i].target.text.value);
          if source.Source? && source.move && source.fd < setSize {
            will[source.fd] := true;
          }
        }
      }
      assert items[..|items|] == items;
    }

    static lemma ListedMore(items: seq<Redirection>, i: nat)
      requires i < |items|
      ensures forall fd :: Listed(items[..i+1], fd) <==> Listed(items[..i], fd) || Touches(items[i], fd)
    {
      var less, more := items[..i], items[..i+1];
      forall fd ensures Listed(more, fd) <==> Listed(less, fd) || Touches(items[i], fd) {
        assert more[i] == items[i];
        if Listed(less, fd) {
          var k :| 0 <= k < |less| && Touches(less[k], fd);
          assert more[k] == less[k];
        }
        if Listed(more, fd) {
          var k :| 0 <= k < |more| && Touches(more[k], fd);
          assert k < i ==> less[k] == more[k];
        }
      }
    }

    /** The save of one marked descriptor; negative on failure. */
    method SaveOne(fd: nat) returns (backup: int)
      requires fds.Valid()
      modifies kernel`fds, kernel`refusals, fds, fds.entries
      ensures fds.Valid() && (fds.entries == old(fds.entries) || fresh(fds.entries))
      ensures kernel.refusals >= old(kernel.refusals)
      ensures backup < 0 && kernel.refusals == old(kernel.refusals) ==> fd !in old(kernel.fds)
      ensures backup < 0 ==> kernel.fds == old(kernel.fds) && fds.contents == old(fds.contents)
      ensures backup >= 0 ==>
        && fd in old(kernel.fds) && LowestFree(old(kernel.fds), MIN_BACKUP_FD, backup)
        && kernel.fds == old(kernel.fds)[backup := old(kernel.fds)[fd]]
        && fds.contents == Remembered(old(fds.contents), backup, fd, SavedName(fd))
    {
      backup := kernel.DupAbove(fd, MIN_BACKUP_FD);
      if backup >= 0 {
        fds.Add(backup, {Saved, CloseOnExec}, SavedName(fd));
        fds.MarkSaved(backup, fd);
      }
    }

    /** Step 2: back up every marked descriptor, unless an outer redirection
        already did. A marked descriptor that is not open makes it fail. */
    method SaveOriginals(will: array<bool>) returns (ok: bool)
      requires fds.Valid() && will.Length == setSize && will as object != fds.entries
      modifies kernel`fds, kernel`refusals, fds, fds.entries
      ensures fds.Valid() && (fds.entries == old(fds.entries) || fresh(fds.entries))
      ensures kernel.refusals >= old(kernel.refusals)
      ensures NothingPending(old(fds.contents)) && AllLow(old(will[..])) && !ok
              && kernel.refusals == old(kernel.refusals) ==>
        exists k :: 0 <= k < |old(will[..])| && old(will[..])[k] && k !in old(kernel.fds)
      ensures NothingPending(old(fds.contents)) && AllLow(old(will[..])) ==>
        if ok then Saving(old(kernel.fds), old(will[..]), setSize, fds.contents, kernel.fds)
        else InFlight(old(kernel.fds), fds.contents, kernel.fds)
    {
      hide *;
      ghost var orig := kernel.fds;
      ghost var w := will[..];
      ghost var premise := NothingPending(fds.contents) && AllLow(w);
      if premise {
        StartSaving(orig, w, fds.contents);
      }
      for fd := 0 to setSize
        invariant fds.Valid() && (fds.entries == old(fds.entries) || fresh(fds.entries))
        invariant will[..] == w
        invariant kernel.refusals >= old(kernel.refusals)
        invariant premise ==> Saving(orig, w, fd, fds.contents, kernel.fds)
      {
        ghost var t, m := fds.contents, kernel.fds;
        if premise {
          SavingFacts(orig, w, fd, t, m);
        }
        if will[fd] {
          var redirected := fds.FlagOn(fd, Redirected);
          if !redirected {
            var backup := SaveOne(fd);
            if backup < 0 {
              if premise && fd !in m {
                SaveFailed(orig, w, fd, t, m);
              }
              return false;
            }
            if premise {
              SavedOne(orig, w, fd, t, m, backup, SavedName(fd));
            }
          }
        }
      }
      ok := true;
    }

    // -------------------------------------------------------- apply, restore

    /** Undo every saved descriptor the table lists, in the table's order. */
    method Restore() returns (ghost order: seq<int>)
      requires fds.Valid()
      modifies kernel`fds, fds, fds.entries
      ensures fds.Valid() && (fds.entries == old(fds.entries) || fresh(fds.entries))
      ensures forall i, j :: 0 <= i < j < |order| ==> order[i] != order[j]
      ensures forall b :: b in order <==> b in Backups(old(fds.contents))
      ensures State(kernel.fds, fds.contents) ==
              RestoreAll(State(old(kernel.fds), old(fds.contents)), order, kernel.openMax)
    {
      hide Backups, RestoreAll, RestoreOne, HasFlag;
      ghost var s := State(kernel.fds, fds.contents);
      BackupsAreSaved(fds.contents);
      var savedFds := fds.GetFdsWithFlag(Saved);
      if savedFds == null {
        order := [];
        RestoreNothing(s, kernel.openMax);
        return;
      }
      order := savedFds[..];
      RestoreNothing(s, kernel.openMax);
      assert order[..0] == [];
      for i := 0 to savedFds.Length
        invariant fds.Valid() && (fds.entries == old(fds.entries) || fresh(fds.entries))
        invariant fds.entries as object != savedFds && savedFds[..] == order
        invariant State(kernel.fds, fds.contents) == RestoreAll(s, order[..i], kernel.openMax)
      {
        RestoreNext(s, order, i, kernel.openMax);
        RestoreBackup(savedFds[i]);
      }
      assert order[..|order|] == order;
    }

    /** dup2 back, close the backup, and forget both. */
    method RestoreBackup(backup: int)
      requires fds.Valid()
      modifies kernel`fds, fds, fds.entries
      ensures fds.Valid() && fds.entries == old(fds.entries)
      ensures State(kernel.fds, fds.contents) ==
              RestoreOne(State(old(kernel.fds), old(fds.contents)), backup, kernel.openMax)
    {
      hide fds.Valid;
      var original := fds.GetOriginal(backup);
      if original < 0 {
        var _ := kernel.Close(backup);
        var _ := fds.MarkOpen(backup, false);
        var _ := fds.Remove(backup);
        return;
      }
      var r := kernel.Dup2(backup, original);
      if r >= 0 {
        var _ := fds.MarkOpen(original, true);
      }
      var _ := kernel.Close(backup);
      var _ := fds.ClearFlag(original, Redirected);
      var _ := fds.MarkOpen(backup, false);
      var _ := fds.Remove(backup);
    }

    /** The whole protocol. When nothing is pending at entry and every touched
        descriptor is low: a failure at any step leaves the kernel's map as it
        was; a success is in flight over it, and is exactly the code's fold of
        the list if and only if no source names a backup. Unless a system call
        was refused, it fails only when a touched descriptor is not open or
        that fold is an error. */
    method Apply(items: seq<Redirection>) returns (ok: bool)
      requires fds.Valid()
      modifies kernel, fds, fds.entries
      ensures fds.Valid() && (fds.entries == old(fds.entries) || fresh(fds.entries))
      ensures Premise(items, old(fds.contents), kernel.openMax) ==>
        if ok then InFlight(old(kernel.fds), fds.contents, kernel.fds)
        else kernel.fds == old(kernel.fds) && NothingPending(fds.contents)
      ensures Premise(items, old(fds.contents), kernel.openMax) && ok ==>
        AllOpen(items, old(kernel.fds))
      ensures Premise(items, old(fds.contents), kernel.openMax) && !ok && kernel.refusals == old(kernel.refusals) ==>
        Hopeless(old(Now()), items, noclobber)
      ensures Premise(items, old(fds.contents), kernel.openMax) && ok ==>
        (AllVisible(old(kernel.fds), items) <==> CodeFold(old(Now()), items, noclobber).Some?)
      ensures Premise(items, old(fds.contents), kernel.openMax) && AllVisible(old(kernel.fds), items) && ok ==>
        && CodeFold(old(Now()), items, noclobber) == Some(Visible(Now(), fds.contents))
        && (LosesNothing(old(Now()), items, noclobber) || NeverReopens(items) ==>
              Fold(old(Now()), items, noclobber) == Some(Visible(Now(), fds.contents)))
    {
      hide InFlight, Backups, Covers, CodeMeaning, CodeFold, TableAfter, Listed, AllOpen, NothingPending, RestoreAll,
           Saving, AllLow, AllVisible, AllCovered, LowTargets, Visible, NeverReopens, Fold, Hopeless, LosesNothing,
           FoldedTo, fds.Valid;
      ghost var t0, e0, max := fds.contents, Now(), kernel.openMax;
      ghost var premise := Premise(items, t0, max);
      if items == [] {
        if premise {
          NothingToApply(e0, t0, max, noclobber);
          ListFolded(e0, items, fds.contents, Now(), noclobber);
        }
        return true;
      }
      var will := CollectTargets(items);
      ghost var w := will[..];
      if premise {
        ListedAreLow(items, w);
      }
      ok := SaveOriginals(will);
      if premise && !ok && kernel.refusals == old(kernel.refusals) {
        NotAllOpen(e0, items, w, noclobber);
      }
      if premise && ok {
        SavedAll(e0, items, w, fds.contents, Now(), noclobber);
      }
      var i := 0;
      while ok && i < |items|
        invariant i <= |items|
        invariant fds.Valid() && (fds.entries == old(fds.entries) || fresh(fds.entries))
        invariant kernel.refusals >= old(kernel.refusals)
        invariant premise && !ok && kernel.refusals == old(kernel.refusals) ==>
          Hopeless(e0, items, noclobber)
        invariant premise ==> InFlight(e0.fds, fds.contents, kernel.fds)
        invariant premise && ok ==> AllOpen(items, e0.fds)
        invariant premise && ok ==> AllCovered(items, Backups(fds.contents))
        invariant premise && ok ==> FoldedTo(e0, items, i, fds.contents, Now(), noclobber)
        decreases |items| - i, ok
      {
        ghost var t, e := fds.contents, Now();
        ok := ApplyItem(items[i]);
        if ok {
          if premise {
            ItemApplied(e0, items, i, t, e, Now(), noclobber);
          }
          i := i + 1;
        } else if premise && kernel.refusals == old(kernel.refusals) {
          TargetIsLow(items, i);
          ItemFailed(e0, items, i, t, e, noclobber);
        }
      }
      if !ok {
        ghost var s := State(kernel.fds, fds.contents);
        ghost var order := Restore();
        if premise {
          RestoreUndoes(e0.fds, s, order, max);
        }
      }
      if premise && ok {
        assert i == |items|;
        ListFolded(e0, items, fds.contents, Now(), noclobber);
      }
    }

    /** A list of one item for descriptor n: after a success the visible
        descriptors differ from the original ones as the item says, and only so. */
    method ApplyOne(r: Redirection, ghost n: int) returns (ok: bool)
      requires fds.Valid() && Aims(r, n)
      modifies kernel, fds, fds.entries
      ensures fds.Valid() && (fds.entries == old(fds.entries) || fresh(fds.entries))
      ensures NothingPending(old(fds.contents)) && kernel.openMax >= 10 && n < 10 && !r.target.ToDescriptor? && ok ==>
        OneItemDone(old(Now()), Visible(Now(), fds.contents), r, n, noclobber)
      ensures Premise([r], old(fds.contents), kernel.openMax) && AllVisible(old(kernel.fds), [r]) && ok ==>
        OneItemDone(old(Now()), Visible(Now(), fds.contents), r, n, noclobber)
    {
      hide InFlight, CodeFold, AllOpen, NothingPending, AllVisible, LowTargets, Visible, NeverReopens, Fold, Hopeless,
           LosesNothing, OneItemDone, Aims, Premise, fds.Valid;
      ghost var t0, e0 := fds.contents, Now();
      ok := Apply([r]);
      if NothingPending(t0) && kernel.openMax >= 10 && n < 10 && !r.target.ToDescriptor? {
        OneItemIsLow(r, n, t0, kernel.openMax, e0.fds);
      }
      if Premise([r], t0, kernel.openMax) && AllVisible(e0.fds, [r]) && ok {
        OneItemMeans(e0, r, n, noclobber, Visible(Now(), fds.contents));
      }
    }

    /** Apply, run the command, restore: the command's redirections are gone
        without trace, whether or not they could be applied. */
    method ApplyThenRestore(items: seq<Redirection>) returns (ok: bool)
      requires fds.Valid()
      modifies kernel, fds, fds.entries
      ensures fds.Valid() && (fds.entries == old(fds.entries) || fresh(fds.entries))
      ensures Premise(items, old(fds.contents), kernel.openMax) ==>
        kernel.fds == old(kernel.fds) && NothingPending(fds.contents)
    {
      hide InFlight, Backups, CodeFold, Listed, NothingPending, RestoreAll, AllVisible, LowTargets, Visible, fds.Valid;
      ghost var orig, t0, max := kernel.fds, fds.contents, kernel.openMax;
      ok := Apply(items);
      if ok {
        ghost var s := State(kernel.fds, fds.contents);
        ghost var order := Restore();
        if Premise(items, t0, max) {
          RestoreUndoes(orig, s, order, max);
        }
      }
    }

    // ----------------------------------------------------- dup_to_safe_slot

    /** The Windows backup: keep duplicating until a slot at or above the floor
        comes up, then give back the low ones. Ten parked slots fill everything
        below the floor, so the code's overflow branch is dead. */
    method DupToSafeSlot(fd: int) returns (result: int)
      modifies kernel`fds, kernel`refusals
      ensures result < 0 ==> result == -1 && kernel.fds == old(kernel.fds)
      ensures kernel.refusals >= old(kernel.refusals)
      ensures result < 0 && kernel.refusals == old(kernel.refusals) ==> fd !in old(kernel.fds)
      ensures result >= 0 ==>
        && fd in old(kernel.fds) && LowestFree(old(kernel.fds), 10, result)
        && kernel.fds == old(kernel.fds)[result := old(kernel.fds)[fd]]
    {
      var spill := new int[MIN_BACKUP_FD];
      var spillCount := 0;
      result := -1;
      ghost var before, slots: set<int> := kernel.fds, {};
      while true
        modifies kernel`fds, kernel`refusals, spill
        invariant kernel.refusals >= old(kernel.refusals)
        invariant spillCount == |slots| <= MIN_BACKUP_FD && forall p :: p in slots <==> p in spill[..spillCount]
        invariant result == -1 && Parked(before, slots, kernel.fds, fd)
        decreases MIN_BACKUP_FD - spillCount
      {
        hide LowestFree;
        ghost var now := kernel.fds;
        var dup := kernel.DupAbove(fd, 0);
        if dup < 0 {
          break;
        }
        ParkOne(before, slots, now, fd, dup);
        if dup >= MIN_BACKUP_FD {
          result := dup;
          break;
        }
        if spillCount < MIN_BACKUP_FD {
          ghost var parked := spill[..spillCount];
          spill[spillCount] := dup;
          spillCount := spillCount + 1;
          slots := slots + {dup};
          assert spill[..spillCount] == parked + [dup];
        } else {
          assert false;
        }
      }
      ReleaseSlots(spill, spillCount, slots);
    }

    method ReleaseSlots(spill: array<int>, spillCount: nat, ghost slots: set<int>)
      requires spillCount <= spill.Length && forall p :: p in slots <==> p in spill[..spillCount]
      modifies kernel`fds
      ensures kernel.fds == old(kernel.fds) - slots
    {
      ghost var closed: set<int> := {};
      for k := 0 to spillCount
        invariant kernel.fds == old(kernel.fds) - closed
        invariant forall p :: p in closed <==> p in spill[..k]
        invariant forall p :: p in slots <==> p in spill[..spillCount]
      {
        var _ := kernel.Close(spill[k]);
        closed := closed + {spill[k]};
        assert spill[..k+1] == spill[..k] + [spill[k]];
      }
      assert forall p :: p in closed <==> p in slots;
    }
  }
}
