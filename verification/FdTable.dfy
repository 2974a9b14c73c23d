/** The shell's own record of its descriptors (src/fd_table.c): an array of
    entries kept dense by moving the last entry into the gap a removal leaves,
    proved to be a map keyed by descriptor. */
module FdTable {
  const INITIAL_CAPACITY: nat := 16
  const GROWTH_FACTOR: nat := 2
  const MARGIN: nat := 4

  datatype Flag = CloseOnExec | Redirected | Saved

  /** original is the descriptor a SAVED one is a copy of, -1 otherwise. */
  datatype Entry = Entry(fd: int, original: int, flags: set<Flag>, isOpen: bool, path: string)

  type Table = map<int, Entry>

  // ------------------------------------------------------- the map's algebra

  function Added(t: Table, fd: int, flags: set<Flag>, path: string): Table {
    t[fd := if fd in t then t[fd].(flags := flags, isOpen := true, path := path)
            else Entry(fd, -1, flags, true, path)]
  }

  function MarkedSaved(t: Table, saved: int, original: int): Table {
    t[saved := if saved in t then t[saved].(original := original, flags := t[saved].flags + {Saved})
               else Entry(saved, original, {Saved}, true, "(unknown)")]
  }

  function OpenSet(t: Table, fd: int, isOpen: bool): Table {
    if fd in t then t[fd := t[fd].(isOpen := isOpen)] else t
  }

  function FlagSet(t: Table, fd: int, flag: Flag): Table {
    if fd in t then t[fd := t[fd].(flags := t[fd].flags + {flag})] else t
  }

  function FlagCleared(t: Table, fd: int, flag: Flag): Table {
    if fd in t then t[fd := t[fd].(flags := t[fd].flags - {flag})] else t
  }

  predicate HasFlag(t: Table, fd: int, flag: Flag) {
    fd in t && flag in t[fd].flags
  }

  /** Re-adding a tracked descriptor keeps the original recorded for it, so
      what add and mark_saved write never undoes each other. */
  lemma AddKeepsOriginal(t: Table, saved: int, original: int, fd: int, flags: set<Flag>, path: string)
    ensures var t' := Added(MarkedSaved(t, saved, original), fd, flags, path);
            && t'[saved].original == original
            && t'.Keys == t.Keys + {saved, fd}
            && (forall k :: k in t' && k != saved && k != fd ==> k in t && t'[k] == t[k])
  {
  }

  predicate IsOpen(t: Table, fd: int) { fd in t && t[fd].isOpen }

  /** What the queries answer for descriptor k after each call on descriptor fd. */
  lemma AnswersAfterAdd(t: Table, fd: int, flags: set<Flag>, path: string, k: int, f: Flag)
    ensures var t' := Added(t, fd, flags, path);
            && (k in t' <==> k in t || k == fd)
            && (HasFlag(t', k, f) <==> if k == fd then f in flags else HasFlag(t, k, f))
            && (IsOpen(t', k) <==> k == fd || IsOpen(t, k))
            && t'[fd].path == path
            && (k in t && k != fd ==> t'[k].path == t[k].path)
  {
  }

  lemma AnswersAfterMarks(t: Table, fd: int, original: int, isOpen: bool, k: int, f: Flag)
    ensures var saved := MarkedSaved(t, fd, original);
            && (HasFlag(saved, k, f) <==> HasFlag(t, k, f) || (k == fd && f == Saved))
            && (IsOpen(saved, k) <==> IsOpen(t, k) || (k == fd && fd !in t))
            && saved[fd].original == original
    ensures var now := OpenSet(t, fd, isOpen);
            && (HasFlag(now, k, f) <==> HasFlag(t, k, f))
            && (IsOpen(now, k) <==> if k == fd && fd in t then isOpen else IsOpen(t, k))
  {
  }

  lemma AnswersAfterFlags(t: Table, fd: int, flag: Flag, k: int, f: Flag)
    ensures var t' := FlagSet(t, fd, flag);
            && (HasFlag(t', k, f) <==> HasFlag(t, k, f) || (k == fd && f == flag && fd in t))
            && (IsOpen(t', k) <==> IsOpen(t, k)) && t'.Keys == t.Keys
    ensures var t' := FlagCleared(t, fd, flag);
            && (HasFlag(t', k, f) <==> HasFlag(t, k, f) && !(k == fd && f == flag))
            && (IsOpen(t', k) <==> IsOpen(t, k)) && t'.Keys == t.Keys
  {
  }

  // ---------------------------------------------------- the array stands for

  /** The dense entries s are exactly the map t. */
  ghost predicate Tracks(s: seq<Entry>, t: Table) {
    && (forall i :: 0 <= i < |s| ==> s[i].fd in t && t[s[i].fd] == s[i])
    && (forall i, j :: 0 <= i < |s| && 0 <= j < |s| && s[i].fd == s[j].fd ==> i == j)
    && (forall fd :: fd in t ==> HasFd(s, fd))
  }

  ghost predicate HasFd(s: seq<Entry>, fd: int) {
    exists i :: 0 <= i < |s| && s[i].fd == fd
  }

  /** The greatest tracked descriptor, or -1 if no descriptor exceeds -1. */
  ghost predicate IsHighest(h: int, t: Table) {
    && h >= -1
    && (forall fd :: fd in t ==> fd <= h)
    && (h == -1 || h in t)
  }

  lemma TracksUpdate(s: seq<Entry>, t: Table, i: nat, e: Entry)
    requires Tracks(s, t) && i < |s| && e.fd == s[i].fd
    ensures Tracks(s[i := e], t[e.fd := e])
  {
    var s' := s[i := e];
    forall fd | fd in t[e.fd := e] ensures HasFd(s', fd) {
      var j :| 0 <= j < |s| && s[j].fd == fd;
      assert s'[j].fd == fd;
    }
  }

  lemma TracksAppend(s: seq<Entry>, t: Table, e: Entry)
    requires Tracks(s, t) && e.fd !in t
    ensures Tracks(s + [e], t[e.fd := e])
  {
    var s' := s + [e];
    forall fd | fd in t[e.fd := e] ensures HasFd(s', fd) {
      if fd == e.fd {
        assert s'[|s|].fd == fd;
      } else {
        var j :| 0 <= j < |s| && s[j].fd == fd;
        assert s'[j].fd == fd;
      }
    }
  }

  function SwapOut(s: seq<Entry>, i: nat): seq<Entry>
    requires i < |s|
  {
    s[i := s[|s|-1]][..|s|-1]
  }

  lemma TracksSwapOut(s: seq<Entry>, t: Table, i: nat)
    requires Tracks(s, t) && i < |s|
    ensures Tracks(SwapOut(s, i), t - {s[i].fd})
  {
    var s' := SwapOut(s, i);
    forall fd | fd in t - {s[i].fd} ensures HasFd(s', fd) {
      var j :| 0 <= j < |s| && s[j].fd == fd;
      assert s'[if j == |s| - 1 then i else j].fd == fd;
    }
  }

  /** The tracked descriptors bearing flag, in table order. */
  function Matching(s: seq<Entry>, flag: Flag): seq<int> {
    if s == [] then []
    else
      var e := s[|s|-1];
      Matching(s[..|s|-1], flag) + (if flag in e.flags then [e.fd] else [])
  }

  lemma {:induction false} MatchingExactly(s: seq<Entry>, t: Table, flag: Flag)
    requires Tracks(s, t)
    ensures forall fd :: fd in Matching(s, flag) <==> HasFlag(t, fd, flag)
    ensures forall j, k :: 0 <= j < k < |Matching(s, flag)| ==> Matching(s, flag)[j] != Matching(s, flag)[k]
  {
    if s != [] {
      var last := |s| - 1;
      TracksSwapOut(s, t, last);
      assert SwapOut(s, last) == s[..last];
      MatchingExactly(s[..last], t - {s[last].fd}, flag);
      var before := Matching(s[..last], flag);
      assert forall j :: 0 <= j < |before| ==> before[j] in before;
      assert forall j :: 0 <= j < |before| ==> before[j] != s[last].fd;
    } else {
      assert forall fd :: fd in t ==> HasFd(s, fd);
    }
  }

  lemma {:induction false} MatchingPrefix(s: seq<Entry>, i: nat, flag: Flag)
    requires i <= |s|
    ensures |Matching(s[..i], flag)| <= |Matching(s, flag)|
    ensures i < |s| && flag in s[i].flags ==> |Matching(s[..i], flag)| < |Matching(s, flag)|
  {
    if i < |s| {
      var rest := s[..|s|-1];
      assert rest[..i] == s[..i];
      MatchingPrefix(rest, i, flag);
    } else {
      assert s[..i] == s;
    }
  }

  class FdTable {
    var entries: array<Entry>
    var count: nat
    var highestFd: int
    ghost var contents: Table

    ghost predicate Valid()
      reads this, entries
    {
      && count < entries.Length
      && Tracks(entries[..count], contents)
      && IsHighest(highestFd, contents)
    }

    constructor ()
      ensures Valid() && fresh(entries) && contents == map[]
    {
      entries := new Entry[INITIAL_CAPACITY](_ => Entry(-1, -1, {}, false, ""));
      count := 0;
      highestFd := -1;
      contents := map[];
    }

    /** An independent table standing for the same map. */
    constructor Clone(src: FdTable)
      requires src.Valid()
      ensures Valid() && fresh(entries) && contents == src.contents && highestFd == src.highestFd
    {
      var es := new Entry[src.entries.Length](_ => Entry(-1, -1, {}, false, ""));
      for i := 0 to src.count
        invariant es[..i] == src.entries[..i]
      {
        es[i] := src.entries[i];
      }
      entries := es;
      count := src.count;
      highestFd := src.highestFd;
      contents := src.contents;
    }

    method FindEntryIndex(fd: int) returns (idx: int)
      requires Valid()
      ensures -1 <= idx < count
      ensures idx >= 0 <==> fd in contents
      ensures idx >= 0 ==> entries[idx].fd == fd && entries[idx] == contents[fd]
    {
      for i := 0 to count
        invariant forall j :: 0 <= j < i ==> entries[j].fd != fd
      {
        if entries[i].fd == fd {
          assert entries[..count][i].fd == fd;
          return i;
        }
      }
      assert forall j :: 0 <= j < count ==> entries[..count][j].fd != fd;
      idx := -1;
    }

    method EnsureCapacity()
      requires Valid()
      modifies this`entries
      ensures Valid() && (entries == old(entries) || fresh(entries))
      ensures entries[..count] == old(entries[..count]) && count + 1 < entries.Length
    {
      if count + MARGIN < entries.Length {
        return;
      }
      var es := new Entry[entries.Length * GROWTH_FACTOR](_ => Entry(-1, -1, {}, false, ""));
      for i := 0 to count
        modifies es
        invariant es[..i] == entries[..i]
      {
        es[i] := entries[i];
      }
      entries := es;
    }

    /** Overwrites the entry at idx, keeping its descriptor. */
    method Update(idx: nat, e: Entry)
      requires Valid() && idx < count && e.fd == entries[idx].fd
      modifies this`contents, entries
      ensures Valid() && contents == old(contents)[e.fd := e]
    {
      ghost var s := entries[..count];
      TracksUpdate(s, contents, idx, e);
      entries[idx] := e;
      contents := contents[e.fd := e];
      assert entries[..count] == s[idx := e];
    }

    /** Appends an entry for an untracked descriptor. */
    method Append(e: Entry)
      requires Valid() && e.fd !in contents
      modifies this, entries
      ensures Valid() && (entries == old(entries) || fresh(entries))
      ensures contents == old(contents)[e.fd := e]
    {
      EnsureCapacity();
      ghost var s := entries[..count];
      TracksAppend(s, contents, e);
      entries[count] := e;
      count := count + 1;
      contents := contents[e.fd := e];
      assert entries[..count] == s + [e];
      if e.fd > highestFd {
        highestFd := e.fd;
      }
    }

    method Add(fd: int, flags: set<Flag>, path: string)
      requires Valid()
      modifies this, entries
      ensures Valid() && (entries == old(entries) || fresh(entries))
      ensures contents == Added(old(contents), fd, flags, path)
    {
      var idx := FindEntryIndex(fd);
      if idx >= 0 {
        Update(idx, entries[idx].(flags := flags, isOpen := true, path := path));
      } else {
        Append(Entry(fd, -1, flags, true, path));
      }
    }

    method MarkSaved(saved: int, original: int)
      requires Valid()
      modifies this, entries
      ensures Valid() && (entries == old(entries) || fresh(entries))
      ensures contents == MarkedSaved(old(contents), saved, original)
    {
      var idx := FindEntryIndex(saved);
      if idx >= 0 {
        Update(idx, entries[idx].(original := original, flags := entries[idx].flags + {Saved}));
      } else {
        Append(Entry(saved, original, {Saved}, true, "(unknown)"));
      }
    }

    method MarkOpen(fd: int, isOpen: bool) returns (found: bool)
      requires Valid()
      modifies this`contents, entries
      ensures Valid() && contents == OpenSet(old(contents), fd, isOpen) && found == (fd in old(contents))
    {
      var idx := FindEntryIndex(fd);
      if idx < 0 {
        return false;
      }
      Update(idx, entries[idx].(isOpen := isOpen));
      return true;
    }

    method SetFlag(fd: int, flag: Flag) returns (found: bool)
      requires Valid()
      modifies this`contents, entries
      ensures Valid() && contents == FlagSet(old(contents), fd, flag) && found == (fd in old(contents))
    {
      var idx := FindEntryIndex(fd);
      if idx < 0 {
        return false;
      }
      Update(idx, entries[idx].(flags := entries[idx].flags + {flag}));
      return true;
    }

    method ClearFlag(fd: int, flag: Flag) returns (found: bool)
      requires Valid()
      modifies this`contents, entries
      ensures Valid() && contents == FlagCleared(old(contents), fd, flag) && found == (fd in old(contents))
    {
      var idx := FindEntryIndex(fd);
      if idx < 0 {
        return false;
      }
      Update(idx, entries[idx].(flags := entries[idx].flags - {flag}));
      return true;
    }

    /** The greatest descriptor left after a removal, or -1. */
    method RecomputeHighest() returns (h: int)
      requires count <= entries.Length && Tracks(entries[..count], contents)
      ensures IsHighest(h, contents)
    {
      h := -1;
      for i := 0 to count
        invariant h >= -1 && forall j :: 0 <= j < i ==> entries[j].fd <= h
        invariant h == -1 || h in contents
      {
        if entries[i].fd > h {
          h := entries[i].fd;
          assert entries[..count][i].fd in contents;
        }
      }
      forall fd | fd in contents ensures fd <= h {
        var j :| 0 <= j < count && entries[..count][j].fd == fd;
      }
    }

    method Remove(fd: int) returns (found: bool)
      requires Valid()
      modifies this, entries
      ensures Valid() && entries == old(entries)
      ensures contents == old(contents) - {fd} && found == (fd in old(contents))
    {
      var idx := FindEntryIndex(fd);
      if idx < 0 {
        return false;
      }
      ghost var s := entries[..count];
      TracksSwapOut(s, contents, idx);
      if idx < count - 1 {
        entries[idx] := entries[count - 1];
      }
      count := count - 1;
      contents := contents - {fd};
      assert entries[..count] == SwapOut(s, idx);
      if fd == highestFd {
        highestFd := RecomputeHighest();
      }
      return true;
    }

    method FlagOn(fd: int, flag: Flag) returns (on: bool)
      requires Valid()
      ensures on == HasFlag(contents, fd, flag)
    {
      var idx := FindEntryIndex(fd);
      on := idx >= 0 && flag in entries[idx].flags;
    }

    method GetOriginal(fd: int) returns (original: int)
      requires Valid()
      ensures original == if fd in contents then contents[fd].original else -1
    {
      var idx := FindEntryIndex(fd);
      original := if idx < 0 then -1 else entries[idx].original;
    }

    /** Counts, allocates and fills: the two passes agree, and the result is
        exactly the descriptors bearing flag (null when there are none). */
    method GetFdsWithFlag(flag: Flag) returns (fds: array?<int>)
      requires Valid()
      ensures fds == null <==> (forall fd :: !HasFlag(contents, fd, flag))
      ensures fds != null ==>
        && fresh(fds)
        && (forall fd :: fd in fds[..] <==> HasFlag(contents, fd, flag))
        && (forall j, k :: 0 <= j < k < fds.Length ==> fds[..][j] != fds[..][k])
    {
      hide Valid, Tracks, HasFlag;
      ghost var s := Dense();
      MatchingExactly(s, contents, flag);
      var n := 0;
      for i := 0 to count
        invariant n == |Matching(s[..i], flag)|
      {
        assert s[..i+1][..i] == s[..i];
        if flag in entries[i].flags {
          n := n + 1;
        }
      }
      assert s[..count] == s;
      if n == 0 {
        return null;
      }
      FirstMatches(s, flag);
      var out := new int[n];
      Collect(flag, out);
      fds := out;
    }

    lemma FirstMatches(s: seq<Entry>, flag: Flag)
      requires Matching(s, flag) != [] && forall fd :: fd in Matching(s, flag) <==> HasFlag(contents, fd, flag)
      ensures exists fd :: HasFlag(contents, fd, flag)
    {
      assert Matching(s, flag)[0] in Matching(s, flag);
    }

    /** The second pass fills the array the first one measured. */
    method Collect(flag: Flag, out: array<int>)
      requires Valid() && out.Length == |Matching(Dense(), flag)|
      modifies out
      ensures out[..] == Matching(old(Dense()), flag)
    {
      hide Valid, Tracks, HasFlag;
      ghost var s := Dense();
      var j := 0;
      for i := 0 to count
        invariant j == |Matching(s[..i], flag)| <= out.Length
        invariant out[..j] == Matching(s[..i], flag)
      {
        assert s[..i+1][..i] == s[..i];
        MatchingPrefix(s, i, flag);
        if flag in entries[i].flags {
          out[j] := entries[i].fd;
          j := j + 1;
        }
      }
      assert s[..count] == s;
      assert out[..] == out[..j];
    }

    ghost function Dense(): (s: seq<Entry>)
      requires Valid()
      reads this, entries
      ensures count <= entries.Length && s == entries[..count] && Tracks(s, contents)
    {
      entries[..count]
    }
  }
}
