/** The operating system as the redirection code sees it: a map from file
    descriptors to open file descriptions. Calls that may run out of a
    resource fail nondeterministically; the others fail exactly when POSIX
    says so. */
module Kernel {
  datatype OpenMode = ReadOnly | CreateTruncate | CreateExclusive | CreateAppend | ReadWrite

  /** An open file description; serial tells apart two opens of one file. */
  datatype OpenFile =
    | Inherited(id: nat)
    | File(name: string, how: OpenMode, serial: nat)
    | TempFile(serial: nat)
    | PipeRead(serial: nat)
    | PipeWrite(serial: nat)

  type Descriptors = map<int, OpenFile>

  ghost predicate LowestFree(fds: Descriptors, floor: nat, fd: int) {
    fd >= floor && fd !in fds && forall k :: floor <= k < fd ==> k in fds
  }

  class Kernel {
    var fds: Descriptors
    /** Open file descriptions created so far. */
    var serial: nat
    /** What has been written to each temporary file or pipe. */
    var data: map<nat, string>
    /** How often a call failed for want of a file, permission or resource. */
    ghost var refusals: nat
    const openMax: nat

    constructor (fds: Descriptors, openMax: nat)
      ensures this.fds == fds && this.openMax == openMax
    {
      this.fds := fds;
      this.openMax := openMax;
      this.serial := 0;
      this.data := map[];
      this.refusals := 0;
    }

    method FindFree(floor: nat) returns (fd: int)
      ensures LowestFree(fds, floor, fd)
    {
      fd := floor;
      ghost var rest := fds.Keys;
      while fd in fds
        invariant fd >= floor
        invariant forall k :: floor <= k < fd ==> k in fds
        invariant forall k :: k in fds && k >= fd ==> k in rest
        decreases |rest|
      {
        rest := rest - {fd};
        fd := fd + 1;
      }
    }

    method Open(name: string, how: OpenMode) returns (fd: int)
      modifies this
      ensures fd < 0 ==> fds == old(fds) && serial == old(serial) && data == old(data)
      ensures refusals == old(refusals) + if fd < 0 then 1 else 0
      ensures fd >= 0 ==>
        && LowestFree(old(fds), 0, fd)
        && fds == old(fds)[fd := File(name, how, old(serial))]
        && serial == old(serial) + 1 && data == old(data)
    {
      if * {
        refusals := refusals + 1;
        return -1;
      }
      fd := FindFree(0);
      fds := fds[fd := File(name, how, serial)];
      serial := serial + 1;
    }

    /** mkstemp. */
    method MakeTemp() returns (fd: int)
      modifies this
      ensures fd < 0 ==> fds == old(fds)
      ensures refusals == old(refusals) + if fd < 0 then 1 else 0
      ensures fd >= 0 ==>
        && LowestFree(old(fds), 0, fd)
        && fds == old(fds)[fd := TempFile(old(serial))]
        && serial == old(serial) + 1 && data == old(data)[old(serial) := ""]
    {
      if * {
        refusals := refusals + 1;
        return -1;
      }
      fd := FindFree(0);
      fds := fds[fd := TempFile(serial)];
      data := data[serial := ""];
      serial := serial + 1;
    }

    method Pipe() returns (readEnd: int, writeEnd: int)
      modifies this
      ensures readEnd < 0 ==> fds == old(fds)
      ensures refusals == old(refusals) + if readEnd < 0 then 1 else 0
      ensures readEnd >= 0 ==>
        && LowestFree(old(fds), 0, readEnd)
        && LowestFree(old(fds)[readEnd := PipeRead(old(serial))], 0, writeEnd)
        && fds == old(fds)[readEnd := PipeRead(old(serial))][writeEnd := PipeWrite(old(serial))]
        && serial == old(serial) + 1 && data == old(data)[old(serial) := ""]
    {
      if * {
        refusals := refusals + 1;
        return -1, -1;
      }
      readEnd := FindFree(0);
      fds := fds[readEnd := PipeRead(serial)];
      writeEnd := FindFree(0);
      fds := fds[writeEnd := PipeWrite(serial)];
      data := data[serial := ""];
      serial := serial + 1;
    }

    /** Writes all of text or reports failure. */
    method Write(fd: int, text: string) returns (ok: bool)
      modifies this`data, this`refusals
      ensures refusals >= old(refusals)
      ensures !ok && refusals == old(refusals) ==> !(fd in fds && (fds[fd].PipeWrite? || fds[fd].TempFile?))
      ensures ok ==> fd in fds && (fds[fd].PipeWrite? || fds[fd].TempFile?)
      ensures ok && fds[fd].serial in old(data) ==>
              data == old(data)[fds[fd].serial := old(data)[fds[fd].serial] + text]
    {
      if * {
        refusals := refusals + 1;
        return false;
      }
      ok := fd in fds && (fds[fd].PipeWrite? || fds[fd].TempFile?);
      if ok && fds[fd].serial in data {
        data := data[fds[fd].serial := data[fds[fd].serial] + text];
      }
    }

    method Dup2(from: int, to: int) returns (r: int)
      modifies this`fds
      ensures r >= 0 <==> from in old(fds) && 0 <= to < openMax
      ensures fds == if r >= 0 then old(fds)[to := old(fds)[from]] else old(fds)
    {
      if from !in fds || to < 0 || to >= openMax {
        return -1;
      }
      fds := fds[to := fds[from]];
      r := to;
    }

    /** fcntl(fd, F_DUPFD, floor); with floor 0 it is dup. */
    method DupAbove(fd: int, floor: nat) returns (r: int)
      modifies this`fds, this`refusals
      ensures refusals >= old(refusals)
      ensures r < 0 && refusals == old(refusals) ==> fd !in fds
      ensures r < 0 ==> fds == old(fds)
      ensures r >= 0 ==> fd in old(fds) && LowestFree(old(fds), floor, r) && fds == old(fds)[r := old(fds)[fd]]
    {
      if fd !in fds {
        return -1;
      }
      if * {
        refusals := refusals + 1;
        return -1;
      }
      r := FindFree(floor);
      fds := fds[r := fds[fd]];
    }

    method Close(fd: int) returns (r: int)
      modifies this`fds
      ensures r >= 0 <==> fd in old(fds)
      ensures fds == old(fds) - {fd}
    {
      r := if fd in fds then 0 else -1;
      fds := fds - {fd};
    }
  }
}
