/** The system calls disk_store makes, each free to fail or to do less than asked, and the two loops of
  * include/util.h that turn short transfers into full ones.
  */
module Kernel {
  import opened FileSystem
  import opened Wrappers

  datatype IoResult = Moved(n: nat) | Interrupted | Failed

  class Os {
    var fs: Fs
    // How many more times a call comes back without having moved anything: interrupts are finite in number.
    var patience: nat
    // Every state the file system has been in.
    ghost var trace: seq<Fs>
    // How many operations have failed; an interrupt or a short transfer is not a failure.
    ghost var faults: nat

    constructor (fs: Fs, patience: nat)
      requires Consistent(fs)
      ensures this.fs == fs && trace == [fs]
    {
      this.fs, this.patience, this.trace, this.faults := fs, patience, [fs], 0;
    }

    // An allocation, an open or any other operation that leaves the file system alone.
    method Succeeds() returns (ok: bool)
      modifies this`faults
      ensures faults == old(faults) + if ok then 0 else 1
    {
      ok := *;
      if !ok {
        faults := faults + 1;
      }
    }

    // Opens a new file under a name nobody uses: the template followed by six characters.
    method Mkstemp(template: string) returns (fd: Option<Inode>, name: string)
      requires Consistent(fs)
      modifies this
      ensures patience == old(patience) && faults == old(faults) + if fd.Some? then 0 else 1
      ensures fd.None? ==> fs == old(fs) && trace == old(trace)
      ensures fd.Some? ==> |name| == |template| + 7 && template <= name && name !in old(fs).dir && fd.value !in old(fs).content
      ensures fd.Some? ==> fs == Created(old(fs), name, fd.value) && trace == old(trace) + [fs]
    {
      var suffix: string := *;
      var i: Inode := *;
      name := template + "." + suffix;
      if |suffix| != 6 || name in fs.dir || i in fs.content {
        faults := faults + 1;
        return None, name;
      }
      fs := Created(fs, name, i);
      trace := trace + [fs];
      return Some(i), name;
    }

    // write(): appends some prefix of the bytes, or fails.
    method Write(fd: Inode, bytes: Bytes) returns (r: IoResult)
      requires fd in fs.content && bytes != []
      modifies this
      ensures r.Moved? ==> r.n <= |bytes| && fs == Appended(old(fs), fd, bytes[..r.n])
      ensures !r.Moved? ==> fs == old(fs)
      ensures trace == old(trace) + [fs]
      ensures r == Interrupted || r == Moved(0) ==> patience < old(patience)
      ensures patience <= old(patience) && faults == old(faults) + if r.Failed? then 1 else 0
    {
      var n: int := *;
      var fails: bool := *;
      if n <= 0 || n > |bytes| {
        if fails || patience == 0 {
          r := Failed;
          faults := faults + 1;
        } else {
          patience := patience - 1;
          r := if n == 0 then Moved(0) else Interrupted;
          if n == 0 {
            fs := Appended(fs, fd, bytes[..0]);
          }
        }
      } else {
        fs := Appended(fs, fd, bytes[..n]);
        r := Moved(n);
      }
      trace := trace + [fs];
    }

    // read(): some of what follows the offset, nothing only at the end of the file; or fails.
    method Read(fd: Inode, offset: nat, want: nat) returns (r: IoResult, got: Bytes)
      requires fd in fs.content && offset <= |fs.content[fd]| && want > 0
      modifies this`patience, this`faults
      ensures r.Moved? ==> r.n == |got| <= want && offset + r.n <= |fs.content[fd]| && got == fs.content[fd][offset..offset + r.n]
      ensures r == Moved(0) ==> offset == |fs.content[fd]|
      ensures r == Interrupted ==> patience < old(patience)
      ensures patience <= old(patience) && faults == old(faults) + if r.Failed? then 1 else 0
    {
      got := [];
      var n: int := *;
      var fails: bool := *;
      var left := |fs.content[fd]| - offset;
      if left == 0 {
        r := if fails then Failed else Moved(0);
        faults := faults + if fails then 1 else 0;
      } else if n <= 0 || n > want || n > left {
        if fails || patience == 0 {
          r := Failed;
          faults := faults + 1;
        } else {
          patience := patience - 1;
          r := Interrupted;
        }
      } else {
        got := fs.content[fd][offset..offset + n];
        r := Moved(n);
      }
    }

    method Fsync(fd: Inode) returns (ok: bool)
      requires fd in fs.content
      modifies this
      ensures fs == if ok then Fsynced(old(fs), fd) else old(fs)
      ensures trace == old(trace) + [fs] && patience == old(patience) && faults == old(faults) + if ok then 0 else 1
    {
      ok := *;
      if ok {
        fs := Fsynced(fs, fd);
      } else {
        faults := faults + 1;
      }
      trace := trace + [fs];
    }

    method Rename(from: string, to: string) returns (ok: bool)
      requires from in fs.dir
      modifies this
      ensures fs == if ok then Renamed(old(fs), from, to) else old(fs)
      ensures trace == old(trace) + [fs] && patience == old(patience) && faults == old(faults) + if ok then 0 else 1
    {
      ok := *;
      if ok {
        fs := Renamed(fs, from, to);
      } else {
        faults := faults + 1;
      }
      trace := trace + [fs];
    }

    method Unlink(name: string) returns (ok: bool)
      modifies this
      ensures fs == if ok then Unlinked(old(fs), name) else old(fs)
      ensures trace == old(trace) + [fs] && patience == old(patience) && faults == old(faults) + if ok then 0 else 1
    {
      ok := *;
      if ok {
        fs := Unlinked(fs, name);
      } else {
        faults := faults + 1;
      }
      trace := trace + [fs];
    }

    // fsync_dir: best effort, so any of its steps may fail without a word. Says whether it worked.
    method FsyncDir(path: string) returns (ghost done: bool)
      modifies this
      ensures fs == if done then DirSynced(old(fs), DirOf(path)) else old(fs)
      ensures trace == old(trace) + [fs] && patience == old(patience) && faults == old(faults) + if done then 0 else 1
    {
      var haveDir: bool := *;
      var synced: bool := *;
      if haveDir && synced {
        fs := DirSynced(fs, DirOf(path));
      } else {
        faults := faults + 1;
      }
      done := haveDir && synced;
      trace := trace + [fs];
    }

    /* ---------- include/util.h ---------- */

    // write_full: writes all of buf, whatever the sizes of the single writes, or reports failure.
    method WriteFull(fd: Inode, buf: Bytes) returns (ok: bool)
      requires fd in fs.content
      modifies this
      ensures OnlyFile(old(fs), fs, fd)
      ensures ok ==> fs.content[fd] == old(fs).content[fd] + buf
      ensures faults == old(faults) + if ok then 0 else 1
      ensures |trace| >= |old(trace)| && trace[..|old(trace)|] == old(trace)
      ensures forall k :: |old(trace)| <= k < |trace| ==> OnlyFile(old(fs), trace[k], fd)
    {
      var done := 0;
      while done < |buf|
        invariant 0 <= done <= |buf|
        invariant OnlyFile(old(fs), fs, fd)
        invariant fs.content[fd] == old(fs).content[fd] + buf[..done] && faults == old(faults)
        invariant |trace| >= |old(trace)| && trace[..|old(trace)|] == old(trace)
        invariant forall k :: |old(trace)| <= k < |trace| ==> OnlyFile(old(fs), trace[k], fd)
        decreases |buf| - done, patience
      {
        ghost var was := fs;
        var w := Write(fd, buf[done..]);
        AppendedOnly(was, fd, if w.Moved? then buf[done..][..w.n] else []);
        match w
        case Interrupted =>
          continue;
        case Failed =>
          return false;
        case Moved(n) =>
          assert buf[..done] + buf[done..][..n] == buf[..done + n];
          done := done + n;
      }
      return true;
    }

    // read_full: fills buf, or reports failure; an early end of file is a failure.
    method ReadFull(fd: Inode, buf: array<bv8>, n: nat) returns (ok: bool)
      requires fd in fs.content && n <= buf.Length
      modifies this`patience, this`faults, buf
      ensures ok <==> faults == old(faults) && n <= |fs.content[fd]|
      ensures ok ==> n <= |fs.content[fd]| && buf[..n] == fs.content[fd][..n]
    {
      var got := 0;
      while got < n
        invariant 0 <= got <= n && got <= |fs.content[fd]|
        invariant buf[..got] == fs.content[fd][..got] && faults == old(faults)
        decreases n - got, patience
      {
        var r, chunk := Read(fd, got, n - got);
        match r
        case Interrupted =>
          continue;
        case Failed =>
          return false;
        case Moved(m) =>
          if m == 0 {
            return false;
          }
          for k := 0 to m
            invariant buf[..got] == fs.content[fd][..got] && faults == old(faults)
            invariant forall j :: 0 <= j < k ==> buf[got + j] == chunk[j]
          {
            buf[got + k] := chunk[k];
          }
          assert fs.content[fd][..got + m] == fs.content[fd][..got] + chunk;
          assert buf[..got + m] == buf[..got] + buf[got..got + m];
          assert buf[got..got + m] == chunk;
          got := got + m;
      }
      return true;
    }
  }

  lemma AppendedOnly(fs: Fs, i: Inode, bytes: Bytes)
    requires i in fs.content
    ensures OnlyFile(fs, Appended(fs, i, bytes), i)
    ensures OnlyFile(fs, fs, i)
  {
  }
}
