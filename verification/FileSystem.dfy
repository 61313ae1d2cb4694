/** A POSIX file system as far as crash consistency goes: what running processes see, and what a crash
  * may leave behind.
  *
  * A file's content is safe on disk only once the file has been fsynced since its last write; before that a
  * crash may leave anything in it. A directory entry that has changed may come back, after a crash, as any of
  * the things it has been since its directory was last fsynced.
  */
module FileSystem {
  import opened Wrappers

  type Bytes = seq<bv8>
  type Inode = nat

  datatype Fs = Fs(
    content: map<Inode, Bytes>,
    synced: set<Inode>,
    dir: map<string, Inode>,
    earlier: map<string, set<Option<Inode>>>
  )

  function Lookup(fs: Fs, name: string): Option<Inode> {
    if name in fs.dir then Some(fs.dir[name]) else None
  }

  // What a name may refer to after a crash.
  function Possible(fs: Fs, name: string): set<Option<Inode>> {
    {Lookup(fs, name)} + if name in fs.earlier then fs.earlier[name] else {}
  }

  // Every entry, present or possible, refers to an existing file.
  ghost predicate Consistent(fs: Fs) {
    forall name, e :: e in Possible(fs, name) && e.Some? ==> e.value in fs.content
  }

  // What a process that opens the name reads.
  function Visible(fs: Fs, name: string): Option<Bytes>
    requires Consistent(fs)
  {
    assert Lookup(fs, name) in Possible(fs, name);
    if name in fs.dir then Some(fs.content[fs.dir[name]]) else None
  }

  // Whether a crash now may leave `found` under the name.
  ghost predicate AfterCrash(fs: Fs, name: string, found: Option<Bytes>) {
    exists e :: e in Possible(fs, name) && Leaves(fs, e, found)
  }

  ghost predicate Leaves(fs: Fs, e: Option<Inode>, found: Option<Bytes>) {
    match e
    case None => found.None?
    case Some(i) => found.Some? && (i in fs.synced && i in fs.content ==> found.value == fs.content[i])
  }

  /* ---------- system calls, when they succeed ---------- */

  function Created(fs: Fs, name: string, i: Inode): Fs {
    fs.(content := fs.content[i := []], synced := fs.synced - {i}, dir := fs.dir[name := i],
        earlier := fs.earlier[name := Possible(fs, name)])
  }

  function Appended(fs: Fs, i: Inode, bytes: Bytes): Fs
    requires i in fs.content
  {
    fs.(content := fs.content[i := fs.content[i] + bytes], synced := fs.synced - {i})
  }

  function Fsynced(fs: Fs, i: Inode): Fs {
    fs.(synced := fs.synced + {i})
  }

  function Renamed(fs: Fs, from: string, to: string): Fs
    requires from in fs.dir
  {
    fs.(dir := (fs.dir - {from})[to := fs.dir[from]],
        earlier := fs.earlier[from := Possible(fs, from)][to := Possible(fs, to)])
  }

  function Unlinked(fs: Fs, name: string): Fs {
    fs.(dir := fs.dir - {name}, earlier := fs.earlier[name := Possible(fs, name)])
  }

  // The directory that holds a path: up to its last slash; "/" for a file in the root; "." with no slash.
  function DirOf(path: string): string {
    var k := LastSlash(path);
    if k < 0 then "." else if k == 0 then "/" else path[..k]
  }

  function LastSlash(path: string): (k: int)
    ensures -1 <= k < |path|
    ensures k >= 0 ==> path[k] == '/' && '/' !in path[k + 1..]
    ensures k < 0 ==> '/' !in path
  {
    if path == [] then -1
    else if path[|path| - 1] == '/' then |path| - 1
    else
      var k := LastSlash(path[..|path| - 1]);
      assert path == path[..|path| - 1] + [path[|path| - 1]];
      assert k >= 0 ==> path[k + 1..] == path[..|path| - 1][k + 1..] + [path[|path| - 1]];
      k
  }

  function DirSynced(fs: Fs, d: string): Fs {
    fs.(earlier := map name | name in fs.earlier && DirOf(name) != d :: fs.earlier[name])
  }

  // The directory of a path is what precedes its last component.
  lemma DirOfMeans(d: string, f: string)
    requires '/' !in f
    ensures DirOf(f) == "." && DirOf(['/'] + f) == "/"
    ensures d != "" ==> DirOf(d + ['/'] + f) == d
  {
    LastSlashBefore("", f);
    LastSlashBefore(d, f);
    NoSlash(f);
    assert "" + ['/'] + f == ['/'] + f;
    assert (d + ['/'] + f)[..|d|] == d;
  }

  lemma NoSlash(f: string)
    requires '/' !in f
    ensures LastSlash(f) == -1
  {
  }

  lemma {:induction false} LastSlashBefore(d: string, f: string)
    requires '/' !in f
    ensures LastSlash(d + ['/'] + f) == |d|
    decreases |f|
  {
    var p := d + ['/'] + f;
    if f == "" {
      assert p[|p| - 1] == '/';
    } else {
      assert p[|p| - 1] == f[|f| - 1];
      assert p[..|p| - 1] == d + ['/'] + f[..|f| - 1];
      LastSlashBefore(d, f[..|f| - 1]);
    }
  }

  // What is written is not on disk before it is synced: a crash can leave anything in a file just created or
  // just written to.
  lemma UnsyncedMayTear(fs: Fs, name: string, i: Inode, bytes: Bytes, garbage: Bytes)
    ensures AfterCrash(Created(fs, name, i), name, Some(garbage))
    ensures i in fs.content && name in fs.dir && fs.dir[name] == i ==> AfterCrash(Appended(fs, i, bytes), name, Some(garbage))
  {
    assert Some(i) in Possible(Created(fs, name, i), name) && Leaves(Created(fs, name, i), Some(i), Some(garbage));
    if i in fs.content && name in fs.dir && fs.dir[name] == i {
      assert Some(i) in Possible(Appended(fs, i, bytes), name) && Leaves(Appended(fs, i, bytes), Some(i), Some(garbage));
    }
  }

  // Nor is a change of the directory: until that is synced, a crash can bring back what a name referred to.
  lemma UnsyncedEntryMayReturn(fs: Fs, tmp: string, name: string, found: Option<Bytes>)
    requires AfterCrash(fs, name, found) && tmp in fs.dir
    ensures AfterCrash(Renamed(fs, tmp, name), name, found) && AfterCrash(Unlinked(fs, name), name, found)
  {
    var e :| e in Possible(fs, name) && Leaves(fs, e, found);
    assert e in Possible(Renamed(fs, tmp, name), name) && Leaves(Renamed(fs, tmp, name), e, found);
    assert e in Possible(Unlinked(fs, name), name) && Leaves(Unlinked(fs, name), e, found);
  }

  /* ---------- relations between states ---------- */

  // b differs from a in one file's content at most.
  ghost predicate OnlyFile(a: Fs, b: Fs, i: Inode) {
    && b.dir == a.dir && b.earlier == a.earlier
    && b.content - {i} == a.content - {i} && b.synced - {i} == a.synced - {i}
    && i in b.content
  }

  // The name refers to the same files as before, durably or not, and none of the files there were changed.
  ghost predicate Untouched(a: Fs, b: Fs, name: string) {
    && Lookup(b, name) == Lookup(a, name) && Possible(b, name) == Possible(a, name)
    && forall i :: i in a.content ==> i in b.content && b.content[i] == a.content[i] && (i in b.synced <==> i in a.synced)
  }

  // Every other name still refers to the same file, with the same content.
  ghost predicate KeepsOthers(a: Fs, b: Fs, path: string) {
    forall name :: name in a.dir && name != path ==>
      && name in b.dir && b.dir[name] == a.dir[name]
      && (a.dir[name] in a.content ==> a.dir[name] in b.content && b.content[a.dir[name]] == a.content[a.dir[name]])
  }

  lemma UntouchedMeans(a: Fs, b: Fs, name: string, found: Option<Bytes>)
    requires Consistent(a) && Consistent(b) && Untouched(a, b, name)
    ensures Visible(b, name) == Visible(a, name)
    ensures AfterCrash(b, name, found) <==> AfterCrash(a, name, found)
  {
    assert Lookup(a, name) in Possible(a, name);
    forall e | e in Possible(a, name) ensures Leaves(a, e, found) <==> Leaves(b, e, found) {
    }
  }

  lemma UntouchedTransitive(a: Fs, b: Fs, c: Fs, name: string)
    requires Untouched(a, b, name) && Untouched(b, c, name)
    ensures Untouched(a, c, name)
  {
  }

  // Working on a file that did not exist before leaves every name of before alone.
  lemma OnlyNewFile(a: Fs, b: Fs, c: Fs, i: Inode, name: string)
    requires Untouched(a, b, name) && OnlyFile(b, c, i) && i !in a.content
    ensures Untouched(a, c, name)
  {
    forall j | j in a.content
      ensures j in c.content && c.content[j] == a.content[j] && (j in c.synced <==> j in a.synced)
    {
      assert j in b.content - {i};
      assert j in c.content - {i};
      assert (b.content - {i})[j] == (c.content - {i})[j];
      assert j in b.synced - {i} <==> j in b.synced;
      assert j in c.synced - {i} <==> j in c.synced;
    }
  }

  lemma OnlyFileConsistent(a: Fs, b: Fs, i: Inode)
    requires Consistent(a) && OnlyFile(a, b, i)
    ensures Consistent(b)
  {
    forall name, e | e in Possible(b, name) && e.Some? ensures e.value in b.content {
      assert e in Possible(a, name);
      assert e.value in a.content;
      if e.value != i {
        assert e.value in a.content - {i};
        assert e.value in b.content - {i};
      }
    }
  }

  lemma CreatedElsewhere(fs: Fs, tmp: string, i: Inode, name: string)
    requires Consistent(fs) && i !in fs.content && tmp != name
    ensures Consistent(Created(fs, tmp, i)) && Untouched(fs, Created(fs, tmp, i), name)
  {
    var c := Created(fs, tmp, i);
    forall n, e | e in Possible(c, n) && e.Some? ensures e.value in c.content {
      if n == tmp && e == Some(i) {
      } else {
        assert e in Possible(fs, n);
      }
    }
    assert Lookup(c, name) == Lookup(fs, name);
  }

  lemma UnlinkedElsewhere(fs: Fs, tmp: string, name: string)
    requires Consistent(fs) && tmp != name
    ensures Consistent(Unlinked(fs, tmp)) && Untouched(fs, Unlinked(fs, tmp), name)
  {
    var c := Unlinked(fs, tmp);
    forall n, e | e in Possible(c, n) && e.Some? ensures e.value in c.content {
      assert e in Possible(fs, n);
    }
  }

  // A rename makes the new file one more possibility under the target name, and the one visible now.
  lemma RenamedOver(fs: Fs, tmp: string, name: string)
    requires Consistent(fs) && tmp in fs.dir && tmp != name
    ensures var c := Renamed(fs, tmp, name);
            Consistent(c) && Lookup(c, name) == Some(fs.dir[tmp]) &&
            Possible(c, name) == Possible(fs, name) + {Some(fs.dir[tmp])}
  {
    var c := Renamed(fs, tmp, name);
    assert Lookup(fs, tmp) in Possible(fs, tmp);
    forall n, e | e in Possible(c, n) && e.Some? ensures e.value in c.content {
      if e != Some(fs.dir[tmp]) {
        assert e in Possible(fs, n);
      }
    }
  }

  // Putting the temporary file in place, or giving it up, concerns no other name.
  lemma InstallKeepsOthers(before: Fs, ready: Fs, tmp: string, path: string)
    requires Untouched(before, ready, path) && tmp in ready.dir && ready.dir == before.dir[tmp := ready.dir[tmp]] && tmp !in before.dir
    ensures KeepsOthers(before, ready, path) && KeepsOthers(before, Unlinked(ready, tmp), path)
    ensures KeepsOthers(before, Renamed(ready, tmp, path), path)
    ensures KeepsOthers(before, DirSynced(Renamed(ready, tmp, path), DirOf(path)), path)
  {
  }

  lemma DirSyncedSettles(fs: Fs, name: string)
    requires Consistent(fs)
    ensures Consistent(DirSynced(fs, DirOf(name)))
    ensures Possible(DirSynced(fs, DirOf(name)), name) == {Lookup(fs, name)}
    ensures Lookup(DirSynced(fs, DirOf(name)), name) == Lookup(fs, name)
  {
    var c := DirSynced(fs, DirOf(name));
    forall n, e | e in Possible(c, n) && e.Some? ensures e.value in c.content {
      assert e in Possible(fs, n);
    }
  }
}
