/** Atomic encrypted persistence (src/disk_store.c): ds_write as a protocol that a crash may cut anywhere,
  * and ds_read as its inverse.
  */
module DiskStore {
  import opened FileSystem
  import opened Kernel
  import opened Wrappers

  const LS_NONCE_LEN: nat := 12
  const LS_OVERHEAD: nat := 52
  const LS_MAX_PLAINTEXT: nat := 64 * 1024 * 1024
  const SIZE_MAX: nat := 0xFFFF_FFFF_FFFF_FFFF

  datatype Aead = Aes256Gcm | ChaCha20Poly1305

  datatype LsStatus = LsOk | LsNullArg | LsTooLarge | LsFormat | LsAuth | LsKdf | LsCrypto | LsOom

  datatype DsStatus = DsOk | DsNullArg | DsIo | DsTooLarge | DsFormat | DsAuth | DsCrypto | DsOom

  function MapLs(s: LsStatus): DsStatus {
    match s
    case LsOk => DsOk
    case LsNullArg => DsNullArg
    case LsTooLarge => DsTooLarge
    case LsFormat => DsFormat
    case LsAuth => DsAuth
    case LsOom => DsOom
    case LsKdf => DsCrypto
    case LsCrypto => DsCrypto
  }

  datatype OpenResult = Opened(plaintext: Bytes) | NotOpened(why: LsStatus)

  // ls_seal, given its random nonce, and ls_open.
  datatype Crypto = Crypto(seal: (Bytes, Aead, Bytes, Bytes) -> Bytes, open: (Bytes, Bytes) -> OpenResult)

  // The contract of local_store.h: what was sealed under a key opens under it to the same plaintext, the
  // container is exactly 52 bytes longer, and a failure carries no plaintext.
  ghost predicate CryptoOk(crypto: Crypto) {
    && (forall key, aead, nonce, plain ::
          crypto.open(key, crypto.seal(key, aead, nonce, plain)) == Opened(plain) &&
          |crypto.seal(key, aead, nonce, plain)| == LS_OVERHEAD + |plain|)
    && (forall key, blob :: crypto.open(key, blob).NotOpened? ==> crypto.open(key, blob).why != LsOk)
  }

  // A container of the plaintext under the key, for some nonce.
  ghost predicate Seals(crypto: Crypto, key: Bytes, aead: Aead, plain: Bytes, blob: Bytes) {
    exists nonce :: |nonce| == LS_NONCE_LEN && blob == crypto.seal(key, aead, nonce, plain)
  }

  /* ---------- ds_write ---------- */

  // Whatever a crash may leave under the path is something a crash could have left there before the
  // write, or the complete new container; what processes see is the old file or the complete new one.
  ghost predicate Atomic(before: Fs, now: Fs, path: string, blob: Bytes) {
    && Consistent(before) && Consistent(now)
    && (forall found :: AfterCrash(now, path, found) ==> AfterCrash(before, path, found) || found == Some(blob))
    && (Visible(now, path) == Visible(before, path) || Visible(now, path) == Some(blob))
  }

  lemma UntouchedIsAtomic(before: Fs, now: Fs, path: string, blob: Bytes)
    requires Consistent(before) && Consistent(now) && Untouched(before, now, path)
    ensures Atomic(before, now, path, blob)
  {
    UntouchedMeans(before, now, path, None);
    forall found | AfterCrash(now, path, found) ensures AfterCrash(before, path, found) {
      UntouchedMeans(before, now, path, found);
    }
  }

  // The rename: safe because the temporary file was fsynced before it.
  lemma RenameIsAtomic(before: Fs, ready: Fs, tmp: string, path: string, blob: Bytes)
    requires Consistent(before) && Consistent(ready) && Untouched(before, ready, path)
    requires tmp in ready.dir && tmp != path
    requires ready.dir[tmp] in ready.content && ready.content[ready.dir[tmp]] == blob && ready.dir[tmp] in ready.synced
    ensures Atomic(before, Renamed(ready, tmp, path), path, blob)
    ensures Visible(Renamed(ready, tmp, path), path) == Some(blob)
  {
    var now := Renamed(ready, tmp, path);
    RenamedOver(ready, tmp, path);
    forall found | AfterCrash(now, path, found) ensures AfterCrash(before, path, found) || found == Some(blob) {
      var e :| e in Possible(now, path) && Leaves(now, e, found);
      if e == Some(ready.dir[tmp]) {
        assert found == Some(blob);
      } else {
        assert e in Possible(ready, path) && Leaves(ready, e, found);
        UntouchedMeans(before, ready, path, found);
      }
    }
  }

  // The fsync before the rename is what does it: renaming a file with unsynced data lets a crash leave
  // anything at all under the path.
  lemma RenameWithoutFsyncTears(ready: Fs, tmp: string, path: string, garbage: Bytes)
    requires Consistent(ready) && tmp in ready.dir && tmp != path && ready.dir[tmp] !in ready.synced
    ensures AfterCrash(Renamed(ready, tmp, path), path, Some(garbage))
  {
    var now := Renamed(ready, tmp, path);
    RenamedOver(ready, tmp, path);
    assert Some(ready.dir[tmp]) in Possible(now, path) && Leaves(now, Some(ready.dir[tmp]), Some(garbage));
  }

  // Once the directory has been fsynced too, the new container is all a crash can leave.
  lemma SettledIsAtomic(before: Fs, renamed: Fs, path: string, blob: Bytes)
    requires Atomic(before, renamed, path, blob) && Visible(renamed, path) == Some(blob)
    requires renamed.dir[path] in renamed.synced
    ensures var now := DirSynced(renamed, DirOf(path));
            Atomic(before, now, path, blob) && Visible(now, path) == Some(blob) &&
            forall found :: AfterCrash(now, path, found) <==> found == Some(blob)
  {
    var now := DirSynced(renamed, DirOf(path));
    DirSyncedSettles(renamed, path);
    forall found ensures AfterCrash(now, path, found) <==> found == Some(blob) {
      assert Possible(now, path) == {Some(renamed.dir[path])};
      if found == Some(blob) {
        assert Leaves(now, Some(renamed.dir[path]), found);
      }
    }
  }

  lemma WritingIsAtomic(before: Fs, created: Fs, now: Fs, i: Inode, path: string, blob: Bytes)
    requires Consistent(before) && Consistent(created) && Untouched(before, created, path)
    requires i !in before.content && OnlyFile(created, now, i)
    ensures Consistent(now) && Untouched(before, now, path) && Atomic(before, now, path, blob)
  {
    OnlyFileConsistent(created, now, i);
    OnlyNewFile(before, created, now, i, path);
    UntouchedIsAtomic(before, now, path, blob);
  }

  ghost predicate AllAtomic(before: Fs, trace: seq<Fs>, from: nat, path: string, blob: Bytes) {
    forall k :: from <= k < |trace| ==> Atomic(before, trace[k], path, blob)
  }

  ghost predicate NullArguments(path: Option<string>, key: Option<Bytes>, plaintext: Option<Bytes>, ptLen: nat) {
    path.None? || key.None? || (plaintext.None? && ptLen > 0)
  }

  // Seals the plaintext and writes it. `blob` is the container, once there is one; `durable` says that the
  // directory was fsynced as well; `ls` is why sealing failed, if it did. If nothing fails, the container is written and durable; a failed write may
  // leave the temporary file behind only if something else fails on top.
  method DsWrite(os: Os, crypto: Crypto, path: Option<string>, key: Option<Bytes>, aead: Aead, plaintext: Option<Bytes>, ptLen: nat)
    returns (rc: DsStatus, ghost blob: Bytes, ghost durable: bool, ghost ls: LsStatus)
    requires CryptoOk(crypto) && Consistent(os.fs)
    requires plaintext.Some? ==> |plaintext.value| == ptLen
    modifies os
    ensures Consistent(os.fs)
    ensures rc == DsNullArg <==> NullArguments(path, key, plaintext, ptLen)
    ensures rc == DsTooLarge <==> !NullArguments(path, key, plaintext, ptLen) && ptLen > LS_MAX_PLAINTEXT
    ensures rc == DsNullArg || rc == DsTooLarge ==> os.fs == old(os.fs)
    ensures rc in {DsOk, DsNullArg, DsTooLarge, DsIo, DsOom, DsCrypto}
    ensures ls != LsOk ==> rc == (if ls == LsOom then DsOom else DsCrypto) && os.fs == old(os.fs)
    ensures rc == DsCrypto ==> ls != LsOk
    ensures os.faults == old(os.faults) && rc != DsNullArg && rc != DsTooLarge && |path.value| <= SIZE_MAX - 7 ==> rc == DsOk && durable
    ensures path.Some? ==> |os.trace| >= |old(os.trace)| && AllAtomic(old(os.fs), os.trace, |old(os.trace)|, path.value, blob)
    ensures path.Some? && rc != DsOk ==> Untouched(old(os.fs), os.fs, path.value)
    ensures rc != DsOk ==> os.fs.dir == old(os.fs).dir || os.faults >= old(os.faults) + 2
    ensures rc == DsOk || |os.trace| > |old(os.trace)| ==>
              path.Some? && key.Some? && Seals(crypto, key.value, aead, if plaintext.Some? then plaintext.value else [], blob)
    ensures rc == DsOk ==> Visible(os.fs, path.value) == Some(blob)
    ensures rc == DsOk ==> os.fs.dir.Keys == old(os.fs).dir.Keys + {path.value}
    ensures rc == DsOk && durable ==> forall found :: AfterCrash(os.fs, path.value, found) <==> found == Some(blob)
    ensures path.Some? ==> KeepsOthers(old(os.fs), os.fs, path.value)
  {
    blob, durable, ls := [], false, LsOk;
    ghost var before, start := os.fs, |os.trace|;
    if path.None? || key.None? {
      return DsNullArg, blob, durable, ls;
    }
    if plaintext.None? && ptLen > 0 {
      return DsNullArg, blob, durable, ls;
    }
    if ptLen > LS_MAX_PLAINTEXT {
      return DsTooLarge, blob, durable, ls;
    }
    var status, sealed := LsSeal(os, crypto, key.value, aead, if plaintext.Some? then plaintext.value else []);
    ls := status;
    if status != LsOk {
      return MapLs(status), blob, durable, ls;
    }
    blob := sealed;
    if |path.value| > SIZE_MAX - 7 {
      return DsOom, blob, durable, ls;
    }
    var haveName := os.Succeeds();
    if !haveName {
      return DsOom, blob, durable, ls;
    }
    UntouchedIsAtomic(before, before, path.value, blob);
    var fd, tmp := os.Mkstemp(path.value);
    if fd.None? {
      return DsIo, blob, durable, ls;
    }
    rc, durable := WriteAndRename(os, path.value, tmp, fd.value, sealed, before);
  }

  // The part of ds_write after mkstemp.
  method WriteAndRename(os: Os, path: string, tmp: string, fd: Inode, blob: Bytes, ghost before: Fs)
    returns (rc: DsStatus, ghost durable: bool)
    requires Consistent(before) && |tmp| != |path| && tmp !in before.dir && fd !in before.content
    requires os.fs == Created(before, tmp, fd)
    requires |os.trace| > 0 && os.trace[|os.trace| - 1] == os.fs
    modifies os
    ensures Consistent(os.fs)
    ensures |os.trace| >= |old(os.trace)| && AllAtomic(before, os.trace, |old(os.trace)| - 1, path, blob)
    ensures rc == DsOk || rc == DsIo
    ensures os.faults >= old(os.faults)
    ensures os.faults == old(os.faults) ==> rc == DsOk && durable
    ensures rc != DsOk ==> Untouched(before, os.fs, path)
    ensures rc != DsOk ==> os.fs.dir == before.dir || os.faults >= old(os.faults) + 2
    ensures KeepsOthers(before, os.fs, path)
    ensures rc == DsOk ==> Visible(os.fs, path) == Some(blob) && os.fs.dir.Keys == before.dir.Keys + {path}
    ensures rc == DsOk && durable ==> forall found :: AfterCrash(os.fs, path, found) <==> found == Some(blob)
  {
    hide Atomic, Consistent, Untouched, OnlyFile, Visible, AfterCrash, KeepsOthers;
    ghost var start := |os.trace| - 1;
    CreatedElsewhere(before, tmp, fd, path);
    ghost var created := os.fs;
    UntouchedIsAtomic(before, created, path, blob);
    rc := FillTemp(os, fd, blob);
    forall k | start + 1 <= k < |os.trace| ensures Atomic(before, os.trace[k], path, blob) {
      WritingIsAtomic(before, created, os.trace[k], fd, path, blob);
    }
    WritingIsAtomic(before, created, os.fs, fd, path, blob);
    WrittenFile(created, os.fs, fd, tmp, blob);
    rc, durable := Install(os, path, tmp, fd, blob, rc, before);
  }

  // Writes, fsyncs and closes the temporary file, each step only if the ones before it succeeded.
  method FillTemp(os: Os, fd: Inode, blob: Bytes) returns (rc: DsStatus)
    requires fd in os.fs.content
    modifies os
    ensures OnlyFile(old(os.fs), os.fs, fd)
    ensures rc == DsOk || rc == DsIo
    ensures rc == DsOk ==> os.fs.content[fd] == old(os.fs).content[fd] + blob && fd in os.fs.synced
    ensures rc == DsOk <==> os.faults == old(os.faults)
    ensures os.faults >= old(os.faults)
    ensures |os.trace| >= |old(os.trace)| && os.trace[..|old(os.trace)|] == old(os.trace)
    ensures forall k :: |old(os.trace)| <= k < |os.trace| ==> OnlyFile(old(os.fs), os.trace[k], fd)
  {
    rc := DsOk;
    var wrote := os.WriteFull(fd, blob);
    if !wrote {
      rc := DsIo;
    }
    if rc == DsOk {
      var synced := os.Fsync(fd);
      if !synced {
        rc := DsIo;
      }
    }
    var closed := os.Succeeds();
    if !closed && rc == DsOk {
      rc := DsIo;
    }
  }

  // Renames a filled temporary file over the target, or removes one that could not be filled or renamed.
  method Install(os: Os, path: string, tmp: string, fd: Inode, blob: Bytes, filled: DsStatus, ghost before: Fs)
    returns (rc: DsStatus, ghost durable: bool)
    requires Consistent(before) && Consistent(os.fs) && Untouched(before, os.fs, path)
    requires tmp != path && tmp !in before.dir && os.fs.dir == before.dir[tmp := fd] && fd in os.fs.content
    requires filled == DsOk || filled == DsIo
    requires filled == DsOk ==> os.fs.content[fd] == blob && fd in os.fs.synced
    modifies os
    ensures Consistent(os.fs)
    ensures |os.trace| > |old(os.trace)| && os.trace[..|old(os.trace)|] == old(os.trace) && AllAtomic(before, os.trace, |old(os.trace)|, path, blob)
    ensures rc == DsOk || rc == DsIo
    ensures os.faults >= old(os.faults)
    ensures filled == DsOk && os.faults == old(os.faults) ==> rc == DsOk && durable
    ensures rc != DsOk ==> Untouched(before, os.fs, path)
    ensures rc != DsOk ==> os.fs.dir == before.dir || os.faults >= old(os.faults) + if filled == DsOk then 2 else 1
    ensures KeepsOthers(before, os.fs, path)
    ensures rc == DsOk ==> Visible(os.fs, path) == Some(blob) && os.fs.dir.Keys == before.dir.Keys + {path}
    ensures rc == DsOk && durable ==> forall found :: AfterCrash(os.fs, path, found) <==> found == Some(blob)
  {
    hide Atomic, Consistent, Untouched, Visible, AfterCrash, KeepsOthers, Possible, DirOf;
    rc, durable := filled, false;
    ghost var ready := os.fs;
    InstallKeepsOthers(before, ready, tmp, path);
    UntouchedIsAtomic(before, ready, path, blob);
    if rc == DsOk {
      var renamed := os.Rename(tmp, path);
      if !renamed {
        rc := DsIo;
      } else {
        RenameIsAtomic(before, ready, tmp, path, blob);
        RenamedKeys(before, ready, tmp, path);
      }
    }
    ghost var last := os.fs;
    if rc != DsOk {
      var removed := os.Unlink(tmp);
      UnlinkedElsewhere(last, tmp, path);
      UntouchedTransitive(before, last, Unlinked(last, tmp), path);
      UntouchedIsAtomic(before, os.fs, path, blob);
    } else {
      durable := os.FsyncDir(path);
      AtomicConsistent(before, last, path, blob);
      RenamedTarget(ready, tmp, path);
      SettledIsAtomic(before, last, path, blob);
      AtomicConsistent(before, os.fs, path, blob);
    }
  }

  lemma AtomicConsistent(before: Fs, now: Fs, path: string, blob: Bytes)
    requires Atomic(before, now, path, blob)
    ensures Consistent(now)
  {
  }

  lemma WrittenFile(created: Fs, now: Fs, i: Inode, tmp: string, blob: Bytes)
    requires OnlyFile(created, now, i) && tmp in created.dir && created.dir[tmp] == i
    ensures now.dir == created.dir && i in now.content
  {
  }

  lemma RenamedTarget(ready: Fs, tmp: string, path: string)
    requires tmp in ready.dir && tmp != path
    ensures var now := Renamed(ready, tmp, path); path in now.dir && now.dir[path] == ready.dir[tmp] && now.synced == ready.synced
  {
  }

  lemma RenamedKeys(before: Fs, ready: Fs, tmp: string, path: string)
    requires ready.dir.Keys == before.dir.Keys + {tmp} && tmp !in before.dir && tmp != path
    ensures Renamed(ready, tmp, path).dir.Keys == before.dir.Keys + {path}
  {
  }

  // ls_seal: chooses a nonce and seals, or fails.
  method LsSeal(os: Os, crypto: Crypto, key: Bytes, aead: Aead, plain: Bytes) returns (ls: LsStatus, blob: Bytes)
    modifies os`faults
    ensures ls == LsOk <==> os.faults == old(os.faults)
    ensures ls in {LsOk, LsKdf, LsCrypto, LsOom} && os.faults >= old(os.faults)
    ensures ls == LsOk ==> Seals(crypto, key, aead, plain, blob)
    ensures ls != LsOk ==> blob == []
  {
    var sealed := os.Succeeds();
    if !sealed {
      ls :| ls in {LsKdf, LsCrypto, LsOom};
      return ls, [];
    }
    assert |seq(LS_NONCE_LEN, i => 0 as bv8)| == LS_NONCE_LEN;
    var nonce: Bytes :| |nonce| == LS_NONCE_LEN;
    return LsOk, crypto.seal(key, aead, nonce, plain);
  }

  // ls_open: the function, unless it runs out of memory or the cipher itself fails.
  method LsOpen(os: Os, crypto: Crypto, key: Bytes, blob: Bytes) returns (r: OpenResult)
    modifies os`faults
    ensures os.faults >= old(os.faults)
    ensures if os.faults == old(os.faults) then r == crypto.open(key, blob) else r == NotOpened(LsOom) || r == NotOpened(LsCrypto)
  {
    var fine := os.Succeeds();
    if fine {
      return crypto.open(key, blob);
    }
    var why: LsStatus :| why in {LsOom, LsCrypto};
    return NotOpened(why);
  }

  /* ---------- ds_read ---------- */

  // What ds_read answers when the path holds `found`: if anything failed, an error that says so; otherwise
  // exactly what the container opens to.
  ghost predicate ReadAnswers(crypto: Crypto, found: Option<Bytes>, key: Bytes, faulted: bool, rc: DsStatus, out: Option<Bytes>) {
    && (rc == DsOk <==> out.Some?)
    && if faulted then rc in {DsIo, DsOom, DsCrypto}
       else match found
            case None => rc == DsIo
            case Some(blob) =>
              if |blob| > LS_OVERHEAD + LS_MAX_PLAINTEXT then rc == DsTooLarge
              else match crypto.open(key, blob)
                   case Opened(plain) => rc == DsOk && out == Some(plain)
                   case NotOpened(why) => rc == MapLs(why)
  }

  method DsRead(os: Os, crypto: Crypto, path: Option<string>, key: Option<Bytes>) returns (rc: DsStatus, out: Option<Bytes>)
    requires CryptoOk(crypto) && Consistent(os.fs)
    modifies os`patience, os`faults
    ensures path.None? || key.None? ==> rc == DsNullArg && out.None?
    ensures path.Some? && key.Some? ==>
              ReadAnswers(crypto, Visible(os.fs, path.value), key.value, os.faults != old(os.faults), rc, out)
  {
    if path.None? || key.None? {
      return DsNullArg, None;
    }
    var opens := os.Succeeds();
    if !opens || path.value !in os.fs.dir {
      return DsIo, None;
    }
    var fd := os.fs.dir[path.value];
    assert Lookup(os.fs, path.value) in Possible(os.fs, path.value);
    var isRegular := os.Succeeds();
    if !isRegular {
      return DsIo, None;
    }
    var n := |os.fs.content[fd]|;
    if n > LS_OVERHEAD + LS_MAX_PLAINTEXT {
      return DsTooLarge, None;
    }
    var haveBuffer := os.Succeeds();
    if !haveBuffer {
      return DsOom, None;
    }
    var blob := new bv8[if n == 0 then 1 else n](_ => 0);
    if n != 0 {
      var filled := os.ReadFull(fd, blob, n);
      if !filled {
        return DsIo, None;
      }
    }
    assert blob[..n] == os.fs.content[fd];
    var r := LsOpen(os, crypto, key.value, blob[..n]);
    match r
    case Opened(plain) => return DsOk, Some(plain);
    case NotOpened(why) => return MapLs(why), None;
  }

  // A container that does not open says why: a wrong key or tampering is never taken for a malformed file, nor
  // the other way round. Here `why` is what ls_open says of a file within the bound.
  lemma ReadErrorsIff(crypto: Crypto, blob: Bytes, key: Bytes, why: LsStatus, rc: DsStatus, out: Option<Bytes>)
    requires CryptoOk(crypto) && |blob| <= 52 + 67108864 && ReadAnswers(crypto, Some(blob), key, false, rc, out)
    requires crypto.open(key, blob) == NotOpened(why)
    ensures out == None && rc != DsOk && rc != DsIo
    ensures (rc == DsAuth <==> why == LsAuth) && (rc == DsFormat <==> why == LsFormat)
    ensures (rc == DsOom <==> why == LsOom) && (rc == DsTooLarge <==> why == LsTooLarge) && (rc == DsNullArg <==> why == LsNullArg)
    ensures rc == DsCrypto <==> why == LsKdf || why == LsCrypto
  {
  }

  // And a faultless read of a file over the bound says that it is too large, without opening it.
  lemma OversizedIsRefusedIff(crypto: Crypto, blob: Bytes, key: Bytes, rc: DsStatus, out: Option<Bytes>)
    requires CryptoOk(crypto) && ReadAnswers(crypto, Some(blob), key, false, rc, out)
    ensures |blob| > 52 + 67108864 ==> rc == DsTooLarge && out == None
    ensures rc == DsTooLarge ==> |blob| > 52 + 67108864 || crypto.open(key, blob) == NotOpened(LsTooLarge)
  {
  }

  // What was sealed and written is what is read, unless something fails while reading: never a complaint
  // about size, format or authenticity.
  lemma WrittenIsReadBack(crypto: Crypto, key: Bytes, aead: Aead, plain: Bytes, blob: Bytes, faulted: bool, rc: DsStatus, out: Option<Bytes>)
    requires CryptoOk(crypto) && Seals(crypto, key, aead, plain, blob) && |plain| <= LS_MAX_PLAINTEXT
    requires ReadAnswers(crypto, Some(blob), key, faulted, rc, out)
    ensures if faulted then out == None && rc in {DsIo, DsOom, DsCrypto} else rc == DsOk && out == Some(plain)
  {
    var nonce :| |nonce| == LS_NONCE_LEN && blob == crypto.seal(key, aead, nonce, plain);
  }

  // A crash anywhere in ds_write, over a file that was settled: reading without a failure gives what the
  // old file opened to, or, once there is a container, the new plaintext. Never anything in between.
  lemma CrashedWriteReadsOldOrNew(crypto: Crypto, before: Fs, now: Fs, path: string, key: Bytes, aead: Aead, plain: Bytes,
                                  blob: Bytes, found: Option<Bytes>, rc: DsStatus, out: Option<Bytes>)
    requires CryptoOk(crypto) && |plain| <= LS_MAX_PLAINTEXT && Seals(crypto, key, aead, plain, blob)
    requires Atomic(before, now, path, blob) && AfterCrash(now, path, found)
    requires Settled(before, path)
    requires ReadAnswers(crypto, found, key, false, rc, out)
    ensures ReadAnswers(crypto, Visible(before, path), key, false, rc, out) || (rc == DsOk && out == Some(plain))
  {
    if found != Some(blob) {
      assert AfterCrash(before, path, found);
    } else {
      WrittenIsReadBack(crypto, key, aead, plain, blob, false, rc, out);
    }
  }

  // A crash can leave nothing but what processes see.
  ghost predicate Settled(fs: Fs, path: string)
    requires Consistent(fs)
  {
    forall found :: AfterCrash(fs, path, found) ==> found == Visible(fs, path)
  }

  // The crypto contract can be met: a container that is the plaintext after 52 zero bytes meets it.
  lemma ContractCanBeMet()
    ensures CryptoOk(Crypto((key, aead, nonce, plain) => seq(LS_OVERHEAD, i => 0 as bv8) + plain,
                            (key, blob: Bytes) => if |blob| >= LS_OVERHEAD then Opened(blob[LS_OVERHEAD..]) else NotOpened(LsFormat)))
  {
  }
}
