/** Publication of one index file: staged under a reserved name, linked without replacement, rolled back on failure. */
module IndexOutput {
  import opened FileSystems

  /** Whether a failed publication could also clean up after itself. */
  datatype Outcome = Done | Failed | RecoveryFailed

  class IndexOutputTransaction {
    const fs: FileSystem
    const finalPath: Path
    const stagedPath: Path
    var active: bool

    constructor (fs: FileSystem, finalPath: Path, stagedPath: Path)
      ensures this.fs == fs && this.finalPath == finalPath && this.stagedPath == stagedPath && active
    {
      this.fs, this.finalPath, this.stagedPath, active := fs, finalPath, stagedPath, true;
    }

    /** The staged names are this run's alone and the final name is not one of them. */
    ghost predicate Valid()
      reads this, fs
    {
      && fs.Valid() && finalPath in fs.watched
      && stagedPath in fs.reserved && Companion(stagedPath) in fs.reserved
    }

    ghost predicate Cleared()
      reads this, fs
    {
      stagedPath !in fs.files && Companion(stagedPath) !in fs.files
    }

    /** Of the staged names, only such remain on which a call has failed since `n` faults. */
    ghost predicate OnlyFailedStaged(n: nat)
      reads this, fs
    {
      && (stagedPath in fs.files ==> FailedSince(fs.faults, n, stagedPath))
      && (Companion(stagedPath) in fs.files ==> FailedSince(fs.faults, n, Companion(stagedPath)))
    }

    /** Remove both staged files, whatever happens to the first. */
    method RemoveStagedFiles(ghost names: seq<(Path, Inode)>) returns (ok: bool)
      requires Valid() && fs.PublishedOnly(names)
      modifies this`active, fs`files, fs`foreign, fs`touched, fs`faults
      ensures Valid() && old(fs.faults) <= fs.faults && old(fs.touched) <= fs.touched
      ensures fs.PublishedOnly(names)
      ensures ok <==> fs.faults == old(fs.faults)
      ensures if ok then Cleared() && !active else active == old(active)
      ensures OnlyFailedStaged(|old(fs.faults)|)
      ensures old(Cleared()) ==> Cleared()
    {
      fs.Interfere();
      ghost var before := fs.faults;
      var first := fs.RemoveIfExists(stagedPath);
      assert !first ==> fs.faults[|before|] == stagedPath;
      fs.Interfere();
      ghost var middle := fs.faults;
      var second := fs.RemoveIfExists(Companion(stagedPath));
      FailuresStay(middle, fs.faults, |before|);
      assert !second ==> fs.faults[|middle|] == Companion(stagedPath);
      ok := first && second;
      if ok {
        active := false;
      }
    }

    /** Remove the final name if it still names the published file; no other process acts in between. */
    method RollbackFinal(identity: Inode) returns (ok: bool)
      requires Valid() && identity in fs.own && fs.PublishedOnly([(finalPath, identity)])
      modifies fs`files, fs`foreign, fs`touched, fs`faults
      ensures Valid() && old(fs.faults) <= fs.faults && old(fs.touched) <= fs.touched
      ensures ok <==> fs.faults == old(fs.faults)
      ensures fs.PublishedOnly(if ok then [] else [(finalPath, identity)])
      ensures !ok ==> FailedSince(fs.faults, |old(fs.faults)|, finalPath)
    {
      fs.Interfere();
      ghost var before := fs.faults;
      var current := fs.Stat(finalPath);
      if current.Missing? {
        return true;
      }
      if current.Fault? {
        assert fs.faults[|before|] == finalPath;
        return false;
      }
      if current.inode != identity {
        return true;
      }
      var removed := fs.Unlink(finalPath);
      if !removed {
        assert fs.faults[|before|] == finalPath;
        return false;
      }
      ok := fs.SyncParent(finalPath);
      assert !ok ==> fs.faults[|before|] == finalPath;
    }

    /** The last chance to clean up, when the transaction goes out of scope. */
    method Drop(ghost names: seq<(Path, Inode)>)
      requires Valid() && fs.PublishedOnly(names)
      modifies this`active, fs`files, fs`foreign, fs`touched, fs`faults
      ensures Valid() && fs.PublishedOnly(names) && old(fs.faults) <= fs.faults && old(fs.touched) <= fs.touched
      ensures !old(active) ==> fs.files == old(fs.files) && fs.faults == old(fs.faults)
      ensures old(active) ==> OnlyFailedStaged(|old(fs.faults)|)
    {
      if active {
        var _ := RemoveStagedFiles(names);
      }
    }

    /** Give up before publication. */
    method Abort() returns (outcome: Outcome)
      requires Valid() && active && fs.PublishedOnly([])
      modifies this`active, fs`files, fs`foreign, fs`touched, fs`faults
      ensures Valid() && fs.PublishedOnly([]) && old(fs.faults) <= fs.faults && old(fs.touched) <= fs.touched
      ensures outcome == if fs.faults == old(fs.faults) then Failed else RecoveryFailed
      ensures outcome.Failed? ==> Cleared()
      ensures OnlyFailedStaged(|old(fs.faults)|)
    {
      var ok := RemoveStagedFiles([]);
      Drop([]);
      return if ok then Failed else RecoveryFailed;
    }

    /** Give up after publication: undo the link, then remove the staged files, whatever happens to the first. */
    method RecoverAfterPublication(identity: Inode) returns (outcome: Outcome)
      requires Valid() && active && identity in fs.own && fs.PublishedOnly([(finalPath, identity)])
      modifies this`active, fs`files, fs`foreign, fs`touched, fs`faults
      ensures Valid() && old(fs.faults) <= fs.faults && old(fs.touched) <= fs.touched
      ensures outcome == if fs.faults == old(fs.faults) then Failed else RecoveryFailed
      ensures outcome.Failed? ==> Cleared() && fs.PublishedOnly([])
      ensures OnlyFailedStaged(|old(fs.faults)|) && fs.PublishedOrFailed([], |old(fs.faults)|)
    {
      var rolledBack := RollbackFinal(identity);
      ghost var middle := fs.faults;
      ghost var names := if rolledBack then [] else [(finalPath, identity)];
      var cleaned := RemoveStagedFiles(names);
      Drop(names);
      FailuresStay(middle, fs.faults, |old(fs.faults)|);
      return if rolledBack && cleaned then Failed else RecoveryFailed;
    }

    /** The final name, where other processes left it alone, is the only public name of the published file. */
    ghost predicate Standing(identity: Inode)
      reads this, fs
    {
      && Valid() && identity in fs.own && fs.PublishedOnly([(finalPath, identity)])
      && (finalPath !in fs.touched ==> finalPath in fs.files && fs.files[finalPath] == identity)
    }

    method RemoveAfterLink(path: Path, missingOk: bool, ghost identity: Inode) returns (ok: bool)
      requires Standing(identity) && path in fs.reserved
      modifies fs`files, fs`foreign, fs`touched, fs`faults
      ensures Standing(identity) && old(fs.touched) <= fs.touched && old(fs.faults) <= fs.faults
      ensures forall q :: q in fs.reserved && q !in old(fs.files) ==> q !in fs.files
      ensures ok ==> path !in fs.files
      ensures !ok ==> fs.faults != [] || (!missingOk && path !in old(fs.files))
    {
      fs.Interfere();
      if missingOk {
        ok := fs.RemoveIfExists(path);
      } else {
        ok := fs.Unlink(path);
      }
    }

    /** After the link: remove the staged names and make the new name durable. */
    method FinishPublication(identity: Inode) returns (outcome: Outcome)
      requires Standing(identity) && active
      modifies this`active, fs`files, fs`foreign, fs`touched, fs`faults
      ensures Valid() && old(fs.touched) <= fs.touched && old(fs.faults) <= fs.faults
      ensures outcome.Done? ==> Cleared() && !active && Standing(identity)
      ensures outcome.Failed? ==> Cleared() && fs.PublishedOnly([])
      ensures outcome.RecoveryFailed? ==>
                OnlyFailedStaged(|old(fs.faults)|) && fs.PublishedOrFailed([], |old(fs.faults)|)
      ensures !outcome.Done? ==> fs.faults != [] || stagedPath !in old(fs.files)
    {
      var removed := RemoveAfterLink(stagedPath, false, identity);
      if !removed {
        outcome := RecoverAfterPublication(identity);
        return;
      }
      removed := RemoveAfterLink(Companion(stagedPath), true, identity);
      if !removed {
        outcome := RecoverAfterPublication(identity);
        return;
      }
      fs.Interfere();
      var synced := fs.SyncParent(finalPath);
      if !synced {
        outcome := RecoverAfterPublication(identity);
        return;
      }
      active := false;
      return Done;
    }

    /**
     * All or nothing: success leaves the final name on the staged file and no staged name; a failure that reports no
     * recovery error leaves neither; and no file of another process is ever replaced or removed.
     */
    method Publish() returns (outcome: Outcome)
      requires Valid() && active && fs.PublishedOnly([])
      modifies this`active, fs`files, fs`foreign, fs`touched, fs`faults
      ensures Valid() && old(fs.touched) <= fs.touched
      ensures outcome.Done? ==> stagedPath in old(fs.files) && Cleared() && !active
      ensures outcome.Done? ==> fs.PublishedOnly([(finalPath, old(fs.files)[stagedPath])])
      ensures outcome.Done? && finalPath !in fs.touched ==>
                finalPath in fs.files && fs.files[finalPath] == old(fs.files)[stagedPath]
      ensures outcome.Failed? ==> Cleared() && fs.PublishedOnly([])
      ensures outcome.RecoveryFailed? ==> fs.faults != []
      ensures outcome.RecoveryFailed? ==>
                OnlyFailedStaged(|old(fs.faults)|) && fs.PublishedOrFailed([], |old(fs.faults)|)
      ensures !outcome.Done? && fs.faults == [] ==>
                stagedPath !in old(fs.files) || finalPath in old(fs.files) || finalPath in fs.touched
    {
      fs.Interfere();
      var staged := fs.Stat(stagedPath);
      if !staged.At? {
        outcome := Abort();
        return;
      }
      fs.Interfere();
      var linked := fs.Link(stagedPath, finalPath);
      if !linked {
        outcome := Abort();
        return;
      }
      outcome := FinishPublication(staged.inode);
    }
  }

  /** Refuse an existing output before any work. */
  method Begin(fs: FileSystem, finalPath: Path, stagedPath: Path) returns (transaction: IndexOutputTransaction?)
    modifies fs`faults
    ensures old(fs.faults) <= fs.faults
    ensures transaction != null ==> fresh(transaction) && transaction.active && finalPath !in fs.files
    ensures transaction != null ==>
              transaction.fs == fs && transaction.finalPath == finalPath && transaction.stagedPath == stagedPath
    ensures transaction == null ==> fs.faults != [] || finalPath in fs.files
  {
    var existing := fs.Stat(finalPath);
    if !existing.Missing? {
      return null;
    }
    transaction := new IndexOutputTransaction(fs, finalPath, stagedPath);
  }

  /**
   * A whole run: begin, build under the staged name, publish, with other processes at work throughout. The build
   * leaves the files `made` under reserved names, and may raise.
   */
  method RunIndex(fs: FileSystem, finalPath: Path, stagedPath: Path, made: map<Path, Inode>, raises: bool)
    returns (outcome: Outcome)
    requires fs.Valid() && fs.PublishedOnly([]) && finalPath in fs.watched
    requires stagedPath in fs.reserved && Companion(stagedPath) in fs.reserved
    requires stagedPath !in fs.files && Companion(stagedPath) !in fs.files
    requires made.Keys <= fs.reserved && made.Values <= fs.own
    modifies fs
    ensures fs.Valid()
    ensures outcome.Done? ==> !raises && stagedPath in made
    ensures outcome.Done? && finalPath !in fs.touched ==>
              finalPath !in old(fs.files) && finalPath in fs.files && fs.files[finalPath] == made[stagedPath]
    ensures outcome.Failed? ==> fs.PublishedOnly([])
    ensures !outcome.RecoveryFailed? ==> stagedPath !in fs.files && Companion(stagedPath) !in fs.files
    ensures outcome.RecoveryFailed? ==> fs.faults != [] && fs.PublishedOrFailed([], |old(fs.faults)|)
    ensures outcome.RecoveryFailed? && stagedPath in fs.files ==>
              FailedSince(fs.faults, |old(fs.faults)|, stagedPath)
    ensures outcome.RecoveryFailed? && Companion(stagedPath) in fs.files ==>
              FailedSince(fs.faults, |old(fs.faults)|, Companion(stagedPath))
    ensures
      (&& fs.faults == [] && !raises && stagedPath in made
       && finalPath !in old(fs.files) && finalPath !in fs.touched) ==> outcome.Done?
  {
    var transaction := Begin(fs, finalPath, stagedPath);
    if transaction == null {
      return Failed;
    }
    fs.Interfere();
    fs.Produce(made);
    if raises {
      outcome := transaction.Abort();
    } else {
      outcome := transaction.Publish();
    }
  }
}
