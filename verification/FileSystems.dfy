/**
 * A shared directory tree as a map from paths to inodes. Any call may fail, and between calls other
 * processes may create, replace or remove files anywhere except under the names reserved for this run.
 */
module FileSystems {
  datatype Path = Path(directory: string, name: string)

  type Inode = nat

  datatype Found = Missing | At(inode: Inode) | Fault

  /** Companion file of a staged store. */
  function Companion(path: Path): Path {
    Path(path.directory, path.name + ".tmp")
  }

  /** Untouched paths are as they were, and files in `own` have got no new name among the watched ones. */
  ghost predicate Steady(before: map<Path, Inode>, after: map<Path, Inode>, own: set<Inode>, watched: set<Path>,
                         touched: set<Path>)
  {
    && (forall p :: p !in touched ==> (p in after <==> p in before))
    && (forall p :: p !in touched && p in after && p in before ==> after[p] == before[p])
    && (forall p :: p in watched && p in after && after[p] in own ==> p in before && before[p] == after[p])
  }

  /** A call on this path is among the faults after the first `n`. */
  ghost predicate FailedSince(faults: seq<Path>, n: nat, path: Path) {
    exists k :: n <= k < |faults| && faults[k] == path
  }

  lemma FailuresStay(before: seq<Path>, after: seq<Path>, n: nat)
    requires before <= after
    ensures forall p :: FailedSince(before, n, p) ==> FailedSince(after, n, p)
  {
  }

  class FileSystem {
    var files: map<Path, Inode>
    /** The names only this run uses, guarded by its nonce. */
    const reserved: set<Path>
    /** The names under which runs publish; other processes do not move this run's files onto them. */
    const watched: set<Path>
    /** The inodes of the files this run creates; nobody else creates a file with one while the run lasts. */
    const own: set<Inode>
    /** Inodes that are not regular files. */
    const special: set<Inode>

    /** What the other processes have put in place, as they left it. */
    ghost var foreign: map<Path, Inode>
    /** Paths that other processes have changed. */
    ghost var touched: set<Path>
    /** The paths of the calls that have failed for a reason of their own, in order. */
    ghost var faults: seq<Path>

    constructor (files: map<Path, Inode>, reserved: set<Path>, watched: set<Path>, own: set<Inode>, special: set<Inode>)
      requires reserved !! watched && forall p :: p in reserved ==> p !in files
      requires forall p :: p in files ==> files[p] !in own
      ensures this.files == files && this.reserved == reserved && this.watched == watched
      ensures this.own == own && this.special == special
      ensures touched == {} && faults == [] && foreign == files && Valid() && PublishedOnly([])
    {
      this.files, this.reserved, this.watched, this.own, this.special := files, reserved, watched, own, special;
      foreign, touched, faults := files, {}, [];
    }

    /**
     * What other processes put in place is as they left it; all else that has a public name is published by
     * this run.
     */
    ghost predicate Respects(p: Path)
      reads this
    {
      && (p in foreign ==> p in files && files[p] == foreign[p] && (p in watched ==> files[p] !in own))
      && (p in files && p !in foreign ==> p in watched && files[p] in own)
    }

    /** Nothing of the other processes has been overwritten or removed, and the reserved names hold this run's files. */
    ghost predicate Valid()
      reads this
    {
      && (forall p :: p !in reserved ==> Respects(p))
      && (forall p :: p in reserved && p in files ==> files[p] in own)
      && reserved !! touched && reserved !! watched
    }

    /** Among the watched names, this run's files have no others than the listed ones. */
    ghost predicate PublishedOnly(names: seq<(Path, Inode)>)
      reads this
    {
      forall p :: p in watched && p in files && files[p] in own ==> (p, files[p]) in names
    }

    /** The same, but for names on which a call has failed since the first `n` faults. */
    ghost predicate PublishedOrFailed(names: seq<(Path, Inode)>, n: nat)
      reads this
    {
      forall p :: p in watched && p in files && files[p] in own ==> (p, files[p]) in names || FailedSince(faults, n, p)
    }

    /** One change by another process: it may also move, link or remove what this run has published. */
    method Disturb()
      requires Valid()
      modifies this`files, this`foreign, this`touched
      ensures Valid() && old(touched) <= touched
      ensures Steady(old(files), files, own, watched, touched)
    {
      var p: Path, inode: Inode := *, *;
      if p in reserved || (p in watched && inode in own) {
        return;
      }
      touched := touched + {p};
      if * {
        files, foreign := files[p := inode], foreign[p := inode];
      } else {
        files, foreign := files - {p}, foreign - {p};
      }
    }

    /** Any number of changes by other processes. */
    method Interfere()
      requires Valid()
      modifies this`files, this`foreign, this`touched
      ensures Valid() && old(touched) <= touched
      ensures Steady(old(files), files, own, watched, touched)
    {
      var changes: int, i := *, 0;
      while i < changes
        invariant Valid() && old(touched) <= touched
        invariant Steady(old(files), files, own, watched, touched)
      {
        Disturb();
        i := i + 1;
      }
    }

    /** This run's own work: files under reserved names. */
    method Produce(made: map<Path, Inode>)
      requires Valid() && made.Keys <= reserved && made.Values <= own
      modifies this`files
      ensures Valid() && files == old(files) + made
    {
      files := files + made;
    }

    method Stat(path: Path) returns (found: Found)
      modifies this`faults
      ensures faults == if found.Fault? then old(faults) + [path] else old(faults)
      ensures found.Missing? ==> path !in files
      ensures found.At? ==> path in files && files[path] == found.inode
    {
      if * {
        faults := faults + [path];
        return Fault;
      }
      return if path in files then At(files[path]) else Missing;
    }

    /** A second name for a file; an existing target is never replaced. */
    method Link(source: Path, target: Path) returns (ok: bool)
      modifies this`files, this`faults
      ensures faults == old(faults) || (!ok && faults == old(faults) + [target])
      ensures ok ==> && source in old(files) && target !in old(files)
                     && files == old(files)[target := old(files)[source]]
      ensures !ok ==> files == old(files) && (faults == old(faults) + [target] || source !in files || target in files)
    {
      if * {
        faults := faults + [target];
        return false;
      }
      if source !in files || target in files {
        return false;
      }
      files := files[target := files[source]];
      return true;
    }

    method Unlink(path: Path) returns (ok: bool)
      modifies this`files, this`faults
      ensures faults == old(faults) || (!ok && faults == old(faults) + [path])
      ensures ok ==> path in old(files) && files == old(files) - {path}
      ensures !ok ==> files == old(files) && (faults == old(faults) + [path] || path !in files)
    {
      if * {
        faults := faults + [path];
        return false;
      }
      if path !in files {
        return false;
      }
      files := files - {path};
      return true;
    }

    /** Remove a file that may be missing already. */
    method RemoveIfExists(path: Path) returns (ok: bool)
      modifies this`files, this`faults
      ensures faults == if ok then old(faults) else old(faults) + [path]
      ensures files == if ok then old(files) - {path} else old(files)
    {
      if * {
        faults := faults + [path];
        return false;
      }
      files := files - {path};
      return true;
    }

    /** Make sure that the directory of a path exists. */
    method MakeParent(path: Path) returns (ok: bool)
      modifies this`faults
      ensures faults == if ok then old(faults) else old(faults) + [path]
    {
      if * {
        faults := faults + [path];
        return false;
      }
      return true;
    }

    method SyncParent(path: Path) returns (ok: bool)
      modifies this`faults
      ensures faults == if ok then old(faults) else old(faults) + [path]
    {
      if * {
        faults := faults + [path];
        return false;
      }
      return true;
    }
  }
}
