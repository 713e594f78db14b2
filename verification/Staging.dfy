/** Publication of several outputs together: all are staged, linked without replacement, and rolled back on failure. */
module Staging {
  import opened Words
  import opened FileSystems

  datatype Output = Output(final: Path, stage: Path)

  /** Whether a failed exit could also clean up after itself. */
  datatype Exit = Published | Failed | CleanupFailed

  /** The sibling name under which an output is staged. */
  function StageName(final: Path, nonce: string): Path {
    Path(final.directory, "." + final.name + ".pari-workload-" + nonce + ".tmp")
  }

  function StageAll(finals: seq<Path>, nonce: string): (outputs: seq<Output>)
    ensures |outputs| == |finals|
    ensures forall i :: 0 <= i < |finals| ==> outputs[i] == Output(finals[i], StageName(finals[i], nonce))
  {
    if finals == [] then [] else [Output(finals[0], StageName(finals[0], nonce))] + StageAll(finals[1..], nonce)
  }

  /** Distinct outputs are staged under distinct names. */
  lemma StageNameInjective(left: Path, right: Path, nonce: string)
    requires StageName(left, nonce) == StageName(right, nonce)
    ensures left == right
  {
    var a, b := StageName(left, nonce).name, StageName(right, nonce).name;
    var tail := |".pari-workload-" + nonce + ".tmp"|;
    assert a[1..|a| - tail] == left.name && b[1..|b| - tail] == right.name;
  }

  ghost predicate DistinctFinals(outputs: seq<Output>) {
    forall i, j :: 0 <= i < j < |outputs| ==> outputs[i].final != outputs[j].final
  }

  ghost predicate DistinctStages(outputs: seq<Output>) {
    forall i, j :: 0 <= i < j < |outputs| ==> outputs[i].stage != outputs[j].stage
  }

  /** Different finals are staged apart. */
  lemma StagesDistinct(outputs: seq<Output>, nonce: string)
    requires forall i :: 0 <= i < |outputs| ==> outputs[i].stage == StageName(outputs[i].final, nonce)
    requires DistinctFinals(outputs)
    ensures DistinctStages(outputs)
  {
    forall i, j | 0 <= i < j < |outputs|
      ensures outputs[i].stage != outputs[j].stage
    {
      assert outputs[i].final != outputs[j].final;
      if outputs[i].stage == outputs[j].stage {
        StageNameInjective(outputs[i].final, outputs[j].final, nonce);
      }
    }
  }

  /** Every output has been staged as a regular file and no final name is taken. */
  ghost predicate Ready(outputs: seq<Output>, files: map<Path, Inode>, special: set<Inode>) {
    && (forall i :: 0 <= i < |outputs| ==> outputs[i].stage in files && files[outputs[i].stage] !in special)
    && (forall i :: 0 <= i < |outputs| ==> outputs[i].final !in files)
  }

  ghost predicate NoneTouched(outputs: seq<Output>, touched: set<Path>) {
    forall i :: 0 <= i < |outputs| ==> outputs[i].final !in touched
  }

  /** The links of the first outputs: each final name with the inode that was staged for it. */
  ghost predicate LinksOf(names: seq<(Path, Inode)>, outputs: seq<Output>, staged: map<Path, Inode>) {
    && |names| <= |outputs|
    && (forall i :: 0 <= i < |names| ==>
          outputs[i].stage in staged && names[i] == (outputs[i].final, staged[outputs[i].stage]))
  }

  /** Where other processes left a published name alone, it names the published file. */
  ghost predicate Named(names: seq<(Path, Inode)>, files: map<Path, Inode>, touched: set<Path>) {
    forall i :: 0 <= i < |names| && names[i].0 !in touched ==> names[i].0 in files && files[names[i].0] == names[i].1
  }

  /** Reserved names are as they were; an untouched public name that is new belongs to this run. */
  ghost predicate Grown(before: map<Path, Inode>, after: map<Path, Inode>, own: set<Inode>, reserved: set<Path>,
                        touched: set<Path>)
  {
    && (forall p :: p in reserved ==> (p in after <==> p in before))
    && (forall p :: p in reserved && p in after && p in before ==> after[p] == before[p])
    && (forall p :: p !in touched && p in before ==> p in after && after[p] == before[p])
    && (forall p :: p !in touched && p in after && after[p] !in own ==> p in before)
  }

  lemma GrownOn(a: map<Path, Inode>, b: map<Path, Inode>, c: map<Path, Inode>, own: set<Inode>, reserved: set<Path>,
                earlier: set<Path>, later: set<Path>, names: seq<(Path, Inode)>)
    requires Grown(a, b, own, reserved, earlier) && Grown(b, c, own, reserved, later) && earlier <= later
    requires Named(names, b, earlier)
    ensures Grown(a, c, own, reserved, later) && Named(names, c, later)
  {
  }

  lemma OneMoreLink(outputs: seq<Output>, names: seq<(Path, Inode)>, staged: map<Path, Inode>,
                    files: map<Path, Inode>, touched: set<Path>, inode: Inode)
    requires LinksOf(names, outputs, staged) && Named(names, files, touched) && |names| < |outputs|
    requires
      var output := outputs[|names|];
      && output.stage in staged && staged[output.stage] == inode
      && output.final in files && files[output.final] == inode
    ensures LinksOf(names + [(outputs[|names|].final, inode)], outputs, staged)
    ensures Named(names + [(outputs[|names|].final, inode)], files, touched)
  {
  }

  /** A final name that is already linked belongs to an earlier output. */
  lemma RepeatedFinal(outputs: seq<Output>, names: seq<(Path, Inode)>, staged: map<Path, Inode>, inode: Inode)
    requires LinksOf(names, outputs, staged) && |names| < |outputs| && (outputs[|names|].final, inode) in names
    ensures !DistinctFinals(outputs)
  {
    var k :| 0 <= k < |names| && names[k] == (outputs[|names|].final, inode);
    assert outputs[k].final == outputs[|names|].final;
  }

  function Stages(outputs: seq<Output>): (paths: seq<Path>)
    ensures |paths| == |outputs| && forall i :: 0 <= i < |outputs| ==> paths[i] == outputs[i].stage
  {
    if outputs == [] then [] else [outputs[0].stage] + Stages(outputs[1..])
  }

  function Companions(paths: seq<Path>): (companions: seq<Path>)
    ensures |companions| == |paths| && forall i :: 0 <= i < |paths| ==> companions[i] == Companion(paths[i])
  {
    if paths == [] then [] else [Companion(paths[0])] + Companions(paths[1..])
  }

  class StagedOutputs {
    const fs: FileSystem
    const nonce: string
    const outputs: seq<Output>

    constructor (fs: FileSystem, finals: seq<Path>, nonce: string)
      ensures this.fs == fs && this.nonce == nonce && this.outputs == StageAll(finals, nonce)
    {
      this.fs, this.nonce, this.outputs := fs, nonce, StageAll(finals, nonce);
    }

    ghost predicate Valid()
      reads this, fs
    {
      && fs.Valid()
      && (forall i :: 0 <= i < |outputs| ==>
            && outputs[i].final in fs.watched
            && outputs[i].stage == StageName(outputs[i].final, nonce)
            && outputs[i].stage in fs.reserved && Companion(outputs[i].stage) in fs.reserved)
    }

    ghost predicate Cleared()
      reads this, fs
    {
      forall i :: 0 <= i < |outputs| ==> outputs[i].stage !in fs.files && Companion(outputs[i].stage) !in fs.files
    }

    /** Remove the listed staged names; a failure does not stop the others, and only a failing name can remain. */
    method RemoveAll(targets: seq<Path>, ghost names: seq<(Path, Inode)>) returns (ok: bool)
      requires Valid() && fs.PublishedOnly(names) && forall p :: p in targets ==> p in fs.reserved
      modifies fs`files, fs`foreign, fs`touched, fs`faults
      ensures Valid() && fs.PublishedOnly(names) && old(fs.faults) <= fs.faults && old(fs.touched) <= fs.touched
      ensures ok <==> fs.faults == old(fs.faults)
      ensures forall p :: p in targets && p in fs.files ==> FailedSince(fs.faults, |old(fs.faults)|, p)
      ensures forall p :: p in fs.reserved && p !in old(fs.files) ==> p !in fs.files
    {
      ok := true;
      ghost var n := |fs.faults|;
      var i := 0;
      while i < |targets|
        invariant 0 <= i <= |targets|
        invariant Valid() && fs.PublishedOnly(names)
        invariant old(fs.faults) <= fs.faults && old(fs.touched) <= fs.touched
        invariant ok <==> fs.faults == old(fs.faults)
        invariant forall k :: 0 <= k < i && targets[k] in fs.files ==> FailedSince(fs.faults, n, targets[k])
        invariant forall p :: p in fs.reserved && p !in old(fs.files) ==> p !in fs.files
      {
        fs.Interfere();
        ghost var before := fs.faults;
        var removed := fs.RemoveIfExists(targets[i]);
        FailuresStay(before, fs.faults, n);
        assert !removed ==> fs.faults[|before|] == targets[i];
        ok := ok && removed;
        i := i + 1;
      }
    }

    /** Published names are public names of this run's files. */
    ghost predicate Owned(names: seq<(Path, Inode)>)
      reads this, fs
    {
      forall i :: 0 <= i < |names| ==> names[i].0 in fs.watched && names[i].1 in fs.own
    }

    /** Remove a final name if it still names the published file; no other process acts in between. */
    method RollbackOne(final: Path, identity: Inode, ghost rest: seq<(Path, Inode)>, ghost n: nat)
      returns (ok: bool)
      requires Valid() && final in fs.watched && identity in fs.own && n <= |fs.faults|
      requires fs.PublishedOrFailed([(final, identity)] + rest, n)
      modifies fs`files, fs`foreign, fs`touched, fs`faults
      ensures Valid() && old(fs.faults) <= fs.faults && old(fs.touched) <= fs.touched
      ensures fs.PublishedOrFailed(rest, n)
      ensures ok <==> fs.faults == old(fs.faults)
      ensures forall p :: p in fs.reserved ==> (p in fs.files <==> p in old(fs.files))
    {
      fs.Interfere();
      ghost var before := fs.faults;
      var current := fs.Stat(final);
      if current.Fault? {
        assert fs.faults[|before|] == final;
        return false;
      }
      if current.Missing? || current.inode != identity {
        return true;
      }
      ok := fs.Unlink(final);
      assert !ok ==> fs.faults[|before|] == final;
    }

    /** Undo the links one by one; a failure does not stop the others, and only a failing name can remain. */
    method RollbackAll(published: seq<(Path, Inode)>) returns (ok: bool)
      requires Valid() && Owned(published) && fs.PublishedOnly(published)
      modifies fs`files, fs`foreign, fs`touched, fs`faults
      ensures Valid() && old(fs.faults) <= fs.faults && old(fs.touched) <= fs.touched
      ensures fs.PublishedOrFailed([], |old(fs.faults)|)
      ensures ok <==> fs.faults == old(fs.faults)
      ensures forall p :: p in fs.reserved ==> (p in fs.files <==> p in old(fs.files))
    {
      ok := true;
      ghost var n := |fs.faults|;
      var i := 0;
      assert published[0..] == published;
      while i < |published|
        invariant 0 <= i <= |published| && Valid() && old(fs.faults) <= fs.faults && old(fs.touched) <= fs.touched
        invariant fs.PublishedOrFailed(published[i..], n)
        invariant ok <==> fs.faults == old(fs.faults)
        invariant forall p :: p in fs.reserved ==> (p in fs.files <==> p in old(fs.files))
      {
        assert published[i..] == [published[i]] + published[i + 1..];
        var undone := RollbackOne(published[i].0, published[i].1, published[i + 1..], n);
        ok := ok && undone;
        i := i + 1;
      }
      assert published[i..] == [];
    }

    /** Of the staged names, only such remain on which a call has failed since `n` faults. */
    ghost predicate OnlyFailedStaged(n: nat)
      reads this, fs
    {
      forall i :: 0 <= i < |outputs| ==>
        && (outputs[i].stage in fs.files ==> FailedSince(fs.faults, n, outputs[i].stage))
        && (Companion(outputs[i].stage) in fs.files ==> FailedSince(fs.faults, n, Companion(outputs[i].stage)))
    }

    /** And of the published names. */
    ghost predicate OnlyFailedLeft(n: nat)
      reads this, fs
    {
      OnlyFailedStaged(n) && fs.PublishedOrFailed([], n)
    }

    method RemoveStages(ghost names: seq<(Path, Inode)>) returns (ok: bool)
      requires Valid() && fs.PublishedOnly(names)
      modifies fs`files, fs`foreign, fs`touched, fs`faults
      ensures Valid() && fs.PublishedOnly(names) && old(fs.faults) <= fs.faults && old(fs.touched) <= fs.touched
      ensures ok <==> fs.faults == old(fs.faults)
      ensures OnlyFailedStaged(|old(fs.faults)|)
    {
      var stages := Stages(outputs);
      var targets := stages + Companions(stages);
      assert forall i :: 0 <= i < |outputs| ==> stages[i] in targets && Companions(stages)[i] in targets;
      ok := RemoveAll(targets, names);
    }

    /**
     * Remove everything this run left behind, collecting failures on the way: every failure is reported, and only
     * names with a failing call remain.
     */
    method Cleanup(published: seq<(Path, Inode)>) returns (exit: Exit)
      requires Valid() && Owned(published) && fs.PublishedOnly(published)
      modifies fs`files, fs`foreign, fs`touched, fs`faults
      ensures Valid() && old(fs.faults) <= fs.faults && old(fs.touched) <= fs.touched
      ensures exit == if fs.faults == old(fs.faults) then Failed else CleanupFailed
      ensures OnlyFailedLeft(|old(fs.faults)|)
      ensures exit.Failed? ==> Cleared() && fs.PublishedOnly([])
    {
      var removed := RemoveStages(published);
      ghost var middle := fs.faults;
      var undone := RollbackAll(published);
      FailuresStay(middle, fs.faults, |old(fs.faults)|);
      return if removed && undone then Failed else CleanupFailed;
    }

    method AllStaged() returns (ok: bool)
      requires Valid() && fs.PublishedOnly([])
      modifies fs`files, fs`foreign, fs`touched, fs`faults
      ensures Valid() && fs.PublishedOnly([]) && old(fs.faults) <= fs.faults && old(fs.touched) <= fs.touched
      ensures Steady(old(fs.files), fs.files, fs.own, fs.watched, fs.touched)
      ensures !ok ==> fs.faults != [] || exists i :: 0 <= i < |outputs| && outputs[i].stage !in old(fs.files)
    {
      var i := 0;
      while i < |outputs|
        invariant 0 <= i <= |outputs|
        invariant Valid() && fs.PublishedOnly([]) && old(fs.faults) <= fs.faults && old(fs.touched) <= fs.touched
        invariant Steady(old(fs.files), fs.files, fs.own, fs.watched, fs.touched)
      {
        fs.Interfere();
        var found := fs.Stat(outputs[i].stage);
        if !found.At? {
          return false;
        }
        i := i + 1;
      }
      return true;
    }

    /** Identify one staged file and link it under its final name. */
    method LinkOne(output: Output, ghost names: seq<(Path, Inode)>) returns (identity: Option<Inode>)
      requires Valid() && fs.PublishedOnly(names) && output.final in fs.watched && output.stage in fs.reserved
      modifies fs`files, fs`foreign, fs`touched, fs`faults
      ensures Valid() && old(fs.faults) <= fs.faults && old(fs.touched) <= fs.touched
      ensures Grown(old(fs.files), fs.files, fs.own, fs.reserved, fs.touched)
      ensures identity.Some? ==>
                && output.stage in old(fs.files) && identity.value == old(fs.files)[output.stage]
                && identity.value in fs.own
                && fs.PublishedOnly(names + [(output.final, identity.value)])
                && output.final in fs.files && fs.files[output.final] == identity.value
      ensures identity.None? ==> fs.PublishedOnly(names)
      ensures identity.None? && fs.faults == [] && output.stage in old(fs.files) &&
              old(fs.files)[output.stage] !in fs.special ==>
                output.final in old(fs.files) || output.final in fs.touched
    {
      fs.Interfere();
      var found := fs.Stat(output.stage);
      if !found.At? || found.inode in fs.special {
        return None;
      }
      fs.Interfere();
      var linked := fs.Link(output.stage, output.final);
      return if linked then Some(found.inode) else None;
    }

    /** Where a sequence of links stands: what is published, and that nothing else has changed. */
    ghost predicate Linking(start: map<Path, Inode>, published: seq<(Path, Inode)>)
      reads this, fs
    {
      && Valid() && Owned(published) && fs.PublishedOnly(published) && LinksOf(published, outputs, start)
      && Grown(start, fs.files, fs.own, fs.reserved, fs.touched) && Named(published, fs.files, fs.touched)
    }

    /** Link the next output; without a fault, only a taken or repeated name or an unfit stage is refused. */
    method LinkNext(published: seq<(Path, Inode)>, ghost start: map<Path, Inode>)
      returns (more: seq<(Path, Inode)>, ok: bool)
      requires Linking(start, published) && |published| < |outputs|
      modifies fs`files, fs`foreign, fs`touched, fs`faults
      ensures Linking(start, more) && old(fs.faults) <= fs.faults && old(fs.touched) <= fs.touched
      ensures |more| == |published| + if ok then 1 else 0
      ensures !ok && fs.faults == [] && Ready(outputs, start, fs.special) && NoneTouched(outputs, fs.touched) ==>
                !DistinctFinals(outputs)
    {
      ghost var before, touched := fs.files, fs.touched;
      var output := outputs[|published|];
      var identity := LinkOne(output, published);
      GrownOn(start, before, fs.files, fs.own, fs.reserved, touched, fs.touched, published);
      if identity.None? {
        if output.final in before && output.final !in start && output.final !in fs.touched {
          RepeatedFinal(outputs, published, start, before[output.final]);
        }
        return published, false;
      }
      OneMoreLink(outputs, published, start, fs.files, fs.touched, identity.value);
      return published + [(output.final, identity.value)], true;
    }

    /** Link all outputs in turn, recording what has been published. */
    method LinkAll() returns (published: seq<(Path, Inode)>, ok: bool)
      requires Valid() && fs.PublishedOnly([])
      modifies fs`files, fs`foreign, fs`touched, fs`faults
      ensures Linking(old(fs.files), published) && old(fs.faults) <= fs.faults && old(fs.touched) <= fs.touched
      ensures ok ==> |published| == |outputs|
      ensures
        (&& !ok && fs.faults == [] && Ready(outputs, old(fs.files), fs.special)
         && NoneTouched(outputs, fs.touched)) ==> !DistinctFinals(outputs)
    {
      published, ok := [], true;
      ghost var start := fs.files;
      while |published| < |outputs|
        invariant |published| <= |outputs| && Linking(start, published)
        invariant old(fs.faults) <= fs.faults && old(fs.touched) <= fs.touched
        decreases |outputs| - |published|
      {
        published, ok := LinkNext(published, start);
        if !ok {
          return;
        }
      }
      ok := true;
    }

    ghost predicate IsStage(p: Path)
      reads this
    {
      exists i :: 0 <= i < |outputs| && outputs[i].stage == p
    }

    /** Reserved names other than the staged ones, such as companions, are as in `before`. */
    ghost predicate OthersKept(before: map<Path, Inode>)
      reads this, fs
    {
      forall p {:trigger IsStage(p)} :: p in fs.reserved && !IsStage(p) ==>
        (p in fs.files <==> p in before) && (p in before ==> fs.files[p] == before[p])
    }

    /** Remove one staged name after the links; nothing else of this run changes. */
    method UnlinkOne(stage: Path, ghost published: seq<(Path, Inode)>) returns (ok: bool)
      requires Valid() && stage in fs.reserved && Owned(published)
      requires fs.PublishedOnly(published) && Named(published, fs.files, fs.touched)
      modifies fs`files, fs`foreign, fs`touched, fs`faults
      ensures Valid() && old(fs.faults) <= fs.faults && old(fs.touched) <= fs.touched
      ensures fs.PublishedOnly(published) && Named(published, fs.files, fs.touched)
      ensures forall p :: p in fs.reserved && p != stage ==> (p in fs.files <==> p in old(fs.files))
      ensures forall p :: p in fs.reserved && p != stage && p in fs.files ==> fs.files[p] == old(fs.files)[p]
      ensures ok ==> stage !in fs.files
      ensures !ok ==> fs.faults != [] || stage !in old(fs.files)
    {
      fs.Interfere();
      ok := fs.Unlink(stage);
    }

    /** After all links: remove the staged names; the published names stand. */
    method UnlinkStages(published: seq<(Path, Inode)>) returns (ok: bool)
      requires Valid() && fs.PublishedOnly(published) && Named(published, fs.files, fs.touched)
      requires Owned(published)
      modifies fs`files, fs`foreign, fs`touched, fs`faults
      ensures Valid() && old(fs.faults) <= fs.faults && old(fs.touched) <= fs.touched
      ensures fs.PublishedOnly(published) && Named(published, fs.files, fs.touched)
      ensures ok ==> forall i :: 0 <= i < |outputs| ==> outputs[i].stage !in fs.files
      ensures ok ==> OthersKept(old(fs.files))
      ensures !ok && fs.faults == [] && DistinctStages(outputs) ==>
                exists i :: 0 <= i < |outputs| && outputs[i].stage !in old(fs.files)
    {
      var i := 0;
      while i < |outputs|
        invariant 0 <= i <= |outputs|
        invariant Valid() && old(fs.faults) <= fs.faults && old(fs.touched) <= fs.touched
        invariant fs.PublishedOnly(published) && Named(published, fs.files, fs.touched)
        invariant forall k :: 0 <= k < i ==> outputs[k].stage !in fs.files
        invariant OthersKept(old(fs.files))
        invariant DistinctStages(outputs) ==>
                    forall k :: i <= k < |outputs| && outputs[k].stage in old(fs.files) ==> outputs[k].stage in fs.files
      {
        assert IsStage(outputs[i].stage);
        var removed := UnlinkOne(outputs[i].stage, published);
        if !removed {
          return false;
        }
        i := i + 1;
      }
      return true;
    }

    /** Check, link and unstage everything, or clean up. */
    method Publish() returns (exit: Exit)
      requires Valid() && fs.PublishedOnly([])
      modifies fs`files, fs`foreign, fs`touched, fs`faults
      ensures Valid() && old(fs.touched) <= fs.touched
      ensures exit.Published? ==> Completed(old(fs.files))
      ensures exit.Failed? ==> Cleared() && fs.PublishedOnly([])
      ensures exit.CleanupFailed? ==> fs.faults != [] && OnlyFailedLeft(|old(fs.faults)|)
      ensures !exit.Published? && fs.faults == [] ==> !CanPublish(old(fs.files))
    {
      var staged := AllStaged();
      if !staged {
        exit := Cleanup([]);
        return;
      }
      var published, linked := LinkAll();
      if !linked {
        exit := Cleanup(published);
        return;
      }
      if DistinctFinals(outputs) {
        StagesDistinct(outputs, nonce);
      }
      var unstaged := UnlinkStages(published);
      if !unstaged {
        exit := Cleanup(published);
        return;
      }
      return Published;
    }

    /**
     * Every output was staged; its staged name is gone, and its final name, unless others changed it, is that file's.
     * No other reserved name is created or removed, so companions that the workflow left are still there.
     */
    ghost predicate Completed(staged: map<Path, Inode>)
      reads this, fs
    {
      && (forall i :: 0 <= i < |outputs| ==>
            && outputs[i].stage in staged && outputs[i].stage !in fs.files
            && (outputs[i].final !in fs.touched ==>
                  outputs[i].final in fs.files && fs.files[outputs[i].final] == staged[outputs[i].stage]))
      && OthersKept(staged)
    }

    /** Nothing stands in the way of publishing except faults. */
    ghost predicate CanPublish(staged: map<Path, Inode>)
      reads this, fs
    {
      Ready(outputs, staged, fs.special) && NoneTouched(outputs, fs.touched) && DistinctFinals(outputs)
    }

    /** After success the run has left no name of its own behind if and only if the workflow left no companion. */
    lemma NothingLeft(staged: map<Path, Inode>)
      requires Valid() && Completed(staged)
      ensures (forall p :: p in fs.reserved ==> p !in fs.files) <==>
              (forall p :: p in fs.reserved && p in staged ==> IsStage(p))
    {
      if forall p :: p in fs.reserved && p in staged ==> IsStage(p) {
        forall p | p in fs.reserved
          ensures p !in fs.files
        {
          assert IsStage(p) || p !in staged;
        }
      }
      if forall p :: p in fs.reserved ==> p !in fs.files {
        forall p | p in fs.reserved && p in staged
          ensures IsStage(p)
        {
          assert p !in fs.files;
        }
      }
    }

    method FinalsDistinct() returns (distinct: bool)
      ensures distinct <==> DistinctFinals(outputs)
    {
      var seen: set<Path>, i := {}, 0;
      while i < |outputs|
        invariant 0 <= i <= |outputs| && DistinctFinals(outputs[..i])
        invariant forall p :: p in seen <==> exists k :: 0 <= k < i && outputs[k].final == p
      {
        if outputs[i].final in seen {
          return false;
        }
        seen := seen + {outputs[i].final};
        i := i + 1;
      }
      assert outputs[..i] == outputs;
      return true;
    }

    /** Refuse repeated or existing outputs before any work; no file is created, only missing directories. */
    method Enter() returns (entered: bool)
      requires Valid() && fs.PublishedOnly([])
      modifies fs`files, fs`foreign, fs`touched, fs`faults
      ensures Valid() && fs.PublishedOnly([]) && Steady(old(fs.files), fs.files, fs.own, fs.watched, fs.touched)
      ensures old(fs.faults) <= fs.faults && old(fs.touched) <= fs.touched
      ensures entered ==> DistinctFinals(outputs)
      ensures entered ==> forall i :: 0 <= i < |outputs| ==>
              outputs[i].final !in old(fs.files) || outputs[i].final in fs.touched
      ensures !entered && fs.faults == [] && DistinctFinals(outputs) ==>
                exists i :: 0 <= i < |outputs| && (outputs[i].final in old(fs.files) || outputs[i].final in fs.touched)
    {
      var distinct := FinalsDistinct();
      if !distinct {
        return false;
      }
      var i := 0;
      while i < |outputs|
        invariant 0 <= i <= |outputs|
        invariant Valid() && fs.PublishedOnly([]) && Steady(old(fs.files), fs.files, fs.own, fs.watched, fs.touched)
        invariant old(fs.faults) <= fs.faults && old(fs.touched) <= fs.touched
        invariant forall k :: 0 <= k < i ==> outputs[k].final !in old(fs.files) || outputs[k].final in fs.touched
      {
        fs.Interfere();
        var found := fs.Stat(outputs[i].final);
        if !found.Missing? {
          return false;
        }
        i := i + 1;
      }
      i := 0;
      while i < |outputs|
        invariant 0 <= i <= |outputs|
        invariant Valid() && fs.PublishedOnly([]) && Steady(old(fs.files), fs.files, fs.own, fs.watched, fs.touched)
        invariant old(fs.faults) <= fs.faults && old(fs.touched) <= fs.touched
        invariant forall k :: 0 <= k < |outputs| ==>
                  outputs[k].final !in old(fs.files) || outputs[k].final in fs.touched
      {
        fs.Interfere();
        var made := fs.MakeParent(outputs[i].final);
        if !made {
          return false;
        }
        i := i + 1;
      }
      return true;
    }

    /** Leave the context: clean up after a failed workflow, publish after a successful one. */
    method Leave(raised: bool) returns (exit: Exit)
      requires Valid() && fs.PublishedOnly([])
      modifies fs`files, fs`foreign, fs`touched, fs`faults
      ensures Valid() && old(fs.touched) <= fs.touched
      ensures exit.Published? ==> !raised && Completed(old(fs.files))
      ensures exit.Failed? ==> Cleared() && fs.PublishedOnly([])
      ensures exit.CleanupFailed? ==> fs.faults != [] && OnlyFailedLeft(|old(fs.faults)|)
      ensures !exit.Published? && fs.faults == [] && !raised ==> !CanPublish(old(fs.files))
    {
      if raised {
        exit := Cleanup([]);
      } else {
        exit := Publish();
      }
    }
  }

  /**
   * A whole run, with any call failing and other processes at work throughout: either every output is published or,
   * unless a cleanup failure is reported, nothing of this run remains; other processes' files are never harmed. The
   * workflow leaves the files `made` under reserved names, and may raise.
   */
  method RunStaged(fs: FileSystem, finals: seq<Path>, nonce: string, made: map<Path, Inode>, raises: bool)
    returns (exit: Exit)
    requires fs.Valid() && fs.PublishedOnly([]) && forall p :: p in fs.reserved ==> p !in fs.files
    requires forall i :: 0 <= i < |finals| ==>
               && finals[i] in fs.watched
               && StageName(finals[i], nonce) in fs.reserved && Companion(StageName(finals[i], nonce)) in fs.reserved
    requires made.Keys <= fs.reserved && made.Values <= fs.own
    modifies fs
    ensures fs.Valid()
    ensures exit.Published? ==> !raises && Delivered(fs, StageAll(finals, nonce), made)
    ensures exit.Published? ==> forall i :: 0 <= i < |finals| ==> finals[i] !in old(fs.files) || finals[i] in fs.touched
    ensures exit.Failed? ==> fs.PublishedOnly([])
    ensures exit.Failed? ==> forall i :: 0 <= i < |finals| ==>
              StageName(finals[i], nonce) !in fs.files && Companion(StageName(finals[i], nonce)) !in fs.files
    ensures exit.CleanupFailed? ==> fs.faults != [] && fs.PublishedOrFailed([], |old(fs.faults)|)
    ensures exit.CleanupFailed? ==> forall i :: 0 <= i < |finals| ==>
              var stage, n := StageName(finals[i], nonce), |old(fs.faults)|;
              && (stage in fs.files ==> FailedSince(fs.faults, n, stage))
              && (Companion(stage) in fs.files ==> FailedSince(fs.faults, n, Companion(stage)))
    ensures fs.faults == [] && !raises && Unhindered(fs, StageAll(finals, nonce), made, old(fs.files)) ==>
              exit.Published?
  {
    var staging := new StagedOutputs(fs, finals, nonce);
    var entered := staging.Enter();
    if !entered {
      return Failed;
    }
    fs.Interfere();
    fs.Produce(made);
    ghost var staged := fs.files;
    assert forall p :: p in fs.reserved ==> (p in staged <==> p in made) && (p in made ==> staged[p] == made[p]);
    exit := staging.Leave(raises);
    if exit.Published? {
      staging.NothingLeft(staged);
    }
  }

  /** One output and its companion staged, and nothing in the way: the output is published and the companion stays. */
  method CompanionStays() returns (exit: Exit, fs: FileSystem, final: Path, companion: Path)
    ensures exit.Published? ==> companion in fs.reserved && companion in fs.files
    ensures fs.faults == [] && final !in fs.touched ==> exit.Published?
  {
    final := Path("out", "report");
    var stage := StageName(final, "1");
    companion := Companion(stage);
    assert |companion.name| > |stage.name| > |final.name|;
    fs := new FileSystem(map[], {stage, companion}, {final}, {0, 1}, {});
    fs.Produce(map[stage := 0, companion := 1]);
    var staging := new StagedOutputs(fs, [final], "1");
    assert staging.outputs[0] == Output(final, stage);
    assert !staging.IsStage(companion);
    exit := staging.Leave(false);
    assert !staging.IsStage(companion);
  }

  /**
   * Every staged name is gone, every final name that others left alone is the staged file's, and a name of the run is
   * left if and only if the workflow left one that is no staged name.
   */
  ghost predicate Delivered(fs: FileSystem, outputs: seq<Output>, staged: map<Path, Inode>)
    reads fs
  {
    && (forall i :: 0 <= i < |outputs| ==>
          && outputs[i].stage in staged && outputs[i].stage !in fs.files
          && (outputs[i].final !in fs.touched ==>
                outputs[i].final in fs.files && fs.files[outputs[i].final] == staged[outputs[i].stage]))
    && ((forall p :: p in fs.reserved ==> p !in fs.files) <==>
        (forall p :: p in fs.reserved && p in staged ==> exists i :: 0 <= i < |outputs| && outputs[i].stage == p))
  }

  /** All outputs are staged as regular files, and their final names are distinct, free at the start and left alone. */
  ghost predicate Unhindered(fs: FileSystem, outputs: seq<Output>, staged: map<Path, Inode>, start: map<Path, Inode>)
    reads fs
  {
    && DistinctFinals(outputs) && NoneTouched(outputs, fs.touched)
    && (forall i :: 0 <= i < |outputs| ==> outputs[i].final !in start)
    && (forall i :: 0 <= i < |outputs| ==> outputs[i].stage in staged && staged[outputs[i].stage] !in fs.special)
  }
}
