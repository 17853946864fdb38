/** What runs of the release command come to, in terms of paths, versions and the actions that passed. */
module ReleaseOutcomes {
  import opened Options
  import opened Release

  // ----- one run --------------------------------------------------------------------------------------

  function Version(a: Args): string {
    if a.explicit.Some? then a.explicit.value else a.bumped
  }

  function Tag(r: Run): string {
    "scryer-v" + Version(r.args)
  }

  ghost predicate AllPass(r: Run) {
    forall a: Action :: r.ok(a)
  }

  /** The commit a run leaves behind: the bump commit if there was one, else the prep commit, else where it started. */
  function LastCommit(head: Commit, r: Run): Commit {
    if r.bumpCommit.Some? then r.bumpCommit.value
    else if r.prepCommit.Some? then r.prepCommit.value
    else head
  }

  /** A real run with a new tag and its notes, in which every action passes, ends in that tag. */
  lemma PassingRunTags(g: Git, w: World, r: Run)
    requires !r.dry && Tag(r) !in w.tags && r.notesHash.Some? && AllPass(r)
    ensures var after := AfterRun(g, w, r);
      && after.tags == w.tags + {Tag(r)}
      && (exists ran :: after.log == w.log + [Tagged(r, w.head, ran)])
      && after.cacheFile == w.cacheFile
      && after.head in {LastCommit(w.head, r), LastCommit(w.head, r.(prepCommit := None))}
  {
    hide RejectionReason, Classify, FinalCache, InitialCache, ProductInputsMatch, ExpectedOf;
    var after := AfterRun(g, w, r);
    assert after.log[..|w.log|] == w.log;
    assert after.log == w.log + [Tagged(r, w.head, after.log[|w.log|].ran)];
  }

  /** A dry run with a new tag and its notes, in which every action passes, is recorded as passed, and tags nothing. */
  lemma PassingDryRunIsRecorded(g: Git, w: World, r: Run)
    requires r.dry && Tag(r) !in w.tags && r.notesHash.Some? && AllPass(r)
    ensures var after := AfterRun(g, w, r);
      && after.tags == w.tags
      && after.head == (if r.prepCommit.Some? then r.prepCommit.value else w.head)
      && (exists ran :: after.log == w.log + [DryRunPassed(r, after.head, ran)])
      && after.cacheFile.Readable?
      && var c := after.cacheFile.cache;
      && c.success && c.commit == after.head && c.latestTag == r.latestTag && c.nextVersion == Version(r.args)
      && c.tagName == Tag(r) && c.notesPath == Some("release-notes/" + Tag(r) + ".md") && c.notesHash == r.notesHash
  {
    hide Classify, InitialCache;
    var after := AfterRun(g, w, r);
    assert after.log == w.log + [DryRunPassed(r, after.head, after.log[|w.log|].ran)];
  }

  /** With an old tag, or when the checks before validation fail, a run changes nothing. */
  lemma NothingBeforePreflight(g: Git, w: World, r: Run)
    requires Tag(r) in w.tags || !r.ok(Preflight) || !r.ok(ContainerContract)
    ensures AfterRun(g, w, r) == w
  {
  }

  /** A dry run that gets as far as removing the old cache leaves a usable one exactly when it passes and is logged. */
  lemma InterruptedDryRunLeavesNoCache(g: Git, w: World, r: Run)
    requires r.dry && Tag(r) !in w.tags && r.ok(Preflight) && r.ok(ContainerContract) && r.ok(RemoveCacheFile)
    ensures var after := AfterRun(g, w, r);
      && (after.cacheFile.Readable? && after.cacheFile.cache.success <==> |after.log| == |w.log| + 1)
      && (after.log == w.log || |after.log| == |w.log| + 1)
  {
    hide Classify, Validate;
  }

  /**
   * A dry run that passed is reused by a real run for the same release at the commit it left: no validation is
   * repeated.
   */
  lemma PassedDryRunIsReused(g: Git, w: World, first: Run, second: Run)
    requires first.dry && Tag(first) !in w.tags && first.notesHash.Some? && AllPass(first)
    requires !second.dry && AllPass(second) && second.clean && second.builtinsPresent
    requires second.args == first.args && second.latestTag == first.latestTag && second.notesHash == first.notesHash
    requires second.changedPaths == first.changedPaths
    ensures var w1 := AfterRun(g, w, first);
      var w2 := AfterRun(g, w1, second);
      && w2.tags == w.tags + {Tag(first)}
      && w2.log == w1.log + [Tagged(second, w1.head, {ReleaseContainerContract})]
  {
    hide Classify, InitialCache;
    var w1 := AfterRun(g, w, first);
    assert w1.cacheFile == Readable(FinalCache(first, w1.head)) && w1.tags == w.tags;
    AcceptedCacheMatches(FinalCache(first, w1.head), ExpectedOf(second, w1.head), true);
    hide RejectionReason, RequiredSteps, AfterRun;
    assert TryReuse(g, w1, second) == Reused({});
    ReusedRunTags(g, w1, second);
  }

  lemma ReusedRunTags(g: Git, w: World, r: Run)
    requires !r.dry && Tag(r) !in w.tags && r.notesHash.Some? && AllPass(r) && TryReuse(g, w, r) == Reused({})
    ensures var after := AfterRun(g, w, r);
      after.tags == w.tags + {Tag(r)} && after.log == w.log + [Tagged(r, w.head, {ReleaseContainerContract})]
  {
    hide TryReuse, Classify;
    assert {} + {ReleaseContainerContract} == {ReleaseContainerContract};
  }

  /**
   * What must have passed for a tag: the version bump and its commit, and before them either the restoring of a
   * recorded build, or a new build, the notes check and the prep commit. Without a new build something is restored.
   */
  lemma TagNeedsItsActions(g: Git, w: World, r: Run)
    ensures var after := AfterRun(g, w, r);
      after.tags != w.tags ==>
        && r.ok(BumpVersions) && (r.bumpCommit.Some? ==> r.ok(CommitBump))
        && (r.ok(RestoreBuiltins)
            || (r.ok(RefreshBuiltins) && r.ok(CheckNotes) && (r.prepCommit.Some? ==> r.ok(CommitPrep))))
        && (|after.log| > |w.log| && BuiltinRefresh !in after.log[|w.log|].ran ==> r.ok(RestoreBuiltins))
  {
    hide RejectionReason, Classify, FinalCache, InitialCache, ProductInputsMatch, ExpectedOf, TagName;
  }

  /** What must have passed for a dry run to be recorded. */
  lemma RecordNeedsItsActions(g: Git, w: World, r: Run)
    ensures r.dry && AfterRun(g, w, r).log != w.log ==>
      && r.ok(RemoveCacheFile) && r.ok(RemoveBuiltinsDir) && r.ok(WriteInitialCache) && r.ok(RefreshBuiltins)
      && r.ok(CheckNotes) && (r.prepCommit.Some? ==> r.ok(CommitPrep)) && r.ok(StoreBuiltins) && r.ok(WriteFinalCache)
  {
    hide Classify, FinalCache, InitialCache, TagName;
  }

  // ----- paths and steps ------------------------------------------------------------------------------

  /** Documentation and repository housekeeping. */
  predicate IsDocs(p: Path) {
    p != [] &&
    var name := p[|p| - 1];
    || p[0] == ".github" || p[0] == "docs" || p[0] == "release-notes"
    || (|name| >= 4 && name[|name| - 3] == '.' && name[|name| - 2] == 'm' && name[|name| - 1] == 'd')
    || (|p| == 1 && name in {"LICENSE", "NOTICE", "CODEOWNERS", ".editorconfig", ".gitignore", ".gitattributes",
                             ".markdownlint.json", "renovate.json", "dependabot.yml"})
  }

  predicate IsWebApp(p: Path) {
    |p| >= 2 && p[0] == "apps" && p[1] == "scryer-web"
  }

  lemma PathKinds(p: Path)
    ensures IsMeta(p) <==> IsDocs(p)
    ensures IsWeb(p) <==> IsWebApp(p)
  {
    if p != [] {
      assert [".github"] <= p <==> p[0] == ".github";
      assert ["docs"] <= p <==> p[0] == "docs";
      assert ["release-notes"] <= p <==> p[0] == "release-notes";
      var name := p[|p| - 1];
      if |name| >= 4 {
        var tail := name[|name| - 3..];
        assert tail[0] == name[|name| - 3] && tail[1] == name[|name| - 2] && tail[2] == name[|name| - 1];
        assert tail == ".md" <==> tail[0] == '.' && tail[1] == 'm' && tail[2] == 'd';
      }
      if |p| == 1 {
        assert p == [name];
      }
    }
    assert ["apps", "scryer-web"] <= p <==> |p| >= 2 && p[0] == "apps" && p[1] == "scryer-web";
  }

  /** The steps a release needs for the paths changed since the last one. */
  predicate Needed(paths: seq<Path>, step: Step) {
    match step
    case ReleaseContainerContract => true
    case ReleaseHygiene => true
    case WebValidation => exists p :: p in paths && !IsDocs(p)
    case _ => exists p :: p in paths && !IsDocs(p) && !IsWebApp(p)
  }

  lemma NeededAreRequired(paths: seq<Path>, step: Step)
    ensures step in RequiredSteps(Classify(paths)) <==> Needed(paths, step)
  {
    forall p | p in paths ensures IsMeta(p) <==> IsDocs(p) ensures IsWeb(p) <==> IsWebApp(p) {
      PathKinds(p);
    }
    hide IsMeta, IsWeb, IsDocs, IsWebApp;
    FullExactlyForApplicationPaths(paths);
  }

  /** The action whose success the step stands for. */
  function ActionOf(step: Step): Action {
    match step
    case ReleaseContainerContract => ContainerContract
    case BuiltinRefresh => RefreshBuiltins
    case WebValidation => ValidateWeb
    case RustValidation => ValidateRust
    case GraphqlApiCompat => CheckGraphql
    case ReleaseHygiene => CheckHygiene
  }

  predicate Passed(e: Entry) {
    forall step :: step in e.ran ==> e.run.ok(ActionOf(step))
  }

  lemma RunLogsPassed(g: Git, w: World, r: Run)
    ensures var after := AfterRun(g, w, r);
      && |w.log| <= |after.log| <= |w.log| + 1 && after.log[..|w.log|] == w.log
      && (|after.log| == |w.log| + 1 ==> Passed(after.log[|w.log|]))
  {
    hide RejectionReason, FinalCache, InitialCache, ProductInputsMatch, ExpectedOf, TagName, Classify;
  }

  lemma {:induction false} LogsPassed(g: Git, w: World, events: seq<Event>)
    requires forall e :: e in w.log ==> Passed(e)
    ensures forall e :: e in ApplyAll(g, w, events).log ==> Passed(e)
    decreases |events|
  {
    hide Passed, AfterRun;
    if events != [] {
      var next := Apply(g, w, events[0]);
      if events[0].Command? {
        RunLogsPassed(g, w, events[0].run);
        assert next.log == w.log || next.log == w.log + [next.log[|w.log|]];
      }
      LogsPassed(g, next, events[1..]);
    }
  }

  /** An earlier dry run in which the step ran, for the same release, on the same tree up to workflow files. */
  ghost predicate RecordedBefore(g: Git, log: seq<Entry>, i: nat, step: Step)
    requires i < |log|
  {
    exists j :: 0 <= j < i && log[j].DryRunPassed? && step in log[j].ran
      && log[j].run.args.allowBreaking == log[i].run.args.allowBreaking
      && Version(log[j].run.args) == Version(log[i].run.args)
      && log[j].run.latestTag == log[i].run.latestTag && log[j].run.notesHash == log[i].run.notesHash
      && SameProduct(g, log[j].commit, log[i].commit)
  }

  predicate SameProduct(g: Git, earlier: Commit, later: Commit) {
    || earlier == later
    || (g.isAncestor(earlier, later)
        && forall p :: p in g.changed(earlier, later) ==> |p| >= 2 && p[0] == ".github" && p[1] == "workflows")
  }

  lemma CoversSpelled(g: Git, earlier: Commit, later: Commit)
    ensures Covers(g, earlier, later) <==> SameProduct(g, earlier, later)
  {
    forall p: Path ensures [".github", "workflows"] <= p <==> |p| >= 2 && p[0] == ".github" && p[1] == "workflows" {
    }
  }

  /**
   * Whatever runs, complete or stopped midway, and whatever happens in between: for every tag, each step that the
   * changed paths need has passed, in the run that made the tag or in an earlier dry run recorded for it.
   */
  lemma EveryTagIsVetted(g: Git, head: Commit, tags: set<string>, events: seq<Event>, i: nat, step: Step)
    requires i < |ApplyAll(g, World(head, tags, Missing, []), events).log|
    ensures var log := ApplyAll(g, World(head, tags, Missing, []), events).log;
      && Passed(log[i])
      && (log[i].Tagged? && Needed(log[i].run.changedPaths, step) ==>
            step in log[i].ran || RecordedBefore(g, log, i, step))
  {
    var log := ApplyAll(g, World(head, tags, Missing, []), events).log;
    EveryTagIsJustified(g, head, tags, events);
    LogsPassed(g, World(head, tags, Missing, []), events);
    assert log[i] in log;
    NeededAreRequired(log[i].run.changedPaths, step);
    hide RequiredSteps, Classify, ApplyAll, Needed, Passed, SameProduct, Covers;
    assert Justified(g, log, i);
    if log[i].Tagged? && Needed(log[i].run.changedPaths, step) && step !in log[i].ran {
      var j :| 0 <= j < i && Vouches(g, log[j], log[i], step);
      CoversSpelled(g, log[j].commit, log[i].commit);
    }
  }

  /**
   * Without a clean tree, a readable cache and the builtins, nothing is reused: every needed step runs in the run
   * itself.
   */
  lemma DirtyRunsValidate(g: Git, w: World, r: Run, step: Step)
    requires !r.clean || !w.cacheFile.Readable? || !r.builtinsPresent || !w.cacheFile.cache.success
    ensures var log := AfterRun(g, w, r).log;
      |log| > |w.log| && log[|w.log|].Tagged? && Needed(r.changedPaths, step) ==> step in log[|w.log|].ran
  {
    NeededAreRequired(r.changedPaths, step);
    hide Needed, Classify, FinalCache, InitialCache, ProductInputsMatch, ExpectedOf, TagName;
    if r.notesHash.Some? && w.cacheFile.Readable? {
      var c := w.cacheFile.cache;
      var e := ExpectedOf(r, if c.commit != w.head && ProductInputsMatch(g, c.commit, w.head) then c.commit else w.head);
      AcceptedCacheMatches(c, e, r.builtinsPresent);
    }
    hide RejectionReason;
    if Validate(r).Some? {
      ValidationRunsRequired(r);
    }
  }

  /** A dry run made at another commit is reused only after the release tooling's own tests and the hygiene checks. */
  lemma ToolingChangesAreTested(g: Git, w: World, r: Run, step: Step)
    requires w.cacheFile.Readable? && w.cacheFile.cache.commit != w.head
    ensures var log := AfterRun(g, w, r).log;
      |log| > |w.log| && log[|w.log|].Tagged? && Needed(r.changedPaths, step) && step !in log[|w.log|].ran ==>
        r.ok(TestTooling) && r.ok(CheckHygiene) && ReleaseHygiene in log[|w.log|].ran && r.ok(RestoreBuiltins)
  {
    NeededAreRequired(r.changedPaths, step);
    hide Needed, Classify, FinalCache, InitialCache, ProductInputsMatch, TagName;
    if r.notesHash.Some? {
      var c := w.cacheFile.cache;
      var e := ExpectedOf(r, if ProductInputsMatch(g, c.commit, w.head) then c.commit else w.head);
      AcceptedCacheMatches(c, e, r.builtinsPresent);
    }
    hide RejectionReason;
    if Validate(r).Some? {
      ValidationRunsRequired(r);
    }
  }

  // ----- cache and arguments --------------------------------------------------------------------------

  /** A rejection names a true difference. */
  lemma RejectionsAreTrue(c: Cache, e: Expected, builtinsPresent: bool)
    ensures match RejectionReason(c, e, builtinsPresent)
      case None => true
      case Some(Unfinished) => !c.success
      case Some(CommitChanged) => c.commit != e.commit
      case Some(ArgumentsChanged) => c.releaseArgs != e.releaseArgs
      case Some(LatestTagChanged) => c.latestTag != e.latestTag
      case Some(NextVersionChanged) => c.nextVersion != e.nextVersion
      case Some(TagNameChanged) => c.tagName != e.tagName
      case Some(NotesPathChanged) => c.notesPath != Some(e.notesPath)
      case Some(NotesChanged) => c.notesHash != Some(e.notesHash)
      case Some(MissingSteps(steps)) =>
        steps != {} && forall s :: s in steps <==> s in RequiredSteps(e.scope) && s !in c.validated
      case Some(BuiltinsMissing) => !builtinsPresent
  {
  }

  /** At a fixed override, equal signatures mean the same request. */
  lemma SameSignatureSameRequest(a: Args, b: Args)
    requires a.allowBreaking == b.allowBreaking
    ensures Signature(a) == Signature(b) <==>
      a.explicit == b.explicit && (a.explicit.None? ==> a.bump == b.bump)
  {
    var x, y := BaseSignature(a), BaseSignature(b);
    if a.allowBreaking && Signature(a) == Signature(b) {
      assert |x| == |y|;
      assert x == Signature(a)[..|x|] && y == Signature(b)[..|y|];
    }
    if x == y {
      assert x[0] == y[0];
      if a.explicit.Some? {
        assert x[|"version:"|..] == a.explicit.value && y[|"version:"|..] == b.explicit.value;
      } else {
        assert x[|"bump:"|..] == BumpLabel(a.bump) && y[|"bump:"|..] == BumpLabel(b.bump);
        assert BumpLabel(a.bump)[1] == BumpLabel(b.bump)[1];
      }
    }
  }
}
