/** The release command: validation scope, the dry-run cache, and what a tag stands on. */
module Release {
  import opened Options

  // ----- validation scope -------------------------------------------------------------------------------

  /** A path as its components, relative to the repository. */
  type Path = seq<string>

  datatype Scope = Full | WebOnly | MetaOnly

  datatype Step =
    | ReleaseContainerContract
    | BuiltinRefresh
    | WebValidation
    | RustValidation
    | GraphqlApiCompat
    | ReleaseHygiene

  function RequiredSteps(scope: Scope): set<Step> {
    match scope
    case Full =>
      {ReleaseContainerContract, BuiltinRefresh, WebValidation, RustValidation, GraphqlApiCompat, ReleaseHygiene}
    case WebOnly => {ReleaseContainerContract, WebValidation, ReleaseHygiene}
    case MetaOnly => {ReleaseContainerContract, ReleaseHygiene}
  }

  predicate StartsWith(path: Path, base: Path) {
    base <= path
  }

  /** The file name has a stem and the extension "md". */
  predicate IsMarkdown(path: Path) {
    path != [] &&
    var name := path[|path| - 1];
    |name| > 3 && name[|name| - 3..] == ".md"
  }

  predicate IsMeta(path: Path) {
    || StartsWith(path, [".github"])
    || StartsWith(path, ["docs"])
    || StartsWith(path, ["release-notes"])
    || IsMarkdown(path)
    || path in {["LICENSE"], ["NOTICE"], ["CODEOWNERS"], [".editorconfig"], [".gitignore"], [".gitattributes"],
                [".markdownlint.json"], ["renovate.json"], ["dependabot.yml"]}
  }

  predicate IsWeb(path: Path) {
    StartsWith(path, ["apps", "scryer-web"])
  }

  function Classify(paths: seq<Path>): Scope {
    if paths == [] then MetaOnly
    else if forall p :: p in paths ==> IsMeta(p) then MetaOnly
    else if (forall p :: p in paths ==> IsMeta(p) || IsWeb(p)) && exists p :: p in paths && IsWeb(p) then WebOnly
    else Full
  }

  /** The scope is full exactly when some path is neither documentation nor web. */
  lemma FullExactlyForApplicationPaths(paths: seq<Path>)
    ensures Classify(paths) == Full <==> exists p :: p in paths && !IsMeta(p) && !IsWeb(p)
    ensures Classify(paths) == MetaOnly <==> forall p :: p in paths ==> IsMeta(p)
  {
    hide IsMeta, IsWeb;
    if Classify(paths) == Full {
      var q :| q in paths && !IsMeta(q);
      assert IsWeb(q) ==> exists p :: p in paths && IsWeb(p);
    }
  }

  /** More changed paths never require fewer steps. */
  lemma ScopeIsMonotone(some: seq<Path>, more: seq<Path>)
    requires forall p :: p in some ==> p in more
    ensures RequiredSteps(Classify(some)) <= RequiredSteps(Classify(more))
  {
    hide IsMeta, IsWeb;
    FullExactlyForApplicationPaths(some);
    FullExactlyForApplicationPaths(more);
  }

  // ----- release arguments ------------------------------------------------------------------------------

  datatype Bump = Patch | Minor | Major

  /** What the operator asked for; `bumped` is the version the bump computes from the latest tag. */
  datatype Args = Args(explicit: Option<string>, bump: Bump, bumped: string, allowBreaking: bool)

  function BumpLabel(bump: Bump): string {
    match bump case Patch => "patch" case Minor => "minor" case Major => "major"
  }

  const ALLOW_SUFFIX := "+allow-breaking-api"

  function BaseSignature(a: Args): string {
    match a.explicit
    case Some(version) => "version:" + version
    case None => "bump:" + BumpLabel(a.bump)
  }

  function Signature(a: Args): string {
    if a.allowBreaking then BaseSignature(a) + ALLOW_SUFFIX else BaseSignature(a)
  }

  function NextVersion(a: Args): string {
    match a.explicit
    case Some(version) => version
    case None => a.bumped
  }

  /**
   * Signatures with and without the override collide exactly when both versions are explicit and the
   * one released without it carries the suffix as build metadata.
   */
  lemma SignatureCollisions(allowed: Args, strict: Args)
    requires allowed.allowBreaking && !strict.allowBreaking
    ensures Signature(allowed) == Signature(strict) <==>
      allowed.explicit.Some? && strict.explicit.Some? && strict.explicit.value == allowed.explicit.value + ALLOW_SUFFIX
  {
    if allowed.explicit.Some? && strict.explicit.Some? {
      var v, w := allowed.explicit.value, strict.explicit.value;
      assert Signature(allowed) == "version:" + (v + ALLOW_SUFFIX);
      assert Signature(strict) == "version:" + w;
      assert Signature(allowed)[8..] == v + ALLOW_SUFFIX && Signature(strict)[8..] == w;
    } else if allowed.explicit.None? && strict.explicit.None? {
      assert |Signature(allowed)| > |Signature(strict)|;
    } else {
      assert Signature(allowed)[0] != Signature(strict)[0];
    }
  }

  /** Such a collision exists, so the signature alone does not keep the two apart. */
  lemma SignatureAloneIsNotEnough()
    ensures
      var allowed := Args(Some("1.2.3"), Patch, "", true);
      var strict := Args(Some("1.2.3+allow-breaking-api"), Patch, "", false);
      Signature(allowed) == Signature(strict) && NextVersion(allowed) != NextVersion(strict)
  {
    assert "version:" + "1.2.3" + ALLOW_SUFFIX == "version:" + ("1.2.3" + ALLOW_SUFFIX);
    assert "1.2.3" + ALLOW_SUFFIX == "1.2.3+allow-breaking-api";
  }

  /** Signature and next version together determine the override. */
  lemma SignatureAndVersionFixOverride(a: Args, b: Args)
    requires Signature(a) == Signature(b) && NextVersion(a) == NextVersion(b)
    ensures a.allowBreaking == b.allowBreaking
  {
    if a.allowBreaking && !b.allowBreaking {
      SignatureCollisions(a, b);
    } else if b.allowBreaking && !a.allowBreaking {
      SignatureCollisions(b, a);
    }
  }

  // ----- the dry-run cache ------------------------------------------------------------------------------

  type Commit = nat

  datatype Cache = Cache(
    success: bool,
    commit: Commit,
    releaseArgs: string,
    latestTag: Option<string>,
    nextVersion: string,
    tagName: string,
    validated: set<Step>,
    notesPath: Option<string>,
    notesHash: Option<string>)

  datatype Expected = Expected(
    commit: Commit,
    scope: Scope,
    releaseArgs: string,
    latestTag: Option<string>,
    nextVersion: string,
    tagName: string,
    notesPath: string,
    notesHash: string)

  datatype Rejection =
    | Unfinished
    | CommitChanged
    | ArgumentsChanged
    | LatestTagChanged
    | NextVersionChanged
    | TagNameChanged
    | NotesPathChanged
    | NotesChanged
    | MissingSteps(steps: set<Step>)
    | BuiltinsMissing

  function RejectionReason(c: Cache, e: Expected, builtinsPresent: bool): Option<Rejection> {
    if !c.success then Some(Unfinished)
    else if c.commit != e.commit then Some(CommitChanged)
    else if c.releaseArgs != e.releaseArgs then Some(ArgumentsChanged)
    else if c.latestTag != e.latestTag then Some(LatestTagChanged)
    else if c.nextVersion != e.nextVersion then Some(NextVersionChanged)
    else if c.tagName != e.tagName then Some(TagNameChanged)
    else if c.notesPath != Some(e.notesPath) then Some(NotesPathChanged)
    else if c.notesHash != Some(e.notesHash) then Some(NotesChanged)
    else
      var missing := RequiredSteps(e.scope) - c.validated;
      if missing != {} then Some(MissingSteps(missing))
      else if !builtinsPresent then Some(BuiltinsMissing)
      else None
  }

  /** What git knows about two commits, fixed once they exist. */
  datatype Git = Git(isAncestor: (Commit, Commit) -> bool, changed: (Commit, Commit) -> seq<Path>)

  predicate ToolingOnly(paths: seq<Path>) {
    forall p :: p in paths ==> StartsWith(p, [".github", "workflows"])
  }

  /** The later commit descends from the validated one and touches workflow files only. */
  predicate ProductInputsMatch(g: Git, validated: Commit, current: Commit) {
    g.isAncestor(validated, current) && ToolingOnly(g.changed(validated, current))
  }

  /** The validated tree stands in for the current one. */
  predicate Covers(g: Git, validated: Commit, current: Commit) {
    validated == current || ProductInputsMatch(g, validated, current)
  }

  // ----- one run of the command -------------------------------------------------------------------------

  /** Everything a run does outside its own bookkeeping; it may fail, or be killed, at each. */
  datatype Action =
    | Preflight
    | ContainerContract
    | RemoveCacheFile
    | RemoveBuiltinsDir
    | WriteInitialCache
    | CheckAncestry
    | TestTooling
    | RestoreBuiltins
    | RefreshBuiltins
    | ValidateWeb
    | ValidateRust
    | CheckGraphql
    | CheckHygiene
    | CheckNotes
    | CommitPrep
    | StoreBuiltins
    | WriteFinalCache
    | CheckMainMerged
    | BumpVersions
    | CargoCheck
    | CommitBump
    | CreateTag

  /** One invocation: its arguments and what it finds in the world as it goes. */
  datatype Run = Run(
    dry: bool,
    args: Args,
    latestTag: Option<string>,
    changedPaths: seq<Path>,
    clean: bool,
    notesHash: Option<string>,
    builtinsPresent: bool,
    prepCommit: Option<Commit>,
    bumpCommit: Option<Commit>,
    ok: Action -> bool)

  function TagName(r: Run): string {
    "scryer-v" + NextVersion(r.args)
  }

  function NotesPath(r: Run): string {
    "release-notes/" + TagName(r) + ".md"
  }

  datatype CacheFile = Missing | Unreadable | Readable(cache: Cache)

  /** What happened: a dry run that passed, or a tag; `ran` are the steps that ran in that very run. */
  datatype Entry =
    | DryRunPassed(run: Run, commit: Commit, ran: set<Step>)
    | Tagged(run: Run, commit: Commit, ran: set<Step>)

  datatype World = World(head: Commit, tags: set<string>, cacheFile: CacheFile, log: seq<Entry>)

  function InitialCache(r: Run, commit: Commit): Cache {
    Cache(false, commit, Signature(r.args), r.latestTag, NextVersion(r.args), TagName(r), {}, None, None)
  }

  function FinalCache(r: Run, commit: Commit): Cache {
    Cache(true, commit, Signature(r.args), r.latestTag, NextVersion(r.args), TagName(r),
          RequiredSteps(Classify(r.changedPaths)), Some(NotesPath(r)), r.notesHash)
  }

  function ExpectedOf(r: Run, commit: Commit): Expected
    requires r.notesHash.Some?
  {
    Expected(commit, Classify(r.changedPaths), Signature(r.args), r.latestTag, NextVersion(r.args), TagName(r),
             NotesPath(r), r.notesHash.value)
  }

  /** The validations of the scope; the steps that ran, when all of them passed. */
  function Validate(r: Run): Option<set<Step>> {
    if !r.ok(RefreshBuiltins) then None
    else
      match Classify(r.changedPaths)
      case Full =>
        if r.ok(ValidateWeb) && r.ok(ValidateRust) && r.ok(CheckGraphql) && r.ok(CheckHygiene)
        then Some({BuiltinRefresh, WebValidation, RustValidation, GraphqlApiCompat, ReleaseHygiene})
        else None
      case WebOnly =>
        if r.ok(ValidateWeb) && r.ok(CheckHygiene)
        then Some({BuiltinRefresh, WebValidation, ReleaseHygiene})
        else None
      case MetaOnly =>
        if r.ok(CheckHygiene) then Some({BuiltinRefresh, ReleaseHygiene}) else None
  }

  function Moved(head: Commit, commit: Option<Commit>): Commit {
    if commit.Some? then commit.value else head
  }

  function DryRun(w: World, r: Run): World {
    if !r.ok(RemoveCacheFile) then w
    else if !r.ok(RemoveBuiltinsDir) then w.(cacheFile := Missing)
    else if !r.ok(WriteInitialCache) then w.(cacheFile := Unreadable)
    else
      var w1 := w.(cacheFile := Readable(InitialCache(r, w.head)));
      var ran := Validate(r);
      if ran.None? || !r.ok(CheckNotes) || r.notesHash.None? then w1
      else if r.prepCommit.Some? && !r.ok(CommitPrep) then w1
      else
        var w2 := w1.(head := Moved(w1.head, r.prepCommit));
        if !r.ok(StoreBuiltins) then w2
        else if !r.ok(WriteFinalCache) then w2.(cacheFile := Unreadable)
        else
          w2.(cacheFile := Readable(FinalCache(r, w2.head)),
              log := w2.log + [DryRunPassed(r, w2.head, ran.value + {ReleaseContainerContract})])
  }

  datatype Reuse = Abort | NoReuse | Reused(ran: set<Step>)

  /** Whether the recorded dry run stands in for this run's validation. */
  function TryReuse(g: Git, w: World, r: Run): Reuse
    requires r.notesHash.Some?
  {
    if !r.clean || !w.cacheFile.Readable? then NoReuse
    else
      var c := w.cacheFile.cache;
      if c.commit != w.head && !r.ok(CheckAncestry) then Abort
      else
        var tooling := c.commit != w.head && ProductInputsMatch(g, c.commit, w.head);
        var expected := ExpectedOf(r, if tooling then c.commit else w.head);
        if RejectionReason(c, expected, r.builtinsPresent).Some? then NoReuse
        else if tooling && !(r.ok(TestTooling) && r.ok(CheckHygiene)) then Abort
        else if !r.ok(RestoreBuiltins) then Abort
        else Reused(if tooling then {ReleaseHygiene} else {})
  }

  /** From the version bump to the tag. */
  function Publish(w: World, r: Run, start: Commit, ran: set<Step>): World {
    if !r.ok(CheckMainMerged) || !r.ok(BumpVersions) then w
    else if Classify(r.changedPaths) == Full && !r.ok(CargoCheck) then w
    else if r.bumpCommit.Some? && !r.ok(CommitBump) then w
    else
      var w1 := w.(head := Moved(w.head, r.bumpCommit));
      if !r.ok(CreateTag) then w1
      else w1.(tags := w1.tags + {TagName(r)}, log := w1.log + [Tagged(r, start, ran)])
  }

  function RealRun(g: Git, w: World, r: Run): World {
    if r.notesHash.None? then w
    else
      match TryReuse(g, w, r)
      case Abort => w
      case Reused(ran) => Publish(w, r, w.head, ran + {ReleaseContainerContract})
      case NoReuse =>
        var ran := Validate(r);
        if ran.None? || !r.ok(CheckNotes) then w
        else if r.prepCommit.Some? && !r.ok(CommitPrep) then w
        else Publish(w.(head := Moved(w.head, r.prepCommit)), r, w.head, ran.value + {ReleaseContainerContract})
  }

  function AfterRun(g: Git, w: World, r: Run): World {
    if TagName(r) in w.tags || !r.ok(Preflight) || !r.ok(ContainerContract) then w
    else if r.dry then DryRun(w, r)
    else RealRun(g, w, r)
  }

  /** The command against the checkout it runs in. */
  class Checkout {
    var head: Commit
    var tags: set<string>
    var cacheFile: CacheFile
    ghost var log: seq<Entry>

    ghost function Contents(): World
      reads this
    {
      World(head, tags, cacheFile, log)
    }

    method RunRelease(g: Git, r: Run)
      modifies this
      ensures Contents() == AfterRun(g, old(Contents()), r)
    {
      if TagName(r) in tags || !r.ok(Preflight) || !r.ok(ContainerContract) {
        return;
      }
      if r.dry {
        ValidateAndRecord(r);
      } else if r.notesHash.Some? {
        var start := head;
        var reuse := ReuseDryRun(g, r);
        match reuse {
          case Abort =>
          case Reused(ran) =>
            BumpAndTag(r, start, ran + {ReleaseContainerContract});
          case NoReuse =>
            var ran := RunValidation(r);
            if ran.None? || !r.ok(CheckNotes) { return; }
            if r.prepCommit.Some? {
              if !r.ok(CommitPrep) { return; }
              head := r.prepCommit.value;
            }
            BumpAndTag(r, start, ran.value + {ReleaseContainerContract});
        }
      }
    }

    method ValidateAndRecord(r: Run)
      modifies this
      ensures Contents() == DryRun(old(Contents()), r)
    {
      if !r.ok(RemoveCacheFile) { return; }
      cacheFile := Missing;
      if !r.ok(RemoveBuiltinsDir) { return; }
      cacheFile := Unreadable;
      if !r.ok(WriteInitialCache) { return; }
      cacheFile := Readable(InitialCache(r, head));
      var ran := RunValidation(r);
      if ran.None? || !r.ok(CheckNotes) || r.notesHash.None? { return; }
      if r.prepCommit.Some? {
        if !r.ok(CommitPrep) { return; }
        head := r.prepCommit.value;
      }
      if !r.ok(StoreBuiltins) { return; }
      cacheFile := Unreadable;
      if !r.ok(WriteFinalCache) { return; }
      cacheFile := Readable(FinalCache(r, head));
      log := log + [DryRunPassed(r, head, ran.value + {ReleaseContainerContract})];
    }

    /** The validations one after the other; `ran` grows only as each of them passes. */
    method RunValidation(r: Run) returns (steps: Option<set<Step>>)
      ensures steps == Validate(r)
    {
      if !r.ok(RefreshBuiltins) { return None; }
      var ran := {BuiltinRefresh};
      var scope := Classify(r.changedPaths);
      if scope != MetaOnly {
        if !r.ok(ValidateWeb) { return None; }
        ran := ran + {WebValidation};
      }
      if scope == Full {
        if !r.ok(ValidateRust) { return None; }
        ran := ran + {RustValidation};
        if !r.ok(CheckGraphql) { return None; }
        ran := ran + {GraphqlApiCompat};
      }
      if !r.ok(CheckHygiene) { return None; }
      ran := ran + {ReleaseHygiene};
      assert ran == Validate(r).value;
      return Some(ran);
    }

    method ReuseDryRun(g: Git, r: Run) returns (reuse: Reuse)
      requires r.notesHash.Some?
      ensures reuse == TryReuse(g, Contents(), r)
    {
      if !r.clean || !cacheFile.Readable? { return NoReuse; }
      var cache := cacheFile.cache;
      var tooling := false;
      if cache.commit != head {
        if !r.ok(CheckAncestry) { return Abort; }
        tooling := ProductInputsMatch(g, cache.commit, head);
      }
      var expected := ExpectedOf(r, if tooling then cache.commit else head);
      if RejectionReason(cache, expected, r.builtinsPresent).Some? { return NoReuse; }
      var ran: set<Step> := {};
      if tooling {
        if !r.ok(TestTooling) || !r.ok(CheckHygiene) { return Abort; }
        ran := {ReleaseHygiene};
      }
      if !r.ok(RestoreBuiltins) { return Abort; }
      return Reused(ran);
    }

    method BumpAndTag(r: Run, ghost start: Commit, ghost ran: set<Step>)
      modifies this
      ensures Contents() == Publish(old(Contents()), r, start, ran)
    {
      if !r.ok(CheckMainMerged) || !r.ok(BumpVersions) { return; }
      if Classify(r.changedPaths) == Full && !r.ok(CargoCheck) { return; }
      if r.bumpCommit.Some? {
        if !r.ok(CommitBump) { return; }
        head := r.bumpCommit.value;
      }
      if !r.ok(CreateTag) { return; }
      tags := tags + {TagName(r)};
      log := log + [Tagged(r, start, ran)];
    }
  }

  /**
   * Only a real run creates a tag, at most its own and only if it was new, and not before the branch was checked
   * against main again and, in full scope, the bumped crates were checked. A real run leaves the cache file alone.
   */
  lemma TagComesLast(g: Git, w: World, r: Run)
    ensures var after := AfterRun(g, w, r);
      && (after.tags != w.tags ==>
           && !r.dry && TagName(r) !in w.tags && after.tags == w.tags + {TagName(r)}
           && r.notesHash.Some? && r.ok(Preflight) && r.ok(ContainerContract) && r.ok(CheckMainMerged) && r.ok(CreateTag)
           && (Classify(r.changedPaths) == Full ==> r.ok(CargoCheck)))
      && (!r.dry ==> after.cacheFile == w.cacheFile)
  {
    hide TryReuse, Validate, Classify, FinalCache, InitialCache, TagName;
  }

  // ----- every sequence of runs -------------------------------------------------------------------------

  /** A run of the command, or a change of branch head or of the known tags by other means. */
  datatype Event = Command(run: Run) | HeadMoved(head: Commit) | Fetched(tags: set<string>)

  function Apply(g: Git, w: World, e: Event): World {
    match e
    case Command(r) => AfterRun(g, w, r)
    case HeadMoved(head) => w.(head := head)
    case Fetched(tags) => w.(tags := tags)
  }

  function ApplyAll(g: Git, w: World, events: seq<Event>): World
    decreases |events|
  {
    if events == [] then w else ApplyAll(g, Apply(g, w, events[0]), events[1..])
  }

  /** The cache file, when it can be used at all, was written by a dry run that passed. */
  ghost predicate Recorded(c: Cache, log: seq<Entry>) {
    c.success ==>
      exists i :: 0 <= i < |log| && Records(c, log[i])
  }

  ghost predicate Records(c: Cache, e: Entry) {
    && e.DryRunPassed?
    && c == FinalCache(e.run, e.commit)
    && c.validated <= e.ran
  }

  /** Two runs aim at the same release under the same rules. */
  predicate SameRelease(a: Run, b: Run) {
    && a.args.allowBreaking == b.args.allowBreaking
    && NextVersion(a.args) == NextVersion(b.args)
    && a.latestTag == b.latestTag
    && a.notesHash == b.notesHash
  }

  /** The step ran for the earlier entry, on a tree that stands in for the later one's. */
  ghost predicate Vouches(g: Git, earlier: Entry, later: Entry, step: Step) {
    && earlier.DryRunPassed? && step in earlier.ran
    && SameRelease(earlier.run, later.run)
    && Covers(g, earlier.commit, later.commit)
  }

  /** Each required step ran in the run itself, or an earlier passed dry run vouches for it. */
  ghost predicate Justified(g: Git, log: seq<Entry>, i: nat)
    requires i < |log|
  {
    log[i].Tagged? ==>
      forall step :: step in RequiredSteps(Classify(log[i].run.changedPaths)) ==>
        step in log[i].ran || exists j :: 0 <= j < i && Vouches(g, log[j], log[i], step)
  }

  ghost predicate AllJustified(g: Git, log: seq<Entry>) {
    forall i :: 0 <= i < |log| ==> Justified(g, log, i)
  }

  ghost predicate Sound(g: Git, w: World) {
    && (w.cacheFile.Readable? ==> Recorded(w.cacheFile.cache, w.log))
    && AllJustified(g, w.log)
  }

  /** The validation of a scope runs every step the scope requires, but for the one of the preflight. */
  lemma ValidationRunsRequired(r: Run)
    requires Validate(r).Some?
    ensures RequiredSteps(Classify(r.changedPaths)) <= Validate(r).value + {ReleaseContainerContract}
  {
  }

  /** A cache that is not rejected matches the run in everything that matters. */
  lemma AcceptedCacheMatches(c: Cache, e: Expected, builtinsPresent: bool)
    ensures RejectionReason(c, e, builtinsPresent).None? <==>
      && c.success && builtinsPresent
      && c.commit == e.commit && c.releaseArgs == e.releaseArgs && c.latestTag == e.latestTag
      && c.nextVersion == e.nextVersion && c.tagName == e.tagName
      && c.notesPath == Some(e.notesPath) && c.notesHash == Some(e.notesHash)
      && RequiredSteps(e.scope) <= c.validated
  {
    hide RequiredSteps;
    NothingMissing(RequiredSteps(e.scope), c.validated);
  }

  lemma NothingMissing(required: set<Step>, validated: set<Step>)
    ensures required - validated == {} <==> required <= validated
  {
    if required - validated == {} {
      forall step | step in required
        ensures step in validated
      {
        assert step !in required - validated;
      }
    }
  }

  /** A reused dry run vouches for every required step. */
  lemma ReuseIsVouchedFor(g: Git, w: World, r: Run, step: Step)
    requires Sound(g, w) && r.notesHash.Some? && TryReuse(g, w, r).Reused?
    requires step in RequiredSteps(Classify(r.changedPaths))
    ensures exists j :: 0 <= j < |w.log| && forall ran :: Vouches(g, w.log[j], Tagged(r, w.head, ran), step)
  {
    var c := w.cacheFile.cache;
    var tooling := c.commit != w.head && ProductInputsMatch(g, c.commit, w.head);
    AcceptedCacheMatches(c, ExpectedOf(r, if tooling then c.commit else w.head), r.builtinsPresent);
    var j :| 0 <= j < |w.log| && Records(c, w.log[j]);
    SignatureAndVersionFixOverride(w.log[j].run.args, r.args);
    assert forall ran :: Vouches(g, w.log[j], Tagged(r, w.head, ran), step);
  }

  lemma LogGrows(g: Git, log: seq<Entry>, e: Entry)
    requires AllJustified(g, log)
    requires Justified(g, log + [e], |log|)
    ensures AllJustified(g, log + [e])
  {
    forall i | 0 <= i < |log|
      ensures Justified(g, log + [e], i)
    {
      assert Justified(g, log, i);
      assert forall j :: 0 <= j <= i ==> (log + [e])[j] == log[j];
    }
  }

  lemma RecordedStays(c: Cache, log: seq<Entry>, e: Entry)
    requires Recorded(c, log)
    ensures Recorded(c, log + [e])
  {
    if c.success {
      var i :| 0 <= i < |log| && Records(c, log[i]);
      assert Records(c, (log + [e])[i]);
    }
  }

  lemma PublishIsSound(g: Git, w: World, r: Run, start: Commit, ran: set<Step>)
    requires Sound(g, w)
    requires Justified(g, w.log + [Tagged(r, start, ran)], |w.log|)
    ensures Sound(g, Publish(w, r, start, ran))
  {
    LogGrows(g, w.log, Tagged(r, start, ran));
    if w.cacheFile.Readable? {
      RecordedStays(w.cacheFile.cache, w.log, Tagged(r, start, ran));
    }
  }

  lemma DryRunIsSound(g: Git, w: World, r: Run)
    requires Sound(g, w)
    ensures Sound(g, DryRun(w, r))
  {
    var after := DryRun(w, r);
    if |after.log| > |w.log| {
      var e := after.log[|w.log|];
      ValidationRunsRequired(r);
      assert Records(after.cacheFile.cache, e);
      LogGrows(g, w.log, e);
    }
  }

  lemma RealRunIsSound(g: Git, w: World, r: Run)
    requires Sound(g, w)
    ensures Sound(g, RealRun(g, w, r))
  {
    if r.notesHash.Some? {
      match TryReuse(g, w, r) {
        case Abort =>
        case Reused(reran) =>
          var ran := reran + {ReleaseContainerContract};
          var e := Tagged(r, w.head, ran);
          var log := w.log + [e];
          forall step | step in RequiredSteps(Classify(r.changedPaths))
            ensures exists j :: 0 <= j < |w.log| && Vouches(g, log[j], e, step)
          {
            ReuseIsVouchedFor(g, w, r, step);
            var j :| 0 <= j < |w.log| && forall ran :: Vouches(g, w.log[j], Tagged(r, w.head, ran), step);
            assert log[j] == w.log[j];
          }
          PublishIsSound(g, w, r, w.head, ran);
        case NoReuse =>
          if Validate(r).Some? {
            ValidationRunsRequired(r);
            PublishIsSound(g, w.(head := Moved(w.head, r.prepCommit)), r, w.head,
                           Validate(r).value + {ReleaseContainerContract});
          }
      }
    }
  }

  lemma {:induction false} RunsAreSound(g: Git, w: World, events: seq<Event>)
    requires Sound(g, w)
    ensures Sound(g, ApplyAll(g, w, events))
    decreases |events|
  {
    if events != [] {
      match events[0] {
        case Command(r) =>
          DryRunIsSound(g, w, r);
          RealRunIsSound(g, w, r);
        case _ =>
      }
      RunsAreSound(g, Apply(g, w, events[0]), events[1..]);
    }
  }

  /**
   * Whatever runs, dry or real, complete or stopped midway, and whatever commits happen in between:
   * every tag stands on validations that ran for it or that an equivalent dry run recorded.
   */
  lemma EveryTagIsJustified(g: Git, head: Commit, tags: set<string>, events: seq<Event>)
    ensures AllJustified(g, ApplyAll(g, World(head, tags, Missing, []), events).log)
  {
    RunsAreSound(g, World(head, tags, Missing, []), events);
  }
}
