/** What a remapped path is, in terms of the configuration line and the segments of the path. */
module Remapping {
  import opened Options
  import opened RemotePath
  import opened Text

  // ----- from a suffix to the local path --------------------------------------------------------------

  /** The local root followed by a relative path, with one slash between them unless the root ends in one. */
  function Below(localRoot: string, rest: string): string {
    if localRoot == "" || localRoot[|localRoot| - 1] == '/' then localRoot + rest else localRoot + "/" + rest
  }

  lemma {:induction false} OrdinaryStay(xs: seq<string>)
    requires forall i :: 0 <= i < |xs| ==> Ordinary(xs[i])
    ensures WithoutDots(xs) == xs && ".." !in xs && AllProper(xs)
  {
    if xs != [] {
      OrdinaryStay(xs[1..]);
      assert xs == [xs[0]] + xs[1..];
    }
  }

  /** Ordinary segments are all appended, in their order. */
  lemma OrdinaryArePushed(localRoot: string, xs: seq<string>)
    requires xs != [] && forall i :: 0 <= i < |xs| ==> Ordinary(xs[i])
    ensures Rebase(localRoot, Join(xs, "/")) == Some(Below(localRoot, Join(xs, "/")))
  {
    OrdinaryStay(xs);
    SegmentsOfJoin(xs);
    PushAllJoins(localRoot, xs);
    JoinHead(xs);
  }

  lemma {:induction false} DotsVanish(xs: seq<string>, ys: seq<string>)
    ensures WithoutDots(xs + ["."] + ys) == WithoutDots(xs + ys)
    decreases |xs|
  {
    if xs == [] {
      assert xs + ["."] + ys == ["."] + ys && xs + ys == ys;
      assert (["."] + ys)[1..] == ys;
    } else {
      assert (xs + ["."] + ys)[1..] == xs[1..] + ["."] + ys;
      assert (xs + ys)[1..] == xs[1..] + ys;
      DotsVanish(xs[1..], ys);
    }
  }

  /** A "." segment anywhere makes no difference. */
  lemma DotsAreDropped(localRoot: string, xs: seq<string>, ys: seq<string>)
    requires AllProper(xs) && AllProper(ys) && xs + ys != []
    ensures Rebase(localRoot, Join(xs + ["."] + ys, "/")) == Rebase(localRoot, Join(xs + ys, "/"))
  {
    var dotted := xs + ["."] + ys;
    assert Proper(".");
    assert AllProper(dotted) && AllProper(xs + ys);
    SegmentsOfJoin(dotted);
    SegmentsOfJoin(xs + ys);
    JoinHead(dotted);
    JoinHead(xs + ys);
    DotsVanish(xs, ys);
  }

  /** Slashes at the ends and repeated slashes make no difference, and without segments the local root is left. */
  lemma OnlySegmentsCount(localRoot: string, suffix: string)
    ensures Segments(suffix) == [] ==> Rebase(localRoot, suffix) == Some(localRoot)
    ensures Segments(suffix) != [] ==> Rebase(localRoot, suffix) == Rebase(localRoot, Join(Segments(suffix), "/"))
    ensures Rebase(localRoot, ".") == Some(localRoot)
  {
    SegmentsAreProper(suffix);
    SegmentsOfJoin(Segments(suffix));
    if Segments(suffix) != [] {
      JoinHead(Segments(suffix));
    }
    assert Proper(".");
    SegmentsOfJoin(["."]);
    assert Join(["."], "/") == ".";
    assert WithoutDots(["."]) == [];
  }

  // ----- one mapping ----------------------------------------------------------------------------------

  function FoldAll(xs: seq<string>, style: Style): (r: seq<string>)
    ensures |r| == |xs|
  {
    match style
    case Unix => xs
    case Windows => LowerAll(xs)
  }

  lemma JoinedParts(path: string, style: Style)
    ensures
      var n := Joined(path, style);
      && n == PrefixIn(n, style) + Join(SegmentsIn(n, style), "/")
      && AllProper(SegmentsIn(n, style))
      && (n == [] ==> path == [])
  {
    match style {
      case Unix => NormalParts(path, Unix);
      case Windows =>
        var r := Replace(path);
        NormalShape(r);
        NormalIsNormal(r);
        NormalShape(NormalizeReplaced(r));
        SegmentsAreProper(Body(NormalizeReplaced(r)));
        SegmentsAreProper(r);
        JoinOfNothing(r);
    }
  }

  lemma FoldParts(n: string, style: Style)
    ensures PrefixIn(FoldCase(n, style), style) == FoldCase(PrefixIn(n, style), style)
    ensures SegmentsIn(FoldCase(n, style), style) == FoldAll(SegmentsIn(n, style), style)
  {
    if style == Windows {
      LowerPrefix(n);
      LowerSegments(Body(n));
    }
  }

  lemma FoldJoin(xs: seq<string>, style: Style)
    ensures FoldCase(Join(xs, "/"), style) == Join(FoldAll(xs, style), "/")
  {
    if style == Windows {
      LowerJoin(xs);
    }
  }

  lemma {:induction false} FoldAllPrefix(xs: seq<string>, k: nat, style: Style)
    requires k <= |xs|
    ensures FoldAll(xs[..k], style) == FoldAll(xs, style)[..k]
    decreases k
  {
    if style == Windows && k > 0 {
      FoldAllPrefix(xs[1..], k - 1, style);
      assert xs[..k][1..] == xs[1..][..k - 1];
    }
  }

  /** The root's kind and segments begin the path's, up to what matching ignores. */
  predicate Begins(remote: string, path: string, style: Style) {
    var r, p := Joined(remote, style), Joined(path, style);
    && FoldCase(PrefixIn(r, style), style) == FoldCase(PrefixIn(p, style), style)
    && FoldAll(SegmentsIn(r, style), style) <= FoldAll(SegmentsIn(p, style), style)
  }

  /** The segments of the path after as many as the root has, with their letter case. */
  function Rest(remote: string, path: string, style: Style): seq<string> {
    var r, p := SegmentsIn(Joined(remote, style), style), SegmentsIn(Joined(path, style), style);
    if |r| <= |p| then p[|r|..] else []
  }

  /** The exception of `MatchingIsSegmentwise`. */
  predicate BareSlashAgainstShare(remote: string, path: string, style: Style) {
    style == Windows && Folded(remote, style) == "/" && PrefixIn(Folded(path, style), style) == "//"
  }

  lemma StripsExactlyWhen(remote: string, path: string, style: Style)
    requires remote != [] && !BareSlashAgainstShare(remote, path, style)
    ensures StripRoot(Folded(remote, style), Folded(path, style), style).Some? <==> Begins(remote, path, style)
  {
    MatchingIsSegmentwise(remote, path, style);
    FoldedIsFoldOfJoined(remote, style);
    FoldedIsFoldOfJoined(path, style);
    FoldParts(Joined(remote, style), style);
    FoldParts(Joined(path, style), style);
  }

  /** The length of the root is that of the matching beginning of the path. */
  lemma SameLength(rs: seq<string>, ps: seq<string>, style: Style)
    requires FoldAll(rs, style) <= FoldAll(ps, style)
    ensures |rs| <= |ps| && |Join(rs, "/")| == |Join(ps[..|rs|], "/")|
  {
    FoldAllPrefix(ps, |rs|, style);
    assert FoldAll(ps[..|rs|], style) == FoldAll(rs, style);
    FoldJoin(rs, style);
    FoldJoin(ps[..|rs|], style);
  }

  lemma SuffixIsRest(remote: string, path: string, style: Style)
    requires remote != [] && !BareSlashAgainstShare(remote, path, style) && Begins(remote, path, style)
    ensures StripRootForJoin(Joined(remote, style), Joined(path, style), style)
         == Some(Join(Rest(remote, path, style), "/"))
  {
    hide Joined, PrefixIn, SegmentsIn, IsVolumeRoot, FoldAll, FoldCase, Join;
    var r, p := Joined(remote, style), Joined(path, style);
    JoinedParts(remote, style);
    JoinedParts(path, style);
    var pr, pp, rs, ps := PrefixIn(r, style), PrefixIn(p, style), SegmentsIn(r, style), SegmentsIn(p, style);
    SameLength(rs, ps, style);
    assert |pr| == |pp| by {
      assert |FoldCase(pr, style)| == |FoldCase(pp, style)|;
    }
    var front, rest := ps[..|rs|], ps[|rs|..];
    assert ps == front + rest;
    if rest == [] {
      assert front == ps;
      EmptyJoin();
    } else if rs == [] {
      EmptyJoin();
      assert front == [] && rest == ps;
      assert r == pr;
      BareRoot(r, style);
      JoinHead(ps);
      assert p[|r|..] == Join(ps, "/");
    } else {
      JoinPrefix(front, rest);
      JoinLast(rs);
      NotVolumeRoot(r, style);
      Continues(pp, Join(front, "/"), Join(rest, "/"));
      assert p == pp + Join(front, "/") + "/" + Join(rest, "/");
      assert p[|r|..] == "/" + Join(rest, "/");
      assert p[|r|..][1..] == Join(rest, "/");
    }
  }

  lemma EmptyJoin()
    ensures Join([], "/") == []
  {
  }

  /**
   * One mapping: a path whose style is that of the remote root, and whose segments begin with the root's, is the
   * local root with the remaining segments; any other path is not mapped.
   */
  lemma OneMapping(remote: string, localRoot: string, path: string)
    requires remote != [] && path != []
    requires !BareSlashAgainstShare(remote, path, DetectStyle(path))
    ensures
      var style := DetectStyle(path);
      Remap(path, [MakeMapping(Entry(remote, localRoot))]) ==
        if DetectStyle(remote) == style && Begins(remote, path, style)
        then Rebase(localRoot, Join(Rest(remote, path, style), "/")) else None
  {
    hide Joined, Folded, Begins, Rest, StripRoot, StripRootForJoin, Rebase, Join, DetectStyle, BareSlashAgainstShare;
    var style := DetectStyle(path);
    var m := MakeMapping(Entry(remote, localRoot));
    assert [m][1..] == [];
    if m.style == style {
      StripsExactlyWhen(remote, path, style);
      if Begins(remote, path, style) {
        SuffixIsRest(remote, path, style);
      }
    }
    BestMatches(path, [m], None);
    assert BestMatch(path, [m], None) == if Matches(m, path) then Some(m) else None;
  }

  /** Of many mappings only the one used counts. */
  lemma ManyMappings(path: string, ms: seq<Mapping>, m: Mapping)
    requires KeysDistinct(ms) && Longest(m, path, ms)
    ensures Remap(path, ms) == Remap(path, [m])
  {
    hide Matches, KeysDistinct, Rebase, Suffix;
    UsesLongestMatch(path, ms);
    BestMatches(path, ms, None);
    BestMatches(path, [m], None);
    assert [m][1..] == [];
    assert BestMatch(path, [m], None) == Some(m);
  }

  // ----- paths, spelled out ---------------------------------------------------------------------------

  /** A segment that is neither empty nor a dot segment, without separators. */
  predicate Plain(segment: string) {
    && segment != "" && segment != "." && segment != ".."
    && '/' !in segment && '\\' !in segment
  }

  predicate AllPlain(xs: seq<string>) {
    forall i :: 0 <= i < |xs| ==> Plain(xs[i])
  }

  lemma PlainJoin(xs: seq<string>)
    requires AllPlain(xs)
    ensures AllProper(xs) && AllChars(Join(xs, "/"), c => c != '\\')
  {
    forall i | 0 <= i < |xs| ensures AllChars(xs[i], c => c != '\\') {
      forall k | 0 <= k < |xs[i]| ensures xs[i][k] != '\\' {
        assert xs[i][k] in xs[i];
      }
    }
    JoinChars(xs, c => c != '\\');
  }

  lemma UnixForm(xs: seq<string>)
    requires AllPlain(xs)
    ensures var path := "/" + Join(xs, "/");
      && DetectStyle(path) == Unix && Joined(path, Unix) == path
      && SegmentsIn(Joined(path, Unix), Unix) == xs && PrefixIn(Joined(path, Unix), Unix) == "/"
  {
    PlainJoin(xs);
    var path := "/" + Join(xs, "/");
    SegmentsOfJoin(xs);
    SegmentsAfterSlash(Join(xs, "/"));
    UnixShape(path);
    forall i | 0 <= i < |path| ensures path[i] != '\\' {
      assert i > 0 ==> path[i] == Join(xs, "/")[i - 1];
    }
  }

  /** Absolute Unix paths: what lies below the remote root moves below the local root. */
  lemma UnixPathsMove(rs: seq<string>, xs: seq<string>, localRoot: string)
    requires AllPlain(rs) && AllPlain(xs)
    ensures Remap("/" + Join(rs + xs, "/"), [MakeMapping(Entry("/" + Join(rs, "/"), localRoot))])
         == Some(if xs == [] then localRoot else Below(localRoot, Join(xs, "/")))
  {
    hide Joined, DetectStyle, Remap, MakeMapping, Rebase, Join, SegmentsIn, PrefixIn, Below;
    UnixForm(rs);
    UnixForm(rs + xs);
    OneMapping("/" + Join(rs, "/"), localRoot, "/" + Join(rs + xs, "/"));
    assert (rs + xs)[|rs|..] == xs;
    if xs == [] {
      EmptyJoin();
      OnlySegmentsCount(localRoot, []);
      NoSegments();
    } else {
      OrdinaryArePushed(localRoot, xs);
    }
  }

  lemma NoSegments()
    ensures Segments([]) == []
  {
  }

  lemma {:induction false} ReplaceJoin(xs: seq<string>)
    requires AllPlain(xs)
    ensures Replace(Join(xs, "\\")) == Join(xs, "/")
  {
    if |xs| == 1 {
      PlainReplace(xs[0]);
    } else if |xs| > 1 {
      ReplaceJoin(xs[1..]);
      PlainReplace(xs[0]);
      ReplaceConcat(xs[0] + "\\", Join(xs[1..], "\\"));
      ReplaceConcat(xs[0], "\\");
      assert Replace("\\") == "/";
    }
  }

  lemma PlainReplace(segment: string)
    requires Plain(segment)
    ensures Replace(segment) == segment
  {
    forall k | 0 <= k < |segment| ensures segment[k] != '\\' {
      assert segment[k] in segment;
    }
    ReplaceNothing(segment);
  }

  lemma {:induction false} ReplaceConcat(a: string, b: string)
    ensures Replace(a + b) == Replace(a) + Replace(b)
    decreases |a|
  {
    if a == [] {
      assert a + b == b;
    } else {
      assert (a + b)[1..] == a[1..] + b;
      ReplaceConcat(a[1..], b);
    }
  }

  /** A path on a drive, with backslashes. */
  function OnDrive(drive: char, xs: seq<string>): string {
    [drive] + ":\\" + Join(xs, "\\")
  }

  lemma DriveForm(drive: char, xs: seq<string>)
    requires IsAlphabetic(drive) && AllPlain(xs)
    ensures var n := Joined(OnDrive(drive, xs), Windows);
      && DetectStyle(OnDrive(drive, xs)) == Windows
      && SegmentsIn(n, Windows) == xs && PrefixIn(n, Windows) == [drive] + ":/"
    ensures !("//" <= PrefixIn(Folded(OnDrive(drive, xs), Windows), Windows))
  {
    var path := OnDrive(drive, xs);
    var r := [drive] + ":/" + Join(xs, "/");
    ReplaceConcat([drive] + ":\\", Join(xs, "\\"));
    ReplaceJoin(xs);
    DrivePrefix(drive);
    assert Replace(path) == r;
    assert path[1] == ':';
    assert r[..2] + "/" == [drive] + ":/" && r[2..] == "/" + Join(xs, "/");
    PlainJoin(xs);
    SegmentsOfJoin(xs);
    SegmentsAfterSlash(Join(xs, "/"));
    NormalIsNormal(r);
    FoldedIsFoldOfJoined(path, Windows);
    LowerPrefix(Joined(path, Windows));
    LowerAt([drive] + ":/", 0);
    LowerAt([drive] + ":/", 1);
  }

  lemma DrivePrefix(drive: char)
    requires IsAlphabetic(drive)
    ensures Replace([drive] + ":\\") == [drive] + ":/"
  {
    ReplaceConcat([drive], ":\\");
    assert [drive][1..] == "" && Replace([drive]) == [drive];
    assert ":\\"[1..] == "\\" && "\\"[1..] == "";
    assert Replace("\\") == "/";
    assert Replace(":\\") == ":" + "/";
  }

  /** Paths on a drive: the same, with letter case ignored in the root and kept in what moves. */
  lemma DrivePathsMove(d: char, e: char, rs: seq<string>, qs: seq<string>, xs: seq<string>, localRoot: string)
    requires IsAlphabetic(d) && IsAlphabetic(e) && LowerChar(d) == LowerChar(e)
    requires AllPlain(rs) && AllPlain(qs) && AllPlain(xs) && LowerAll(rs) == LowerAll(qs)
    ensures Remap(OnDrive(e, qs + xs), [MakeMapping(Entry(OnDrive(d, rs), localRoot))])
         == Some(if xs == [] then localRoot else Below(localRoot, Join(xs, "/")))
  {
    hide Joined, Folded, DetectStyle, Remap, MakeMapping, Rebase, Join, SegmentsIn, PrefixIn, Below, LowerAll;
    DriveForm(d, rs);
    DriveForm(e, qs + xs);
    OneMapping(OnDrive(d, rs), localRoot, OnDrive(e, qs + xs));
    FoldAllPrefix(qs + xs, |qs|, Windows);
    assert (qs + xs)[..|qs|] == qs;
    assert |rs| == |qs| by {
      assert |LowerAll(rs)| == |LowerAll(qs)|;
    }
    assert (qs + xs)[|rs|..] == xs;
    assert Lower([d] + ":/") == Lower([e] + ":/");
    if xs == [] {
      EmptyJoin();
      OnlySegmentsCount(localRoot, []);
      NoSegments();
    } else {
      OrdinaryArePushed(localRoot, xs);
    }
  }

  /** A network path, with backslashes. */
  function OnShare(xs: seq<string>): string {
    "\\\\" + Join(xs, "\\")
  }

  lemma ShareForm(xs: seq<string>)
    requires AllPlain(xs)
    ensures var n := Joined(OnShare(xs), Windows);
      && DetectStyle(OnShare(xs)) == Windows && SegmentsIn(n, Windows) == xs && PrefixIn(n, Windows) == "//"
    ensures Folded(OnShare(xs), Windows) != "/"
  {
    var path := OnShare(xs);
    var r := "//" + Join(xs, "/");
    ReplaceConcat("\\\\", Join(xs, "\\"));
    ReplaceConcat("\\", "\\");
    assert "\\" + "\\" == "\\\\" && "\\"[1..] == "" && Replace("\\") == "/";
    ReplaceJoin(xs);
    assert Replace(path) == r;
    assert path[0] == '\\';
    assert r[2..] == Join(xs, "/");
    PlainJoin(xs);
    SegmentsOfJoin(xs);
    NormalIsNormal(r);
    JoinedParts(path, Windows);
    FoldedIsFoldOfJoined(path, Windows);
    assert |Joined(path, Windows)| >= 2;
  }

  /** Network paths: the same. */
  lemma SharePathsMove(rs: seq<string>, qs: seq<string>, xs: seq<string>, localRoot: string)
    requires AllPlain(rs) && AllPlain(qs) && AllPlain(xs) && LowerAll(rs) == LowerAll(qs)
    ensures Remap(OnShare(qs + xs), [MakeMapping(Entry(OnShare(rs), localRoot))])
         == Some(if xs == [] then localRoot else Below(localRoot, Join(xs, "/")))
  {
    hide Joined, Folded, DetectStyle, Remap, MakeMapping, Rebase, Join, SegmentsIn, PrefixIn, Below, LowerAll;
    ShareForm(rs);
    ShareForm(qs + xs);
    OneMapping(OnShare(rs), localRoot, OnShare(qs + xs));
    FoldAllPrefix(qs + xs, |qs|, Windows);
    assert (qs + xs)[..|qs|] == qs;
    assert |rs| == |qs| by {
      assert |LowerAll(rs)| == |LowerAll(qs)|;
    }
    assert (qs + xs)[|rs|..] == xs;
    if xs == [] {
      EmptyJoin();
      OnlySegmentsCount(localRoot, []);
      NoSegments();
    } else {
      OrdinaryArePushed(localRoot, xs);
    }
  }

  // ----- lines of the configuration -------------------------------------------------------------------

  predicate ArrowAt(s: string, i: int) {
    0 <= i && i + 2 <= |s| && s[i] == '=' && s[i + 1] == '>'
  }

  /** No "=>" starts before position `n`. */
  predicate NoArrowBefore(s: string, n: nat) {
    forall i :: 0 <= i < n ==> !ArrowAt(s, i)
  }

  lemma {:induction false} ArrowIsFirst(s: string, n: nat)
    requires NoArrowBefore(s, n) && n <= |s| && (n == |s| || ArrowAt(s, n))
    ensures Arrow(s) == n
    decreases |s|
  {
    assert ArrowAt(s, 0) <==> |s| >= 2 && s[..2] == "=>";
    if n > 0 {
      forall i | 0 <= i < n - 1 ensures !ArrowAt(s[1..], i) {
        assert !ArrowAt(s, i + 1);
      }
      ArrowIsFirst(s[1..], n - 1);
    }
  }

  /**
   * A line, spelled out: the text before its first "=>", without one space at its end, is the remote root; the text
   * after it, trimmed, is the local root. Blank lines are skipped, and each refusal has its reason.
   */
  lemma LineSpelled(remote: string, before: string, left: string, localRoot: string, right: string)
    requires NoArrowBefore(before + "=>", |before|)
    requires before == remote + " " || (before == remote && (remote == "" || remote[|remote| - 1] != ' '))
    requires AllSpace(left) && AllSpace(right)
    requires localRoot != "" ==> !IsSpace(localRoot[0]) && !IsSpace(localRoot[|localRoot| - 1])
    ensures ParseLine(before + "=>" + left + localRoot + right) ==
      if AllSpace(remote) then Refused(RemotePathRequired)
      else if IsSpace(remote[0]) then Refused(RemotePathStartsWithSpace)
      else if IsSpace(remote[|remote| - 1]) then Refused(RemotePathEndsWithSpace)
      else if localRoot == "" then Refused(LocalPathRequired)
      else if localRoot[0] != '/' then Refused(LocalPathNotAbsolute)
      else Accepted(Entry(remote, localRoot))
  {
    hide Trim, Arrow, IsSpace, NoArrowBefore;
    var after := left + localRoot + right;
    var line := before + "=>" + left + localRoot + right;
    assert line == before + "=>" + after;
    ArrowInLine(before, after);
    TrimPadded(left, localRoot, right);
    EmptyExactlyIfSpace(remote);
    if before == remote + " " {
      assert before[..|before| - 1] == remote;
    }
  }

  lemma ArrowInLine(before: string, after: string)
    requires NoArrowBefore(before + "=>", |before|)
    ensures var line := before + "=>" + after;
      Arrow(line) == |before| && line[..|before|] == before && line[|before| + 2..] == after && Trim(line) != ""
  {
    hide Trim, Arrow, IsSpace;
    var line := before + "=>" + after;
    forall i | 0 <= i < |before| ensures !ArrowAt(line, i) {
      assert !ArrowAt(before + "=>", i);
    }
    ArrowIsFirst(line, |before|);
    assert line[|before|] == '=';
    EqualsIsNoSpace();
    EmptyExactlyIfSpace(line);
  }

  lemma EqualsIsNoSpace()
    ensures !IsSpace('=')
  {
  }

  /** The other lines: blank ones, and those without "=>". */
  lemma LineWithoutArrow(line: string)
    requires NoArrowBefore(line, |line|)
    ensures ParseLine(line) == if AllSpace(line) then Blank else Refused(NotAMapping)
  {
    ArrowIsFirst(line, |line|);
    EmptyExactlyIfSpace(line);
  }

  lemma EmptyExactlyIfSpace(s: string)
    ensures Trim(s) == "" <==> AllSpace(s)
  {
    TrimmedAway(s);
  }

  /** Line by line: an accepted line adds its mapping at the end, any other line adds nothing. */
  lemma OneMoreLine(lines: seq<string>, line: string)
    ensures MappingsOf([]) == []
    ensures MappingsOf(lines + [line]) ==
      MappingsOf(lines) + if ParseLine(line).Accepted? then [MakeMapping(ParseLine(line).entry)] else []
  {
    hide ParseLine, MakeMapping;
    assert (lines + [line])[..|lines|] == lines;
  }

  // ----- applying the mappings ------------------------------------------------------------------------

  /** A download without the marker whose trimmed directory is mapped moves there and is marked; any other stays. */
  lemma AppliedExactlyWhen(d: Download, ms: seq<Mapping>)
    ensures var remapped := Remap(Trim(d.destDir), ms);
      Applied(d, ms) ==
        if remapped.Some? && (forall p :: p in d.parameters ==> p.key != "*scryer_remote_path_mapping_applied")
        then Download(remapped.value, d.parameters + [Parameter("*scryer_remote_path_mapping_applied", "true")])
        else d
  {
    hide Remap, Trim;
    if IsMarked(d.parameters) {
      var i :| 0 <= i < |d.parameters| && d.parameters[i].key == APPLIED_KEY;
      assert d.parameters[i] in d.parameters;
    }
  }
}
