/**
 * Remote path mappings of download clients. Where the code counts bytes, it compares a root with a path that begins
 * with it up to ASCII case, or two such roots of one path, so that counting characters decides the same.
 */
module RemotePath {
  import opened Options
  import opened Text

  datatype Style = Unix | Windows

  // ----- segments --------------------------------------------------------------------------------------

  /** Length of the leading run without '/'. */
  function SegmentEnd(s: string): (e: nat)
    ensures e <= |s|
    ensures forall i :: 0 <= i < e ==> s[i] != '/'
    ensures e < |s| ==> s[e] == '/'
  {
    if s == [] || s[0] == '/' then 0 else 1 + SegmentEnd(s[1..])
  }

  /** The non-empty pieces between slashes. */
  function Segments(s: string): seq<string>
    decreases |s|
  {
    if s == [] then []
    else if s[0] == '/' then Segments(s[1..])
    else [s[..SegmentEnd(s)]] + Segments(s[SegmentEnd(s)..])
  }

  predicate Proper(segment: string) {
    segment != [] && '/' !in segment
  }

  predicate AllProper(segments: seq<string>) {
    forall i :: 0 <= i < |segments| ==> Proper(segments[i])
  }

  lemma {:induction false} SegmentsAreProper(s: string)
    ensures AllProper(Segments(s))
    decreases |s|
  {
    if s != [] {
      if s[0] == '/' {
        SegmentsAreProper(s[1..]);
      } else {
        SegmentsAreProper(s[SegmentEnd(s)..]);
      }
    }
  }

  lemma {:induction false} SegmentEndOf(segment: string, rest: string)
    requires '/' !in segment && (rest == [] || rest[0] == '/')
    ensures SegmentEnd(segment + rest) == |segment|
  {
    if segment == [] {
      assert segment + rest == rest;
    } else {
      assert (segment + rest)[1..] == segment[1..] + rest;
      SegmentEndOf(segment[1..], rest);
    }
  }

  lemma SegmentsOfFirst(segment: string, rest: string)
    requires Proper(segment) && (rest == [] || rest[0] == '/')
    ensures Segments(segment + rest) == [segment] + Segments(rest)
  {
    SegmentEndOf(segment, rest);
    var s := segment + rest;
    assert s[0] == segment[0] && s[..|segment|] == segment && s[|segment|..] == rest;
  }

  lemma SegmentsAfterSlash(s: string)
    ensures Segments("/" + s) == Segments(s)
  {
    assert ("/" + s)[1..] == s;
  }

  /** Splitting undoes joining. */
  lemma {:induction false} SegmentsOfJoin(segments: seq<string>)
    requires AllProper(segments)
    ensures Segments(Join(segments, "/")) == segments
  {
    if |segments| == 0 {
    } else if |segments| == 1 {
      SegmentsOfFirst(segments[0], []);
      assert segments[0] + [] == segments[0];
    } else {
      SegmentsOfJoin(segments[1..]);
      SegmentsAfterSlash(Join(segments[1..], "/"));
      SegmentsOfFirst(segments[0], "/" + Join(segments[1..], "/"));
      assert segments[0] + "/" + Join(segments[1..], "/") == segments[0] + ("/" + Join(segments[1..], "/"));
    }
  }

  /** A cut right after a slash separates the segments. */
  lemma {:induction false} SegmentsSplit(x: string, s: string)
    requires x == [] || x[|x| - 1] == '/'
    ensures Segments(x + s) == Segments(x) + Segments(s)
    decreases |x|
  {
    if x == [] {
      assert x + s == s;
    } else if x[0] == '/' {
      assert (x + s)[1..] == x[1..] + s;
      SegmentsSplit(x[1..], s);
    } else {
      var e := SegmentEnd(x);
      assert e < |x|;
      var first, rest := x[..e], x[e..];
      assert x == first + rest && x + s == first + (rest + s);
      SegmentsOfFirst(first, rest);
      SegmentsOfFirst(first, rest + s);
      SegmentsSplit(rest, s);
    }
  }

  // ----- letter case -----------------------------------------------------------------------------------

  lemma LowerAt(s: string, i: nat)
    requires i < |s|
    ensures Lower(s)[i] == LowerChar(s[i])
  {
  }

  lemma LowerConcat(a: string, b: string)
    ensures Lower(a + b) == Lower(a) + Lower(b)
  {
  }

  lemma LowerCut(s: string, i: nat)
    requires i <= |s|
    ensures Lower(s[..i]) == Lower(s)[..i] && Lower(s[i..]) == Lower(s)[i..]
  {
    hide Lower;
    assert s == s[..i] + s[i..];
    LowerConcat(s[..i], s[i..]);
  }

  function LowerAll(segments: seq<string>): (r: seq<string>)
    ensures |r| == |segments|
  {
    if segments == [] then [] else [Lower(segments[0])] + LowerAll(segments[1..])
  }

  lemma {:induction false} LowerSegments(s: string)
    ensures Segments(Lower(s)) == LowerAll(Segments(s))
    decreases |s|
  {
    if s != [] {
      if s[0] == '/' {
        assert Lower(s)[1..] == Lower(s[1..]);
        LowerSegments(s[1..]);
      } else {
        var e := SegmentEnd(s);
        var first, rest := s[..e], s[e..];
        assert s == first + rest;
        LowerConcat(first, rest);
        LowerKeepsSlashes(first);
        if rest != [] {
          LowerAt(rest, 0);
        }
        SegmentsOfFirst(Lower(first), Lower(rest));
        LowerSegments(rest);
      }
    }
  }

  lemma LowerKeepsSlashes(s: string)
    ensures '/' in Lower(s) <==> '/' in s
  {
  }

  lemma {:induction false} LowerJoin(segments: seq<string>)
    ensures Lower(Join(segments, "/")) == Join(LowerAll(segments), "/")
  {
    if |segments| > 1 {
      LowerJoin(segments[1..]);
      LowerConcat(segments[0] + "/", Join(segments[1..], "/"));
      LowerConcat(segments[0], "/");
      assert Lower("/") == "/";
    } else if |segments| == 1 {
      assert LowerAll(segments) == [Lower(segments[0])];
    }
  }

  // ----- normal forms ----------------------------------------------------------------------------------

  predicate IsAlphabetic(c: char) {
    'a' <= c <= 'z' || 'A' <= c <= 'Z'
  }

  predicate IsWindowsDrivePath(path: string) {
    |path| >= 2 && IsAlphabetic(path[0]) && path[1] == ':'
  }

  function DetectStyle(path: string): Style {
    if '\\' in path || IsWindowsDrivePath(path) || "\\\\" <= path then Windows else Unix
  }

  function NormalizeUnix(path: string): string {
    var segments := Segments(path);
    if "/" <= path then
      if segments == [] then "/" else "/" + Join(segments, "/")
    else Join(segments, "/")
  }

  /** Backslashes become slashes. */
  function Replace(path: string): (r: string)
    ensures |r| == |path|
  {
    if path == [] then [] else [if path[0] == '\\' then '/' else path[0]] + Replace(path[1..])
  }

  function TrimSlashes(s: string): (r: string) {
    if s != [] && s[0] == '/' then TrimSlashes(s[1..]) else s
  }

  function NormalizeReplaced(replaced: string): string {
    if "//" <= replaced then
      var segments := Segments(replaced[2..]);
      if |segments| == 0 then "//"
      else if |segments| == 1 then "//" + segments[0]
      else if |segments| == 2 then "//" + segments[0] + "/" + segments[1]
      else "//" + segments[0] + "/" + segments[1] + "/" + Join(segments[2..], "/")
    else if IsWindowsDrivePath(replaced) then
      var drive, rest := replaced[..2], TrimSlashes(replaced[2..]);
      if rest == [] then drive + "/" else drive + "/" + Join(Segments(rest), "/")
    else NormalizeUnix(replaced)
  }

  function NormalizeWindows(path: string, lowercase: bool): string {
    NormalizeReplaced(if lowercase then Lower(Replace(path)) else Replace(path))
  }

  /** The form used for matching: Windows paths lose their letter case. */
  function Folded(path: string, style: Style): string {
    match style
    case Unix => NormalizeUnix(path)
    case Windows => NormalizeWindows(path, true)
  }

  /** The form used for joining: letter case is kept. */
  function Joined(path: string, style: Style): string {
    match style
    case Unix => NormalizeUnix(path)
    case Windows => NormalizeWindows(path, false)
  }

  /** What matching ignores: letter case on Windows, nothing on Unix. */
  function FoldCase(s: string, style: Style): (r: string)
    ensures |r| == |s|
  {
    match style
    case Unix => s
    case Windows => Lower(s)
  }

  // ----- the shape of a normal form ----------------------------------------------------------------------

  /** What a replaced path starts with, and the text its segments come from. */
  function Prefix(r: string): string {
    if "//" <= r then "//"
    else if IsWindowsDrivePath(r) then r[..2] + "/"
    else if "/" <= r then "/"
    else ""
  }

  function Body(r: string): string {
    if "//" <= r || IsWindowsDrivePath(r) then r[2..] else r
  }

  lemma {:induction false} SegmentsOfTrimmed(s: string)
    ensures Segments(TrimSlashes(s)) == Segments(s)
    ensures TrimSlashes(s) == [] ==> Segments(s) == []
  {
    if s != [] && s[0] == '/' {
      SegmentsOfTrimmed(s[1..]);
    }
  }

  lemma UnixShape(path: string)
    ensures NormalizeUnix(path) == (if "/" <= path then "/" else "") + Join(Segments(path), "/")
  {
    assert "/" + "" == "/" && "" + Join(Segments(path), "/") == Join(Segments(path), "/");
  }

  /** All branches of the normalizer amount to a prefix and the joined segments. */
  lemma NormalShape(r: string)
    ensures NormalizeReplaced(r) == Prefix(r) + Join(Segments(Body(r)), "/")
  {
    var segments := Segments(Body(r));
    if "//" <= r {
      if |segments| == 0 {
        assert "//" + "" == "//";
      } else if |segments| == 2 {
        assert segments[1..] == [segments[1]];
      } else if |segments| > 2 {
        assert segments[1..][1..] == segments[2..];
        assert Join(segments, "/") == segments[0] + "/" + (segments[1] + "/" + Join(segments[2..], "/"));
        assert "//" + segments[0] + "/" + segments[1] + "/" + Join(segments[2..], "/")
            == "//" + (segments[0] + "/" + (segments[1] + "/" + Join(segments[2..], "/")));
      }
    } else if IsWindowsDrivePath(r) {
      SegmentsOfTrimmed(r[2..]);
      assert r[..2] + "/" + "" == r[..2] + "/";
    } else {
      UnixShape(r);
    }
  }

  lemma LowerPrefix(r: string)
    ensures Prefix(Lower(r)) == Lower(Prefix(r)) && Body(Lower(r)) == Lower(Body(r))
  {
    if |r| >= 1 { LowerAt(r, 0); }
    if |r| >= 2 {
      LowerAt(r, 1);
      LowerCut(r, 2);
      LowerConcat(r[..2], "/");
    }
    assert Lower("/") == "/" && Lower("//") == "//";
  }

  lemma LowerNormalizes(r: string)
    ensures NormalizeReplaced(Lower(r)) == Lower(NormalizeReplaced(r))
  {
    hide Lower, Prefix, Body, NormalizeReplaced;
    NormalShape(r);
    NormalShape(Lower(r));
    LowerPrefix(r);
    LowerSegments(Body(r));
    LowerJoin(Segments(Body(r)));
    LowerConcat(Prefix(r), Join(Segments(Body(r)), "/"));
  }

  /** The two normal forms agree up to what matching ignores, byte for byte. */
  lemma FoldedIsFoldOfJoined(path: string, style: Style)
    ensures Folded(path, style) == FoldCase(Joined(path, style), style)
  {
    LowerNormalizes(Replace(path));
  }

  predicate NoUppercase(s: string) {
    forall i :: 0 <= i < |s| ==> LowerChar(s[i]) == s[i]
  }

  /** Segments keep every character of the text but its slashes. */
  lemma {:induction false} UppercaseStays(s: string)
    requires NoUppercase(Join(Segments(s), "/"))
    ensures NoUppercase(s)
    decreases |s|
  {
    if s != [] {
      if s[0] == '/' {
        UppercaseStays(s[1..]);
        assert s == [s[0]] + s[1..];
      } else {
        var e := SegmentEnd(s);
        var first, rest := s[..e], s[e..];
        var joined, tail := Join(Segments(s), "/"), Join(Segments(rest), "/");
        assert Segments(s) == [first] + Segments(rest);
        if Segments(rest) == [] {
          assert joined == first && tail == [];
        } else {
          assert Segments(s)[1..] == Segments(rest);
          assert joined == first + "/" + tail;
          assert joined[..e] == first && joined[e + 1..] == tail;
        }
        assert NoUppercase(first) && NoUppercase(tail);
        UppercaseStays(rest);
        assert s == first + rest;
      }
    }
  }

  /**
   * The matching form is the lowercase of the joining form exactly for Windows paths and for paths without
   * uppercase.
   */
  lemma LowercaseExactlyWhen(path: string, style: Style)
    ensures Folded(path, style) == Lower(Joined(path, style)) <==> style == Windows || NoUppercase(path)
  {
    FoldedIsFoldOfJoined(path, style);
    if style == Unix {
      hide NormalizeUnix;
      UnixShape(path);
      var prefix, joined := if "/" <= path then "/" else "", Join(Segments(path), "/");
      var n := NormalizeUnix(path);
      if Lower(n) == n {
        assert NoUppercase(n);
        assert joined == n[|prefix|..];
        UppercaseStays(path);
      }
      if NoUppercase(path) {
        SegmentsChars(path, c => LowerChar(c) == c);
        JoinChars(Segments(path), c => LowerChar(c) == c);
        assert NoUppercase(n);
        assert Lower(n) == n;
      }
    }
  }

  /** A Unix path whose matching form keeps its uppercase letter. */
  lemma UnixKeepsCase()
    ensures DetectStyle("/A") == Unix && Folded("/A", Unix) != Lower(Joined("/A", Unix))
  {
    LowercaseExactlyWhen("/A", Unix);
    assert LowerChar("/A"[1]) != "/A"[1];
  }

  // ----- normalizing twice -------------------------------------------------------------------------------

  ghost predicate AllChars(s: string, p: char -> bool) {
    forall i :: 0 <= i < |s| ==> p(s[i])
  }

  lemma {:induction false} SegmentsChars(s: string, p: char -> bool)
    requires AllChars(s, p)
    ensures forall i :: 0 <= i < |Segments(s)| ==> AllChars(Segments(s)[i], p)
    decreases |s|
  {
    if s != [] {
      if s[0] == '/' {
        SegmentsChars(s[1..], p);
      } else {
        SegmentsChars(s[SegmentEnd(s)..], p);
      }
    }
  }

  lemma {:induction false} JoinChars(segments: seq<string>, p: char -> bool)
    requires p('/') && forall i :: 0 <= i < |segments| ==> AllChars(segments[i], p)
    ensures AllChars(Join(segments, "/"), p)
  {
    if |segments| > 1 {
      JoinChars(segments[1..], p);
    }
  }

  /** A normal form has no bytes but '/' and those of the text it came from. */
  lemma NormalChars(r: string, p: char -> bool)
    requires p('/') && AllChars(r, p)
    ensures AllChars(NormalizeReplaced(r), p)
  {
    hide NormalizeReplaced;
    NormalShape(r);
    assert AllChars(Body(r), p);
    SegmentsChars(Body(r), p);
    JoinChars(Segments(Body(r)), p);
    assert AllChars(Prefix(r), p);
  }

  lemma {:induction false} ReplaceChars(s: string)
    ensures AllChars(Replace(s), c => c != '\\')
  {
    if s != [] {
      ReplaceChars(s[1..]);
    }
  }

  lemma {:induction false} ReplaceNothing(s: string)
    requires AllChars(s, c => c != '\\')
    ensures Replace(s) == s
  {
    if s != [] {
      ReplaceNothing(s[1..]);
    }
  }

  lemma LowerNothing(s: string)
    requires AllChars(s, c => LowerChar(c) == c)
    ensures Lower(s) == s
  {
  }

  lemma LowerChars(s: string)
    requires AllChars(s, c => c != '\\')
    ensures AllChars(Lower(s), c => c != '\\')
    ensures AllChars(Lower(s), c => LowerChar(c) == c)
  {
  }

  lemma JoinHead(segments: seq<string>)
    requires AllProper(segments) && segments != []
    ensures Join(segments, "/") != [] && Join(segments, "/")[0] == segments[0][0] != '/'
    ensures |Join(segments, "/")| >= 2 ==> Join(segments, "/")[1] == (if |segments[0]| >= 2 then segments[0][1] else '/')
  {
    assert segments[0][0] in segments[0];
  }

  lemma RelativeShape(r: string)
    requires !("/" <= r) && !IsWindowsDrivePath(r)
    ensures
      var n := Join(Segments(r), "/");
      !("/" <= n) && !IsWindowsDrivePath(n) && Segments(n) == Segments(r)
  {
    SegmentsAreProper(r);
    SegmentsOfJoin(Segments(r));
    if r != [] {
      assert r[0] != '/';
      JoinHead(Segments(r));
    }
  }

  lemma UncShape(j: string)
    ensures Prefix("//" + j) == "//" && Body("//" + j) == j
  {
  }

  lemma DriveShape(drive: string, j: string)
    requires |drive| == 2 && IsWindowsDrivePath(drive)
    ensures Prefix(drive + "/" + j) == drive + "/" && Body(drive + "/" + j) == "/" + j
  {
    var n := drive + "/" + j;
    assert n[..2] == drive && n[2..] == "/" + j;
  }

  lemma AbsoluteShape(j: string)
    requires j == [] || j[0] != '/'
    ensures Prefix("/" + j) == "/" && Body("/" + j) == "/" + j
  {
    var n := "/" + j;
    assert !IsAlphabetic(n[0]);
    assert |n| >= 2 ==> n[1] == j[0];
  }

  /** A normal form keeps its prefix and its segments when it is normalized again. */
  lemma NormalIsNormal(r: string)
    ensures NormalizeReplaced(NormalizeReplaced(r)) == NormalizeReplaced(r)
    ensures Prefix(NormalizeReplaced(r)) == Prefix(r)
    ensures Segments(Body(NormalizeReplaced(r))) == Segments(Body(r))
  {
    hide NormalizeReplaced, Segments, Join;
    var n, segments := NormalizeReplaced(r), Segments(Body(r));
    var j := Join(segments, "/");
    NormalShape(r);
    NormalShape(n);
    SegmentsAreProper(Body(r));
    SegmentsOfJoin(segments);
    SegmentsAfterSlash(j);
    JoinHeadIfAny(segments);
    if "//" <= r {
      UncShape(j);
    } else if IsWindowsDrivePath(r) {
      DriveShape(r[..2], j);
    } else if "/" <= r {
      AbsoluteShape(j);
    } else {
      assert "" + j == j;
      RelativeShape(r);
    }
  }

  lemma JoinHeadIfAny(segments: seq<string>)
    requires AllProper(segments)
    ensures Join(segments, "/") == [] || Join(segments, "/")[0] != '/'
  {
    if segments != [] {
      JoinHead(segments);
    }
  }

  /** Both normal forms are idempotent at a fixed style. */
  lemma NormalFormsAreIdempotent(path: string, style: Style)
    ensures Joined(Joined(path, style), style) == Joined(path, style)
    ensures Folded(Folded(path, style), style) == Folded(path, style)
  {
    match style {
      case Unix =>
        UnixNormalIsNormal(path);
      case Windows =>
        hide NormalizeReplaced;
        var r := Replace(path);
        ReplaceChars(path);
        NormalChars(r, c => c != '\\');
        ReplaceNothing(NormalizeReplaced(r));
        NormalIsNormal(r);
        LowerChars(r);
        NormalChars(Lower(r), c => c != '\\');
        NormalChars(Lower(r), c => LowerChar(c) == c);
        ReplaceNothing(NormalizeReplaced(Lower(r)));
        LowerNothing(NormalizeReplaced(Lower(r)));
        NormalIsNormal(Lower(r));
    }
  }

  lemma UnixNormalIsNormal(path: string)
    ensures NormalizeUnix(NormalizeUnix(path)) == NormalizeUnix(path)
  {
    hide NormalizeUnix;
    var segments := Segments(path);
    var n := NormalizeUnix(path);
    UnixShape(path);
    UnixShape(n);
    SegmentsAreProper(path);
    SegmentsOfJoin(segments);
    SegmentsAfterSlash(Join(segments, "/"));
    if segments != [] {
      JoinHead(segments);
    }
    if !("/" <= path) {
      assert n == Join(segments, "/");
    }
  }

  // ----- stripping a remote root ---------------------------------------------------------------------------

  predicate IsVolumeRoot(path: string, style: Style) {
    match style
    case Unix => path == "/"
    case Windows =>
      || path == "/" || path == "//"
      || (|path| == 3 && path[1] == ':' && path[2] == '/' && IsAlphabetic(path[0]))
  }

  function StripSlash(s: string): Option<string> {
    if "/" <= s then Some(s[1..]) else None
  }

  /** What is left of a folded candidate below a folded root. */
  function StripRoot(root: string, candidate: string, style: Style): Option<string> {
    if candidate == root then Some("")
    else if !(root <= candidate) then None
    else if IsVolumeRoot(root, style) then Some(candidate[|root|..])
    else StripSlash(candidate[|root|..])
  }

  /** The same cut made by length alone, on the forms that kept their letter case. */
  function StripRootForJoin(root: string, candidate: string, style: Style): Option<string> {
    if |candidate| < |root| then None
    else if |candidate| == |root| then Some("")
    else if IsVolumeRoot(root, style) then Some(candidate[|root|..])
    else StripSlash(candidate[|root|..])
  }

  lemma FoldAt(s: string, i: nat, style: Style)
    requires i < |s|
    ensures FoldCase(s, style)[i] == '/' <==> s[i] == '/'
    ensures FoldCase(s, style)[i] == ':' <==> s[i] == ':'
    ensures IsAlphabetic(FoldCase(s, style)[i]) <==> IsAlphabetic(s[i])
  {
    LowerAt(s, i);
  }

  lemma FoldCut(s: string, i: nat, style: Style)
    requires i <= |s|
    ensures FoldCase(s[i..], style) == FoldCase(s, style)[i..]
    ensures FoldCase(s[..i], style) == FoldCase(s, style)[..i]
  {
    LowerCut(s, i);
  }

  lemma FoldKeepsVolumeRoot(s: string, style: Style)
    ensures IsVolumeRoot(FoldCase(s, style), style) == IsVolumeRoot(s, style)
  {
    if |s| >= 1 { FoldAt(s, 0, style); }
    if |s| >= 2 { FoldAt(s, 1, style); }
    if |s| >= 3 { FoldAt(s, 2, style); }
  }

  /**
   * Whenever the folded strip succeeds, the cut by length succeeds too, and what it leaves differs
   * from the folded rest in letter case only. The other failure branch is unreachable.
   */
  lemma LengthCutAgrees(root: string, candidate: string, style: Style)
    requires StripRoot(FoldCase(root, style), FoldCase(candidate, style), style).Some?
    ensures StripRootForJoin(root, candidate, style).Some?
    ensures FoldCase(StripRootForJoin(root, candidate, style).value, style)
         == StripRoot(FoldCase(root, style), FoldCase(candidate, style), style).value
  {
    hide FoldCase, IsVolumeRoot;
    FoldKeepsVolumeRoot(root, style);
    var folded := FoldCase(candidate, style);
    if |candidate| == |root| {
      FoldCut("", 0, style);
      assert FoldCase("", style) == "";
    } else {
      FoldCut(candidate, |root|, style);
      FoldAt(candidate, |root|, style);
      if !IsVolumeRoot(root, style) {
        FoldCut(candidate, |root| + 1, style);
        assert folded[|root|..][1..] == folded[|root| + 1..];
        assert candidate[|root|..][1..] == candidate[|root| + 1..];
      }
    }
  }

  // ----- mappings ----------------------------------------------------------------------------------------

  datatype Mapping = Mapping(localRoot: string, joinedRoot: string, normalizedRoot: string, style: Style)

  datatype Entry = Entry(remoteRoot: string, localRoot: string)

  /** One accepted configuration line. */
  function MakeMapping(e: Entry): Mapping {
    var style := DetectStyle(e.remoteRoot);
    Mapping(e.localRoot, Joined(e.remoteRoot, style), Folded(e.remoteRoot, style), style)
  }

  function StyleName(style: Style): string {
    match style case Unix => "Unix" case Windows => "Windows"
  }

  function DuplicateKey(m: Mapping): string {
    StyleName(m.style) + ":" + m.normalizedRoot
  }

  lemma DuplicateKeyIsInjective(a: Mapping, b: Mapping)
    requires DuplicateKey(a) == DuplicateKey(b)
    ensures a.style == b.style && a.normalizedRoot == b.normalizedRoot
  {
    assert DuplicateKey(a)[0] == StyleName(a.style)[0];
    assert DuplicateKey(b)[0] == StyleName(b.style)[0];
    var n := |StyleName(a.style)| + 1;
    assert DuplicateKey(a)[n..] == a.normalizedRoot;
    assert DuplicateKey(b)[n..] == b.normalizedRoot;
  }

  datatype LineError =
    | NotAMapping
    | RemotePathRequired
    | RemotePathStartsWithSpace
    | RemotePathEndsWithSpace
    | LocalPathRequired
    | LocalPathNotAbsolute

  datatype Line = Blank | Refused(error: LineError) | Accepted(entry: Entry)

  /** The position of the first "=>", or the length. */
  function Arrow(s: string): (n: nat)
    ensures n == |s| || (n + 2 <= |s| && s[n..n + 2] == "=>")
  {
    if s == [] then 0
    else if |s| >= 2 && s[..2] == "=>" then 0
    else 1 + Arrow(s[1..])
  }

  /** One line of the configuration: a remote root, one optional space, the arrow, and a local root to be trimmed. */
  function ParseLine(raw: string): Line {
    var arrow := Arrow(raw);
    if Trim(raw) == [] then Blank
    else if arrow == |raw| then Refused(NotAMapping)
    else
      var before := raw[..arrow];
      var remote := if before != [] && before[|before| - 1] == ' ' then before[..|before| - 1] else before;
      if Trim(remote) == [] then Refused(RemotePathRequired)
      else if IsSpace(remote[0]) then Refused(RemotePathStartsWithSpace)
      else if IsSpace(remote[|remote| - 1]) then Refused(RemotePathEndsWithSpace)
      else
        var local := Trim(raw[arrow + 2..]);
        if local == [] then Refused(LocalPathRequired)
        else if local[0] != '/' then Refused(LocalPathNotAbsolute)
        else Accepted(Entry(remote, local))
  }

  /** The mappings of the accepted lines, in order. */
  function MappingsOf(lines: seq<string>): seq<Mapping>
    decreases |lines|
  {
    if lines == [] then []
    else
      var line := ParseLine(lines[|lines| - 1]);
      MappingsOf(lines[..|lines| - 1]) + if line.Accepted? then [MakeMapping(line.entry)] else []
  }

  datatype Parsed = Parsed(mappings: seq<Mapping>) | RefusedLine(index: nat, error: LineError) | DuplicateLine(index: nat)

  ghost predicate KeysDistinct(ms: seq<Mapping>) {
    forall i, j :: 0 <= i < j < |ms| ==> DuplicateKey(ms[i]) != DuplicateKey(ms[j])
  }

  /** No line is refused, and no root is mapped twice. */
  ghost predicate Clean(lines: seq<string>) {
    (forall i :: 0 <= i < |lines| ==> !ParseLine(lines[i]).Refused?) && KeysDistinct(MappingsOf(lines))
  }

  /** The loop over the lines ends with their mappings, or at the first line that is refused or repeats a root. */
  method CollectMappings(lines: seq<string>) returns (r: Parsed)
    ensures r.Parsed? ==> Clean(lines) && r.mappings == MappingsOf(lines)
    ensures !r.Parsed? ==> r.index < |lines| && Clean(lines[..r.index])
    ensures r.RefusedLine? ==> ParseLine(lines[r.index]) == Refused(r.error)
    ensures r.DuplicateLine? ==>
      && ParseLine(lines[r.index]).Accepted?
      && exists m :: m in MappingsOf(lines[..r.index])
                     && DuplicateKey(m) == DuplicateKey(MakeMapping(ParseLine(lines[r.index]).entry))
  {
    hide ParseLine, MakeMapping, DuplicateKey;
    var mappings: seq<Mapping> := [];
    var seen: set<string> := {};
    for k := 0 to |lines|
      invariant mappings == MappingsOf(lines[..k]) && Clean(lines[..k])
      invariant forall key :: key in seen <==> exists m :: m in mappings && key == DuplicateKey(m)
    {
      assert lines[..k + 1][..k] == lines[..k];
      var line := ParseLine(lines[k]);
      if line.Refused? {
        return RefusedLine(k, line.error);
      }
      if line.Accepted? {
        var mapping := MakeMapping(line.entry);
        if DuplicateKey(mapping) in seen {
          return DuplicateLine(k);
        }
        seen := seen + {DuplicateKey(mapping)};
        AddDistinct(mappings, mapping);
        mappings := mappings + [mapping];
      }
    }
    assert lines[..|lines|] == lines;
    return Parsed(mappings);
  }

  lemma AddDistinct(ms: seq<Mapping>, m: Mapping)
    requires KeysDistinct(ms) && forall o :: o in ms ==> DuplicateKey(o) != DuplicateKey(m)
    ensures KeysDistinct(ms + [m])
  {
  }

  // ----- the remapping -------------------------------------------------------------------------------------

  /** `PathBuf::push` of a relative component on a Unix host. */
  function Push(path: string, segment: string): string {
    if path == [] || path[|path| - 1] == '/' then path + segment else path + "/" + segment
  }

  function PushAll(path: string, segments: seq<string>): string
    decreases |segments|
  {
    if segments == [] then path else PushAll(Push(path, segments[0]), segments[1..])
  }

  function WithoutDots(segments: seq<string>): seq<string> {
    if segments == [] then []
    else if segments[0] == "." then WithoutDots(segments[1..])
    else [segments[0]] + WithoutDots(segments[1..])
  }

  function Rebase(localRoot: string, suffix: string): Option<string> {
    if suffix == [] then Some(localRoot)
    else
      var segments := WithoutDots(Segments(suffix));
      if ".." in segments then None else Some(PushAll(localRoot, segments))
  }

  method RebaseToLocalRoot(localRoot: string, suffix: string) returns (r: Option<string>)
    ensures r == Rebase(localRoot, suffix)
  {
    if suffix == [] {
      return Some(localRoot);
    }
    var segments := WithoutDots(Segments(suffix));
    var rebased := localRoot;
    for i := 0 to |segments|
      invariant PushAll(rebased, segments[i..]) == PushAll(localRoot, segments)
      invariant ".." !in segments[..i]
    {
      assert segments[i..][1..] == segments[i + 1..];
      if segments[i] == ".." {
        return None;
      }
      rebased := Push(rebased, segments[i]);
    }
    return Some(rebased);
  }

  /** The mapping applies to the path. */
  predicate Matches(m: Mapping, path: string) {
    var style := DetectStyle(path);
    && m.style == style
    && StripRoot(m.normalizedRoot, Folded(path, style), style).Some?
    && StripRootForJoin(m.joinedRoot, Joined(path, style), style).Some?
  }

  /** What is left of the path below the mapping's root. */
  function Suffix(m: Mapping, path: string): string
    requires Matches(m, path)
  {
    StripRootForJoin(m.joinedRoot, Joined(path, DetectStyle(path)), DetectStyle(path)).value
  }

  /** The first of the longest matching mappings. */
  function BestMatch(path: string, ms: seq<Mapping>, best: Option<Mapping>): Option<Mapping> {
    if ms == [] then best
    else
      var better := Matches(ms[0], path) && (best.None? || |ms[0].normalizedRoot| > |best.value.normalizedRoot|);
      BestMatch(path, ms[1..], if better then Some(ms[0]) else best)
  }

  lemma {:induction false} BestMatches(path: string, ms: seq<Mapping>, best: Option<Mapping>)
    requires best.Some? ==> Matches(best.value, path)
    ensures BestMatch(path, ms, best).Some? ==> Matches(BestMatch(path, ms, best).value, path)
  {
    hide Matches;
    if ms != [] {
      var better := Matches(ms[0], path) && (best.None? || |ms[0].normalizedRoot| > |best.value.normalizedRoot|);
      BestMatches(path, ms[1..], if better then Some(ms[0]) else best);
    }
  }

  /** The remapping of a trimmed path. */
  function Remap(path: string, ms: seq<Mapping>): Option<string> {
    if path == [] then None
    else
      BestMatches(path, ms, None);
      var best := BestMatch(path, ms, None);
      if best.None? then None else Rebase(best.value.localRoot, Suffix(best.value, path))
  }

  method RemapRemotePath(rawPath: string, ms: seq<Mapping>) returns (r: Option<string>)
    ensures r == Remap(Trim(rawPath), ms)
  {
    hide Rebase, Trim;
    var path := Trim(rawPath);
    if path == [] {
      return None;
    }
    var style := DetectStyle(path);
    var joined, normalized := Joined(path, style), Folded(path, style);
    var best: Option<Mapping> := None;
    var bestSuffix := "";
    BestMatches(path, ms, None);
    for i := 0 to |ms|
      invariant BestMatch(path, ms[i..], best) == BestMatch(path, ms, None)
      invariant best.Some? ==> Matches(best.value, path) && bestSuffix == Suffix(best.value, path)
    {
      assert ms[i..][0] == ms[i] && ms[i..][1..] == ms[i + 1..];
      if ms[i].style == style && StripRoot(ms[i].normalizedRoot, normalized, style).Some? {
        var suffix := StripRootForJoin(ms[i].joinedRoot, joined, style);
        if suffix.Some? {
          if best.None? || |ms[i].normalizedRoot| > |best.value.normalizedRoot| {
            best, bestSuffix := Some(ms[i]), suffix.value;
          }
        }
      }
    }
    if best.None? {
      return None;
    }
    r := RebaseToLocalRoot(best.value.localRoot, bestSuffix);
  }

  // ----- which mapping is used -----------------------------------------------------------------------------

  /** The mappings the parser can produce. */
  ghost predicate FromParser(m: Mapping) {
    exists e :: m == MakeMapping(e)
  }

  /** Every collected mapping is one of them. */
  lemma {:induction false} CollectedFromParser(lines: seq<string>, m: Mapping)
    requires m in MappingsOf(lines)
    ensures FromParser(m)
    decreases |lines|
  {
    hide ParseLine, MakeMapping;
    var front := lines[..|lines| - 1];
    if m in MappingsOf(front) {
      CollectedFromParser(front, m);
    }
  }

  lemma FromParserFold(m: Mapping)
    requires FromParser(m)
    ensures m.normalizedRoot == FoldCase(m.joinedRoot, m.style)
  {
    var e :| m == MakeMapping(e);
    FoldedIsFoldOfJoined(e.remoteRoot, m.style);
  }

  /** Whether a configured mapping applies is decided by the folded forms alone. */
  lemma FoldedMatchDecides(m: Mapping, path: string)
    requires FromParser(m)
    ensures
      var style := DetectStyle(path);
      && (Matches(m, path) <==> m.style == style && StripRoot(m.normalizedRoot, Folded(path, style), style).Some?)
      && (Matches(m, path) ==>
            FoldCase(Suffix(m, path), style) == StripRoot(m.normalizedRoot, Folded(path, style), style).value)
  {
    hide FoldCase, Folded, Joined, StripRootForJoin, StripRoot, FromParser;
    var style := DetectStyle(path);
    FromParserFold(m);
    FoldedIsFoldOfJoined(path, style);
    if m.style == style && StripRoot(m.normalizedRoot, Folded(path, style), style).Some? {
      LengthCutAgrees(m.joinedRoot, Joined(path, style), style);
    }
  }

  /** A root that matches is the beginning of the folded path. */
  lemma MatchIsPrefix(m: Mapping, path: string)
    requires Matches(m, path)
    ensures m.style == DetectStyle(path) && m.normalizedRoot <= Folded(path, m.style)
  {
    hide Folded, Joined;
  }

  /** Two matching roots of the same length are the same root. */
  lemma EquallyLongRootsAreEqual(a: Mapping, b: Mapping, path: string)
    requires Matches(a, path) && Matches(b, path) && |a.normalizedRoot| == |b.normalizedRoot|
    ensures DuplicateKey(a) == DuplicateKey(b)
  {
    hide Matches, Folded;
    MatchIsPrefix(a, path);
    MatchIsPrefix(b, path);
    var f, n := Folded(path, a.style), |a.normalizedRoot|;
    assert a.normalizedRoot == f[..n] == b.normalizedRoot;
  }

  /** `m` is the one mapping of the list that matches with the longest root. */
  ghost predicate Longest(m: Mapping, path: string, ms: seq<Mapping>) {
    && m in ms && Matches(m, path)
    && forall o :: o in ms && o != m && Matches(o, path) ==> |o.normalizedRoot| < |m.normalizedRoot|
  }

  lemma {:induction false} BestMatchIsLongestFrom(path: string, ms: seq<Mapping>, best: Option<Mapping>)
    requires best.Some? ==> Matches(best.value, path)
    ensures
      var r := BestMatch(path, ms, best);
      && (r.None? <==> best.None? && forall o :: o in ms ==> !Matches(o, path))
      && (r.Some? ==> Matches(r.value, path) && (r == best || r.value in ms))
      && (r.Some? && best.Some? ==> |best.value.normalizedRoot| <= |r.value.normalizedRoot|)
      && (r.Some? ==> forall o :: o in ms && Matches(o, path) ==> |o.normalizedRoot| <= |r.value.normalizedRoot|)
    decreases |ms|
  {
    hide Matches;
    if ms != [] {
      var better := Matches(ms[0], path) && (best.None? || |ms[0].normalizedRoot| > |best.value.normalizedRoot|);
      BestMatchIsLongestFrom(path, ms[1..], if better then Some(ms[0]) else best);
      assert forall o :: o in ms <==> o == ms[0] || o in ms[1..];
    }
  }

  lemma KeyIdentifies(ms: seq<Mapping>, a: Mapping, b: Mapping)
    requires KeysDistinct(ms) && a in ms && b in ms && DuplicateKey(a) == DuplicateKey(b)
    ensures a == b
  {
    var i :| 0 <= i < |ms| && ms[i] == a;
    var j :| 0 <= j < |ms| && ms[j] == b;
  }

  /** With distinct roots, the mapping used is the unique matching one with the longest root. */
  lemma UsesLongestMatch(path: string, ms: seq<Mapping>)
    requires KeysDistinct(ms)
    ensures
      var best := BestMatch(path, ms, None);
      && (best.None? <==> forall m :: m in ms ==> !Matches(m, path))
      && (forall m :: best == Some(m) <==> Longest(m, path, ms))
  {
    BestMatchIsLongestFrom(path, ms, None);
    hide Matches, DuplicateKey;
    var best := BestMatch(path, ms, None);
    forall m, o | m in ms && o in ms && Matches(m, path) && Matches(o, path) && |m.normalizedRoot| == |o.normalizedRoot|
      ensures m == o
    {
      EquallyLongRootsAreEqual(m, o, path);
      KeyIdentifies(ms, m, o);
    }
  }

  /** The order of the mappings makes no difference. */
  lemma RemapIgnoresOrder(path: string, ms: seq<Mapping>, others: seq<Mapping>)
    requires KeysDistinct(ms) && KeysDistinct(others)
    requires forall m :: m in ms <==> m in others
    ensures Remap(path, ms) == Remap(path, others)
  {
    hide KeysDistinct, Matches, Rebase;
    UsesLongestMatch(path, ms);
    UsesLongestMatch(path, others);
    var best := BestMatch(path, ms, None);
    if best.Some? {
      assert Longest(best.value, path, ms);
      assert Longest(best.value, path, others);
    }
  }

  // ----- what a remapped path looks like -------------------------------------------------------------------

  predicate Ordinary(segment: string) {
    Proper(segment) && segment != "." && segment != ".."
  }

  lemma {:induction false} WithoutDotsKeepsOthers(segments: seq<string>)
    requires AllProper(segments)
    ensures AllProper(WithoutDots(segments)) && "." !in WithoutDots(segments)
    ensures ".." in WithoutDots(segments) <==> ".." in segments
  {
    if segments != [] {
      WithoutDotsKeepsOthers(segments[1..]);
      assert segments == [segments[0]] + segments[1..];
    }
  }

  lemma {:induction false} PushAllJoins(path: string, segments: seq<string>)
    requires AllProper(segments) && segments != []
    ensures PushAll(path, segments) == Push(path, Join(segments, "/"))
    decreases |segments|
  {
    hide AllProper, Proper;
    if |segments| > 1 {
      AllProperTail(segments);
      var next := Push(path, segments[0]);
      PushAllJoins(next, segments[1..]);
      PushEnds(path, segments[0], Join(segments[1..], "/"));
    } else {
      assert segments[1..] == [];
    }
  }

  lemma AllProperTail(segments: seq<string>)
    requires AllProper(segments) && segments != []
    ensures AllProper(segments[1..]) && Proper(segments[0])
  {
  }

  lemma PushEnds(path: string, segment: string, rest: string)
    requires Proper(segment)
    ensures Push(Push(path, segment), rest) == Push(path, segment + "/" + rest)
  {
    var next := Push(path, segment);
    assert segment[|segment| - 1] in segment;
    assert next[|next| - 1] == segment[|segment| - 1];
    var slash, tail := "/", segment + "/" + rest;
    if path == [] || path[|path| - 1] == '/' {
      assert path + segment + slash + rest == path + tail;
    } else {
      assert path + slash + segment + slash + rest == path + slash + tail;
    }
  }

  /** A remapped path is the local root followed by ordinary segments of the rest, in their order. */
  lemma RemappedStaysBelowLocalRoot(localRoot: string, suffix: string)
    requires Rebase(localRoot, suffix).Some?
    ensures
      var kept := WithoutDots(Segments(suffix));
      && (forall i :: 0 <= i < |kept| ==> Ordinary(kept[i]))
      && Rebase(localRoot, suffix).value == (if kept == [] then localRoot else Push(localRoot, Join(kept, "/")))
  {
    var kept := WithoutDots(Segments(suffix));
    SegmentsAreProper(suffix);
    WithoutDotsKeepsOthers(Segments(suffix));
    if kept != [] {
      PushAllJoins(localRoot, kept);
    }
  }

  lemma RefusedExactlyForParentSegments(localRoot: string, suffix: string)
    ensures Rebase(localRoot, suffix).None? <==> ".." in Segments(suffix)
  {
    SegmentsAreProper(suffix);
    WithoutDotsKeepsOthers(Segments(suffix));
  }

  /** Where the path is cut: at the end, or right after a slash. */
  lemma SuffixCut(m: Mapping, path: string) returns (cut: nat)
    requires FromParser(m) && Matches(m, path)
    ensures
      var joined := Joined(path, m.style);
      && |m.joinedRoot| <= cut <= |m.joinedRoot| + 1 && cut <= |joined| && Suffix(m, path) == joined[cut..]
      && (cut < |joined| ==> 0 < cut && joined[cut - 1] == '/')
  {
    hide FoldCase, Joined, Folded, FromParser;
    var style := m.style;
    var root, joined := m.joinedRoot, Joined(path, style);
    FromParserFold(m);
    FoldedIsFoldOfJoined(path, style);
    MatchIsPrefix(m, path);
    if |joined| == |root| {
      cut := |root|;
    } else if IsVolumeRoot(root, style) {
      cut := |root|;
      FoldAt(root, cut - 1, style);
      FoldAt(joined, cut - 1, style);
    } else {
      cut := |root| + 1;
      assert joined[|root|..][1..] == joined[cut..];
    }
  }

  /** The rest below a longer root is a tail of the rest below a shorter one. */
  lemma LongerRootLeavesTail(a: Mapping, b: Mapping, path: string)
    requires FromParser(a) && FromParser(b) && Matches(a, path) && Matches(b, path)
    requires |b.normalizedRoot| < |a.normalizedRoot|
    ensures ".." in Segments(Suffix(a, path)) ==> ".." in Segments(Suffix(b, path))
  {
    hide Joined, Folded, FromParser, Matches, Suffix;
    var ca := SuffixCut(a, path);
    var cb := SuffixCut(b, path);
    FromParserFold(a);
    FromParserFold(b);
    MatchIsPrefix(a, path);
    MatchIsPrefix(b, path);
    var joined := Joined(path, a.style);
    if ca < |joined| {
      assert cb <= ca;
      var between := joined[cb..ca];
      assert joined[cb..] == between + joined[ca..];
      SegmentsSplit(between, joined[ca..]);
    }
  }

  /** When the longest match is refused for a '..', every other matching mapping would be refused too. */
  lemma RefusedWhicheverMatches(path: string, ms: seq<Mapping>, m: Mapping)
    requires KeysDistinct(ms) && forall o :: o in ms ==> FromParser(o)
    requires path != [] && BestMatch(path, ms, None).Some? && Remap(path, ms).None?
    requires m in ms && Matches(m, path)
    ensures Rebase(m.localRoot, Suffix(m, path)).None?
  {
    hide KeysDistinct, FromParser, Matches, Suffix, Rebase;
    UsesLongestMatch(path, ms);
    var best := BestMatch(path, ms, None).value;
    assert Longest(best, path, ms);
    RefusedExactlyForParentSegments(best.localRoot, Suffix(best, path));
    RefusedExactlyForParentSegments(m.localRoot, Suffix(m, path));
    if m != best {
      LongerRootLeavesTail(best, m, path);
    }
  }

  // ----- matching is segment-wise ----------------------------------------------------------------------------

  function PrefixIn(n: string, style: Style): string {
    match style
    case Unix => if "/" <= n then "/" else ""
    case Windows => Prefix(n)
  }

  function SegmentsIn(n: string, style: Style): seq<string> {
    match style
    case Unix => Segments(n)
    case Windows => Segments(Body(n))
  }

  /** A normal form is its prefix and its joined segments. */
  lemma NormalParts(path: string, style: Style)
    ensures
      var n := Folded(path, style);
      && n == PrefixIn(n, style) + Join(SegmentsIn(n, style), "/")
      && AllProper(SegmentsIn(n, style))
      && (n == [] ==> path == [])
  {
    match style {
      case Unix =>
        UnixShape(path);
        UnixNormalIsNormal(path);
        UnixShape(NormalizeUnix(path));
        SegmentsAreProper(NormalizeUnix(path));
        SegmentsAreProper(path);
        JoinOfNothing(path);
      case Windows =>
        var r := Lower(Replace(path));
        NormalShape(r);
        NormalIsNormal(r);
        NormalShape(NormalizeReplaced(r));
        SegmentsAreProper(Body(NormalizeReplaced(r)));
        SegmentsAreProper(r);
        JoinOfNothing(r);
    }
  }

  lemma JoinOfNothing(r: string)
    ensures !("/" <= r) && Join(Segments(r), "/") == [] ==> r == []
  {
    SegmentsAreProper(r);
    if r != [] && r[0] != '/' {
      JoinHead(Segments(r));
    }
  }

  lemma {:induction false} JoinLast(segments: seq<string>)
    requires AllProper(segments) && segments != []
    ensures Join(segments, "/") != [] && Join(segments, "/")[|Join(segments, "/")| - 1] != '/'
  {
    if |segments| == 1 {
      assert segments[0][|segments[0]| - 1] in segments[0];
    } else {
      JoinLast(segments[1..]);
    }
  }

  lemma {:induction false} JoinPrefix(a: seq<string>, b: seq<string>)
    requires a != [] && b != []
    ensures Join(a + b, "/") == Join(a, "/") + "/" + Join(b, "/")
  {
    if |a| == 1 {
      assert (a + b)[1..] == b;
    } else {
      assert (a + b)[1..] == a[1..] + b;
      JoinPrefix(a[1..], b);
    }
  }

  lemma {:induction false} SegmentsDropLastSlash(s: string)
    ensures Segments(s + "/") == Segments(s)
    decreases |s|
  {
    if s == [] {
      assert s + "/" == "/" && Segments("/") == Segments("/"[1..]);
    } else if s[0] == '/' {
      assert (s + "/")[1..] == s[1..] + "/";
      SegmentsDropLastSlash(s[1..]);
    } else {
      var first, rest := s[..SegmentEnd(s)], s[SegmentEnd(s)..];
      assert s == first + rest && s + "/" == first + (rest + "/");
      SegmentsOfFirst(first, rest);
      SegmentsOfFirst(first, rest + "/");
      SegmentsDropLastSlash(rest);
    }
  }

  lemma SegmentsAcrossSlash(s: string, t: string)
    ensures Segments(s + "/" + t) == Segments(s) + Segments(t)
  {
    SegmentsSplit(s + "/", t);
    SegmentsDropLastSlash(s);
  }

  lemma SameHeadSamePrefix(a: string, b: string)
    requires |a| >= 2 && |b| >= 2 && a[..2] == b[..2]
    ensures Prefix(a) == Prefix(b)
    ensures ("//" <= a || IsWindowsDrivePath(a)) <==> ("//" <= b || IsWindowsDrivePath(b))
  {
    assert a[0] == a[..2][0] && b[0] == b[..2][0] && a[1] == a[..2][1] && b[1] == b[..2][1];
  }

  /** Going on after a slash keeps the prefix and appends segments. */
  lemma Extended(n: string, t: string, style: Style)
    requires n != [] && n[|n| - 1] != '/'
    ensures PrefixIn(n + "/" + t, style) == PrefixIn(n, style)
    ensures SegmentsIn(n + "/" + t, style) == SegmentsIn(n, style) + Segments(t)
  {
    hide Segments;
    SegmentsAcrossSlash(n, t);
    if style == Windows {
      ExtendedWindows(n, t);
    }
  }

  lemma ExtendedWindows(n: string, t: string)
    requires n != [] && n[|n| - 1] != '/'
    ensures Prefix(n + "/" + t) == Prefix(n)
    ensures Segments(Body(n + "/" + t)) == Segments(Body(n)) + Segments(t)
  {
    hide Segments;
    SegmentsAcrossSlash(n, t);
    var longer := n + "/" + t;
    if |n| >= 2 {
      assert longer[..2] == n[..2];
      SameHeadSamePrefix(n, longer);
      assert longer[2..] == n[2..] + "/" + t;
      SegmentsAcrossSlash(n[2..], t);
    } else {
      assert longer[0] == n[0] && longer[1] == '/';
      assert !("//" <= longer) && !("/" <= n);
    }
  }

  /** A root without segments is one of the volume roots. */
  lemma BareRoot(n: string, style: Style)
    requires n != [] && n == PrefixIn(n, style)
    ensures IsVolumeRoot(n, style)
  {
  }

  lemma BarePrefixMatches(root: string, candidate: string, rest: string, style: Style)
    requires root != [] && root == PrefixIn(root, style) && candidate == PrefixIn(candidate, style) + rest
    ensures root <= candidate <==>
      PrefixIn(candidate, style) == root || (style == Windows && root == "/" && PrefixIn(candidate, style) == "//")
  {
  }

  /** The path continues the root with more segments. */
  lemma SegmentwiseFollows(root: string, candidate: string, style: Style)
    requires root != [] && root[|root| - 1] != '/'
    requires candidate == PrefixIn(candidate, style) + Join(SegmentsIn(candidate, style), "/")
    requires root == PrefixIn(root, style) + Join(SegmentsIn(root, style), "/") && SegmentsIn(root, style) != []
    ensures StripRoot(root, candidate, style).Some? <==>
      PrefixIn(root, style) == PrefixIn(candidate, style) && SegmentsIn(root, style) <= SegmentsIn(candidate, style)
  {
    hide PrefixIn, SegmentsIn, IsVolumeRoot, Join;
    NotVolumeRoot(root, style);
    var p, ra, ca := PrefixIn(root, style), SegmentsIn(root, style), SegmentsIn(candidate, style);
    if StripRoot(root, candidate, style).Some? && candidate != root {
      var t := candidate[|root| + 1..];
      assert candidate == root + "/" + t;
      Extended(root, t, style);
    }
    if p == PrefixIn(candidate, style) && ra <= ca {
      if |ra| == |ca| {
        assert ra == ca;
      } else {
        var more := ca[|ra|..];
        assert ca == ra + more;
        JoinPrefix(ra, more);
        Continues(p, Join(ra, "/"), Join(more, "/"));
      }
    }
  }

  lemma Continues(p: string, a: string, b: string)
    ensures p + (a + "/" + b) == p + a + "/" + b
    ensures p + a <= p + a + "/" + b && "/" <= (p + a + "/" + b)[|p + a|..]
  {
    assert (p + a + "/" + b)[|p + a|..] == "/" + b;
  }

  /**
   * Matching compares whole segments: same prefix, and the root's segments begin the path's segments.
   * The one exception is the Windows root "/", which also matches every UNC path.
   */
  lemma MatchingIsSegmentwise(remoteRoot: string, path: string, style: Style)
    requires remoteRoot != []
    ensures
      var root, candidate := Folded(remoteRoot, style), Folded(path, style);
      StripRoot(root, candidate, style).Some? <==>
        || (PrefixIn(root, style) == PrefixIn(candidate, style) && SegmentsIn(root, style) <= SegmentsIn(candidate, style))
        || (style == Windows && root == "/" && PrefixIn(candidate, style) == "//")
  {
    hide Folded, PrefixIn, SegmentsIn, IsVolumeRoot;
    NormalParts(remoteRoot, style);
    NormalParts(path, style);
    var root, candidate := Folded(remoteRoot, style), Folded(path, style);
    var ra, ca := SegmentsIn(root, style), SegmentsIn(candidate, style);
    if ra == [] {
      assert PrefixIn(root, style) + "" == PrefixIn(root, style);
      BareRoot(root, style);
      BarePrefixMatches(root, candidate, Join(ca, "/"), style);
    } else {
      JoinLast(ra);
      assert root[|root| - 1] == Join(ra, "/")[|Join(ra, "/")| - 1];
      NotVolumeRoot(root, style);
      SegmentwiseFollows(root, candidate, style);
    }
  }

  lemma NotVolumeRoot(root: string, style: Style)
    requires root != [] && root[|root| - 1] != '/'
    ensures !IsVolumeRoot(root, style) && root != "/"
  {
  }

  // ----- applying the mappings once --------------------------------------------------------------------------

  const APPLIED_KEY := "*scryer_remote_path_mapping_applied"

  datatype Parameter = Parameter(key: string, value: string)

  datatype Download = Download(destDir: string, parameters: seq<Parameter>)

  predicate IsMarked(parameters: seq<Parameter>) {
    exists i :: 0 <= i < |parameters| && parameters[i].key == APPLIED_KEY
  }

  function Applied(d: Download, ms: seq<Mapping>): Download {
    var remapped := Remap(Trim(d.destDir), ms);
    if IsMarked(d.parameters) || remapped.None? then d
    else Download(remapped.value, d.parameters + [Parameter(APPLIED_KEY, "true")])
  }

  class CompletedDownload {
    var destDir: string
    var parameters: seq<Parameter>

    ghost function Contents(): Download
      reads this
    {
      Download(destDir, parameters)
    }

    method ApplyMappings(ms: seq<Mapping>)
      modifies this
      ensures Contents() == Applied(old(Contents()), ms)
    {
      if IsMarked(parameters) {
        return;
      }
      var remapped := RemapRemotePath(destDir, ms);
      if remapped.Some? {
        destDir := remapped.value;
        MarkApplied();
      }
    }

    method MarkApplied()
      modifies this`parameters
      ensures parameters ==
        old(parameters) + (if IsMarked(old(parameters)) then [] else [Parameter(APPLIED_KEY, "true")])
    {
      if !IsMarked(parameters) {
        parameters := parameters + [Parameter(APPLIED_KEY, "true")];
      }
    }
  }

  /** A download that was remapped is never remapped again, by whatever mappings. */
  lemma RemappedOnce(d: Download, ms: seq<Mapping>, others: seq<Mapping>)
    requires Applied(d, ms) != d
    ensures Applied(Applied(d, ms), others) == Applied(d, ms)
    ensures Applied(d, ms).parameters == d.parameters + [Parameter(APPLIED_KEY, "true")]
    ensures Some(Applied(d, ms).destDir) == Remap(Trim(d.destDir), ms)
  {
    hide Remap, Trim;
    var parameters := Applied(d, ms).parameters;
    assert parameters[|d.parameters|].key == APPLIED_KEY;
  }
}
