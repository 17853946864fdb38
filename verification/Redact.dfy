/** Redaction of credential-bearing query values in proxy error text. */
module Redact {
  import opened Options
  import opened Text

  const MARKERS: seq<string> := ["apikey=", "api_key=", "token=", "passkey=", "auth=", "rsskey=", "jwt="]
  const REDACTED := "REDACTED"

  predicate IsDelimiter(c: char) {
    c == '&' || c == ' ' || c == '\'' || c == '"'
  }

  predicate Occurs(s: string, i: nat, m: string) {
    i + |m| <= |s| && forall j :: 0 <= j < |m| ==> s[i + j] == m[j]
  }

  /** `m` occurs at `i`, whatever the case of the text. */
  predicate Matches(t: string, i: nat, m: string) {
    Occurs(Lower(t), i, m)
  }

  /** Leftmost occurrence of `m` in `s`. */
  function Find(s: string, m: string, from: nat): (r: Option<nat>)
    requires forall i :: 0 <= i < from ==> !Occurs(s, i, m)
    ensures r.Some? ==> Occurs(s, r.value, m)
    ensures r.Some? ==> forall i :: 0 <= i < r.value ==> !Occurs(s, i, m)
    ensures r.None? ==> forall i: nat :: !Occurs(s, i, m)
    decreases |s| - from
  {
    if from + |m| > |s| then None
    else if Occurs(s, from, m) then Some(from)
    else Find(s, m, from + 1)
  }

  /** Where the field that starts the text ends: the first delimiter, or the end of the text. */
  function FieldEnd(t: string): (e: nat)
    ensures e <= |t|
    ensures forall i :: 0 <= i < e ==> !IsDelimiter(t[i])
    ensures e < |t| ==> IsDelimiter(t[e])
  {
    if t == [] || IsDelimiter(t[0]) then 0 else 1 + FieldEnd(t[1..])
  }

  // ----- reference: redaction field by field ------------------------------------------------------

  /** Some marker of `ms` ends just before position `k`. */
  predicate MarkerEnds(ms: seq<string>, t: string, k: nat) {
    exists m :: m in ms && |m| <= k && Matches(t, k - |m|, m)
  }

  /** The first position at which a marker has ended. */
  function FirstEnd(ms: seq<string>, f: string, from: nat): (r: Option<nat>)
    requires forall k :: 0 <= k < from ==> !MarkerEnds(ms, f, k)
    ensures r.Some? ==> r.value <= |f| && MarkerEnds(ms, f, r.value)
    ensures r.Some? ==> forall k :: 0 <= k < r.value ==> !MarkerEnds(ms, f, k)
    ensures r.None? ==> forall k :: 0 <= k <= |f| ==> !MarkerEnds(ms, f, k)
    decreases |f| + 1 - from
  {
    if from > |f| then None
    else if MarkerEnds(ms, f, from) then Some(from)
    else FirstEnd(ms, f, from + 1)
  }

  /** A field keeps its text up to and including its first marker; the rest is redacted. */
  function RedactField(ms: seq<string>, f: string): string {
    match FirstEnd(ms, f, 0)
    case None => f
    case Some(k) => f[..k] + REDACTED
  }

  /** Every field of the text redacted on its own, the delimiters left in place. */
  function RedactFields(ms: seq<string>, t: string): string
    decreases |t|, 1
  {
    var e := FieldEnd(t);
    RedactField(ms, t[..e]) + RedactRest(ms, t[e..])
  }

  /** What follows the first field: nothing, or a delimiter and more fields. */
  function RedactRest(ms: seq<string>, rest: string): string
    decreases |rest|, 0
  {
    if rest == [] then [] else [rest[0]] + RedactFields(ms, rest[1..])
  }

  // ----- properties of the reference --------------------------------------------------------------

  /** What the redactor relies on: a marker ends in '=' and contains no delimiter. */
  predicate MarkerLike(m: string) {
    m != [] && m[|m| - 1] == '=' && forall j :: 0 <= j < |m| ==> !IsDelimiter(m[j])
  }

  predicate AllMarkerLike(ms: seq<string>) {
    forall m :: m in ms ==> MarkerLike(m)
  }

  lemma MarkersAreMarkerLike()
    ensures AllMarkerLike(MARKERS)
  {
  }

  lemma LowerKeeps(c: char)
    ensures LowerChar(c) == '=' <==> c == '='
    ensures IsDelimiter(LowerChar(c)) <==> IsDelimiter(c)
  {
  }

  /** Matching looks only at the matched characters. */
  lemma MatchesPart(a: string, i: nat, b: string, j: nat, m: string)
    requires i + |m| <= |a| && j + |m| <= |b| && a[i..i + |m|] == b[j..j + |m|]
    ensures Matches(a, i, m) == Matches(b, j, m)
  {
    forall k | 0 <= k < |m|
      ensures (Lower(a)[i + k] == m[k]) == (Lower(b)[j + k] == m[k])
    {
      assert a[i + k] == a[i..i + |m|][k] == b[j..j + |m|][k] == b[j + k];
    }
  }

  lemma MarkerEndsAfterEquals(ms: seq<string>, t: string, k: nat)
    requires AllMarkerLike(ms) && MarkerEnds(ms, t, k)
    ensures 0 < k <= |t| && t[k - 1] == '='
  {
    var m :| m in ms && |m| <= k && Matches(t, k - |m|, m);
    assert Lower(t)[k - |m| + (|m| - 1)] == m[|m| - 1];
    LowerKeeps(t[k - 1]);
  }

  lemma MarkerEndsInPrefix(ms: seq<string>, a: string, b: string, n: nat, k: nat)
    requires k <= n <= |a| && n <= |b| && a[..n] == b[..n]
    ensures MarkerEnds(ms, a, k) == MarkerEnds(ms, b, k)
  {
    forall m | m in ms && |m| <= k
      ensures Matches(a, k - |m|, m) == Matches(b, k - |m|, m)
    {
      assert a[k - |m|..k] == a[..n][k - |m|..k] == b[..n][k - |m|..k] == b[k - |m|..k];
      MatchesPart(a, k - |m|, b, k - |m|, m);
    }
  }

  /** In a redacted field no marker ends after the cut. */
  lemma NoMarkerInRedacted(ms: seq<string>, f: string, k: nat, j: nat)
    requires AllMarkerLike(ms) && k <= |f| && k < j
    ensures !MarkerEnds(ms, f[..k] + REDACTED, j)
  {
    if MarkerEnds(ms, f[..k] + REDACTED, j) {
      MarkerEndsAfterEquals(ms, f[..k] + REDACTED, j);
    }
  }

  lemma FirstEndIs(ms: seq<string>, f: string, k: nat)
    requires k <= |f| && MarkerEnds(ms, f, k)
    requires forall j :: 0 <= j < k ==> !MarkerEnds(ms, f, j)
    ensures FirstEnd(ms, f, 0) == Some(k)
  {
  }

  lemma FirstEndIsNone(ms: seq<string>, f: string)
    requires forall j :: 0 <= j <= |f| ==> !MarkerEnds(ms, f, j)
    ensures FirstEnd(ms, f, 0) == None
  {
  }

  /** A later pass over a field that earlier passes redacted does what one joint pass would do. */
  lemma FieldPassesCompose(ms: seq<string>, ns: seq<string>, f: string)
    requires AllMarkerLike(ms) && AllMarkerLike(ns)
    ensures RedactField(ns, RedactField(ms, f)) == RedactField(ms + ns, f)
  {
    forall j: nat
      ensures MarkerEnds(ms + ns, f, j) <==> MarkerEnds(ms, f, j) || MarkerEnds(ns, f, j)
    {
      MarkerEndsUnion(ms, ns, f, j);
    }
    var first := FirstEnd(ms, f, 0);
    if first.Some? {
      var k := first.value;
      var g := f[..k] + REDACTED;
      assert g[..k] == f[..k];
      forall j | 0 <= j <= k
        ensures MarkerEnds(ns, g, j) == MarkerEnds(ns, f, j)
      {
        MarkerEndsInPrefix(ns, g, f, k, j);
      }
      forall j | k < j
        ensures !MarkerEnds(ns, g, j)
      {
        NoMarkerInRedacted(ns, f, k, j);
      }
      var second := FirstEnd(ns, g, 0);
      if second.Some? {
        assert second.value <= k;
        FirstEndIs(ms + ns, f, second.value);
        assert g[..second.value] == f[..second.value];
      } else {
        FirstEndIs(ms + ns, f, k);
      }
    } else {
      var second := FirstEnd(ns, f, 0);
      if second.Some? {
        FirstEndIs(ms + ns, f, second.value);
      } else {
        FirstEndIsNone(ms + ns, f);
      }
    }
  }

  lemma MarkerEndsUnion(ms: seq<string>, ns: seq<string>, f: string, j: nat)
    ensures MarkerEnds(ms + ns, f, j) <==> MarkerEnds(ms, f, j) || MarkerEnds(ns, f, j)
  {
    assert forall m :: m in ms + ns <==> m in ms || m in ns;
  }

  predicate DelimiterFree(f: string) {
    forall i :: 0 <= i < |f| ==> !IsDelimiter(f[i])
  }

  lemma RedactFieldIsDelimiterFree(ms: seq<string>, f: string)
    requires DelimiterFree(f)
    ensures DelimiterFree(RedactField(ms, f))
  {
  }

  lemma {:induction false} FieldEndOf(f: string, rest: string)
    requires DelimiterFree(f) && (rest == [] || IsDelimiter(rest[0]))
    ensures FieldEnd(f + rest) == |f|
  {
    if f == [] {
      assert f + rest == rest;
    } else {
      assert (f + rest)[1..] == f[1..] + rest;
      FieldEndOf(f[1..], rest);
    }
  }

  /** Unfolding the reference on a text given as its first field and what follows. */
  lemma RedactFieldsAt(ms: seq<string>, f: string, rest: string)
    requires DelimiterFree(f) && (rest == [] || IsDelimiter(rest[0]))
    ensures RedactFields(ms, f + rest) == RedactField(ms, f) + RedactRest(ms, rest)
  {
    hide RedactField, RedactRest, FieldEnd;
    FieldEndOf(f, rest);
    assert (f + rest)[..|f|] == f && (f + rest)[|f|..] == rest;
  }

  /** Later marker passes keep what earlier ones did: passes in sequence equal one joint pass. */
  lemma {:induction false} PassesCompose(ms: seq<string>, ns: seq<string>, t: string)
    requires AllMarkerLike(ms) && AllMarkerLike(ns)
    ensures RedactFields(ns, RedactFields(ms, t)) == RedactFields(ms + ns, t)
    decreases |t|
  {
    hide RedactField, FieldEnd;
    var e := FieldEnd(t);
    var f, rest := t[..e], t[e..];
    FieldPassesCompose(ms, ns, f);
    RedactFieldIsDelimiterFree(ms, f);
    RedactFieldsAt(ns, RedactField(ms, f), RedactRest(ms, rest));
    if rest != [] {
      PassesCompose(ms, ns, rest[1..]);
      assert RedactRest(ms, rest)[1..] == RedactFields(ms, rest[1..]);
    }
  }

  // ----- one marker pass, as a search from left to right --------------------------------------------

  predicate FirstMatch(t: string, r: nat, m: string) {
    Matches(t, r, m) && forall i :: 0 <= i < r ==> !Matches(t, i, m)
  }

  lemma MatchesTail(t: string, d: nat, i: nat, m: string)
    requires d <= |t|
    ensures Matches(t[d..], i, m) == Matches(t, d + i, m)
  {
    if d + i + |m| <= |t| {
      assert t[d..][i..i + |m|] == t[d + i..d + i + |m|];
      MatchesPart(t[d..], i, t, d + i, m);
    }
  }

  /** A field without the marker is left alone. */
  lemma RedactFieldNone(m: string, t: string, e: nat)
    requires e <= |t| && forall i :: 0 <= i && i + |m| <= e ==> !Matches(t, i, m)
    ensures RedactField([m], t[..e]) == t[..e]
  {
    forall k | 0 <= k <= e
      ensures !MarkerEnds([m], t[..e], k)
    {
      if |m| <= k {
        MatchesPart(t[..e], k - |m|, t, k - |m|, m);
      }
    }
    FirstEndIsNone([m], t[..e]);
  }

  lemma {:induction false} PassNone(m: string, t: string)
    requires MarkerLike(m) && forall i :: 0 <= i ==> !Matches(t, i, m)
    ensures RedactFields([m], t) == t
    decreases |t|
  {
    hide Matches, RedactField, FieldEnd;
    var e := FieldEnd(t);
    RedactFieldNone(m, t, e);
    if e < |t| {
      var tail := t[e..][1..];
      assert tail == t[e + 1..];
      forall i | 0 <= i
        ensures !Matches(tail, i, m)
      {
        MatchesTail(t, e + 1, i, m);
      }
      PassNone(m, tail);
      assert [t[e]] + tail == t[e..];
    }
    assert t == t[..e] + t[e..];
  }

  lemma FieldEndIs(t: string, e: nat)
    requires e <= |t| && forall i :: 0 <= i < e ==> !IsDelimiter(t[i])
    requires e < |t| ==> IsDelimiter(t[e])
    ensures FieldEnd(t) == e
  {
  }

  /** A marker cannot straddle the end of a field. */
  lemma MatchHasNoDelimiter(t: string, r: nat, m: string, e: nat)
    requires MarkerLike(m) && Matches(t, r, m) && r <= e < r + |m|
    ensures !IsDelimiter(t[e])
  {
    assert Lower(t)[r + (e - r)] == m[e - r];
    LowerKeeps(t[e]);
  }

  lemma RedactFieldFirst(m: string, t: string, r: nat, e: nat)
    requires MarkerLike(m) && FirstMatch(t, r, m) && r + |m| <= e <= |t|
    ensures RedactField([m], t[..e]) == t[..r + |m|] + REDACTED
  {
    hide Matches;
    var f := t[..e];
    MatchesPart(f, r, t, r, m);
    assert MarkerEnds([m], f, r + |m|);
    forall j | 0 <= j < r + |m|
      ensures !MarkerEnds([m], f, j)
    {
      if |m| <= j {
        MatchesPart(f, j - |m|, t, j - |m|, m);
      }
    }
    FirstEndIs([m], f, r + |m|);
    assert f[..r + |m|] == t[..r + |m|];
  }

  lemma RestIsFields(m: string, rest: string)
    requires MarkerLike(m) && (rest == [] || IsDelimiter(rest[0]))
    ensures RedactFields([m], rest) == RedactRest([m], rest)
  {
    FieldEndIs(rest, 0);
    RedactFieldNone(m, rest, 0);
    hide RedactField, RedactRest;
    assert rest[..0] == [] && rest[0..] == rest;
    assert [] + RedactRest([m], rest) == RedactRest([m], rest);
  }

  lemma FirstFieldSettled(m: string, t: string, e: nat, first: string)
    requires MarkerLike(m) && e == FieldEnd(t) && RedactField([m], t[..e]) == first
    ensures RedactFields([m], t) == first + RedactFields([m], t[e..])
  {
    hide RedactField, RedactRest, FieldEnd;
    RestIsFields(m, t[e..]);
  }

  lemma PassFirstHere(m: string, t: string, r: nat, e: nat)
    requires MarkerLike(m) && FirstMatch(t, r, m) && e == FieldEnd(t) && r + |m| <= e
    ensures e == r + |m| + FieldEnd(t[r + |m|..])
    ensures RedactFields([m], t) == t[..r + |m|] + REDACTED + RedactFields([m], t[e..])
  {
    hide Matches, RedactField, FieldEnd, RedactFields;
    FieldEndIs(t[r + |m|..], e - (r + |m|));
    RedactFieldFirst(m, t, r, e);
    FirstFieldSettled(m, t, e, t[..r + |m|] + REDACTED);
  }

  lemma FirstMatchTail(m: string, t: string, r: nat, d: nat)
    requires FirstMatch(t, r, m) && d <= r <= |t|
    ensures FirstMatch(t[d..], r - d, m)
  {
    hide Matches;
    var tail := t[d..];
    MatchesTail(t, d, r - d, m);
    forall i | 0 <= i < r - d
      ensures !Matches(tail, i, m)
    {
      MatchesTail(t, d, i, m);
    }
  }

  lemma Glue(t: string, e: nat, n: nat)
    requires e < n <= |t|
    ensures t[..e] + [t[e]] + t[e + 1..][..n - (e + 1)] == t[..n]
  {
  }

  lemma Reassociate(a: string, b: string, c: string, d: string, e: string)
    ensures a + (b + (c + d + e)) == a + b + c + d + e
  {
  }

  /** A field before the first match is passed over. */
  lemma PassOver(m: string, t: string, r: nat, e: nat)
    requires FirstMatch(t, r, m) && e == FieldEnd(t) && e < r < |t|
    ensures RedactFields([m], t) == t[..e] + ([t[e]] + RedactFields([m], t[e + 1..]))
  {
    hide Matches, RedactField, FieldEnd;
    RedactFieldNone(m, t, e);
    assert t[e..][1..] == t[e + 1..];
  }

  /** The field that holds the first match is cut after it, and the rest is treated alike. */
  lemma {:induction false} PassFirst(m: string, t: string, r: nat, end: nat)
    requires MarkerLike(m) && FirstMatch(t, r, m)
    requires r + |m| <= |t| && end == r + |m| + FieldEnd(t[r + |m|..])
    ensures RedactFields([m], t) == t[..r + |m|] + REDACTED + RedactFields([m], t[end..])
    decreases |t|
  {
    hide Matches, RedactField, FieldEnd, RedactFields;
    var e := FieldEnd(t);
    if e >= r + |m| {
      PassFirstHere(m, t, r, e);
    } else if r <= e {
      MatchHasNoDelimiter(t, r, m, e);
      assert false;
    } else {
      var d := e + 1;
      var tail := t[d..];
      PassOver(m, t, r, e);
      FirstMatchTail(m, t, r, d);
      assert tail[r - d + |m|..] == t[r + |m|..];
      PassFirst(m, tail, r - d, end - d);
      assert tail[end - d..] == t[end..];
      Reassociate(t[..e], [t[e]], tail[..r - d + |m|], REDACTED, RedactFields([m], t[end..]));
      Glue(t, e, r + |m|);
    }
  }

  lemma Rebase(s: string, start: nat, valueStart: nat, valueEnd: nat, value: string, tail: string)
    requires start <= valueStart <= valueEnd <= |s|
    ensures
      var s', next := s[..valueStart] + value + s[valueEnd..], valueStart + |value|;
      && s'[..next] + tail == s[..start] + (s[start..valueStart] + value + tail)
      && s'[next..] == s[valueEnd..]
      && (s[valueStart..valueEnd] == value ==> s' == s)
  {
  }

  lemma FoundStep(m: string, s: string, start: nat, r: nat, valueStart: nat, valueEnd: nat)
    requires MarkerLike(m) && start <= |s|
    requires Find(Lower(s[start..]), m, 0) == Some(r)
    requires valueStart == start + r + |m| <= |s|
    requires valueEnd == valueStart + FieldEnd(s[valueStart..])
    ensures RedactFields([m], s[start..]) == s[start..valueStart] + REDACTED + RedactFields([m], s[valueEnd..])
  {
    hide RedactFields, Lower, Find, FieldEnd;
    var t := s[start..];
    assert t[r + |m|..] == s[valueStart..];
    PassFirst(m, t, r, valueEnd - start);
    assert t[..r + |m|] == s[start..valueStart];
    assert t[valueEnd - start..] == s[valueEnd..];
  }

  /** What one turn of the search settles: the rest after the value is all there is left to do. */
  lemma SearchStep(m: string, s: string, start: nat, r: nat, valueStart: nat, valueEnd: nat)
    requires MarkerLike(m) && start <= |s|
    requires Find(Lower(s[start..]), m, 0) == Some(r)
    requires valueStart == start + r + |m| <= |s|
    requires valueEnd == valueStart + FieldEnd(s[valueStart..])
    ensures
      var s', next := s[..valueStart] + REDACTED + s[valueEnd..], valueStart + |REDACTED|;
      && s'[..next] + RedactFields([m], s'[next..]) == s[..start] + RedactFields([m], s[start..])
      && (s[valueStart..valueEnd] == REDACTED ==> s' == s)
  {
    hide *;
    FoundStep(m, s, start, r, valueStart, valueEnd);
    Rebase(s, start, valueStart, valueEnd, REDACTED, RedactFields([m], s[valueEnd..]));
  }

  lemma NoMarkersNoCut(f: string)
    ensures RedactField([], f) == f
  {
    FirstEndIsNone([], f);
  }

  lemma {:induction false} NoMarkersNoRedaction(t: string)
    ensures RedactFields([], t) == t
    decreases |t|
  {
    hide RedactField, FieldEnd;
    var e := FieldEnd(t);
    NoMarkersNoCut(t[..e]);
    var rest := t[e..];
    if rest != [] {
      NoMarkersNoRedaction(rest[1..]);
      assert [rest[0]] + rest[1..] == rest;
    }
    assert t[..e] + rest == t;
  }

  /** The redactor as written: for each marker, search onwards and rewrite the value in place. */
  method Sanitize(message: string, markers: seq<string>) returns (sanitized: string)
    requires AllMarkerLike(markers)
    ensures sanitized == RedactFields(markers, message)
  {
    hide RedactFields, Lower, Find, FieldEnd;
    sanitized := message;
    NoMarkersNoRedaction(message);
    for k := 0 to |markers|
      invariant sanitized == RedactFields(markers[..k], message)
    {
      var marker := markers[k];
      ghost var before := sanitized;
      var searchStart := 0;
      assert sanitized[0..] == sanitized;
      var relativeStart := Find(Lower(sanitized[searchStart..]), marker, 0);
      while relativeStart.Some?
        invariant searchStart <= |sanitized|
        invariant relativeStart == Find(Lower(sanitized[searchStart..]), marker, 0)
        invariant sanitized[..searchStart] + RedactFields([marker], sanitized[searchStart..])
               == RedactFields([marker], before)
        decreases |sanitized| - searchStart
      {
        var start := searchStart + relativeStart.value;
        var valueStart := start + |marker|;
        var valueEnd := valueStart + FieldEnd(sanitized[valueStart..]);
        SearchStep(marker, sanitized, searchStart, relativeStart.value, valueStart, valueEnd);
        if sanitized[valueStart..valueEnd] == REDACTED {
          searchStart := valueEnd;
        } else {
          sanitized := sanitized[..valueStart] + REDACTED + sanitized[valueEnd..];
          searchStart := valueStart + |REDACTED|;
        }
        relativeStart := Find(Lower(sanitized[searchStart..]), marker, 0);
      }
      PassNone(marker, sanitized[searchStart..]);
      assert markers[..k + 1] == markers[..k] + [marker];
      PassesCompose(markers[..k], [marker], message);
    }
    assert markers[..|markers|] == markers;
  }

  method SanitizeProxyError(message: string) returns (sanitized: string)
    ensures sanitized == RedactFields(MARKERS, message)
  {
    MarkersAreMarkerLike();
    sanitized := Sanitize(message, MARKERS);
  }

  // ----- main results -------------------------------------------------------------------------------

  lemma SameMarkersSameField(ms: seq<string>, ns: seq<string>, f: string)
    requires forall m :: m in ms <==> m in ns
    ensures RedactField(ms, f) == RedactField(ns, f)
  {
    hide Matches;
    assert forall k: nat :: MarkerEnds(ms, f, k) <==> MarkerEnds(ns, f, k);
    var first := FirstEnd(ms, f, 0);
    if first.Some? {
      FirstEndIs(ns, f, first.value);
    } else {
      FirstEndIsNone(ns, f);
    }
  }

  /** The order in which the markers are tried, and trying one twice, makes no difference. */
  lemma {:induction false} OnlyTheSetOfMarkersMatters(ms: seq<string>, ns: seq<string>, t: string)
    requires forall m :: m in ms <==> m in ns
    ensures RedactFields(ms, t) == RedactFields(ns, t)
    decreases |t|
  {
    hide RedactField, FieldEnd;
    var e := FieldEnd(t);
    SameMarkersSameField(ms, ns, t[..e]);
    if e < |t| {
      OnlyTheSetOfMarkersMatters(ms, ns, t[e..][1..]);
    }
  }

  /** Redacting redacted text changes nothing. */
  lemma RedactionIsIdempotent(ms: seq<string>, t: string)
    requires AllMarkerLike(ms)
    ensures RedactFields(ms, RedactFields(ms, t)) == RedactFields(ms, t)
  {
    PassesCompose(ms, ms, t);
    OnlyTheSetOfMarkersMatters(ms + ms, ms, t);
  }

  lemma MatchInField(ms: seq<string>, f: string, i: nat, m: string)
    requires AllMarkerLike(ms) && m in ms
    requires Matches(RedactField(ms, f), i, m)
    ensures i + |m| <= |RedactField(ms, f)| && RedactField(ms, f)[i + |m|..] == REDACTED
  {
    var g := RedactField(ms, f);
    assert MarkerEnds(ms, g, i + |m|);
    match FirstEnd(ms, f, 0) {
      case None =>
        assert false;
      case Some(k) =>
        if k < i + |m| {
          NoMarkerInRedacted(ms, f, k, i + |m|);
          assert false;
        }
        MarkerEndsInPrefix(ms, g, f, k, i + |m|);
        assert g[k..] == REDACTED;
    }
  }

  /** A match in a text lies in its first field or in what follows the first delimiter. */
  lemma MatchInFieldOrAfter(f: string, rest: string, i: nat, m: string)
    requires DelimiterFree(f) && (rest == [] || IsDelimiter(rest[0]))
    requires MarkerLike(m) && Matches(f + rest, i, m)
    ensures i < |f| ==> Matches(f, i, m)
    ensures i >= |f| ==> rest != [] && |f| < i && Matches(rest[1..], i - |f| - 1, m)
    ensures i + |m| <= |f + rest|
  {
    var t := f + rest;
    if i <= |f| && |f| < i + |m| {
      MatchHasNoDelimiter(t, i, m, |f|);
      assert false;
    } else if i < |f| {
      MatchesPart(t, i, f, i, m);
    } else {
      assert t[|f| + 1..] == rest[1..];
      MatchesTail(t, |f| + 1, i - |f| - 1, m);
    }
  }

  function Value(t: string, from: nat): string
    requires from <= |t|
  {
    t[from..][..FieldEnd(t[from..])]
  }

  lemma ValueInField(f: string, rest: string, v: nat)
    requires rest == [] || IsDelimiter(rest[0])
    requires v <= |f| && f[v..] == REDACTED
    ensures Value(f + rest, v) == REDACTED
  {
    assert (f + rest)[v..] == REDACTED + rest;
    FieldEndOf(REDACTED, rest);
  }

  lemma ValueAfterField(f: string, rest: string, v: nat)
    requires rest != [] && |f| < v <= |f| + |rest|
    ensures Value(f + rest, v) == Value(rest[1..], v - |f| - 1)
  {
    assert (f + rest)[v..] == rest[1..][v - |f| - 1..];
  }

  /** Every occurrence of every marker is followed by exactly REDACTED, up to a delimiter or the end. */
  lemma {:induction false} EveryMarkerIsRedacted(ms: seq<string>, t: string, i: nat, m: string)
    requires AllMarkerLike(ms) && m in ms
    requires Matches(RedactFields(ms, t), i, m)
    ensures Value(RedactFields(ms, t), i + |m|) == REDACTED
    decreases |t|
  {
    hide Matches, FieldEnd, RedactField, Value;
    var e := FieldEnd(t);
    var f := RedactField(ms, t[..e]);
    RedactFieldIsDelimiterFree(ms, t[..e]);
    var rest := RedactRest(ms, t[e..]);
    var r := RedactFields(ms, t);
    MatchInFieldOrAfter(f, rest, i, m);
    if i < |f| {
      MatchInField(ms, t[..e], i, m);
      ValueInField(f, rest, i + |m|);
    } else {
      assert rest[1..] == RedactFields(ms, t[e..][1..]);
      EveryMarkerIsRedacted(ms, t[e..][1..], i - |f| - 1, m);
      ValueAfterField(f, rest, i + |m|);
    }
  }

  /** The fields of a text, and the delimiters between them. */
  function Fields(t: string): (fs: seq<string>)
    ensures fs != []
    decreases |t|
  {
    var e := FieldEnd(t);
    [t[..e]] + (if e == |t| then [] else Fields(t[e + 1..]))
  }

  function Delimiters(t: string): string
    decreases |t|
  {
    var e := FieldEnd(t);
    if e == |t| then [] else [t[e]] + Delimiters(t[e + 1..])
  }

  function Interleave(fs: seq<string>, ds: string): string
    requires |fs| == |ds| + 1
  {
    fs[0] + (if ds == [] then [] else [ds[0]] + Interleave(fs[1..], ds[1..]))
  }

  lemma FieldsAt(f: string, rest: string)
    requires DelimiterFree(f) && (rest == [] || IsDelimiter(rest[0]))
    ensures Fields(f + rest) == [f] + (if rest == [] then [] else Fields(rest[1..]))
    ensures Delimiters(f + rest) == (if rest == [] then [] else [rest[0]] + Delimiters(rest[1..]))
  {
    FieldEndOf(f, rest);
    hide FieldEnd;
    assert (f + rest)[..|f|] == f;
    if rest != [] {
      assert (f + rest)[|f| + 1..] == rest[1..];
    }
  }

  lemma JoinCons(f: string, d: char, fs: seq<string>, ds: string)
    requires |fs| == |ds| + 1
    ensures Interleave([f] + fs, [d] + ds) == f + [d] + Interleave(fs, ds)
  {
    assert ([f] + fs)[1..] == fs && ([d] + ds)[1..] == ds;
  }

  lemma {:induction false} JoinFields(t: string)
    ensures |Fields(t)| == |Delimiters(t)| + 1
    ensures Interleave(Fields(t), Delimiters(t)) == t
    decreases |t|
  {
    hide FieldEnd, Interleave;
    var e := FieldEnd(t);
    if e < |t| {
      var rest := t[e + 1..];
      JoinFields(rest);
      JoinCons(t[..e], t[e], Fields(rest), Delimiters(rest));
      assert t[..e] + [t[e]] + rest == t;
    } else {
      JoinOne(t);
      assert t[..e] == t && Fields(t) == [t];
    }
  }

  lemma JoinOne(f: string)
    ensures Interleave([f], []) == f
  {
  }

  /** Redaction keeps the delimiters and the number of fields, and treats each field on its own. */
  lemma {:induction false} RedactionKeepsStructure(ms: seq<string>, t: string)
    ensures Delimiters(RedactFields(ms, t)) == Delimiters(t)
    ensures |Fields(RedactFields(ms, t))| == |Fields(t)|
    ensures forall i :: 0 <= i < |Fields(t)| ==> Fields(RedactFields(ms, t))[i] == RedactField(ms, Fields(t)[i])
    decreases |t|
  {
    hide FieldEnd, RedactField, Fields, Delimiters;
    var e := FieldEnd(t);
    var f := RedactField(ms, t[..e]);
    RedactFieldIsDelimiterFree(ms, t[..e]);
    assert t == t[..e] + t[e..];
    FieldsAt(t[..e], t[e..]);
    if e < |t| {
      var rest := RedactRest(ms, t[e..]);
      FieldsAt(f, rest);
      assert rest[1..] == RedactFields(ms, t[e..][1..]);
      RedactionKeepsStructure(ms, t[e..][1..]);
    } else {
      FieldsAt(f, []);
      assert f + [] == f;
    }
  }
}
