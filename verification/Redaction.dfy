/** What redaction leaves of a text, by the names of the markers and the characters that end a value. */
module Redaction {
  import opened Options
  import opened Redact
  import opened Text

  predicate Cut(c: char) {
    c == '&' || c == ' ' || c == '\'' || c == '"'
  }

  predicate IsMarker(name: string) {
    name in {"apikey=", "api_key=", "token=", "passkey=", "auth=", "rsskey=", "jwt="}
  }

  /** The name stands at `i`, in whatever case. */
  predicate Stands(t: string, i: nat, name: string) {
    i + |name| <= |t| && forall j :: 0 <= j < |name| ==> SameLetter(t[i + j], name[j])
  }

  predicate NoUppercase(name: string) {
    forall j :: 0 <= j < |name| ==> !('A' <= name[j] <= 'Z')
  }

  lemma MarkersSpelled(name: string)
    ensures name in MARKERS <==> IsMarker(name)
    ensures IsMarker(name) ==> NoUppercase(name)
  {
    assert MARKERS[0] == "apikey=" && MARKERS[1] == "api_key=" && MARKERS[2] == "token=" && MARKERS[3] == "passkey=";
    assert MARKERS[4] == "auth=" && MARKERS[5] == "rsskey=" && MARKERS[6] == "jwt=";
  }

  lemma MatchesSpelled(t: string, i: nat, name: string)
    requires NoUppercase(name)
    ensures Matches(t, i, name) <==> Stands(t, i, name)
  {
    forall j | 0 <= j < |name| && i + |name| <= |t|
      ensures Lower(t)[i + j] == name[j] <==> SameLetter(t[i + j], name[j])
    {
      assert Lower(t)[i + j] == LowerChar(t[i + j]);
    }
  }

  /** What `SanitizeProxyError` returns. */
  function Sanitized(t: string): string {
    RedactFields(MARKERS, t)
  }

  lemma CutsAreDelimiters(c: char)
    ensures Cut(c) <==> IsDelimiter(c)
  {
  }

  /** In the result every marker, in whatever case, is followed by REDACTED and then a cut or the end. */
  lemma SevenMarkersAreRedacted(t: string, i: nat, name: string)
    requires IsMarker(name) && Stands(Sanitized(t), i, name)
    ensures var r, v := Sanitized(t), i + |name|;
      && v + 8 <= |r| && r[v..v + 8] == "REDACTED"
      && (v + 8 < |r| ==> Cut(r[v + 8]))
  {
    hide RedactFields, MARKERS, REDACTED, Matches, Value, IsMarker;
    MarkersSpelled(name);
    MatchesSpelled(Sanitized(t), i, name);
    MarkersAreMarkerLike();
    EveryMarkerIsRedacted(MARKERS, t, i, name);
    ValueSpelled(Sanitized(t), i + |name|);
  }

  lemma ValueSpelled(r: string, v: nat)
    requires v <= |r| && Value(r, v) == REDACTED
    ensures v + 8 <= |r| && r[v..v + 8] == "REDACTED" && (v + 8 < |r| ==> Cut(r[v + 8]))
  {
    var e := FieldEnd(r[v..]);
    hide FieldEnd;
    assert |REDACTED| == 8;
    assert r[v..][..e] == r[v..v + e];
    if v + 8 < |r| {
      assert r[v..][8] == r[v + 8];
    }
  }

  /** A marker ends at `k` in the text. */
  ghost predicate EndsAt(f: string, k: nat) {
    exists i: nat, name :: IsMarker(name) && i + |name| == k && Stands(f, i, name)
  }

  lemma EndsSpelled(f: string, k: nat)
    requires k <= |f|
    ensures MarkerEnds(MARKERS, f, k) <==> EndsAt(f, k)
  {
    hide IsMarker, MARKERS, Stands, Matches;
    if MarkerEnds(MARKERS, f, k) {
      var m :| m in MARKERS && |m| <= k && Matches(f, k - |m|, m);
      MarkersSpelled(m);
      MatchesSpelled(f, k - |m|, m);
      assert EndsAt(f, k);
    }
    if EndsAt(f, k) {
      var i: nat, name :| IsMarker(name) && i + |name| == k && Stands(f, i, name);
      MarkersSpelled(name);
      MatchesSpelled(f, i, name);
    }
  }

  /**
   * Redaction, field by field: the text up to the first cut is kept when no marker stands in it, and else up to the
   * end of the marker that ends first, with REDACTED in place of the rest; the cut stays, and so on.
   */
  lemma FieldSpelled(f: string, rest: string, k: nat)
    requires forall i :: 0 <= i < |f| ==> !Cut(f[i])
    requires rest == "" || Cut(rest[0])
    ensures (forall j :: 0 <= j <= |f| ==> !EndsAt(f, j)) ==>
      Sanitized(f + rest) == f + if rest == "" then "" else [rest[0]] + Sanitized(rest[1..])
    ensures k <= |f| && EndsAt(f, k) && (forall j :: 0 <= j < k ==> !EndsAt(f, j)) ==>
      Sanitized(f + rest) == f[..k] + "REDACTED" + if rest == "" then "" else [rest[0]] + Sanitized(rest[1..])
  {
    hide RedactFields, MARKERS, MarkerEnds, EndsAt;
    RedactFieldsAt(MARKERS, f, rest);
    forall j | 0 <= j <= |f| ensures MarkerEnds(MARKERS, f, j) <==> EndsAt(f, j) {
      EndsSpelled(f, j);
    }
    if forall j :: 0 <= j <= |f| ==> !EndsAt(f, j) {
      FirstEndIsNone(MARKERS, f);
    }
    if k <= |f| && EndsAt(f, k) && forall j :: 0 <= j < k ==> !EndsAt(f, j) {
      FirstEndIs(MARKERS, f, k);
    }
  }
}
