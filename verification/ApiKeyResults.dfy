/** What a reconciliation answers, reason by reason, and what a new key looks like. */
module ApiKeyResults {
  import opened ApiKeys
  import opened Options
  import opened Text

  lemma {:induction false} Utf8Adds(a: string, b: string)
    ensures Utf8Length(a + b) == Utf8Length(a) + Utf8Length(b)
    decreases |a|
  {
    if a == "" {
      assert a + b == b;
    } else {
      assert (a + b)[1..] == a[1..] + b;
      Utf8Adds(a[1..], b);
    }
  }

  /** Lengths in UTF-8: by character, added up. */
  lemma Utf8Spelled(c: char, a: string, b: string)
    ensures Utf8Length("") == 0 && Utf8Length(a + b) == Utf8Length(a) + Utf8Length(b)
    ensures Utf8Length([c]) ==
      if c as int <= 0x7F then 1 else if c as int <= 0x7FF then 2 else if c as int <= 0xFFFF then 3 else 4
  {
    Utf8Adds(a, b);
    assert [c][1..] == "";
  }

  /** A label: the padding goes, and what is left must not be empty, too long, or hold a control character. */
  lemma LabelSpelled(a: string, text: string, b: string)
    requires AllSpace(a) && AllSpace(b)
    requires text != "" ==> !IsSpace(text[0]) && !IsSpace(text[|text| - 1])
    ensures ValidateApiKeyLabel(a + text + b) ==
      if text == "" then Err(LabelRequired)
      else if Utf8Length(text) > 120 then Err(LabelTooLong)
      else if exists i :: 0 <= i < |text| && (text[i] as int <= 0x1F || 0x7F <= text[i] as int <= 0x9F)
      then Err(LabelControlCharacter)
      else Ok(text)
  {
    hide Trim, IsSpace, Utf8Length;
    TrimPadded(a, text, b);
    if c :| c in text && IsControl(c) {
      var i :| 0 <= i < |text| && text[i] == c;
    }
    if i :| 0 <= i < |text| && (text[i] as int <= 0x1F || 0x7F <= text[i] as int <= 0x9F) {
      assert text[i] in text && IsControl(text[i]);
    }
  }

  /** The lookup id was declared by one of the first seeds. */
  predicate DeclaredBefore(w: World, seeds: seq<Seed>, n: nat, lookupId: string)
    requires n <= |seeds|
  {
    exists i :: 0 <= i < n && LookupOf(w, seeds[i]) == Some(lookupId)
  }

  /**
   * The answer to the first seed with a fault, and the order of the checks: the key's form, a repeated lookup id,
   * the label, the owner, a user-managed key, another secret.
   */
  lemma FirstRefusal(w: World, rows: Rows, seeds: seq<Seed>, freshId: nat -> string, now: Time, n: nat)
    requires n < |seeds| && AllAcceptable(w, rows, seeds[..n]) && DistinctLookups(w, seeds[..n])
    ensures var seed := seeds[n];
      var key, answer := ParseApiKey(w, seed.rawKey), Prepare(w, rows, seeds, freshId, now);
      if key.None? then answer == Err(DeclarationInvalid)
      else
        var k := key.value.lookupId;
        if DeclaredBefore(w, seeds, n, k) then answer == Err(DeclarationsNotUnique)
        else if ValidateApiKeyLabel(seed.keyLabel).Err? then answer == Err(ValidateApiKeyLabel(seed.keyLabel).error)
        else if w.userIdOf(seed.username).None? then answer == Err(OwnerDoesNotExist)
        else if k in rows && rows[k].source == User then answer == Err(CollidesWithUserManagedKey)
        else if k in rows && rows[k].secretHash != w.hash(k, key.value.secret) then answer == Err(DifferentSecret)
        else Prepare(w, rows, seeds[..n + 1], freshId, now).Ok?
  {
    hide ParseApiKey, ValidateApiKeyLabel, AllAcceptable, DistinctLookups, LookupOf;
    TakenExactlyWhen(w, rows, seeds[..n], freshId, now);
    assert seeds[..n + 1][..n] == seeds[..n];
    var front := Prepare(w, rows, seeds[..n], freshId, now).value;
    var key := ParseApiKey(w, seeds[n].rawKey);
    if key.Some? {
      LookupsOfPrepared(w, rows, seeds[..n], freshId, now, key.value.lookupId);
      assert forall i :: 0 <= i < n ==> seeds[..n][i] == seeds[i];
    }
    if Prepare(w, rows, seeds[..n + 1], freshId, now).Err? {
      RefusalStays(w, rows, seeds, freshId, now, n + 1);
    }
  }

  /** A key that was not in the table starts with a new id, created now and never used. */
  lemma NewKeysStartNow(w: World, rows: Rows, seeds: seq<Seed>, freshId: nat -> string, now: Time, i: nat)
    requires Keyed(rows) && Prepare(w, rows, seeds, freshId, now).Ok? && i < |seeds|
    requires LookupOf(w, seeds[i]).Some? && LookupOf(w, seeds[i]).value !in rows
    ensures var after, k := Synced(rows, Prepare(w, rows, seeds, freshId, now).value, now), LookupOf(w, seeds[i]).value;
      k in after && after[k].id == freshId(i) && after[k].createdAt == now && after[k].lastUsedAt == None
  {
    hide ParseApiKey, ValidateApiKeyLabel, Prepare, Synced;
    PreparedFromSeed(w, rows, seeds, freshId, now, i);
    RecordStands(w, rows, seeds, freshId, now, i);
  }

  /** A key text: "ska", an underscore, a lookup id of 16 bytes, a dot, and a secret of 32 bytes. */
  lemma KeySpelled(w: World, lookupId: string, secret: string)
    requires lookupId != "" && secret != "" && '.' !in lookupId && '.' !in secret
    ensures ParseApiKey(w, "ska_" + lookupId + "." + secret) ==
      if w.decodedLength(lookupId) == Some(16) && w.decodedLength(secret) == Some(32) then Some(Key(lookupId, secret))
      else None
    ensures ParseApiKey(w, "ska_" + lookupId) == None
  {
    var text := "ska_" + lookupId + "." + secret;
    assert API_KEY_PREFIX + "_" == "ska_";
    BuiltKeySplits(text, Key(lookupId, secret));
    assert ("ska_" + lookupId)[4..] == lookupId;
    forall i | 0 <= i < |lookupId| ensures lookupId[i] != '.' {
      assert lookupId[i] in lookupId;
    }
  }
}
