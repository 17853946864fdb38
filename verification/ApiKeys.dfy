/** Reconciliation of the development API keys with the keys in the store. */
module ApiKeys {
  import opened Options
  import opened Text

  datatype Refusal =
    | DeclarationInvalid
    | DeclarationsNotUnique
    | LabelRequired
    | LabelTooLong
    | LabelControlCharacter
    | OwnerDoesNotExist
    | CollidesWithUserManagedKey
    | DifferentSecret

  datatype Source = User | Environment

  type Time = int

  datatype Record = Record(
    id: string,
    userId: string,
    lookupId: string,
    secretHash: string,
    keyLabel: string,
    expiresAt: Option<Time>,
    revokedAt: Option<Time>,
    lastUsedAt: Option<Time>,
    createdAt: Time,
    source: Source)

  /** The table, by its unique lookup id. */
  type Rows = map<string, Record>

  datatype Seed = Seed(rawKey: string, username: string, keyLabel: string, expiresAt: Option<Time>)

  /** What lies outside: how many bytes a base64 text decodes to, the keyed hash, and the user table. */
  datatype World = World(
    decodedLength: string -> Option<nat>,
    hash: (string, string) -> string,
    userIdOf: string -> Option<string>)

  // ----- the text of a key ---------------------------------------------------------------------------------

  const API_KEY_PREFIX := "ska"
  const API_KEY_LOOKUP_BYTES := 16
  const API_KEY_SECRET_BYTES := 32
  const API_KEY_LABEL_MAX_LENGTH := 120

  datatype Key = Key(lookupId: string, secret: string)

  function ParseApiKey(w: World, rawKey: string): Option<Key> {
    var start := API_KEY_PREFIX + "_";
    if !(start <= rawKey) then None
    else
      var value := rawKey[|start|..];
      var dot := IndexOf(value, '.');
      if dot == |value| then None
      else
        var lookupId, secret := value[..dot], value[dot + 1..];
        if lookupId == "" || secret == "" || '.' in secret then None
        else if
          && w.decodedLength(lookupId) == Some(API_KEY_LOOKUP_BYTES)
          && w.decodedLength(secret) == Some(API_KEY_SECRET_BYTES)
        then Some(Key(lookupId, secret)) else None
  }

  predicate Encodes(w: World, text: string, length: nat) {
    text != "" && '.' !in text && w.decodedLength(text) == Some(length)
  }

  /**
   * The accepted keys are exactly the texts built from an encoded lookup id and an encoded secret, which parsing
   * returns.
   */
  lemma ParsedExactlyIfBuilt(w: World, rawKey: string, key: Key)
    ensures ParseApiKey(w, rawKey) == Some(key) <==>
      && rawKey == API_KEY_PREFIX + "_" + key.lookupId + "." + key.secret
      && Encodes(w, key.lookupId, API_KEY_LOOKUP_BYTES) && Encodes(w, key.secret, API_KEY_SECRET_BYTES)
  {
    if rawKey == API_KEY_PREFIX + "_" + key.lookupId + "." + key.secret && '.' !in key.lookupId {
      BuiltKeySplits(rawKey, key);
    }
    if ParseApiKey(w, rawKey) == Some(key) {
      var start := API_KEY_PREFIX + "_";
      var value := rawKey[|start|..];
      var dot := IndexOf(value, '.');
      assert value == value[..dot] + "." + value[dot + 1..];
      assert rawKey == start + value;
    }
  }

  lemma BuiltKeySplits(rawKey: string, key: Key)
    requires rawKey == API_KEY_PREFIX + "_" + key.lookupId + "." + key.secret && '.' !in key.lookupId
    ensures API_KEY_PREFIX + "_" <= rawKey
    ensures var value := rawKey[4..];
      IndexOf(value, '.') == |key.lookupId| < |value|
      && value[..|key.lookupId|] == key.lookupId && value[|key.lookupId| + 1..] == key.secret
  {
    IndexAfter(key.lookupId, '.', key.secret);
    assert key.lookupId + ['.'] + key.secret == key.lookupId + "." + key.secret;
    assert rawKey[4..] == key.lookupId + "." + key.secret;
  }

  // ----- labels --------------------------------------------------------------------------------------------

  /** The limit counts bytes, where its message speaks of characters. */
  function ValidateApiKeyLabel(text: string): Result<string, Refusal> {
    var trimmed := Trim(text);
    if trimmed == "" then Err(LabelRequired)
    else if Utf8Length(trimmed) > API_KEY_LABEL_MAX_LENGTH then Err(LabelTooLong)
    else if exists c :: c in trimmed && IsControl(c) then Err(LabelControlCharacter)
    else Ok(trimmed)
  }

  lemma {:induction false} NoShorterInBytes(s: string)
    ensures |s| <= Utf8Length(s) <= 4 * |s|
    ensures (forall i :: 0 <= i < |s| ==> s[i] as int < 0x80) ==> Utf8Length(s) == |s|
    decreases |s|
  {
    if s != [] {
      NoShorterInBytes(s[1..]);
    }
  }

  /**
   * Accepted labels have at most 120 characters. The limit is as its message says, in characters, exactly unless the
   * trimmed label has no more than 120 of them in more than 120 bytes; for ASCII labels that never happens.
   */
  lemma LabelLimit(text: string)
    ensures var trimmed := Trim(text);
      && (ValidateApiKeyLabel(text).Ok? ==> 0 < |trimmed| <= 120)
      && (trimmed != "" && (forall c :: c in trimmed ==> !IsControl(c)) ==>
           ((ValidateApiKeyLabel(text).Ok? <==> |trimmed| <= 120) <==> !(|trimmed| <= 120 < Utf8Length(trimmed))))
      && ((forall i :: 0 <= i < |trimmed| ==> trimmed[i] as int < 0x80) ==> Utf8Length(trimmed) == |trimmed|)
  {
    NoShorterInBytes(Trim(text));
  }

  function Repeated(c: char, n: nat): string {
    seq(n, i => c)
  }

  lemma {:induction false} RepeatedLength(c: char, n: nat)
    requires 0x80 <= c as int < 0x800
    ensures Utf8Length(Repeated(c, n)) == 2 * n
    decreases n
  {
    if n > 0 {
      RepeatedLength(c, n - 1);
      assert Repeated(c, n)[1..] == Repeated(c, n - 1);
    }
  }

  /** A label of 61 characters that is refused as longer than 120: 61 times U+00E9. */
  lemma ShortLabelRefused()
    ensures |Repeated('\U{00E9}', 61)| == 61
    ensures ValidateApiKeyLabel(Repeated('\U{00E9}', 61)) == Err(LabelTooLong)
  {
    RepeatedLength('\U{00E9}', 61);
  }

  // ----- the store -----------------------------------------------------------------------------------------

  /** What the conditional upsert leaves behind, row by row. */
  predicate Upserts(before: Rows, record: Record, written: bool, after: Rows) {
    var k := record.lookupId;
    // only a row that is not the environment's turns the record down
    && (written <==> (k in before ==> before[k].source == Environment))
    && after.Keys == before.Keys + {k}
    && (forall l :: l in before && (l != k || !written) ==> after[l] == before[l])
    && (written ==>
          var row := after[k];
          && row.userId == record.userId && row.secretHash == record.secretHash && row.keyLabel == record.keyLabel
          && row.expiresAt == record.expiresAt && row.revokedAt.None? && row.source == Environment
          && if k in before then
               && row.id == before[k].id && row.lookupId == before[k].lookupId
               && row.createdAt == before[k].createdAt && row.lastUsedAt == before[k].lastUsedAt
             else
               && row.id == record.id && row.lookupId == k
               && row.createdAt == record.createdAt && row.lastUsedAt.None?)
  }

  /** The row is that of a key in use, with this id and owner. */
  predicate Live(row: Record, id: string, userId: string) {
    row.id == id && row.userId == userId && row.revokedAt.None?
  }

  /** What a revocation leaves behind, row by row: a time once set is never overwritten. */
  ghost predicate Revokes(before: Rows, id: string, userId: string, at: Time, changed: bool, after: Rows) {
    && (changed <==> exists k :: k in before && Live(before[k], id, userId))
    && after.Keys == before.Keys
    && (forall k :: k in before && !Live(before[k], id, userId) ==> after[k] == before[k])
    && (forall k :: k in before && Live(before[k], id, userId) ==> after[k] == before[k].(revokedAt := Some(at)))
  }

  function Retired(row: Record, at: Time): Record {
    if row.revokedAt.None? then row.(revokedAt := Some(at)) else row
  }

  /** Rows stand under their own lookup id, and ids are unique. */
  ghost predicate Keyed(rows: Rows) {
    && (forall k :: k in rows ==> rows[k].lookupId == k)
    && (forall k, l :: k in rows && l in rows && rows[k].id == rows[l].id ==> k == l)
  }

  class Store {
    var rows: Rows

    ghost predicate Valid()
      reads this
    {
      Keyed(rows)
    }

    /** The one row with that lookup id, or nothing when no row has it. */
    method GetApiKeyByLookupId(lookupId: string) returns (row: Option<Record>)
      requires Valid()
      ensures row.Some? ==> row.value.lookupId == lookupId && lookupId in rows && rows[lookupId] == row.value
      ensures row.None? ==> forall k :: k in rows ==> rows[k].lookupId != lookupId
    {
      if lookupId in rows {
        return Some(rows[lookupId]);
      }
      return None;
    }

    method ListEnvironmentApiKeys() returns (list: seq<Record>)
      ensures forall k :: k in rows && rows[k].source == Environment ==> rows[k] in list
      ensures forall r :: r in list ==> r.source == Environment && exists k :: k in rows && rows[k] == r
    {
      list := [];
      var keys := rows.Keys;
      while keys != {}
        invariant keys <= rows.Keys
        invariant forall k :: k in rows && rows[k].source == Environment ==> k in keys || rows[k] in list
        invariant forall r :: r in list ==> r.source == Environment && exists k :: k in rows && rows[k] == r
        decreases |keys|
      {
        var k :| k in keys;
        if rows[k].source == Environment {
          list := list + [rows[k]];
        }
        keys := keys - {k};
      }
    }

    method UpsertEnvironmentApiKey(record: Record) returns (written: bool)
      modifies this
      ensures Upserts(old(rows), record, written, rows)
    {
      var k := record.lookupId;
      if k !in rows {
        rows := rows[k := record.(revokedAt := None, lastUsedAt := None, source := Environment)];
        return true;
      }
      if rows[k].source != Environment {
        return false;
      }
      rows := rows[k := rows[k].(userId := record.userId, secretHash := record.secretHash, keyLabel := record.keyLabel,
                                 expiresAt := record.expiresAt, revokedAt := None, source := Environment)];
      return true;
    }

    method RevokeApiKey(id: string, userId: string, at: Time) returns (changed: bool)
      modifies this
      ensures Revokes(old(rows), id, userId, at, changed, rows)
    {
      var keys := rows.Keys;
      changed := false;
      while keys != {}
        invariant keys <= rows.Keys == old(rows).Keys
        invariant changed <==> exists k :: k in old(rows) && k !in keys && Live(old(rows)[k], id, userId)
        invariant forall k :: k in rows && (k in keys || !Live(old(rows)[k], id, userId)) ==> rows[k] == old(rows)[k]
        invariant forall k :: k in rows && k !in keys && Live(old(rows)[k], id, userId) ==>
          rows[k] == old(rows)[k].(revokedAt := Some(at))
        decreases |keys|
      {
        var k :| k in keys;
        if Live(rows[k], id, userId) {
          rows := rows[k := rows[k].(revokedAt := Some(at))];
          changed := true;
        }
        keys := keys - {k};
      }
    }
  }

  // ----- what a reconciliation prepares --------------------------------------------------------------------

  function Lookups(records: seq<Record>): set<string> {
    set r | r in records :: r.lookupId
  }

  /** The record for one seed, after `declared` lookup ids. */
  function PrepareOne(
      w: World, rows: Rows, declared: set<string>, seed: Seed, freshId: string, now: Time): Result<Record, Refusal> {
    var key := ParseApiKey(w, seed.rawKey);
    if key.None? then Err(DeclarationInvalid)
    else if key.value.lookupId in declared then Err(DeclarationsNotUnique)
    else
      var valid := ValidateApiKeyLabel(seed.keyLabel);
      if valid.Err? then Err(valid.error)
      else
        var user := w.userIdOf(seed.username);
        if user.None? then Err(OwnerDoesNotExist)
        else
          var k := key.value.lookupId;
          var hash := w.hash(k, key.value.secret);
          if k !in rows then
            Ok(Record(freshId, user.value, k, hash, valid.value, seed.expiresAt, None, None, now, Environment))
          else if rows[k].source != Environment then Err(CollidesWithUserManagedKey)
          else if rows[k].secretHash != hash then Err(DifferentSecret)
          else
            Ok(Record(rows[k].id, user.value, k, hash, valid.value, seed.expiresAt, None,
                      rows[k].lastUsedAt, rows[k].createdAt, Environment))
  }

  /** The records for all seeds, or the refusal of the first seed that is refused. */
  function Prepare(
      w: World, rows: Rows, seeds: seq<Seed>, freshId: nat -> string, now: Time): (r: Result<seq<Record>, Refusal>)
    ensures r.Ok? ==> |r.value| == |seeds|
  {
    if seeds == [] then Ok([])
    else
      var n := |seeds| - 1;
      var front := Prepare(w, rows, seeds[..n], freshId, now);
      if front.Err? then front
      else
        var record := PrepareOne(w, rows, Lookups(front.value), seeds[n], freshId(n), now);
        if record.Err? then Err(record.error) else Ok(front.value + [record.value])
  }

  function Upserted(rows: Rows, records: seq<Record>): Rows {
    if records == [] then rows
    else Upserted(rows, records[..|records| - 1])[records[|records| - 1].lookupId := records[|records| - 1]]
  }

  /**
   * The table after a successful reconciliation: the records, the other environment rows revoked, the rest as it
   * was.
   */
  function Synced(rows: Rows, records: seq<Record>, now: Time): Rows {
    var upserted := Upserted(rows, records);
    map k | k in upserted ::
      if k !in Lookups(records) && upserted[k].source == Environment then Retired(upserted[k], now) else upserted[k]
  }

  /** New ids are new. */
  ghost predicate Fresh(freshId: nat -> string, rows: Rows) {
    && (forall m, n :: freshId(m) == freshId(n) ==> m == n)
    && (forall n, k :: k in rows ==> rows[k].id != freshId(n))
  }

  /** A record that an upsert writes as it stands. */
  predicate Writable(rows: Rows, record: Record) {
    && record.source == Environment && record.revokedAt.None?
    && if record.lookupId in rows then
         var row := rows[record.lookupId];
         && row.source == Environment && row.id == record.id
         && row.lastUsedAt == record.lastUsedAt && row.createdAt == record.createdAt
       else record.lastUsedAt.None?
  }

  /** Records that can be written one after the other: distinct keys, and no two rows will share an id. */
  ghost predicate Prepared(rows: Rows, records: seq<Record>) {
    && (forall i :: 0 <= i < |records| ==> Writable(rows, records[i]))
    && (forall i, j :: 0 <= i < j < |records| ==>
          records[i].lookupId != records[j].lookupId && records[i].id != records[j].id)
    && (forall i, k :: 0 <= i < |records| && k in rows && rows[k].id == records[i].id ==> k == records[i].lookupId)
  }

  /** Record `i` is the one prepared for seed `i`, given the seeds before it. */
  lemma {:induction false} PreparedFromSeed(
      w: World, rows: Rows, seeds: seq<Seed>, freshId: nat -> string, now: Time, i: nat)
    requires Prepare(w, rows, seeds, freshId, now).Ok? && i < |seeds|
    ensures var records := Prepare(w, rows, seeds, freshId, now).value;
      PrepareOne(w, rows, Lookups(records[..i]), seeds[i], freshId(i), now) == Ok(records[i])
    decreases |seeds|
  {
    hide PrepareOne;
    var n := |seeds| - 1;
    var front := Prepare(w, rows, seeds[..n], freshId, now).value;
    var records := Prepare(w, rows, seeds, freshId, now).value;
    assert records[..n] == front;
    if i < n {
      PreparedFromSeed(w, rows, seeds[..n], freshId, now, i);
      assert records[..i] == front[..i];
    }
  }

  lemma OneRecordPerKey(w: World, rows: Rows, seeds: seq<Seed>, freshId: nat -> string, now: Time, i: nat, j: nat)
    requires Prepare(w, rows, seeds, freshId, now).Ok? && i < j < |seeds|
    ensures var records := Prepare(w, rows, seeds, freshId, now).value; records[i].lookupId != records[j].lookupId
  {
    hide ParseApiKey, ValidateApiKeyLabel, Prepare;
    var records := Prepare(w, rows, seeds, freshId, now).value;
    PreparedFromSeed(w, rows, seeds, freshId, now, j);
    assert records[i] in records[..j];
  }

  lemma PrepareIsPrepared(w: World, rows: Rows, seeds: seq<Seed>, freshId: nat -> string, now: Time)
    requires Keyed(rows) && Fresh(freshId, rows) && Prepare(w, rows, seeds, freshId, now).Ok?
    ensures Prepared(rows, Prepare(w, rows, seeds, freshId, now).value)
  {
    hide ParseApiKey, ValidateApiKeyLabel, Prepare;
    var records := Prepare(w, rows, seeds, freshId, now).value;
    forall i | 0 <= i < |records|
      ensures Writable(rows, records[i])
      ensures records[i].id == if records[i].lookupId in rows then rows[records[i].lookupId].id else freshId(i)
    {
      PreparedFromSeed(w, rows, seeds, freshId, now, i);
    }
    forall i, j | 0 <= i < j < |records| ensures records[i].lookupId != records[j].lookupId {
      OneRecordPerKey(w, rows, seeds, freshId, now, i, j);
    }
  }

  lemma {:induction false} UpsertedAt(rows: Rows, records: seq<Record>, k: string)
    ensures Upserted(rows, records).Keys == rows.Keys + Lookups(records)
    ensures k !in Lookups(records) && k in rows ==> Upserted(rows, records)[k] == rows[k]
    ensures k in Lookups(records) ==> Upserted(rows, records)[k] in records && Upserted(rows, records)[k].lookupId == k
    decreases |records|
  {
    if records != [] {
      var front, last := records[..|records| - 1], records[|records| - 1];
      UpsertedAt(rows, front, k);
      assert records == front + [last];
      assert Lookups(records) == Lookups(front) + {last.lookupId};
    }
  }

  /** Written one after the other, prepared records are all accepted and stand as they are. */
  /** The row that the next record meets is the one it was prepared from. */
  lemma NextUpsert(rows: Rows, records: seq<Record>, i: nat)
    requires Prepared(rows, records) && i < |records|
    ensures var before, k := Upserted(rows, records[..i]), records[i].lookupId;
      && (k in before <==> k in rows) && (k in rows ==> before[k] == rows[k])
      && Upserted(rows, records[..i + 1]) == before[k := records[i]]
      && Writable(rows, records[i])
  {
    assert records[..i + 1][..i] == records[..i];
    UpsertedAt(rows, records[..i], records[i].lookupId);
    forall r | r in records[..i] ensures r.lookupId != records[i].lookupId {
      var j :| 0 <= j < i && records[j] == r;
    }
  }

  lemma UpsertWritesRecord(rows: Rows, records: seq<Record>, i: nat, written: bool, after: Rows)
    requires Keyed(rows) && Prepared(rows, records) && i < |records|
    requires Upserts(Upserted(rows, records[..i]), records[i], written, after)
    ensures written && after == Upserted(rows, records[..i + 1])
  {
    NextUpsert(rows, records, i);
    assert records[i].lookupId in rows ==> rows[records[i].lookupId].lookupId == records[i].lookupId;
    hide Upserted, Prepared, Keyed;
    assert after[records[i].lookupId] == records[i];
    assert after == Upserted(rows, records[..i])[records[i].lookupId := records[i]];
  }

  lemma UpsertedIsKeyed(rows: Rows, records: seq<Record>)
    requires Keyed(rows) && Prepared(rows, records)
    ensures Keyed(Upserted(rows, records))
  {
    hide Upserted, Lookups;
    var u := Upserted(rows, records);
    forall k | k in u ensures u[k].lookupId == k {
      UpsertedAt(rows, records, k);
    }
    forall k, l | k in u && l in u && u[k].id == u[l].id ensures k == l {
      UpsertedAt(rows, records, k);
      UpsertedAt(rows, records, l);
    }
  }

  function PartlyRetired(rows: Rows, done: set<string>, at: Time): Rows {
    map k | k in rows :: if k in done then Retired(rows[k], at) else rows[k]
  }

  /** Ids are unique, so revoking by id touches one row. */
  lemma RevokeTouchesOne(rows: Rows, done: set<string>, row: Record, at: Time, changed: bool, after: Rows)
    requires Keyed(rows) && row.lookupId in rows && rows[row.lookupId] == row
    requires Revokes(PartlyRetired(rows, done, at), row.id, row.userId, at, changed, after)
    ensures after == PartlyRetired(rows, done + {row.lookupId}, at)
  {
    var before, wanted := PartlyRetired(rows, done, at), PartlyRetired(rows, done + {row.lookupId}, at);
    forall k | k in rows ensures after[k] == wanted[k] {
      hide Keyed, Retired, Live;
      OnlyRowWithId(rows, row, k);
      RevokedRow(rows[k], row, k in done, at);
    }
  }

  lemma OnlyRowWithId(rows: Rows, row: Record, k: string)
    requires Keyed(rows) && row.lookupId in rows && rows[row.lookupId] == row && k in rows
    ensures rows[k].id == row.id ==> k == row.lookupId && rows[k] == row
    ensures k == row.lookupId ==> rows[k] == row
  {
  }

  lemma RevokedRow(r: Record, row: Record, done: bool, at: Time)
    requires r.id == row.id ==> r == row
    ensures var before := if done then Retired(r, at) else r;
      (if Live(before, row.id, row.userId) then before.(revokedAt := Some(at)) else before)
      == if done || r == row then Retired(r, at) else r
  {
  }

  /** One turn of the loop over the seeds. */
  method PrepareSeed(w: World, store: Store, declared: set<string>, seed: Seed, freshId: string, now: Time)
    returns (record: Result<Record, Refusal>)
    requires store.Valid()
    ensures record == PrepareOne(w, store.rows, declared, seed, freshId, now)
  {
    hide ParseApiKey, ValidateApiKeyLabel;
    var key := ParseApiKey(w, seed.rawKey);
    if key.None? {
      return Err(DeclarationInvalid);
    }
    var lookupId := key.value.lookupId;
    if lookupId in declared {
      return Err(DeclarationsNotUnique);
    }
    var valid := ValidateApiKeyLabel(seed.keyLabel);
    if valid.Err? {
      return Err(valid.error);
    }
    var user := w.userIdOf(seed.username);
    if user.None? {
      return Err(OwnerDoesNotExist);
    }
    var hash := w.hash(lookupId, key.value.secret);
    var stored := store.GetApiKeyByLookupId(lookupId);
    if stored.None? {
      return Ok(Record(freshId, user.value, lookupId, hash, valid.value, seed.expiresAt, None, None, now, Environment));
    }
    var existing := stored.value;
    if existing.source != Environment {
      return Err(CollidesWithUserManagedKey);
    }
    if existing.secretHash != hash {
      return Err(DifferentSecret);
    }
    return Ok(Record(existing.id, user.value, lookupId, hash, valid.value, seed.expiresAt, None,
                     existing.lastUsedAt, existing.createdAt, Environment));
  }

  /** The loop over the seeds, which reads the store and does not change it. */
  method PrepareRecords(w: World, store: Store, seeds: seq<Seed>, freshId: nat -> string, now: Time)
    returns (result: Result<seq<Record>, Refusal>, declared: set<string>)
    requires store.Valid()
    ensures result == Prepare(w, store.rows, seeds, freshId, now)
    ensures result.Ok? ==> declared == Lookups(result.value)
  {
    hide PrepareOne, Keyed;
    declared := {};
    var records: seq<Record> := [];
    for i := 0 to |seeds|
      invariant Prepare(w, store.rows, seeds[..i], freshId, now) == Ok(records)
      invariant declared == Lookups(records)
    {
      assert seeds[..i + 1][..i] == seeds[..i];
      var record := PrepareSeed(w, store, declared, seeds[i], freshId(i), now);
      if record.Err? {
        RefusalStays(w, store.rows, seeds, freshId, now, i + 1);
        return Err(record.error), declared;
      }
      assert Lookups(records + [record.value]) == Lookups(records) + {record.value.lookupId};
      declared := declared + {record.value.lookupId};
      records := records + [record.value];
    }
    assert seeds[..|seeds|] == seeds;
    result := Ok(records);
  }

  method SyncDevelopmentApiKeys(w: World, store: Store, seeds: seq<Seed>, freshId: nat -> string, now: Time)
    returns (result: Result<(), Refusal>)
    requires store.Valid() && Fresh(freshId, store.rows)
    modifies store
    ensures store.Valid()
    ensures var p := Prepare(w, old(store.rows), seeds, freshId, now);
      if p.Err? then result == Err(p.error) && store.rows == old(store.rows)
      else result.Ok? && store.rows == Synced(old(store.rows), p.value, now)
  {
    hide PrepareOne, Upserts, Revokes, Retired, Synced, PartlyRetired, Writable, Upserted, Keyed, Fresh;
    ghost var rows := store.rows;
    var prepared, declared := PrepareRecords(w, store, seeds, freshId, now);
    if prepared.Err? {
      return Err(prepared.error);
    }
    var records := prepared.value;
    PrepareIsPrepared(w, rows, seeds, freshId, now);

    var existing := store.ListEnvironmentApiKeys();
    assert records[..0] == [];
    NothingUpserted(rows);
    for i := 0 to |records|
      invariant store.rows == Upserted(rows, records[..i])
    {
      // with no other writer the store never turns a prepared record down
      var written := store.UpsertEnvironmentApiKey(records[i]);
      UpsertWritesRecord(rows, records, i, written, store.rows);
    }
    assert records[..|records|] == records;
    ghost var upserted := store.rows;
    UpsertedIsKeyed(rows, records);

    ghost var done: set<string> := {};
    NothingRetired(upserted, now);
    for i := 0 to |existing|
      invariant store.rows == PartlyRetired(upserted, done, now)
      invariant done == Undeclared(existing[..i], declared)
    {
      var row := existing[i];
      UndeclaredOneMore(existing, declared, i);
      if row.lookupId !in declared {
        ListedRowStands(rows, records, row);
        var changed := store.RevokeApiKey(row.id, row.userId, now);
        RevokeTouchesOne(upserted, done, row, now, changed, store.rows);
        done := done + {row.lookupId};
      }
    }
    assert existing[..|existing|] == existing;
    AllRetired(rows, records, existing, now);
    SyncedIsKeyed(rows, records, now);
    result := Ok(());
  }

  function Undeclared(existing: seq<Record>, declared: set<string>): set<string> {
    Lookups(existing) - declared
  }

  lemma UndeclaredOneMore(existing: seq<Record>, declared: set<string>, i: nat)
    requires i < |existing|
    ensures Undeclared(existing[..i + 1], declared) ==
      Undeclared(existing[..i], declared) + if existing[i].lookupId in declared then {} else {existing[i].lookupId}
  {
    assert existing[..i + 1] == existing[..i] + [existing[i]];
    assert Lookups(existing[..i + 1]) == Lookups(existing[..i]) + {existing[i].lookupId};
  }

  lemma NothingUpserted(rows: Rows)
    ensures Upserted(rows, []) == rows
  {
  }

  lemma NothingRetired(rows: Rows, at: Time)
    ensures PartlyRetired(rows, {}, at) == rows
  {
  }

  lemma {:induction false} RefusalStays(
      w: World, rows: Rows, seeds: seq<Seed>, freshId: nat -> string, now: Time, n: nat)
    requires n <= |seeds| && Prepare(w, rows, seeds[..n], freshId, now).Err?
    ensures Prepare(w, rows, seeds, freshId, now) == Prepare(w, rows, seeds[..n], freshId, now)
    decreases |seeds|
  {
    hide PrepareOne;
    if n == |seeds| {
      assert seeds[..n] == seeds;
    } else {
      assert seeds[..|seeds| - 1][..n] == seeds[..n];
      RefusalStays(w, rows, seeds[..|seeds| - 1], freshId, now, n);
    }
  }

  /** The list lists the environment rows. */
  ghost predicate Lists(rows: Rows, existing: seq<Record>) {
    && (forall k :: k in rows && rows[k].source == Environment ==> rows[k] in existing)
    && (forall r :: r in existing ==> r.source == Environment && exists k :: k in rows && rows[k] == r)
  }

  lemma ListedRowStands(rows: Rows, records: seq<Record>, row: Record)
    requires Keyed(rows) && row.lookupId !in Lookups(records) && exists k :: k in rows && rows[k] == row
    ensures row.lookupId in Upserted(rows, records) && Upserted(rows, records)[row.lookupId] == row
  {
    UpsertedAt(rows, records, row.lookupId);
  }

  lemma AllRetired(rows: Rows, records: seq<Record>, existing: seq<Record>, now: Time)
    requires Keyed(rows) && Lists(rows, existing)
    ensures PartlyRetired(Upserted(rows, records), Undeclared(existing, Lookups(records)), now)
         == Synced(rows, records, now)
  {
    hide Upserted, Retired;
    var u := Upserted(rows, records);
    var done := Undeclared(existing, Lookups(records));
    forall k | k in u && k !in Lookups(records) ensures k in done <==> u[k].source == Environment {
      UpsertedAt(rows, records, k);
      if rows[k].source == Environment {
        assert rows[k] in existing;
      }
      if k in done {
        var r :| r in existing && r.lookupId == k;
      }
    }
  }

  lemma SyncedIsKeyed(rows: Rows, records: seq<Record>, now: Time)
    requires Keyed(Upserted(rows, records))
    ensures Keyed(Synced(rows, records, now))
  {
    hide Upserted;
  }

  // ----- what a reconciliation achieves --------------------------------------------------------------------

  /** The seed on its own gives no reason to refuse it. */
  predicate Acceptable(w: World, rows: Rows, seed: Seed) {
    var key := ParseApiKey(w, seed.rawKey);
    && key.Some? && ValidateApiKeyLabel(seed.keyLabel).Ok? && w.userIdOf(seed.username).Some?
    && (key.value.lookupId in rows ==>
          var row := rows[key.value.lookupId];
          row.source == Environment && row.secretHash == w.hash(key.value.lookupId, key.value.secret))
  }

  function LookupOf(w: World, seed: Seed): Option<string> {
    var key := ParseApiKey(w, seed.rawKey);
    if key.Some? then Some(key.value.lookupId) else None
  }

  predicate DistinctLookups(w: World, seeds: seq<Seed>) {
    forall i, j :: 0 <= i < j < |seeds| && LookupOf(w, seeds[i]).Some? ==> LookupOf(w, seeds[i]) != LookupOf(w, seeds[j])
  }

  predicate AllAcceptable(w: World, rows: Rows, seeds: seq<Seed>) {
    forall i :: 0 <= i < |seeds| ==> Acceptable(w, rows, seeds[i])
  }

  lemma LookupsOfPrepared(w: World, rows: Rows, seeds: seq<Seed>, freshId: nat -> string, now: Time, k: string)
    requires Prepare(w, rows, seeds, freshId, now).Ok?
    ensures k in Lookups(Prepare(w, rows, seeds, freshId, now).value) <==>
      exists i :: 0 <= i < |seeds| && LookupOf(w, seeds[i]) == Some(k)
  {
    hide ParseApiKey, ValidateApiKeyLabel, Prepare;
    var records := Prepare(w, rows, seeds, freshId, now).value;
    forall i | 0 <= i < |seeds| ensures LookupOf(w, seeds[i]) == Some(records[i].lookupId) {
      PreparedFromSeed(w, rows, seeds, freshId, now, i);
    }
    if k in Lookups(records) {
      var r :| r in records && r.lookupId == k;
      var i :| 0 <= i < |records| && records[i] == r;
      assert LookupOf(w, seeds[i]) == Some(k);
    }
    if i :| 0 <= i < |seeds| && LookupOf(w, seeds[i]) == Some(k) {
      assert records[i] in records;
    }
  }

  /** The seeds are taken exactly when each is acceptable on its own and their lookup ids are distinct. */
  lemma {:induction false} TakenExactlyWhen(w: World, rows: Rows, seeds: seq<Seed>, freshId: nat -> string, now: Time)
    ensures Prepare(w, rows, seeds, freshId, now).Ok? <==> AllAcceptable(w, rows, seeds) && DistinctLookups(w, seeds)
    decreases |seeds|
  {
    hide ParseApiKey, ValidateApiKeyLabel;
    if seeds != [] {
      var n := |seeds| - 1;
      var front := seeds[..n];
      TakenExactlyWhen(w, rows, front, freshId, now);
      assert forall i :: 0 <= i < n ==> front[i] == seeds[i];
      if Prepare(w, rows, front, freshId, now).Ok? {
        if LookupOf(w, seeds[n]).Some? {
          LookupsOfPrepared(w, rows, front, freshId, now, LookupOf(w, seeds[n]).value);
        }
      } else if AllAcceptable(w, rows, seeds) {
        assert AllAcceptable(w, rows, front);
        assert !DistinctLookups(w, front);
      }
    }
  }

  /** The row is active, with what the seed declares. */
  predicate DeclaredBy(w: World, seed: Seed, row: Record) {
    && row.source == Environment && row.revokedAt.None?
    && ParseApiKey(w, seed.rawKey).Some?
    && row.lookupId == ParseApiKey(w, seed.rawKey).value.lookupId
    && row.secretHash == w.hash(row.lookupId, ParseApiKey(w, seed.rawKey).value.secret)
    && w.userIdOf(seed.username) == Some(row.userId)
    && ValidateApiKeyLabel(seed.keyLabel) == Ok(row.keyLabel)
    && row.expiresAt == seed.expiresAt
  }

  /** Same key: everything that a reconciliation never changes in an environment row. */
  predicate SameKey(a: Record, b: Record) {
    && a.id == b.id && a.lookupId == b.lookupId && a.secretHash == b.secretHash
    && a.createdAt == b.createdAt && a.lastUsedAt == b.lastUsedAt && a.source == b.source
  }

  lemma SyncedAt(w: World, rows: Rows, seeds: seq<Seed>, freshId: nat -> string, now: Time, k: string)
    requires Keyed(rows) && Prepare(w, rows, seeds, freshId, now).Ok?
    ensures var records := Prepare(w, rows, seeds, freshId, now).value;
      var after := Synced(rows, records, now);
      && after.Keys == rows.Keys + Lookups(records)
      && (k in Lookups(records) ==> exists i :: 0 <= i < |seeds| && after[k] == records[i] && records[i].lookupId == k)
      && (k in rows && k !in Lookups(records) ==>
            after[k] == if rows[k].source == Environment then Retired(rows[k], now) else rows[k])
  {
    hide Prepare, Retired, Upserted;
    UpsertedAt(rows, Prepare(w, rows, seeds, freshId, now).value, k);
  }

  lemma RecordStands(w: World, rows: Rows, seeds: seq<Seed>, freshId: nat -> string, now: Time, i: nat)
    requires Keyed(rows) && Prepare(w, rows, seeds, freshId, now).Ok? && i < |seeds|
    ensures var records := Prepare(w, rows, seeds, freshId, now).value;
      var after := Synced(rows, records, now);
      records[i].lookupId in after && after[records[i].lookupId] == records[i]
  {
    hide ParseApiKey, ValidateApiKeyLabel, Prepare, Synced;
    var records := Prepare(w, rows, seeds, freshId, now).value;
    var k := records[i].lookupId;
    assert records[i] in records;
    SyncedAt(w, rows, seeds, freshId, now, k);
    var j :| 0 <= j < |seeds| && Synced(rows, records, now)[k] == records[j] && records[j].lookupId == k;
    if i < j {
      OneRecordPerKey(w, rows, seeds, freshId, now, i, j);
    } else if j < i {
      OneRecordPerKey(w, rows, seeds, freshId, now, j, i);
    }
  }

  /** Every declared key is active afterwards, exactly as its seed declares it. */
  lemma DeclaredKeysAreActive(w: World, rows: Rows, seeds: seq<Seed>, freshId: nat -> string, now: Time, i: nat)
    requires Keyed(rows) && Prepare(w, rows, seeds, freshId, now).Ok? && i < |seeds|
    ensures var after := Synced(rows, Prepare(w, rows, seeds, freshId, now).value, now);
      && LookupOf(w, seeds[i]).Some? && LookupOf(w, seeds[i]).value in after
      && DeclaredBy(w, seeds[i], after[LookupOf(w, seeds[i]).value])
  {
    hide ParseApiKey, ValidateApiKeyLabel, Prepare, Synced;
    var records := Prepare(w, rows, seeds, freshId, now).value;
    PreparedFromSeed(w, rows, seeds, freshId, now, i);
    RecordStands(w, rows, seeds, freshId, now, i);
  }

  /**
   * What is not declared: an environment key is revoked, keeping the time of an earlier revocation; a
   * user-managed key, declared or not, is not touched; and no key disappears.
   */
  lemma UndeclaredKeysAreRevoked(w: World, rows: Rows, seeds: seq<Seed>, freshId: nat -> string, now: Time, k: string)
    requires Keyed(rows) && Prepare(w, rows, seeds, freshId, now).Ok? && k in rows
    ensures var after := Synced(rows, Prepare(w, rows, seeds, freshId, now).value, now);
      && k in after
      && (rows[k].source == User ==> after[k] == rows[k])
      && (rows[k].source == Environment && (forall i :: 0 <= i < |seeds| ==> LookupOf(w, seeds[i]) != Some(k)) ==>
            after[k] == rows[k].(revokedAt := if rows[k].revokedAt.Some? then rows[k].revokedAt else Some(now)))
  {
    hide ParseApiKey, ValidateApiKeyLabel, Prepare, Synced;
    LookupsOfPrepared(w, rows, seeds, freshId, now, k);
    SyncedAt(w, rows, seeds, freshId, now, k);
    var records := Prepare(w, rows, seeds, freshId, now).value;
    if k in Lookups(records) {
      var i :| 0 <= i < |seeds| && Synced(rows, records, now)[k] == records[i] && records[i].lookupId == k;
      PreparedFromSeed(w, rows, seeds, freshId, now, i);
    }
  }

  lemma EnvironmentKeyStaysItself(w: World, rows: Rows, seeds: seq<Seed>, freshId: nat -> string, now: Time, k: string)
    requires Keyed(rows) && Prepare(w, rows, seeds, freshId, now).Ok? && k in rows && rows[k].source == Environment
    ensures var after := Synced(rows, Prepare(w, rows, seeds, freshId, now).value, now);
      k in after && SameKey(rows[k], after[k])
  {
    hide ParseApiKey, ValidateApiKeyLabel, Prepare, Synced;
    LookupsOfPrepared(w, rows, seeds, freshId, now, k);
    SyncedAt(w, rows, seeds, freshId, now, k);
    var records := Prepare(w, rows, seeds, freshId, now).value;
    if k in Lookups(records) {
      var i :| 0 <= i < |seeds| && Synced(rows, records, now)[k] == records[i] && records[i].lookupId == k;
      PreparedFromSeed(w, rows, seeds, freshId, now, i);
    }
  }

  lemma {:induction false} PreparedAgain(
    w: World, rows: Rows, after: Rows, seeds: seq<Seed>,
    freshId: nat -> string, now: Time, otherId: nat -> string, later: Time)
    requires Prepare(w, rows, seeds, freshId, now).Ok?
    requires forall i :: 0 <= i < |seeds| ==>
      var r := Prepare(w, rows, seeds, freshId, now).value[i]; r.lookupId in after && after[r.lookupId] == r
    ensures Prepare(w, after, seeds, otherId, later) == Prepare(w, rows, seeds, freshId, now)
    decreases |seeds|
  {
    hide ParseApiKey, ValidateApiKeyLabel;
    if seeds != [] {
      var n := |seeds| - 1;
      var records := Prepare(w, rows, seeds, freshId, now).value;
      var front := Prepare(w, rows, seeds[..n], freshId, now).value;
      assert records[..n] == front;
      assert forall i :: 0 <= i < n ==> front[i] == records[i];
      PreparedAgain(w, rows, after, seeds[..n], freshId, now, otherId, later);
      assert after[records[n].lookupId] == records[n];
    }
  }

  /** Running the same seeds again is accepted and changes nothing: ids, creation times and revocation times stay. */
  lemma SyncIsIdempotent(
    w: World, rows: Rows, seeds: seq<Seed>, freshId: nat -> string, now: Time, otherId: nat -> string, later: Time)
    requires Keyed(rows) && Prepare(w, rows, seeds, freshId, now).Ok?
    ensures var after := Synced(rows, Prepare(w, rows, seeds, freshId, now).value, now);
      var again := Prepare(w, after, seeds, otherId, later);
      again.Ok? && Synced(after, again.value, later) == after
  {
    hide ParseApiKey, ValidateApiKeyLabel, Prepare, PrepareOne, Synced, Upserted, Lookups;
    var records := Prepare(w, rows, seeds, freshId, now).value;
    var after := Synced(rows, records, now);
    forall i | 0 <= i < |seeds| ensures records[i].lookupId in after && after[records[i].lookupId] == records[i] {
      RecordStands(w, rows, seeds, freshId, now, i);
    }
    PreparedAgain(w, rows, after, seeds, freshId, now, otherId, later);
    SyncedTwice(rows, records, now, later);
  }

  lemma SyncedTwice(rows: Rows, records: seq<Record>, now: Time, later: Time)
    requires forall i :: 0 <= i < |records| ==>
      var after := Synced(rows, records, now); records[i].lookupId in after && after[records[i].lookupId] == records[i]
    ensures Synced(Synced(rows, records, now), records, later) == Synced(rows, records, now)
  {
    hide Upserted;
    var after := Synced(rows, records, now);
    var u := Upserted(after, records);
    UpsertedAt(rows, records, "");
    UpsertedAt(after, records, "");
    forall k | k in after
      ensures u[k] == after[k]
      ensures k !in Lookups(records) && after[k].source == Environment ==> after[k].revokedAt.Some?
    {
      UpsertedAt(after, records, k);
      if k in Lookups(records) {
        var i :| 0 <= i < |records| && records[i] == u[k];
      }
    }
  }

  // ----- any number of reconciliations ---------------------------------------------------------------------

  datatype Call = Call(seeds: seq<Seed>, freshId: nat -> string, now: Time)

  function AfterSync(w: World, rows: Rows, call: Call): Rows {
    var p := Prepare(w, rows, call.seeds, call.freshId, call.now);
    if p.Ok? then Synced(rows, p.value, call.now) else rows
  }

  function Run(w: World, rows: Rows, calls: seq<Call>): Rows
    decreases |calls|
  {
    if calls == [] then rows else AfterSync(w, Run(w, rows, calls[..|calls| - 1]), calls[|calls| - 1])
  }

  /** Each call hands out ids that are new when it is made. */
  ghost predicate IdsAreFresh(w: World, rows: Rows, calls: seq<Call>)
    decreases |calls|
  {
    calls == [] ||
    (IdsAreFresh(w, rows, calls[..|calls| - 1])
     && Fresh(calls[|calls| - 1].freshId, Run(w, rows, calls[..|calls| - 1])))
  }

  /**
   * Over any sequence of reconciliations with any seeds, accepted or refused: ids stay unique, a user-managed
   * key is never changed, and an environment key keeps its id, secret, creation and last use, also when it is
   * dropped and declared again.
   */
  lemma {:induction false} KeysStayThemselves(w: World, rows: Rows, calls: seq<Call>, k: string)
    requires Keyed(rows) && IdsAreFresh(w, rows, calls)
    ensures Keyed(Run(w, rows, calls))
    ensures k in rows ==>
      (k in Run(w, rows, calls)
       && if rows[k].source == User then Run(w, rows, calls)[k] == rows[k] else SameKey(rows[k], Run(w, rows, calls)[k]))
    decreases |calls|
  {
    hide ParseApiKey, ValidateApiKeyLabel, Prepare, PrepareOne, Synced, Keyed, Fresh;
    if calls != [] {
      var front, call := calls[..|calls| - 1], calls[|calls| - 1];
      KeysStayThemselves(w, rows, front, k);
      var before := Run(w, rows, front);
      if Prepare(w, before, call.seeds, call.freshId, call.now).Ok? {
        var records := Prepare(w, before, call.seeds, call.freshId, call.now).value;
        PrepareIsPrepared(w, before, call.seeds, call.freshId, call.now);
        UpsertedIsKeyed(before, records);
        SyncedIsKeyed(before, records, call.now);
        if k in rows {
          if rows[k].source == User {
            UndeclaredKeysAreRevoked(w, before, call.seeds, call.freshId, call.now, k);
          } else {
            EnvironmentKeyStaysItself(w, before, call.seeds, call.freshId, call.now, k);
          }
        }
      }
    }
  }
}
