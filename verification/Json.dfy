/** Canonical JSON: objects sorted by key at every depth, as a complete normal form. */
module Json {

  /** A parsed value. An object keeps its members in the order in which they were inserted. */
  datatype Json =
    | Null
    | Bool(value: bool)
    | Number(literal: string)
    | String(text: string)
    | Array(items: seq<Json>)
    | Object(members: seq<Member>)

  datatype Member = Member(key: string, value: Json)

  // ----- what a value means: an object is an unordered collection (section 4 of RFC 8259) ---------------

  datatype Meaning =
    | Scalar(value: Json)
    | List(items: seq<Meaning>)
    | Mapping(members: map<string, Meaning>)

  function Denote(value: Json): Meaning {
    match value
    case Array(items) => List(DenoteItems(items))
    case Object(members) => Mapping(DenoteMembers(members))
    case _ => Scalar(value)
  }

  function DenoteItems(items: seq<Json>): (meanings: seq<Meaning>)
    ensures |meanings| == |items|
  {
    if items == [] then [] else DenoteItems(items[..|items| - 1]) + [Denote(items[|items| - 1])]
  }

  /** A later member replaces an earlier one with the same key. */
  function DenoteMembers(members: seq<Member>): map<string, Meaning> {
    if members == [] then map[]
    else
      var last := members[|members| - 1];
      DenoteMembers(members[..|members| - 1])[last.key := Denote(last.value)]
  }

  // ----- key order -----------------------------------------------------------------------------------------

  /** Lexicographic order of the code points, which is that of their UTF-8 bytes. */
  predicate Below(a: string, b: string)
    decreases |a|
  {
    b != [] && (a == [] || a[0] < b[0] || (a[0] == b[0] && Below(a[1..], b[1..])))
  }

  lemma {:induction false} BelowIsTotal(a: string, b: string)
    ensures a != b ==> Below(a, b) || Below(b, a)
    ensures Below(a, b) ==> a != b && !Below(b, a)
    decreases |a|
  {
    if a != [] && b != [] && a[0] == b[0] {
      BelowIsTotal(a[1..], b[1..]);
      assert a == [a[0]] + a[1..] && b == [b[0]] + b[1..];
    }
  }

  lemma {:induction false} BelowIsTransitive(a: string, b: string, c: string)
    requires Below(a, b) && Below(b, c)
    ensures Below(a, c)
    decreases |a|
  {
    if a != [] && a[0] == b[0] == c[0] {
      BelowIsTransitive(a[1..], b[1..], c[1..]);
    }
  }

  /** Every key is below the next one. */
  predicate Ascending(members: seq<Member>)
    decreases |members|
  {
    |members| < 2 ||
    (Below(members[|members| - 2].key, members[|members| - 1].key) && Ascending(members[..|members| - 1]))
  }

  // ----- the two maps --------------------------------------------------------------------------------------

  /** Insertion into a map that is kept in key order. */
  function Insert(ordered: seq<Member>, member: Member): seq<Member>
    decreases |ordered|
  {
    if ordered == [] then [member]
    else
      var last := ordered[|ordered| - 1];
      var front := ordered[..|ordered| - 1];
      if Below(last.key, member.key) then ordered + [member]
      else if last.key == member.key then front + [member]
      else Insert(front, member) + [last]
  }

  /** Insertion into a map that keeps insertion order: a known key keeps its place. */
  function Put(members: seq<Member>, member: Member): seq<Member>
    decreases |members|
  {
    if members == [] then [member]
    else if members[0].key == member.key then [member] + members[1..]
    else [members[0]] + Put(members[1..], member)
  }

  // ----- the transformation --------------------------------------------------------------------------------

  function Canon(value: Json): Json {
    match value
    case Array(items) => Array(CanonItems(items))
    case Object(members) => Object(CanonMembers(members))
    case _ => value
  }

  function CanonItems(items: seq<Json>): (canon: seq<Json>)
    ensures |canon| == |items|
  {
    if items == [] then [] else CanonItems(items[..|items| - 1]) + [Canon(items[|items| - 1])]
  }

  function CanonMembers(members: seq<Member>): seq<Member> {
    if members == [] then []
    else
      var last := members[|members| - 1];
      Insert(CanonMembers(members[..|members| - 1]), Member(last.key, Canon(last.value)))
  }

  /** The transformation as written: a sorted map is filled, then emptied into a map that keeps insertion order. */
  method CanonicalizeJsonValue(value: Json) returns (canonical: Json)
    ensures canonical == Canon(value)
    decreases value
  {
    match value
    case Array(values) =>
      var items := [];
      for i := 0 to |values|
        invariant items == CanonItems(values[..i])
      {
        assert values[..i + 1][..i] == values[..i];
        var item := CanonicalizeJsonValue(values[i]);
        items := items + [item];
      }
      assert values[..|values|] == values;
      canonical := Array(items);
    case Object(members) =>
      var ordered := [];
      for i := 0 to |members|
        invariant ordered == CanonMembers(members[..i])
      {
        assert members[..i + 1][..i] == members[..i];
        var item := CanonicalizeJsonValue(members[i].value);
        ordered := Insert(ordered, Member(members[i].key, item));
      }
      assert members[..|members|] == members;
      CanonMembersAscend(members);
      var target := [];
      for i := 0 to |ordered|
        invariant target == ordered[..i]
      {
        PutInOrder(ordered, i);
        target := Put(target, ordered[i]);
      }
      assert ordered[..|ordered|] == ordered;
      canonical := Object(target);
    case _ => canonical := value;
  }

  // ----- the result is sorted ------------------------------------------------------------------------------

  lemma {:induction false} InsertAscends(ordered: seq<Member>, member: Member)
    requires Ascending(ordered)
    ensures var r := Insert(ordered, member);
      Ascending(r) && r != [] &&
      r[|r| - 1].key == if ordered != [] && !Below(ordered[|ordered| - 1].key, member.key)
                        then ordered[|ordered| - 1].key else member.key
    decreases |ordered|
  {
    if ordered != [] {
      var last := ordered[|ordered| - 1];
      var front := ordered[..|ordered| - 1];
      BelowIsTotal(last.key, member.key);
      if Below(member.key, last.key) {
        InsertAscends(front, member);
        var r := Insert(front, member);
        assert (r + [last])[..|r|] == r;
      } else if last.key == member.key {
        assert (front + [member])[..|front|] == front;
      } else {
        assert (ordered + [member])[..|ordered|] == ordered;
      }
    }
  }

  lemma {:induction false} CanonMembersAscend(members: seq<Member>)
    ensures Ascending(CanonMembers(members))
    decreases |members|
  {
    if members != [] {
      var last := members[|members| - 1];
      CanonMembersAscend(members[..|members| - 1]);
      InsertAscends(CanonMembers(members[..|members| - 1]), Member(last.key, Canon(last.value)));
    }
  }

  /** The last key of an ascending sequence is above all others. */
  lemma {:induction false} LastIsGreatest(members: seq<Member>, i: nat)
    requires Ascending(members) && i < |members| - 1
    ensures Below(members[i].key, members[|members| - 1].key)
    decreases |members|
  {
    var front := members[..|members| - 1];
    if i < |front| - 1 {
      LastIsGreatest(front, i);
      BelowIsTransitive(members[i].key, front[|front| - 1].key, members[|members| - 1].key);
    }
  }

  lemma {:induction false} AscendingPrefix(members: seq<Member>, n: nat)
    requires Ascending(members) && n <= |members|
    ensures Ascending(members[..n])
    decreases |members|
  {
    if n < |members| {
      AscendingPrefix(members[..|members| - 1], n);
      assert members[..|members| - 1][..n] == members[..n];
    } else {
      assert members[..n] == members;
    }
  }

  lemma {:induction false} PutUnknown(members: seq<Member>, member: Member)
    requires forall i :: 0 <= i < |members| ==> members[i].key != member.key
    ensures Put(members, member) == members + [member]
    decreases |members|
  {
    if members != [] {
      PutUnknown(members[1..], member);
      assert [members[0]] + (members[1..] + [member]) == members + [member];
    }
  }

  lemma PutInOrder(ordered: seq<Member>, i: nat)
    requires Ascending(ordered) && i < |ordered|
    ensures Put(ordered[..i], ordered[i]) == ordered[..i + 1]
  {
    AscendingPrefix(ordered, i + 1);
    forall j | 0 <= j < i ensures ordered[..i][j].key != ordered[i].key {
      LastIsGreatest(ordered[..i + 1], j);
      BelowIsTotal(ordered[j].key, ordered[i].key);
    }
    PutUnknown(ordered[..i], ordered[i]);
  }

  // ----- the result means the same -------------------------------------------------------------------------

  lemma {:induction false} InsertDenotes(ordered: seq<Member>, member: Member)
    ensures DenoteMembers(Insert(ordered, member)) == DenoteMembers(ordered)[member.key := Denote(member.value)]
    decreases |ordered|
  {
    if ordered != [] {
      var last := ordered[|ordered| - 1];
      var front := ordered[..|ordered| - 1];
      if Below(last.key, member.key) {
        assert (ordered + [member])[..|ordered|] == ordered;
      } else if last.key == member.key {
        assert (front + [member])[..|front|] == front;
      } else {
        InsertDenotes(front, member);
        var r := Insert(front, member);
        assert (r + [last])[..|r|] == r;
      }
    }
  }

  /** Canonical form and input have the same meaning. */
  lemma {:induction false} CanonKeepsMeaning(value: Json)
    ensures Denote(Canon(value)) == Denote(value)
    decreases value
  {
    match value
    case Array(items) => CanonItemsKeepMeaning(items);
    case Object(members) => CanonMembersKeepMeaning(members);
    case _ =>
  }

  lemma {:induction false} CanonItemsKeepMeaning(items: seq<Json>)
    ensures DenoteItems(CanonItems(items)) == DenoteItems(items)
    decreases items
  {
    if items != [] {
      var front := items[..|items| - 1];
      CanonItemsKeepMeaning(front);
      CanonKeepsMeaning(items[|items| - 1]);
      assert CanonItems(items)[..|front|] == CanonItems(front);
    }
  }

  lemma {:induction false} CanonMembersKeepMeaning(members: seq<Member>)
    ensures DenoteMembers(CanonMembers(members)) == DenoteMembers(members)
    decreases members
  {
    if members != [] {
      var last := members[|members| - 1];
      var front := members[..|members| - 1];
      CanonMembersKeepMeaning(front);
      CanonKeepsMeaning(last.value);
      InsertDenotes(CanonMembers(front), Member(last.key, Canon(last.value)));
    }
  }

  // ----- sorted values with one meaning are equal ----------------------------------------------------------

  /** Every object in the value, at any depth, has its keys in ascending order. */
  predicate Canonical(value: Json) {
    match value
    case Array(items) => CanonicalItems(items)
    case Object(members) => Ascending(members) && CanonicalMembers(members)
    case _ => true
  }

  predicate CanonicalItems(items: seq<Json>) {
    items == [] || (CanonicalItems(items[..|items| - 1]) && Canonical(items[|items| - 1]))
  }

  predicate CanonicalMembers(members: seq<Member>) {
    members == [] || (CanonicalMembers(members[..|members| - 1]) && Canonical(members[|members| - 1].value))
  }

  lemma {:induction false} InsertIsCanonical(ordered: seq<Member>, member: Member)
    requires CanonicalMembers(ordered) && Canonical(member.value)
    ensures CanonicalMembers(Insert(ordered, member))
    decreases |ordered|
  {
    if ordered != [] {
      var last := ordered[|ordered| - 1];
      var front := ordered[..|ordered| - 1];
      if Below(last.key, member.key) {
        assert (ordered + [member])[..|ordered|] == ordered;
      } else if last.key == member.key {
        assert (front + [member])[..|front|] == front;
      } else {
        InsertIsCanonical(front, member);
        var r := Insert(front, member);
        assert (r + [last])[..|r|] == r;
      }
    }
  }

  lemma {:induction false} CanonIsCanonical(value: Json)
    ensures Canonical(Canon(value))
    decreases value
  {
    match value
    case Array(items) => CanonItemsAreCanonical(items);
    case Object(members) => CanonMembersAreCanonical(members); CanonMembersAscend(members);
    case _ =>
  }

  lemma {:induction false} CanonItemsAreCanonical(items: seq<Json>)
    ensures CanonicalItems(CanonItems(items))
    decreases items
  {
    if items != [] {
      var front := items[..|items| - 1];
      CanonItemsAreCanonical(front);
      CanonIsCanonical(items[|items| - 1]);
      assert CanonItems(items)[..|front|] == CanonItems(front);
    }
  }

  lemma {:induction false} CanonMembersAreCanonical(members: seq<Member>)
    ensures CanonicalMembers(CanonMembers(members))
    decreases members
  {
    if members != [] {
      var last := members[|members| - 1];
      CanonMembersAreCanonical(members[..|members| - 1]);
      CanonIsCanonical(last.value);
      InsertIsCanonical(CanonMembers(members[..|members| - 1]), Member(last.key, Canon(last.value)));
    }
  }

  lemma {:induction false} DenotedKeys(members: seq<Member>, key: string)
    ensures key in DenoteMembers(members) <==> exists i :: 0 <= i < |members| && members[i].key == key
    decreases |members|
  {
    if members != [] {
      var front := members[..|members| - 1];
      DenotedKeys(front, key);
      if key in DenoteMembers(front) {
        var i :| 0 <= i < |front| && front[i].key == key;
        assert members[i].key == key;
      }
    }
  }

  /** No key of an ascending sequence is above the last. */
  lemma LastKeyBounds(members: seq<Member>, key: string)
    requires Ascending(members) && members != []
    ensures members[|members| - 1].key in DenoteMembers(members)
    ensures key in DenoteMembers(members) ==> !Below(members[|members| - 1].key, key)
  {
    DenotedKeys(members, key);
    if key in DenoteMembers(members) {
      var i :| 0 <= i < |members| && members[i].key == key;
      if i < |members| - 1 {
        LastIsGreatest(members, i);
      }
      BelowIsTotal(key, members[|members| - 1].key);
    }
  }

  /** Two ascending sequences with the same keys end in the same key, and agree on the rest. */
  lemma SameLastKey(a: seq<Member>, b: seq<Member>)
    requires Ascending(a) && Ascending(b) && a != [] && b != []
    requires DenoteMembers(a) == DenoteMembers(b)
    ensures a[|a| - 1].key == b[|b| - 1].key
    ensures DenoteMembers(a[..|a| - 1]) == DenoteMembers(b[..|b| - 1])
  {
    hide Below, Ascending, DenoteMembers;
    LastKeyBounds(a, b[|b| - 1].key);
    LastKeyBounds(b, a[|a| - 1].key);
    BelowIsTotal(a[|a| - 1].key, b[|b| - 1].key);
    FrontLacksLast(a);
    FrontLacksLast(b);
  }

  lemma FrontLacksLast(members: seq<Member>)
    requires Ascending(members) && members != []
    ensures DenoteMembers(members[..|members| - 1]) == DenoteMembers(members) - {members[|members| - 1].key}
  {
    var last := members[|members| - 1];
    var front := members[..|members| - 1];
    assert DenoteMembers(members) == DenoteMembers(front)[last.key := Denote(last.value)];
    hide Below, Ascending, DenoteMembers;
    DenotedKeys(front, last.key);
    forall i | 0 <= i < |front| ensures front[i].key != last.key {
      LastIsGreatest(members, i);
      BelowIsTotal(front[i].key, last.key);
    }
    UpdateIsRemoved(DenoteMembers(front), last.key, Denote(last.value));
  }

  lemma UpdateIsRemoved(m: map<string, Meaning>, key: string, value: Meaning)
    requires key !in m
    ensures m[key := value] - {key} == m
  {
  }

  lemma EmptyMeaning(members: seq<Member>)
    ensures members == [] <==> DenoteMembers(members) == map[]
  {
    if members != [] {
      assert members[|members| - 1].key in DenoteMembers(members);
    }
  }

  lemma {:induction false} CanonicalIsUnique(a: Json, b: Json)
    requires Canonical(a) && Canonical(b) && Denote(a) == Denote(b)
    ensures a == b
    decreases a
  {
    match a
    case Array(items) => CanonicalItemsAreUnique(items, b.items);
    case Object(members) => CanonicalMembersAreUnique(members, b.members);
    case _ =>
  }

  lemma {:induction false} CanonicalItemsAreUnique(a: seq<Json>, b: seq<Json>)
    requires CanonicalItems(a) && CanonicalItems(b) && DenoteItems(a) == DenoteItems(b)
    ensures a == b
    decreases a
  {
    if a != [] {
      var n := |a| - 1;
      assert |b| == |a|;
      assert DenoteItems(a)[..n] == DenoteItems(a[..n]) && DenoteItems(b)[..n] == DenoteItems(b[..n]);
      assert DenoteItems(a)[n] == Denote(a[n]) && DenoteItems(b)[n] == Denote(b[n]);
      CanonicalItemsAreUnique(a[..n], b[..n]);
      CanonicalIsUnique(a[n], b[n]);
    }
  }

  lemma {:induction false} CanonicalMembersAreUnique(a: seq<Member>, b: seq<Member>)
    requires Ascending(a) && CanonicalMembers(a) && Ascending(b) && CanonicalMembers(b)
    requires DenoteMembers(a) == DenoteMembers(b)
    ensures a == b
    decreases a
  {
    EmptyMeaning(a);
    EmptyMeaning(b);
    if a != [] {
      var x, y := a[|a| - 1], b[|b| - 1];
      SameLastKey(a, b);
      CanonicalMembersAreUnique(a[..|a| - 1], b[..|b| - 1]);
      assert DenoteMembers(a)[x.key] == Denote(x.value) && DenoteMembers(b)[y.key] == Denote(y.value);
      CanonicalIsUnique(x.value, y.value);
      assert a == a[..|a| - 1] + [x] && b == b[..|b| - 1] + [y];
    }
  }

  // ----- the normal form -----------------------------------------------------------------------------------

  /** Two values have one canonical form exactly when they mean the same: at every depth, only key order differs. */
  lemma CanonIsCompleteNormalForm(a: Json, b: Json)
    ensures Canon(a) == Canon(b) <==> Denote(a) == Denote(b)
  {
    CanonKeepsMeaning(a);
    CanonKeepsMeaning(b);
    CanonIsCanonical(a);
    CanonIsCanonical(b);
    if Denote(a) == Denote(b) {
      CanonicalIsUnique(Canon(a), Canon(b));
    }
  }

  /** The fixed points of the transformation are the values sorted at every depth, and one pass reaches them. */
  lemma CanonIsIdempotent(value: Json)
    ensures Canon(Canon(value)) == Canon(value)
    ensures Canon(value) == value <==> Canonical(value)
  {
    CanonIsCanonical(value);
    CanonKeepsMeaning(value);
    CanonIsCompleteNormalForm(Canon(value), value);
    if Canonical(value) {
      CanonicalIsUnique(Canon(value), value);
    }
  }

  /**
   * With distinct keys, as a parsed object has them, its meaning holds each key with its own value and nothing
   * else.
   */
  lemma {:induction false} MeaningOfMembers(members: seq<Member>, i: nat)
    requires forall j, k :: 0 <= j < k < |members| ==> members[j].key != members[k].key
    requires i < |members|
    ensures members[i].key in DenoteMembers(members)
    ensures DenoteMembers(members)[members[i].key] == Denote(members[i].value)
    ensures |DenoteMembers(members)| == |members|
    decreases |members|
  {
    var front := members[..|members| - 1];
    var last := members[|members| - 1];
    DenotedKeys(front, last.key);
    assert last.key !in DenoteMembers(front);
    if front != [] {
      MeaningOfMembers(front, if i < |front| then i else 0);
    }
    assert DenoteMembers(members).Keys == DenoteMembers(front).Keys + {last.key};
  }

  // ----- key order, spelled out ----------------------------------------------------------------------------

  /** The first `n` code points agree, and then `a` ends or has the smaller one. */
  predicate SmallerAfter(a: string, b: string, n: nat) {
    && n <= |a| && n < |b| && a[..n] == b[..n]
    && (n == |a| || a[n] < b[n])
  }

  /** Keys are ordered by their first difference, a key before its extensions. */
  lemma {:induction false} BelowSpelled(a: string, b: string)
    ensures Below(a, b) <==> exists n: nat :: SmallerAfter(a, b, n)
    decreases |a|
  {
    if n: nat :| SmallerAfter(a, b, n) {
      BelowAfter(a, b, n);
    }
    if Below(a, b) {
      if a == [] || a[0] < b[0] {
        assert SmallerAfter(a, b, 0);
      } else {
        BelowSpelled(a[1..], b[1..]);
        var n: nat :| SmallerAfter(a[1..], b[1..], n);
        assert a[..n + 1] == [a[0]] + a[1..][..n] && b[..n + 1] == [b[0]] + b[1..][..n];
        assert SmallerAfter(a, b, n + 1);
      }
    }
  }

  lemma {:induction false} BelowAfter(a: string, b: string, n: nat)
    requires SmallerAfter(a, b, n)
    ensures Below(a, b)
    decreases n
  {
    if n > 0 {
      assert a[0] == a[..n][0] && b[0] == b[..n][0];
      assert a[1..][..n - 1] == a[..n][1..] && b[1..][..n - 1] == b[..n][1..];
      BelowAfter(a[1..], b[1..], n - 1);
    }
  }

  // ----- what the canonical form holds ---------------------------------------------------------------------

  /** Arrays keep their order and length, in the canonical form and in the meaning. */
  lemma {:induction false} ItemsStay(items: seq<Json>, i: nat)
    requires i < |items|
    ensures CanonItems(items)[i] == Canon(items[i]) && DenoteItems(items)[i] == Denote(items[i])
    decreases |items|
  {
    if i < |items| - 1 {
      ItemsStay(items[..|items| - 1], i);
    }
  }

  lemma {:induction false} InsertHolds(ordered: seq<Member>, member: Member, other: Member)
    ensures member in Insert(ordered, member)
    ensures other in ordered && other.key != member.key ==> other in Insert(ordered, member)
    ensures (forall i :: 0 <= i < |ordered| ==> ordered[i].key != member.key) ==>
      multiset(Insert(ordered, member)) == multiset(ordered) + multiset{member}
    decreases |ordered|
  {
    if ordered != [] {
      var last, front := ordered[|ordered| - 1], ordered[..|ordered| - 1];
      assert ordered == front + [last];
      InsertHolds(front, member, other);
    }
  }

  /** The members with their values in canonical form. */
  function Members(members: seq<Member>): (r: seq<Member>)
    ensures |r| == |members|
    ensures forall i :: 0 <= i < |r| ==> r[i] == Member(members[i].key, Canon(members[i].value))
  {
    if members == [] then []
    else
      var last := members[|members| - 1];
      Members(members[..|members| - 1]) + [Member(last.key, Canon(last.value))]
  }

  predicate DistinctKeys(members: seq<Member>) {
    forall j, k :: 0 <= j < k < |members| ==> members[j].key != members[k].key
  }

  /**
   * With distinct keys, the canonical object holds exactly the members of the object, their values in canonical
   * form.
   */
  lemma {:induction false} MembersStay(members: seq<Member>)
    requires DistinctKeys(members)
    ensures multiset(CanonMembers(members)) == multiset(Members(members))
    decreases |members|
  {
    if members != [] {
      var last, front := members[|members| - 1], members[..|members| - 1];
      MembersStay(front);
      var ordered, member := CanonMembers(front), Member(last.key, Canon(last.value));
      forall i | 0 <= i < |ordered| ensures ordered[i].key != member.key {
        assert ordered[i] in multiset(ordered);
        assert ordered[i] in multiset(Members(front));
        var j :| 0 <= j < |front| && Members(front)[j] == ordered[i];
      }
      InsertHolds(ordered, member, member);
    }
  }
}
