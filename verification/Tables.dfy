/** Foreign-key ordering of the tables of a baseline dump: parents before children. */
module Tables {
  import opened Options

  /** Table names in dump order, or the tables left over when they reference each other. */
  datatype Ordering<+T> = Ordered(tables: seq<T>) | Stuck(remaining: seq<T>)

  datatype Reference<T> = Reference(child: T, parent: T)

  /** Every parent of `table` that is dumped at all is already placed. */
  predicate Ready<T(==)>(tables: seq<T>, references: seq<Reference<T>>, placed: seq<T>, table: T) {
    forall r :: r in references ==> r.child != table || r.parent in placed || r.parent !in tables
  }

  /** Position of the first table that is ready. */
  function FirstReady<T(==)>(tables: seq<T>, references: seq<Reference<T>>, placed: seq<T>, remaining: seq<T>)
    : (r: Option<nat>)
    ensures r.Some? ==>
      && r.value < |remaining| && Ready(tables, references, placed, remaining[r.value])
      && forall i :: 0 <= i < r.value ==> !Ready(tables, references, placed, remaining[i])
    ensures r.None? ==> forall t :: t in remaining ==> !Ready(tables, references, placed, t)
  {
    if remaining == [] then None
    else if Ready(tables, references, placed, remaining[0]) then Some(0)
    else
      var r := FirstReady(tables, references, placed, remaining[1..]);
      if r.None? then None else Some(r.value + 1)
  }

  function Without<T>(s: seq<T>, i: nat): seq<T>
    requires i < |s|
  {
    s[..i] + s[i + 1..]
  }

  /** The greedy order from a state of the loop on. */
  function Order<T(==)>(tables: seq<T>, references: seq<Reference<T>>, remaining: seq<T>, placed: seq<T>): Ordering<T>
    decreases |remaining|
  {
    if remaining == [] then Ordered(placed)
    else
      match FirstReady(tables, references, placed, remaining)
      case None => Stuck(remaining)
      case Some(i) => Order(tables, references, Without(remaining, i), placed + [remaining[i]])
  }

  method ParentsFirst<T(==)>(tables: seq<T>, references: seq<Reference<T>>) returns (result: Ordering<T>)
    ensures result == Order(tables, references, tables, [])
  {
    var remaining, ordered := tables, [];
    while remaining != []
      invariant Order(tables, references, remaining, ordered) == Order(tables, references, tables, [])
      decreases |remaining|
    {
      var ready := FirstReady(tables, references, ordered, remaining);
      if ready.None? {
        return Stuck(remaining);
      }
      ordered := ordered + [remaining[ready.value]];
      remaining := Without(remaining, ready.value);
    }
    return Ordered(ordered);
  }

  // ----- what the order must be ---------------------------------------------------------------------

  /** Every table comes after each of its parents that is dumped. */
  ghost predicate ParentsPrecede<T(!new)>(tables: seq<T>, references: seq<Reference<T>>, order: seq<T>) {
    forall k :: 0 <= k < |order| ==> Ready(tables, references, order[..k], order[k])
  }

  /** A dump order: all the tables, parents first. */
  ghost predicate Topological<T(!new)>(tables: seq<T>, references: seq<Reference<T>>, order: seq<T>) {
    multiset(order) == multiset(tables) && ParentsPrecede(tables, references, order)
  }

  /** A chain of references among the dumped tables. */
  ghost predicate Chain<T(!new)>(tables: seq<T>, references: seq<Reference<T>>, path: seq<T>) {
    && (forall i :: 0 <= i < |path| ==> path[i] in tables)
    && forall i :: 0 <= i < |path| - 1 ==> Reference(path[i], path[i + 1]) in references
  }

  /** A chain that returns to where it began; a table that references itself is one. */
  ghost predicate Cycle<T(!new)>(tables: seq<T>, references: seq<Reference<T>>, path: seq<T>) {
    |path| >= 2 && path[0] == path[|path| - 1] && Chain(tables, references, path)
  }

  ghost predicate Cyclic<T(!new)>(tables: seq<T>, references: seq<Reference<T>>) {
    exists path :: Cycle(tables, references, path)
  }

  // ----- success: a topological order ------------------------------------------------------------------

  lemma WithoutSplits<T>(s: seq<T>, i: nat)
    requires i < |s|
    ensures multiset(s) == multiset(Without(s, i)) + multiset{s[i]}
  {
    assert s == s[..i] + [s[i]] + s[i + 1..];
  }

  lemma {:induction false} OrderIsTopological<T(!new)>(
    tables: seq<T>, references: seq<Reference<T>>, remaining: seq<T>, placed: seq<T>)
    requires multiset(placed) + multiset(remaining) == multiset(tables)
    requires ParentsPrecede(tables, references, placed)
    ensures
      var o := Order(tables, references, remaining, placed);
      o.Ordered? ==> Topological(tables, references, o.tables)
    decreases |remaining|
  {
    var ready := FirstReady(tables, references, placed, remaining);
    if remaining != [] && ready.Some? {
      var i := ready.value;
      var more := placed + [remaining[i]];
      WithoutSplits(remaining, i);
      forall k | 0 <= k < |more|
        ensures Ready(tables, references, more[..k], more[k])
      {
        assert more[..k] == if k < |placed| then placed[..k] else placed;
      }
      OrderIsTopological(tables, references, Without(remaining, i), more);
    }
  }

  // ----- failure: a cycle ----------------------------------------------------------------------------------

  ghost predicate HasParentIn<T(!new)>(references: seq<Reference<T>>, left: seq<T>, t: T) {
    exists r :: r in references && r.child == t && r.parent in left
  }

  /** Every table of `left` references one of `left`. */
  ghost predicate Closed<T(!new)>(references: seq<Reference<T>>, left: seq<T>) {
    forall t {:trigger HasParentIn(references, left, t)} :: t in left ==> HasParentIn(references, left, t)
  }

  /** When nothing is ready, every table left over has a parent that is left over too. */
  lemma {:induction false} StuckTables<T(!new)>(
    tables: seq<T>, references: seq<Reference<T>>, remaining: seq<T>, placed: seq<T>)
    requires forall t :: t in tables <==> t in placed || t in remaining
    ensures
      var o := Order(tables, references, remaining, placed);
      o.Stuck? ==>
        && o.remaining != []
        && (forall t :: t in o.remaining ==> t in tables)
        && Closed(references, o.remaining)
    decreases |remaining|
  {
    if remaining != [] {
      var ready := FirstReady(tables, references, placed, remaining);
      if ready.Some? {
        var i := ready.value;
        assert forall t :: t in remaining <==> t in Without(remaining, i) || t == remaining[i];
        StuckTables(tables, references, Without(remaining, i), placed + [remaining[i]]);
      }
    }
  }

  /** Following parents among finitely many tables must revisit one. */
  lemma {:induction false} ChainCloses<T(!new)>(
    tables: seq<T>, references: seq<Reference<T>>, left: seq<T>, path: seq<T>) returns (cycle: seq<T>)
    requires forall t :: t in left ==> t in tables
    requires Closed(references, left)
    requires path != [] && Chain(tables, references, path)
    requires forall t :: t in path ==> t in left
    ensures Cycle(tables, references, cycle)
    decreases |(set t | t in left) - (set t | t in path)|
  {
    var last := path[|path| - 1];
    assert HasParentIn(references, left, last);
    var r :| r in references && r.child == last && r.parent in left;
    assert Reference(last, r.parent) == r;
    var longer := path + [r.parent];
    assert Chain(tables, references, longer);
    if r.parent in path {
      var j :| 0 <= j < |path| && path[j] == r.parent;
      cycle := longer[j..];
    } else {
      var before, after := (set t | t in left) - (set t | t in path), (set t | t in left) - (set t | t in longer);
      assert after < before by {
        assert r.parent in before && r.parent in longer;
        assert forall t :: t in path ==> t in longer;
      }
      SmallerSet(after, before);
      cycle := ChainCloses(tables, references, left, longer);
    }
  }

  lemma {:induction false} SmallerSet<T>(a: set<T>, b: set<T>)
    requires a < b
    ensures |a| < |b|
  {
    if a != {} {
      var x :| x in a;
      SmallerSet(a - {x}, b - {x});
    } else {
      var x :| x in b;
    }
  }

  lemma OrderedExcludesCycle<T(!new)>(tables: seq<T>, references: seq<Reference<T>>, order: seq<T>, path: seq<T>)
    requires Topological(tables, references, order)
    ensures !Cycle(tables, references, path)
  {
    if Cycle(tables, references, path) {
      forall t | t in tables
        ensures t in order
      {
        assert t in multiset(tables);
      }
      assert path[0] in order;
      var i :| 0 <= i < |order| && order[i] == path[0];
      CycleDescends(tables, references, order, path, 0, i);
    }
  }

  /** A table of a cycle at position `i` of the order would need another one before it, and so on. */
  lemma {:induction false} CycleDescends<T(!new)>(
    tables: seq<T>, references: seq<Reference<T>>, order: seq<T>, path: seq<T>, n: nat, i: nat)
    requires ParentsPrecede(tables, references, order)
    requires Cycle(tables, references, path)
    requires n < |path| - 1 && i < |order| && order[i] == path[n]
    ensures false
    decreases i
  {
    assert Reference(path[n], path[n + 1]) in references;
    assert Ready(tables, references, order[..i], order[i]);
    assert path[n + 1] in order[..i];
    var j :| 0 <= j < i && order[j] == path[n + 1];
    CycleDescends(tables, references, order, path, if n + 1 < |path| - 1 then n + 1 else 0, j);
  }

  /** A state with nothing ready to place closes a cycle. */
  lemma StuckMeansCycle<T(!new)>(
    tables: seq<T>, references: seq<Reference<T>>, remaining: seq<T>, placed: seq<T>) returns (cycle: seq<T>)
    requires forall t :: t in tables <==> t in placed || t in remaining
    requires Order(tables, references, remaining, placed).Stuck?
    ensures Cycle(tables, references, cycle)
  {
    StuckTables(tables, references, remaining, placed);
    var left := Order(tables, references, remaining, placed).remaining;
    assert left[0] in left;
    cycle := ChainCloses(tables, references, left, [left[0]]);
  }

  /** It fails exactly when the dumped tables reference each other in a cycle. */
  lemma FailsExactlyOnCycles<T(!new)>(tables: seq<T>, references: seq<Reference<T>>)
    ensures Order(tables, references, tables, []).Stuck? <==> Cyclic(tables, references)
    ensures Order(tables, references, tables, []).Ordered? ==>
      Topological(tables, references, Order(tables, references, tables, []).tables)
  {
    OrderIsTopological(tables, references, tables, []);
    var o := Order(tables, references, tables, []);
    if o.Stuck? {
      var cycle := StuckMeansCycle(tables, references, tables, []);
    } else {
      forall path
        ensures !Cycle(tables, references, path)
      {
        OrderedExcludesCycle(tables, references, o.tables, path);
      }
    }
  }

  // ----- which topological order ----------------------------------------------------------------------------

  ghost predicate SortedBy<T(!new)>(less: (T, T) -> bool, s: seq<T>) {
    forall i, j :: 0 <= i < j < |s| ==> less(s[i], s[j])
  }

  /** `a` comes no later than `b` in the dictionary order. */
  ghost predicate NoLater<T(!new)>(less: (T, T) -> bool, a: seq<T>, b: seq<T>) {
    a == b || exists k :: 0 <= k < |a| && k < |b| && a[..k] == b[..k] && less(a[k], b[k])
  }

  lemma {:induction false} OrderExtends<T(!new)>(
    tables: seq<T>, references: seq<Reference<T>>, remaining: seq<T>, placed: seq<T>)
    ensures
      var o := Order(tables, references, remaining, placed);
      o.Ordered? ==> placed <= o.tables
    decreases |remaining|
  {
    var ready := FirstReady(tables, references, placed, remaining);
    if remaining != [] && ready.Some? {
      OrderExtends(tables, references, Without(remaining, ready.value), placed + [remaining[ready.value]]);
    }
  }

  /** While a topological order exists the loop does not fail. */
  lemma OrderSucceeds<T(!new)>(
    tables: seq<T>, references: seq<Reference<T>>, remaining: seq<T>, placed: seq<T>, other: seq<T>)
    requires multiset(placed) + multiset(remaining) == multiset(tables)
    requires Topological(tables, references, other)
    ensures Order(tables, references, remaining, placed).Ordered?
  {
    forall t
      ensures t in tables <==> t in placed || t in remaining
    {
      assert t in multiset(tables) <==> t in multiset(placed) || t in multiset(remaining);
    }
    if Order(tables, references, remaining, placed).Stuck? {
      var cycle := StuckMeansCycle(tables, references, remaining, placed);
      OrderedExcludesCycle(tables, references, other, cycle);
    }
  }

  lemma Cancel<T>(a: multiset<T>, b: multiset<T>, c: multiset<T>)
    requires a + b == a + c
    ensures b == c
  {
    assert b == (a + b) - a;
    assert c == (a + c) - a;
  }

  /** What another topological order places next was available to the loop as well. */
  lemma NextOfOther<T(!new)>(
    tables: seq<T>, references: seq<Reference<T>>, remaining: seq<T>, placed: seq<T>, other: seq<T>)
    requires multiset(placed) + multiset(remaining) == multiset(tables)
    requires Topological(tables, references, other)
    requires |placed| <= |other| && other[..|placed|] == placed
    ensures remaining == [] ==> other == placed
    ensures remaining != [] ==>
      |placed| < |other| && other[|placed|] in remaining && Ready(tables, references, placed, other[|placed|])
  {
    var rest := other[|placed|..];
    assert other == placed + rest;
    Cancel(multiset(placed), multiset(rest), multiset(remaining));
    assert |multiset(rest)| == |multiset(remaining)|;
    if remaining != [] {
      assert rest[0] in multiset(rest);
    }
  }

  /** From a common beginning on, the greedy order is the least. */
  lemma {:induction false} OrderIsLeastFrom<T(!new)>(
    less: (T, T) -> bool, tables: seq<T>, references: seq<Reference<T>>, remaining: seq<T>, placed: seq<T>, other: seq<T>)
    requires SortedBy(less, remaining)
    requires multiset(placed) + multiset(remaining) == multiset(tables)
    requires Topological(tables, references, other)
    requires |placed| <= |other| && other[..|placed|] == placed
    ensures
      var o := Order(tables, references, remaining, placed);
      o.Ordered? && placed <= o.tables && NoLater(less, o.tables, other)
    decreases |remaining|
  {
    hide Ready;
    NextOfOther(tables, references, remaining, placed, other);
    if remaining != [] {
      var k := |placed|;
      var b := other[k];
      var ready := FirstReady(tables, references, placed, remaining);
      var i := ready.value;
      var more := placed + [remaining[i]];
      PlaceOne(placed, remaining, i);
      SortedWithout(less, remaining, i);
      hide Topological, Without, NoLater;
      if remaining[i] == b {
        assert other[..k + 1] == more;
        OrderIsLeastFrom(less, tables, references, Without(remaining, i), more, other);
      } else {
        var j :| 0 <= j < |remaining| && remaining[j] == b;
        assert less(remaining[i], b);
        hide SortedBy;
        OrderSucceeds(tables, references, Without(remaining, i), more, other);
        OrderExtends(tables, references, Without(remaining, i), more);
        SmallerAt(less, Order(tables, references, remaining, placed).tables, other, placed, remaining[i]);
      }
    }
  }

  lemma SortedWithout<T(!new)>(less: (T, T) -> bool, s: seq<T>, i: nat)
    requires SortedBy(less, s) && i < |s|
    ensures |Without(s, i)| < |s|
    ensures SortedBy(less, Without(s, i))
  {
  }

  lemma PlaceOne<T(!new)>(placed: seq<T>, remaining: seq<T>, i: nat)
    requires i < |remaining|
    ensures multiset(placed + [remaining[i]]) + multiset(Without(remaining, i)) == multiset(placed) + multiset(remaining)
  {
    WithoutSplits(remaining, i);
  }

  lemma SmallerAt<T(!new)>(less: (T, T) -> bool, a: seq<T>, b: seq<T>, common: seq<T>, x: T)
    requires common + [x] <= a && |common| < |b| && b[..|common|] == common && less(x, b[|common|])
    ensures common <= a && NoLater(less, a, b)
  {
    var k := |common|;
    assert a[..k + 1] == common + [x];
    assert a[..k] == a[..k + 1][..k] && a[k] == a[..k + 1][k];
  }

  /**
   * Tables listed in name order come out in the least of all topological orders, which is therefore
   * the only order the dump can have.
   */
  lemma OrderIsLeast<T(!new)>(less: (T, T) -> bool, tables: seq<T>, references: seq<Reference<T>>, other: seq<T>)
    requires SortedBy(less, tables)
    requires Topological(tables, references, other)
    ensures
      var o := Order(tables, references, tables, []);
      o.Ordered? && Topological(tables, references, o.tables) && NoLater(less, o.tables, other)
  {
    OrderIsLeastFrom(less, tables, references, tables, [], other);
    OrderIsTopological(tables, references, tables, []);
  }

  /** The order and the repetition of the references do not matter. */
  lemma {:induction false} OnlyTheSetOfReferencesMatters<T(!new)>(
    tables: seq<T>, references: seq<Reference<T>>, others: seq<Reference<T>>, remaining: seq<T>, placed: seq<T>)
    requires forall r :: r in references <==> r in others
    ensures Order(tables, references, remaining, placed) == Order(tables, others, remaining, placed)
    decreases |remaining|
  {
    assert forall t :: Ready(tables, references, placed, t) <==> Ready(tables, others, placed, t);
    var ready := FirstReady(tables, references, placed, remaining);
    assert ready == FirstReady(tables, others, placed, remaining);
    if remaining != [] && ready.Some? {
      OnlyTheSetOfReferencesMatters(tables, references, others,
                                    Without(remaining, ready.value), placed + [remaining[ready.value]]);
    }
  }

  // ----- results, spelled out ------------------------------------------------------------------------------

  /** In a returned order, every listed parent of a table that is dumped comes before it. */
  lemma ParentsComeFirst<T(!new)>(tables: seq<T>, references: seq<Reference<T>>, k: nat, r: Reference<T>)
    requires Order(tables, references, tables, []).Ordered? && k < |Order(tables, references, tables, []).tables|
    ensures var order := Order(tables, references, tables, []).tables;
      && multiset(order) == multiset(tables)
      && (r in references && r.child == order[k] && r.parent in tables ==> r.parent in order[..k])
  {
    FailsExactlyOnCycles(tables, references);
    var order := Order(tables, references, tables, []).tables;
    assert Ready(tables, references, order[..k], order[k]);
  }

  /** Tables that each reference one another among them are never placed. */
  lemma {:induction false} ClosedStays<T(!new)>(
    tables: seq<T>, references: seq<Reference<T>>, remaining: seq<T>, placed: seq<T>, left: seq<T>)
    requires left != [] && Closed(references, left)
    requires forall t :: t in left ==> t in tables && t in remaining && t !in placed
    ensures
      var o := Order(tables, references, remaining, placed);
      o.Stuck? && forall t :: t in left ==> t in o.remaining
    decreases |remaining|
  {
    assert left[0] in left;
    var ready := FirstReady(tables, references, placed, remaining);
    if ready.Some? {
      var i := ready.value;
      forall t | t in left ensures !Ready(tables, references, placed, t) {
        assert HasParentIn(references, left, t);
      }
      forall t | t in left ensures t in Without(remaining, i) {
        var j :| 0 <= j < |remaining| && remaining[j] == t;
        assert Without(remaining, i)[if j < i then j else j - 1] == t;
      }
      ClosedStays(tables, references, Without(remaining, i), placed + [remaining[i]], left);
    }
  }

  /** The tables named in the error are exactly those in some group of tables that all reference one of the group. */
  lemma StuckRemaining<T(!new)>(tables: seq<T>, references: seq<Reference<T>>, t: T)
    ensures var o := Order(tables, references, tables, []);
      o.Stuck? ==> (t in o.remaining <==>
        exists left :: t in left && Closed(references, left) && forall u :: u in left ==> u in tables)
  {
    var o := Order(tables, references, tables, []);
    StuckTables(tables, references, tables, []);
    if left :| t in left && Closed(references, left) && forall u :: u in left ==> u in tables {
      ClosedStays(tables, references, tables, [], left);
    }
  }
}
