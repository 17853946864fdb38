/** Acceptance of transfer snapshots under loss, duplication and reordering. */
module Transfers {
  import opened Options

  datatype State = Completed | CompletedWithWarnings | Unfinished(name: string)

  datatype Operation<C> = Operation(id: string, state: State, rest: C)

  /** `generation` and `revision` stamp a snapshot; `rest` is everything the acceptance does not look at. */
  datatype Snapshot<C> = Snapshot(
    generation: int, revision: int, operation: Operation<C>, progressBasisPoints: int, rest: C)

  datatype TitleId = Undefined | Null | Id(id: string)

  datatype Scope = Scope(titleId: TitleId, operationId: string, page: Option<int>, requestGeneration: int)

  datatype View<C> = View(scope: Scope, snapshot: Option<Snapshot<C>>)

  function OrNull(id: TitleId): TitleId {
    if id.Undefined? then Null else id
  }

  /** The two scopes are one, with a missing title id the same as a null one. */
  predicate SameScope(a: Scope, b: Scope) {
    && a.operationId == b.operationId
    && OrNull(a.titleId) == OrNull(b.titleId)
    && a.page == b.page
    && a.requestGeneration == b.requestGeneration
  }

  function Max(a: int, b: int): int {
    if a < b then b else a
  }

  function AcceptTransferSnapshot<C>(current: View<C>, scope: Scope, incoming: Snapshot<C>, reread: bool): View<C> {
    if !SameScope(current.scope, scope) || incoming.operation.id != scope.operationId then current
    else
      var previous := current.snapshot;
      if previous.Some? &&
         var generation := incoming.generation - previous.value.generation;
         generation < 0
         || (generation == 0 && if reread then incoming.revision < previous.value.revision
                                else incoming.revision <= previous.value.revision)
      then current
      else
        var shown := if previous.Some? then previous.value.progressBasisPoints else 0;
        View(scope, Some(incoming.(progressBasisPoints := Max(shown, incoming.progressBasisPoints))))
  }

  predicate Finished<C>(snapshot: Snapshot<C>) {
    !snapshot.operation.state.Unfinished?
  }

  /** The displayed progress, in tenths of a percent. */
  function DisplayedTenths<C>(snapshot: Snapshot<C>): int {
    if Finished(snapshot) then 1000
    else
      var points := snapshot.progressBasisPoints;
      Max(0, if points < 9999 then points else 9999) / 10
  }

  // ----- deliveries ----------------------------------------------------------------------------------------

  datatype Delivery<C> = Delivery(scope: Scope, snapshot: Snapshot<C>, reread: bool)

  function Run<C>(view: View<C>, ds: seq<Delivery<C>>): View<C>
    decreases |ds|
  {
    if ds == [] then view
    else
      var d := ds[|ds| - 1];
      AcceptTransferSnapshot(Run(view, ds[..|ds| - 1]), d.scope, d.snapshot, d.reread)
  }

  predicate InScope<C>(scope: Scope, d: Delivery<C>) {
    SameScope(scope, d.scope) && d.snapshot.operation.id == d.scope.operationId
  }

  /** Lexicographic order of (generation, revision). */
  predicate Older<C>(a: Snapshot<C>, b: Snapshot<C>) {
    a.generation < b.generation || (a.generation == b.generation && a.revision < b.revision)
  }

  predicate SameStamp<C>(a: Snapshot<C>, b: Snapshot<C>) {
    a.generation == b.generation && a.revision == b.revision
  }

  /** The snapshot apart from its progress. */
  function Bare<C>(snapshot: Snapshot<C>): Snapshot<C> {
    snapshot.(progressBasisPoints := 0)
  }

  function Relevant<C>(scope: Scope, ds: seq<Delivery<C>>): seq<Delivery<C>>
    decreases |ds|
  {
    if ds == [] then []
    else Relevant(scope, ds[..|ds| - 1]) + if InScope(scope, ds[|ds| - 1]) then [ds[|ds| - 1]] else []
  }

  /** The scope of a view is never exchanged for another. */
  lemma {:induction false} ScopeIsKept<C>(view: View<C>, ds: seq<Delivery<C>>)
    ensures SameScope(Run(view, ds).scope, view.scope)
    decreases |ds|
  {
    if ds != [] {
      ScopeIsKept(view, ds[..|ds| - 1]);
    }
  }

  /** Deliveries for another operation, title, page or request leave no trace, wherever they arrive in a run. */
  lemma {:induction false} StrayDeliveriesLeaveNoTrace<C>(view: View<C>, ds: seq<Delivery<C>>)
    ensures Run(view, ds) == Run(view, Relevant(view.scope, ds))
    decreases |ds|
  {
    if ds != [] {
      var front := ds[..|ds| - 1];
      StrayDeliveriesLeaveNoTrace(view, front);
      ScopeIsKept(view, front);
      var relevant := Relevant(view.scope, front);
      assert (relevant + [ds[|ds| - 1]])[..|relevant|] == relevant;
      assert relevant + [] == relevant;
    }
  }

  // ----- which snapshot is retained ------------------------------------------------------------------------

  /** No delivery in scope is newer than the snapshot. */
  ghost predicate Newest<C>(scope: Scope, ds: seq<Delivery<C>>, s: Snapshot<C>) {
    forall j :: 0 <= j < |ds| && InScope(scope, ds[j]) ==> !Older(s, ds[j].snapshot)
  }

  /**
   * Delivery `i` decides the view: it carries the newest stamp; among the deliveries with that stamp it is
   * the first or a reread, and no reread follows it.
   */
  ghost predicate Wins<C>(scope: Scope, ds: seq<Delivery<C>>, i: int) {
    && 0 <= i < |ds| && InScope(scope, ds[i])
    && Newest(scope, ds, ds[i].snapshot)
    && (forall j :: 0 <= j < i && InScope(scope, ds[j]) && SameStamp(ds[i].snapshot, ds[j].snapshot) ==> ds[i].reread)
    && (forall j :: i < j < |ds| && InScope(scope, ds[j]) && SameStamp(ds[i].snapshot, ds[j].snapshot) ==> !ds[j].reread)
  }

  lemma AtMostOneWins<C>(scope: Scope, ds: seq<Delivery<C>>, i: int, k: int)
    requires Wins(scope, ds, i) && Wins(scope, ds, k)
    ensures i == k
  {
    assert !Older(ds[i].snapshot, ds[k].snapshot) && !Older(ds[k].snapshot, ds[i].snapshot);
    assert SameStamp(ds[i].snapshot, ds[k].snapshot) && SameStamp(ds[k].snapshot, ds[i].snapshot);
  }

  lemma {:induction false} SomeDeliveryWins<C>(view: View<C>, ds: seq<Delivery<C>>)
    requires view.snapshot.None?
    ensures var s := Run(view, ds).snapshot;
      && (s.None? ==> forall j :: 0 <= j < |ds| ==> !InScope(view.scope, ds[j]))
      && (s.Some? ==> exists i :: Wins(view.scope, ds, i) && Bare(s.value) == Bare(ds[i].snapshot))
    decreases |ds|
  {
    if ds != [] {
      var n := |ds| - 1;
      var front := ds[..n];
      SomeDeliveryWins(view, front);
      ScopeIsKept(view, front);
      var before, after := Run(view, front).snapshot, Run(view, ds).snapshot;
      if before.Some? {
        var i :| Wins(view.scope, front, i) && Bare(before.value) == Bare(front[i].snapshot);
        WinnerAfterOneMore(view.scope, ds, i);
        if Replaces(view.scope, ds, i) {
          assert Wins(view.scope, ds, n) && Bare(after.value) == Bare(ds[n].snapshot);
        } else {
          assert after == before;
          assert Wins(view.scope, ds, i) && Bare(after.value) == Bare(ds[i].snapshot);
        }
      } else {
        forall j | 0 <= j < n ensures !InScope(view.scope, ds[j]) {
          assert ds[j] == front[j];
        }
        if InScope(view.scope, ds[n]) {
          assert Wins(view.scope, ds, n);
        }
      }
    }
  }

  /** The last delivery takes over from delivery `i`. */
  predicate Replaces<C>(scope: Scope, ds: seq<Delivery<C>>, i: int)
    requires 0 <= i < |ds|
  {
    var d := ds[|ds| - 1];
    InScope(scope, d) && if d.reread then !Older(d.snapshot, ds[i].snapshot) else Older(ds[i].snapshot, d.snapshot)
  }

  lemma WinnerAfterOneMore<C>(scope: Scope, ds: seq<Delivery<C>>, i: int)
    requires ds != [] && Wins(scope, ds[..|ds| - 1], i)
    ensures Wins(scope, ds, if Replaces(scope, ds, i) then |ds| - 1 else i)
  {
    var n := |ds| - 1;
    var front := ds[..n];
    hide InScope;
    forall j | 0 <= j < n ensures ds[j] == front[j] {
    }
    var k := if Replaces(scope, ds, i) then n else i;
    assert InScope(scope, ds[k]);
    forall j | 0 <= j < |ds| && InScope(scope, ds[j]) ensures !Older(ds[k].snapshot, ds[j].snapshot) {
      if j < n {
        assert !Older(front[i].snapshot, front[j].snapshot);
      }
    }
    assert Newest(scope, ds, ds[k].snapshot);
    forall j | 0 <= j < k && InScope(scope, ds[j]) && SameStamp(ds[k].snapshot, ds[j].snapshot) ensures ds[k].reread {
      assert !Older(front[i].snapshot, front[j].snapshot);
    }
    forall j | k < j < |ds| && InScope(scope, ds[j]) && SameStamp(ds[k].snapshot, ds[j].snapshot) ensures !ds[j].reread {
    }
  }

  /**
   * Starting from an empty view, and whatever is lost, repeated, reordered or reread: the retained snapshot is,
   * apart from progress, that of the one winning delivery, which carries the newest stamp delivered in scope.
   */
  lemma RetainedIsNewest<C>(view: View<C>, ds: seq<Delivery<C>>, i: int)
    requires view.snapshot.None?
    ensures var s := Run(view, ds).snapshot;
      && (s.Some? <==> exists j :: 0 <= j < |ds| && InScope(view.scope, ds[j]))
      && (s.Some? ==> Newest(view.scope, ds, s.value))
      && (s.Some? ==> exists k :: Wins(view.scope, ds, k))
      && (Wins(view.scope, ds, i) ==> s.Some? && Bare(s.value) == Bare(ds[i].snapshot))
  {
    SomeDeliveryWins(view, ds);
    var s := Run(view, ds).snapshot;
    if s.Some? {
      var k :| Wins(view.scope, ds, k) && Bare(s.value) == Bare(ds[k].snapshot);
      forall j | 0 <= j < |ds| && InScope(view.scope, ds[j]) ensures !Older(s.value, ds[j].snapshot) {
        assert !Older(ds[k].snapshot, ds[j].snapshot);
      }
      if Wins(view.scope, ds, i) {
        AtMostOneWins(view.scope, ds, i, k);
      }
    }
  }

  // ----- order does not matter -----------------------------------------------------------------------------

  ghost predicate Delivered<C(!new)>(scope: Scope, ds: seq<Delivery<C>>, s: Snapshot<C>) {
    exists i :: 0 <= i < |ds| && InScope(scope, ds[i]) && ds[i].snapshot == s
  }

  /**
   * The retained progress is zero or that of a delivery that is not newer, and no less than the retained
   * delivery's.
   */
  lemma {:induction false} ProgressIsDelivered<C(!new)>(view: View<C>, ds: seq<Delivery<C>>)
    requires view.snapshot.None? && Run(view, ds).snapshot.Some?
    ensures var s := Run(view, ds).snapshot.value;
      && (exists t :: Delivered(view.scope, ds, t) && Bare(t) == Bare(s) && t.progressBasisPoints <= s.progressBasisPoints)
      && 0 <= s.progressBasisPoints
      && (s.progressBasisPoints == 0 ||
          exists t :: Delivered(view.scope, ds, t) && !Older(s, t) && t.progressBasisPoints == s.progressBasisPoints)
    decreases |ds|
  {
    var n := |ds| - 1;
    var front := ds[..n];
    ScopeIsKept(view, front);
    var before := Run(view, front).snapshot;
    var s := Run(view, ds).snapshot.value;
    if before.Some? {
      ProgressIsDelivered(view, front);
      DeliveredLater(view.scope, ds);
    }
    if before != Some(s) {
      assert InScope(view.scope, ds[n]);
      assert Delivered(view.scope, ds, ds[n].snapshot);
    }
  }

  lemma DeliveredLater<C(!new)>(scope: Scope, ds: seq<Delivery<C>>)
    requires ds != []
    ensures forall s :: Delivered(scope, ds[..|ds| - 1], s) ==> Delivered(scope, ds, s)
  {
    var front := ds[..|ds| - 1];
    forall s | Delivered(scope, front, s) ensures Delivered(scope, ds, s) {
      var i :| 0 <= i < |front| && InScope(scope, front[i]) && front[i].snapshot == s;
      assert ds[i] == front[i];
    }
  }

  /** A delivered snapshot that none of those delivered is newer than. */
  ghost predicate Top<C(!new)>(scope: Scope, ds: seq<Delivery<C>>, s: Snapshot<C>) {
    Delivered(scope, ds, s) && Newest(scope, ds, s)
  }

  /** The newest stamp stands for one content. */
  ghost predicate TopsAgree<C(!new)>(scope: Scope, ds: seq<Delivery<C>>) {
    forall s, t :: Top(scope, ds, s) && Top(scope, ds, t) ==> Bare(s) == Bare(t)
  }

  /** No delivered snapshot shows more progress than a newest one. */
  ghost predicate TopLeads<C(!new)>(scope: Scope, ds: seq<Delivery<C>>) {
    forall s, t :: Top(scope, ds, s) && Delivered(scope, ds, t) ==>
      Max(0, t.progressBasisPoints) <= Max(0, s.progressBasisPoints)
  }

  ghost predicate SameDelivered<C(!new)>(scope: Scope, a: seq<Delivery<C>>, b: seq<Delivery<C>>) {
    forall s :: Delivered(scope, a, s) <==> Delivered(scope, b, s)
  }

  ghost predicate SameContent<C>(a: Option<Snapshot<C>>, b: Option<Snapshot<C>>) {
    if a.Some? && b.Some? then Bare(a.value) == Bare(b.value) else a.None? && b.None?
  }

  /** The retained snapshot is a newest one, apart from its progress, which is no less. */
  lemma RetainedIsTop<C(!new)>(view: View<C>, ds: seq<Delivery<C>>) returns (top: Snapshot<C>)
    requires view.snapshot.None? && Run(view, ds).snapshot.Some?
    ensures Top(view.scope, ds, top) && Bare(top) == Bare(Run(view, ds).snapshot.value)
    ensures TopLeads(view.scope, ds) ==>
      Run(view, ds).snapshot.value.progressBasisPoints == Max(0, top.progressBasisPoints)
  {
    ProgressIsDelivered(view, ds);
    RetainedIsNewest(view, ds, 0);
    var s := Run(view, ds).snapshot.value;
    top :| Delivered(view.scope, ds, top) && Bare(top) == Bare(s) && top.progressBasisPoints <= s.progressBasisPoints;
    forall j | 0 <= j < |ds| && InScope(view.scope, ds[j]) ensures !Older(top, ds[j].snapshot) {
      assert !Older(s, ds[j].snapshot);
    }
  }

  lemma RetainedIfDelivered<C(!new)>(view: View<C>, ds: seq<Delivery<C>>)
    requires view.snapshot.None?
    ensures Run(view, ds).snapshot.Some? <==> exists s :: Delivered(view.scope, ds, s)
  {
    RetainedIsNewest(view, ds, 0);
    if j :| 0 <= j < |ds| && InScope(view.scope, ds[j]) {
      assert Delivered(view.scope, ds, ds[j].snapshot);
    }
  }

  lemma TopTransfers<C(!new)>(scope: Scope, a: seq<Delivery<C>>, b: seq<Delivery<C>>, s: Snapshot<C>)
    requires SameDelivered(scope, a, b) && Top(scope, a, s)
    ensures Top(scope, b, s)
  {
    forall j | 0 <= j < |b| && InScope(scope, b[j]) ensures !Older(s, b[j].snapshot) {
      assert Delivered(scope, b, b[j].snapshot);
      var i :| 0 <= i < |a| && InScope(scope, a[i]) && a[i].snapshot == b[j].snapshot;
    }
  }

  lemma AgreedContent<C(!new)>(view: View<C>, a: seq<Delivery<C>>, b: seq<Delivery<C>>)
    requires view.snapshot.None? && TopsAgree(view.scope, a) && SameDelivered(view.scope, a, b)
    ensures SameContent(Run(view, a).snapshot, Run(view, b).snapshot)
    ensures TopLeads(view.scope, a) ==> Run(view, a).snapshot == Run(view, b).snapshot
  {
    hide Run, InScope, Delivered, Newest;
    RetainedIfDelivered(view, a);
    RetainedIfDelivered(view, b);
    if Run(view, a).snapshot.Some? && Run(view, b).snapshot.Some? {
      var s := RetainedIsTop(view, a);
      var t := RetainedIsTop(view, b);
      TopTransfers(view.scope, b, a, t);
      if TopLeads(view.scope, a) {
        LeadTransfers(view.scope, a, b);
      }
    }
  }

  lemma LeadTransfers<C(!new)>(scope: Scope, a: seq<Delivery<C>>, b: seq<Delivery<C>>)
    requires SameDelivered(scope, a, b) && TopLeads(scope, a)
    ensures TopLeads(scope, b)
  {
    hide Delivered, Newest;
    forall s | Top(scope, b, s) ensures Top(scope, a, s) {
      TopTransfers(scope, b, a, s);
    }
  }

  // ----- orders that tell snapshots apart ------------------------------------------------------------------

  function WithoutRereads<C>(ds: seq<Delivery<C>>): (plain: seq<Delivery<C>>)
    ensures |plain| == |ds|
    ensures forall i :: 0 <= i < |ds| ==> plain[i] == ds[i].(reread := false)
  {
    seq(|ds|, i requires 0 <= i < |ds| => ds[i].(reread := false))
  }

  /** The snapshot first, then all deliveries once more, none of them a reread. */
  function Led<C>(scope: Scope, s: Snapshot<C>, ds: seq<Delivery<C>>): seq<Delivery<C>> {
    [Delivery(scope, s, false)] + WithoutRereads(ds)
  }

  lemma LedDeliversSame<C(!new)>(scope: Scope, s: Snapshot<C>, ds: seq<Delivery<C>>)
    requires Delivered(scope, ds, s)
    ensures SameDelivered(scope, ds, Led(scope, s, ds))
    ensures InScope(scope, Delivery(scope, s, false))
  {
    var led := Led(scope, s, ds);
    forall x | Delivered(scope, ds, x) ensures Delivered(scope, led, x) {
      var i :| 0 <= i < |ds| && InScope(scope, ds[i]) && ds[i].snapshot == x;
      assert led[i + 1].snapshot == x && InScope(scope, led[i + 1]);
    }
    forall x | Delivered(scope, led, x) ensures Delivered(scope, ds, x) {
      var i :| 0 <= i < |led| && InScope(scope, led[i]) && led[i].snapshot == x;
      if i > 0 {
        assert InScope(scope, ds[i - 1]) && ds[i - 1].snapshot == x;
      }
    }
  }

  lemma OneMoreDeliversSame<C(!new)>(scope: Scope, s: Snapshot<C>, ds: seq<Delivery<C>>)
    requires Delivered(scope, ds, s)
    ensures SameDelivered(scope, ds, [Delivery(scope, s, false)] + ds)
    ensures InScope(scope, Delivery(scope, s, false))
  {
    var more := [Delivery(scope, s, false)] + ds;
    forall x | Delivered(scope, ds, x) ensures Delivered(scope, more, x) {
      var i :| 0 <= i < |ds| && InScope(scope, ds[i]) && ds[i].snapshot == x;
      assert more[i + 1] == ds[i];
    }
    forall x | Delivered(scope, more, x) ensures Delivered(scope, ds, x) {
      var i :| 0 <= i < |more| && InScope(scope, more[i]) && more[i].snapshot == x;
      if i > 0 {
        assert ds[i - 1] == more[i];
      }
    }
  }

  lemma {:induction false} RunSplits<C>(view: View<C>, a: seq<Delivery<C>>, b: seq<Delivery<C>>)
    ensures Run(view, a + b) == Run(Run(view, a), b)
    decreases |b|
  {
    if b == [] {
      assert a + b == a;
    } else {
      assert (a + b)[..|a + b| - 1] == a + b[..|b| - 1];
      RunSplits(view, a, b[..|b| - 1]);
    }
  }

  /** Deliveries that are neither newer nor rereads change nothing. */
  lemma {:induction false} NothingNewer<C>(view: View<C>, ds: seq<Delivery<C>>)
    requires view.snapshot.Some? && Newest(view.scope, ds, view.snapshot.value)
    requires forall i :: 0 <= i < |ds| ==> !ds[i].reread
    ensures Run(view, ds) == view
    decreases |ds|
  {
    if ds != [] {
      var front, d := ds[..|ds| - 1], ds[|ds| - 1];
      forall j | 0 <= j < |front| && InScope(view.scope, front[j])
        ensures !Older(view.snapshot.value, front[j].snapshot)
      {
        assert ds[j] == front[j];
      }
      NothingNewer(view, front);
      assert InScope(view.scope, d) ==> !Older(view.snapshot.value, d.snapshot);
    }
  }

  /** What a newest snapshot leaves behind when it comes first. */
  lemma LedByTop<C(!new)>(view: View<C>, s: Snapshot<C>, ds: seq<Delivery<C>>)
    requires view.snapshot.None? && Top(view.scope, ds, s)
    ensures SameDelivered(view.scope, ds, Led(view.scope, s, ds))
    ensures Run(view, Led(view.scope, s, ds)).snapshot == Some(s.(progressBasisPoints := Max(0, s.progressBasisPoints)))
  {
    LedDeliversSame(view.scope, s, ds);
    var first := [Delivery(view.scope, s, false)];
    var rest := WithoutRereads(ds);
    RunSplits(view, first, rest);
    assert first[..0] == [];
    var after := View(view.scope, Some(s.(progressBasisPoints := Max(0, s.progressBasisPoints))));
    assert Run(view, first) == after;
    forall j | 0 <= j < |rest| && InScope(view.scope, rest[j]) ensures !Older(after.snapshot.value, rest[j].snapshot) {
      assert InScope(view.scope, ds[j]) && !Older(s, ds[j].snapshot);
    }
    NothingNewer(after, rest);
  }

  /** A snapshot that comes first leaves at least its progress. */
  lemma FirstProgressStays<C(!new)>(view: View<C>, t: Snapshot<C>, ds: seq<Delivery<C>>)
    requires view.snapshot.None? && Delivered(view.scope, ds, t)
    ensures var more := [Delivery(view.scope, t, false)] + ds;
      && SameDelivered(view.scope, ds, more) && Run(view, more).snapshot.Some?
      && Max(0, t.progressBasisPoints) <= Run(view, more).snapshot.value.progressBasisPoints
  {
    OneMoreDeliversSame(view.scope, t, ds);
    var first := [Delivery(view.scope, t, false)];
    RunSplits(view, first, ds);
    assert first[..0] == [];
    NothingFallsBack(Run(view, first), ds);
  }

  // ----- when order does not matter ------------------------------------------------------------------------

  /**
   * Loss aside, arrival order, repetition and rereads do not affect the retained content, exactly when the newest
   * stamp delivered in scope stands for one content.
   */
  lemma OrderDoesNotMatter<C(!new)>(view: View<C>, a: seq<Delivery<C>>)
    requires view.snapshot.None?
    ensures TopsAgree(view.scope, a) <==>
      forall b :: SameDelivered(view.scope, a, b) ==> SameContent(Run(view, a).snapshot, Run(view, b).snapshot)
  {
    hide Run, SameDelivered, Top;
    if TopsAgree(view.scope, a) {
      forall b | SameDelivered(view.scope, a, b) ensures SameContent(Run(view, a).snapshot, Run(view, b).snapshot) {
        AgreedContent(view, a, b);
      }
    }
    if forall b :: SameDelivered(view.scope, a, b) ==> SameContent(Run(view, a).snapshot, Run(view, b).snapshot) {
      forall s, t | Top(view.scope, a, s) && Top(view.scope, a, t) ensures Bare(s) == Bare(t) {
        LedByTop(view, s, a);
        LedByTop(view, t, a);
        assert SameContent(Run(view, a).snapshot, Run(view, Led(view.scope, s, a)).snapshot);
        assert SameContent(Run(view, a).snapshot, Run(view, Led(view.scope, t, a)).snapshot);
      }
    }
  }

  /**
   * They do not affect the retained snapshot at all, its progress included, exactly when in addition no delivered
   * snapshot shows more progress than a newest one.
   */
  lemma OrderDoesNotMatterAtAll<C(!new)>(view: View<C>, a: seq<Delivery<C>>)
    requires view.snapshot.None?
    ensures TopsAgree(view.scope, a) && TopLeads(view.scope, a) <==>
      forall b :: SameDelivered(view.scope, a, b) ==> Run(view, a).snapshot == Run(view, b).snapshot
  {
    hide Run, SameDelivered, Top, Delivered;
    if TopsAgree(view.scope, a) && TopLeads(view.scope, a) {
      forall b | SameDelivered(view.scope, a, b) ensures Run(view, a).snapshot == Run(view, b).snapshot {
        AgreedContent(view, a, b);
      }
    }
    if forall b :: SameDelivered(view.scope, a, b) ==> Run(view, a).snapshot == Run(view, b).snapshot {
      OrderDoesNotMatter(view, a);
      forall s, t | Top(view.scope, a, s) && Delivered(view.scope, a, t)
        ensures Max(0, t.progressBasisPoints) <= Max(0, s.progressBasisPoints)
      {
        LedByTop(view, s, a);
        FirstProgressStays(view, t, a);
        assert Run(view, a).snapshot == Run(view, Led(view.scope, s, a)).snapshot;
        assert Run(view, a).snapshot == Run(view, [Delivery(view.scope, t, false)] + a).snapshot;
      }
    }
  }

  /** One stamp never stands for two contents. */
  ghost predicate StampsDetermineContent<C(!new)>(scope: Scope, ds: seq<Delivery<C>>) {
    forall s, t :: Delivered(scope, ds, s) && Delivered(scope, ds, t) && SameStamp(s, t) ==> Bare(s) == Bare(t)
  }

  /** A snapshot that is not older shows no less progress. */
  ghost predicate ProgressFollowsStamps<C(!new)>(scope: Scope, ds: seq<Delivery<C>>) {
    forall s, t :: Delivered(scope, ds, s) && Delivered(scope, ds, t) && !Older(t, s) ==>
      s.progressBasisPoints <= t.progressBasisPoints
  }

  /** Both conditions hold when the sender stamps every change, and shows progress that never falls. */
  lemma WellStampedSuffices<C(!new)>(scope: Scope, ds: seq<Delivery<C>>)
    ensures StampsDetermineContent(scope, ds) ==> TopsAgree(scope, ds)
    ensures ProgressFollowsStamps(scope, ds) ==> TopLeads(scope, ds)
  {
    forall s, t | Top(scope, ds, s) && Delivered(scope, ds, t) ensures !Older(s, t) {
      var i :| 0 <= i < |ds| && InScope(scope, ds[i]) && ds[i].snapshot == t;
    }
    hide Delivered, Newest;
  }

  function Plain(revision: int, progress: int): Snapshot<()> {
    Snapshot(0, revision, Operation("op", Unfinished("RUNNING"), ()), progress, ())
  }

  /** Without that, the retained progress can depend on order: a refused snapshot does not raise it. */
  lemma ProgressCanDependOnOrder(scope: Scope)
    ensures var view: View<()> := View(scope.(operationId := "op"), None);
      var early, late := Delivery(view.scope, Plain(1, 50), false), Delivery(view.scope, Plain(2, 30), false);
      && StampsDetermineContent(view.scope, [early, late])
      && Run(view, [early, late]).snapshot.Some? && Run(view, [early, late]).snapshot.value.progressBasisPoints == 50
      && Run(view, [late, early]).snapshot.Some? && Run(view, [late, early]).snapshot.value.progressBasisPoints == 30
  {
    var view: View<()> := View(scope.(operationId := "op"), None);
    var early, late := Delivery(view.scope, Plain(1, 50), false), Delivery(view.scope, Plain(2, 30), false);
    assert [early, late][..1] == [early] && [late, early][..1] == [late];
    assert [early][..0] == [] && [late][..0] == [];
    assert Run(view, [early]) == View(view.scope, Some(Plain(1, 50)));
    assert Run(view, [late]) == View(view.scope, Some(Plain(2, 30)));
  }

  /**
   * The stamp and the progress of a view never fall, and the display does not fall before the operation has
   * finished.
   */
  lemma {:induction false} NothingFallsBack<C>(view: View<C>, ds: seq<Delivery<C>>)
    requires view.snapshot.Some?
    ensures Run(view, ds).snapshot.Some?
    ensures var s, t := view.snapshot.value, Run(view, ds).snapshot.value;
      && !Older(t, s) && s.progressBasisPoints <= t.progressBasisPoints
      && (!Finished(s) ==> DisplayedTenths(s) <= DisplayedTenths(t))
    decreases |ds|
  {
    if ds != [] {
      NothingFallsBack(view, ds[..|ds| - 1]);
      DisplayFollowsProgress(view.snapshot.value, Run(view, ds).snapshot.value);
    }
  }

  /** Hundred percent is displayed exactly for a finished operation; before that the display follows the progress. */
  lemma DisplayFollowsProgress<C>(s: Snapshot<C>, t: Snapshot<C>)
    ensures 0 <= DisplayedTenths(s) <= 1000
    ensures DisplayedTenths(s) == 1000 <==> Finished(s)
    ensures !Finished(s) && s.progressBasisPoints <= t.progressBasisPoints ==> DisplayedTenths(s) <= DisplayedTenths(t)
  {
    var p, q := s.progressBasisPoints, t.progressBasisPoints;
    if p <= q {
      assert Max(0, if p < 9999 then p else 9999) <= Max(0, if q < 9999 then q else 9999);
    }
  }

  // ----- one delivery, spelled out -------------------------------------------------------------------------

  /** A missing title id and a null one are the same. */
  predicate SameTitle(a: TitleId, b: TitleId) {
    a == b || (!a.Id? && !b.Id?)
  }

  /** The request the snapshot answers is the one the view shows. */
  predicate Answers<C>(d: Delivery<C>, shown: Scope) {
    && d.scope.operationId == shown.operationId && d.snapshot.operation.id == shown.operationId
    && SameTitle(d.scope.titleId, shown.titleId)
    && d.scope.page == shown.page && d.scope.requestGeneration == shown.requestGeneration
  }

  lemma AnswersIsInScope<C>(d: Delivery<C>, shown: Scope)
    ensures InScope(shown, d) <==> Answers(d, shown)
  {
  }

  /**
   * A delivery is taken exactly when it answers the shown request and nothing is retained yet, or its stamp is newer,
   * or it is a reread with the same stamp. It is taken as it is, except that the larger progress stays, at least zero.
   */
  lemma DeliverySpelled<C>(view: View<C>, d: Delivery<C>)
    ensures var after, s := Run(view, [d]), d.snapshot;
      var taken :=
        && Answers(d, view.scope)
        && (view.snapshot.None?
            || var previous := view.snapshot.value;
               || s.generation > previous.generation
               || (s.generation == previous.generation && s.revision > previous.revision)
               || (s.generation == previous.generation && s.revision == previous.revision && d.reread));
      if !taken then after == view
      else
        && after.scope == d.scope && after.snapshot.Some?
        && var t := after.snapshot.value;
        var floor := if view.snapshot.Some? then view.snapshot.value.progressBasisPoints else 0;
        && t.generation == s.generation && t.revision == s.revision && t.operation == s.operation && t.rest == s.rest
        && t.progressBasisPoints == if s.progressBasisPoints >= floor then s.progressBasisPoints else floor
  {
    AnswersIsInScope(d, view.scope);
    assert [d][..0] == [];
    assert Run(view, []) == view;
  }

  /** The display of an unfinished operation, in tenths of a percent: basis points cut down to tenths, at most 999. */
  lemma DisplaySpelled<C>(s: Snapshot<C>)
    ensures s.operation.state in {Completed, CompletedWithWarnings} ==> DisplayedTenths(s) == 1000
    ensures s.operation.state.Unfinished? ==>
      var p, d := s.progressBasisPoints, DisplayedTenths(s);
      && (p < 0 ==> d == 0) && (p >= 9990 ==> d == 999)
      && (0 <= p < 9990 ==> 10 * d <= p < 10 * d + 10)
  {
  }
}
