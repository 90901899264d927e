/** `handleUpdate`'s planning. With arguments, a recursive walk over the named
    components: a downloaded, outdated component is queued for update and its
    dependencies are walked in turn; a dependency that is not downloaded is queued for
    download; an explicitly named component that is not downloaded or already current is
    skipped with a notice. All components share one visited set, so the first way a
    component is reached decides what happens to it. Without arguments, every outdated
    component is updated and every missing `core-` component downloaded. Both queues
    then pass through `unique`. */
module Updates {
  import opened Options
  import opened Seqs
  import opened Components
  import opened Catalog
  import opened Resolver
  import opened Planners

  /** Whether the walk reached a token as an argument or as a dependency. */
  datatype Origin = Explicit | Dependency

  /** The walk's shared variables; notices stand for the printed messages. */
  datatype UState = UState(visited: set<string>, toUpdate: seq<Component>,
                           toDownload: seq<Component>, notices: seq<Notice>)

  const UStart := UState({}, [], [], [])

  predicate Extends<T(==)>(q: seq<T>, q': seq<T>) {
    |q| <= |q'| && q'[..|q|] == q
  }

  /** A component queued for update between `st` and `st'`: downloaded, outdated, newly
      visited, and with every component its dependencies name visited too. */
  predicate FreshUpdate(catalog: seq<Component>, st: UState, st': UState, c: Component) {
    c in catalog && c.downloaded && c.outdated && c.id !in st.visited && c.id in st'.visited
    && Closed(catalog, c, st'.visited)
  }

  /** A component queued for download between `st` and `st'`: not downloaded, newly
      visited. */
  predicate FreshDownload(catalog: seq<Component>, st: UState, st': UState, c: Component) {
    c in catalog && !c.downloaded && c.id !in st.visited && c.id in st'.visited
  }

  /** What every step of the walk guarantees: the visited set grows, both queues and the
      notices are only appended to, and the new queue entries are fresh and have distinct
      IDs. */
  predicate UStep(catalog: seq<Component>, st: UState, st': UState) {
    && st.visited <= st'.visited
    && Extends(st.toUpdate, st'.toUpdate)
    && (forall i :: |st.toUpdate| <= i < |st'.toUpdate| ==> FreshUpdate(catalog, st, st', st'.toUpdate[i]))
    && DistinctIds(st'.toUpdate[|st.toUpdate|..])
    && Extends(st.toDownload, st'.toDownload)
    && (forall i :: |st.toDownload| <= i < |st'.toDownload| ==> FreshDownload(catalog, st, st', st'.toDownload[i]))
    && DistinctIds(st'.toDownload[|st.toDownload|..])
    && Extends(st.notices, st'.notices)
  }

  /** Every visited outdated component is queued for update, and every visited component
      that is not downloaded is queued for download or reported as skipped. */
  predicate UComplete(catalog: seq<Component>, st: UState) {
    forall m :: m in catalog && m.id in st.visited ==>
      (m.downloaded && m.outdated ==> m in st.toUpdate)
      && (!m.downloaded ==> m in st.toDownload || NotDownloaded(m.id) in st.notices)
  }

  lemma UStepRefl(catalog: seq<Component>, st: UState)
    ensures UStep(catalog, st, st)
  {
    assert st.toUpdate[|st.toUpdate|..] == [];
    assert st.toDownload[|st.toDownload|..] == [];
  }

  /** Two runs of fresh, distinct entries, the first inside `v` and the second outside it,
      make one run of distinct entries. */
  lemma DistinctRuns(q: seq<Component>, q1: seq<Component>, q2: seq<Component>, v: set<string>)
    requires Extends(q, q1) && Extends(q1, q2)
    requires DistinctIds(q1[|q|..]) && DistinctIds(q2[|q1|..])
    requires forall i :: |q| <= i < |q1| ==> q1[i].id in v
    requires forall i :: |q1| <= i < |q2| ==> q2[i].id !in v
    ensures DistinctIds(q2[|q|..])
  {
    var n, n1 := |q|, |q1|;
    forall i, j | 0 <= i < j < |q2[n..]|
      ensures q2[n..][i].id != q2[n..][j].id
    {
      var x, y := q2[n + i], q2[n + j];
      if n + j < n1 {
        assert x == q1[n..][i] && y == q1[n..][j];
      } else if n + i < n1 {
        assert x == q1[n + i];
      } else {
        assert x == q2[n1..][n + i - n1] && y == q2[n1..][n + j - n1];
      }
    }
  }

  lemma UStepTrans(catalog: seq<Component>, a: UState, b: UState, c: UState)
    requires UStep(catalog, a, b) && UStep(catalog, b, c)
    ensures UStep(catalog, a, c)
  {
    var nu, nd := |a.toUpdate|, |a.toDownload|;
    assert c.toUpdate[..nu] == b.toUpdate[..nu];
    assert c.toDownload[..nd] == b.toDownload[..nd];
    assert c.notices[..|a.notices|] == b.notices[..|a.notices|];
    forall i | nu <= i < |c.toUpdate|
      ensures FreshUpdate(catalog, a, c, c.toUpdate[i])
    {
      if i < |b.toUpdate| {
        assert c.toUpdate[i] == b.toUpdate[i];
      }
    }
    forall i | nd <= i < |c.toDownload|
      ensures FreshDownload(catalog, a, c, c.toDownload[i])
    {
      if i < |b.toDownload| {
        assert c.toDownload[i] == b.toDownload[i];
      }
    }
    forall i | nu <= i < |b.toUpdate| ensures b.toUpdate[i].id in b.visited {
      assert FreshUpdate(catalog, a, b, b.toUpdate[i]);
    }
    forall i | nd <= i < |b.toDownload| ensures b.toDownload[i].id in b.visited {
      assert FreshDownload(catalog, a, b, b.toDownload[i]);
    }
    DistinctRuns(a.toUpdate, b.toUpdate, c.toUpdate, b.visited);
    DistinctRuns(a.toDownload, b.toDownload, c.toDownload, b.visited);
  }

  function UUnvisited(catalog: seq<Component>, st: UState): nat {
    Unvisited(catalog, st.visited)
  }

  /** `recurse(tok, isDepend)`: a token naming nothing is reported only when it is an
      argument; otherwise its matches are walked in catalog order. */
  function UpdToken(catalog: seq<Component>, tok: string, origin: Origin, st: UState): (st': UState)
    ensures UStep(catalog, st, st')
    ensures forall m :: m in catalog && Matches(m.id, tok) ==> m.id in st'.visited
    ensures origin == Explicit && Find(catalog, tok) == [] ==> NoSuchComponent(tok) in st'.notices
    ensures DistinctIds(catalog) && UComplete(catalog, st) ==> UComplete(catalog, st')
    decreases UUnvisited(catalog, st), 1, 0
  {
    var ms := Find(catalog, tok);
    if |ms| == 0 then
      if origin == Explicit then
        var st' := st.(notices := st.notices + [NoSuchComponent(tok)]);
        UStepRefl(catalog, st);
        st'
      else
        UStepRefl(catalog, st);
        st
    else
      UpdMatches(catalog, ms, origin, st)
  }

  /** The loop of `recurse` over the matches. */
  function UpdMatches(catalog: seq<Component>, ms: seq<Component>, origin: Origin, st: UState): (st': UState)
    requires forall m :: m in ms ==> m in catalog
    ensures UStep(catalog, st, st')
    ensures forall m :: m in ms ==> m.id in st'.visited
    ensures DistinctIds(catalog) && UComplete(catalog, st) ==> UComplete(catalog, st')
    decreases UUnvisited(catalog, st), 0, |ms|
  {
    if |ms| == 0 then
      UStepRefl(catalog, st);
      st
    else
      var st1 := UpdVisit(catalog, ms[0], origin, st);
      UnvisitedShrinks(catalog, st.visited, st1.visited);
      var st2 := UpdMatches(catalog, ms[1..], origin, st1);
      UStepTrans(catalog, st, st1, st2);
      assert forall m :: m in ms ==> m == ms[0] || m in ms[1..];
      st2
  }

  /** One iteration of that loop. */
  function UpdVisit(catalog: seq<Component>, c: Component, origin: Origin, st: UState): (st': UState)
    requires c in catalog
    ensures UStep(catalog, st, st')
    ensures c.id in st'.visited
    ensures DistinctIds(catalog) && UComplete(catalog, st) ==> UComplete(catalog, st')
    decreases UUnvisited(catalog, st), 0, 0
  {
    if c.id in st.visited then
      UStepRefl(catalog, st);
      st
    else
      var v := st.(visited := st.visited + {c.id});
      VisitShrinks(catalog, st.visited, c);
      if !c.downloaded then
        if origin == Dependency then
          var st' := v.(toDownload := v.toDownload + [c]);
          VisitDownload(catalog, c, st, st');
          st'
        else
          var st' := v.(notices := v.notices + [NotDownloaded(c.id)]);
          VisitNoted(catalog, c, st, [NotDownloaded(c.id)], st');
          st'
      else if !c.outdated then
        var extra := if origin == Explicit then [UpToDate(c.id)] else [];
        var st' := v.(notices := v.notices + extra);
        VisitNoted(catalog, c, st, extra, st');
        st'
      else
        var q := v.(toUpdate := v.toUpdate + [c]);
        var st' := UpdTokens(catalog, c.depends, Dependency, q);
        VisitUpdated(catalog, c, st, q, st');
        st'
  }

  /** Queueing an unvisited dependency that is not downloaded is a step. */
  lemma VisitDownload(catalog: seq<Component>, c: Component, st: UState, st': UState)
    requires c in catalog && !c.downloaded && c.id !in st.visited
    requires st' == st.(visited := st.visited + {c.id}, toDownload := st.toDownload + [c])
    ensures UStep(catalog, st, st')
    ensures DistinctIds(catalog) && UComplete(catalog, st) ==> UComplete(catalog, st')
  {
    var n := |st.toDownload|;
    assert st'.toDownload[..n] == st.toDownload;
    assert st'.toDownload[n..] == [c];
    assert st'.toUpdate[|st.toUpdate|..] == [];
    assert st'.notices[..|st.notices|] == st.notices;
    if DistinctIds(catalog) && UComplete(catalog, st) {
      forall m | m in catalog && m.id in st'.visited && m.id == c.id
        ensures m == c
      {
        DistinctIdsDetermine(catalog, m, c);
      }
    }
  }

  /** Marking a component visited without queueing it, possibly with notices, is a step;
      it keeps completeness when the component needs no update and, if it is not
      downloaded, the notices report it. */
  lemma VisitNoted(catalog: seq<Component>, c: Component, st: UState, extra: seq<Notice>, st': UState)
    requires c in catalog && c.id !in st.visited && !(c.downloaded && c.outdated)
    requires !c.downloaded ==> NotDownloaded(c.id) in extra
    requires st' == st.(visited := st.visited + {c.id}, notices := st.notices + extra)
    ensures UStep(catalog, st, st')
    ensures DistinctIds(catalog) && UComplete(catalog, st) ==> UComplete(catalog, st')
  {
    assert st'.toUpdate[|st.toUpdate|..] == [];
    assert st'.toDownload[|st.toDownload|..] == [];
    assert st'.notices[..|st.notices|] == st.notices;
    if DistinctIds(catalog) && UComplete(catalog, st) {
      forall m | m in catalog && m.id in st'.visited && m.id == c.id
        ensures m == c
      {
        DistinctIdsDetermine(catalog, m, c);
      }
    }
  }

  /** Queueing an outdated component for update and then walking its dependencies is a
      step. */
  lemma VisitUpdated(catalog: seq<Component>, c: Component, st: UState, q: UState, st': UState)
    requires c in catalog && c.downloaded && c.outdated && c.id !in st.visited
    requires q == st.(visited := st.visited + {c.id}, toUpdate := st.toUpdate + [c])
    requires UStep(catalog, q, st')
    requires forall t, m :: t in c.depends && m in catalog && Matches(m.id, t) ==> m.id in st'.visited
    requires DistinctIds(catalog) && UComplete(catalog, q) ==> UComplete(catalog, st')
    ensures UStep(catalog, st, st')
    ensures DistinctIds(catalog) && UComplete(catalog, st) ==> UComplete(catalog, st')
  {
    var n := |st.toUpdate|;
    assert st'.toUpdate[..n + 1] == q.toUpdate;
    assert st'.toUpdate[n] == c;
    assert st'.toUpdate[..n] == st.toUpdate;
    assert st'.toDownload[..|st.toDownload|] == st.toDownload;
    assert st'.notices[..|st.notices|] == st.notices;
    forall i | n <= i < |st'.toUpdate|
      ensures FreshUpdate(catalog, st, st', st'.toUpdate[i])
    {
      if i > n {
        assert FreshUpdate(catalog, q, st', st'.toUpdate[i]);
      }
    }
    forall i | |st.toDownload| <= i < |st'.toDownload|
      ensures FreshDownload(catalog, st, st', st'.toDownload[i])
    {
      assert FreshDownload(catalog, q, st', st'.toDownload[i]);
    }
    var tail := st'.toUpdate[n + 1..];
    assert st'.toUpdate[n..] == [c] + tail;
    assert c.id !in Ids(tail) by {
      forall x | x in tail ensures x.id != c.id {
        var i :| 0 <= i < |tail| && tail[i] == x;
        assert FreshUpdate(catalog, q, st', st'.toUpdate[n + 1 + i]);
      }
    }
    DistinctCons(c, tail);
    if DistinctIds(catalog) && UComplete(catalog, st) {
      forall m | m in catalog && m.id in q.visited
        ensures (m.downloaded && m.outdated ==> m in q.toUpdate)
             && (!m.downloaded ==> m in q.toDownload || NotDownloaded(m.id) in q.notices)
      {
        if m.id == c.id {
          DistinctIdsDetermine(catalog, m, c);
        }
      }
    }
  }

  /** The loops over the arguments and over a component's dependencies. */
  function UpdTokens(catalog: seq<Component>, toks: seq<string>, origin: Origin, st: UState): (st': UState)
    ensures UStep(catalog, st, st')
    ensures forall t, m :: t in toks && m in catalog && Matches(m.id, t) ==> m.id in st'.visited
    ensures origin == Explicit ==>
      forall t :: t in toks && Find(catalog, t) == [] ==> NoSuchComponent(t) in st'.notices
    ensures DistinctIds(catalog) && UComplete(catalog, st) ==> UComplete(catalog, st')
    decreases UUnvisited(catalog, st), 2, |toks|
  {
    if |toks| == 0 then
      UStepRefl(catalog, st);
      st
    else
      var st1 := UpdToken(catalog, toks[0], origin, st);
      UnvisitedShrinks(catalog, st.visited, st1.visited);
      var st2 := UpdTokens(catalog, toks[1..], origin, st1);
      UStepTrans(catalog, st, st1, st2);
      assert forall t :: t in toks ==> t == toks[0] || t in toks[1..];
      assert forall n :: n in st1.notices ==> n in st2.notices by {
        assert st2.notices[..|st1.notices|] == st1.notices;
      }
      st2
  }

  /** Every component queued for download is named by a dependency of a component queued
      for update. */
  predicate Supported(st: UState) {
    forall x :: x in st.toDownload ==>
      exists u, d :: u in st.toUpdate && d in u.depends && Matches(x.id, d)
  }

  /** A notice is only printed for an argument: one that names nothing, or a component it
      names that is not downloaded or already current. */
  predicate NoticeOk(catalog: seq<Component>, args: seq<string>, n: Notice) {
    match n
    case NoSuchComponent(t) => t in args && Find(catalog, t) == []
    case NotDownloaded(id) =>
      exists a, m :: a in args && m in catalog && Matches(m.id, a) && m.id == id && !m.downloaded
    case UpToDate(id) =>
      exists a, m :: a in args && m in catalog && Matches(m.id, a) && m.id == id && m.downloaded && !m.outdated
  }

  /** Why a component is queued for update: an argument names it, or a dependency of a
      component queued for update does. */
  predicate UpdateReason(args: seq<string>, st: UState, x: Component) {
    (exists a :: a in args && Matches(x.id, a))
    || exists u, d :: u in st.toUpdate && d in u.depends && Matches(x.id, d)
  }

  predicate UpdJustified(catalog: seq<Component>, args: seq<string>, st: UState) {
    && Supported(st)
    && (forall x :: x in st.toUpdate ==> UpdateReason(args, st, x))
    && (forall n :: n in st.notices ==> NoticeOk(catalog, args, n))
  }

  /** The walk is only ever asked about an argument, or about a dependency of a component
      already queued for update. */
  predicate OriginOk(args: seq<string>, st: UState, tok: string, origin: Origin) {
    if origin == Explicit then tok in args else exists u :: u in st.toUpdate && tok in u.depends
  }

  /** Growing the update queue keeps support and admissible tokens admissible. */
  lemma JustifiedGrows(catalog: seq<Component>, args: seq<string>, st: UState, st': UState)
    requires UpdJustified(catalog, args, st)
    requires forall u :: u in st.toUpdate ==> u in st'.toUpdate
    requires st'.toDownload == st.toDownload && st'.notices == st.notices
    ensures UpdJustified(catalog, args, st')
    requires forall x :: x in st'.toUpdate && x !in st.toUpdate ==> UpdateReason(args, st, x)
    ensures forall t, o :: OriginOk(args, st, t, o) ==> OriginOk(args, st', t, o)
  {
    forall x | x in st'.toUpdate ensures UpdateReason(args, st', x) {
      assert UpdateReason(args, st, x);
    }
  }

  lemma StepKeepsUpdates(catalog: seq<Component>, st: UState, st': UState)
    requires UStep(catalog, st, st')
    ensures forall u :: u in st.toUpdate ==> u in st'.toUpdate
  {
    forall u | u in st.toUpdate ensures u in st'.toUpdate {
      var i :| 0 <= i < |st.toUpdate| && st.toUpdate[i] == u;
      assert st'.toUpdate[..|st.toUpdate|][i] == u;
    }
  }

  lemma {:induction false} JustifiedToken(catalog: seq<Component>, args: seq<string>, tok: string,
                                          origin: Origin, st: UState)
    requires UpdJustified(catalog, args, st) && OriginOk(args, st, tok, origin)
    ensures UpdJustified(catalog, args, UpdToken(catalog, tok, origin, st))
    decreases UUnvisited(catalog, st), 1, 0
  {
    var ms := Find(catalog, tok);
    if |ms| > 0 {
      JustifiedMatches(catalog, args, tok, ms, origin, st);
    }
  }

  lemma {:induction false} JustifiedMatches(catalog: seq<Component>, args: seq<string>, tok: string,
                                            ms: seq<Component>, origin: Origin, st: UState)
    requires forall m :: m in ms ==> m in catalog && Matches(m.id, tok)
    requires UpdJustified(catalog, args, st) && OriginOk(args, st, tok, origin)
    ensures UpdJustified(catalog, args, UpdMatches(catalog, ms, origin, st))
    decreases UUnvisited(catalog, st), 0, |ms|
  {
    if |ms| > 0 {
      var st1 := UpdVisit(catalog, ms[0], origin, st);
      JustifiedVisit(catalog, args, tok, ms[0], origin, st);
      StepKeepsUpdates(catalog, st, st1);
      assert OriginOk(args, st1, tok, origin) by {
        if origin == Dependency {
          var u :| u in st.toUpdate && tok in u.depends;
          assert u in st1.toUpdate;
        }
      }
      UnvisitedShrinks(catalog, st.visited, st1.visited);
      JustifiedMatches(catalog, args, tok, ms[1..], origin, st1);
    }
  }

  lemma {:induction false} JustifiedVisit(catalog: seq<Component>, args: seq<string>, tok: string,
                                          c: Component, origin: Origin, st: UState)
    requires c in catalog && Matches(c.id, tok)
    requires UpdJustified(catalog, args, st) && OriginOk(args, st, tok, origin)
    ensures UpdJustified(catalog, args, UpdVisit(catalog, c, origin, st))
    decreases UUnvisited(catalog, st), 0, 0
  {
    if c.id !in st.visited && c.downloaded && c.outdated {
      var v := st.(visited := st.visited + {c.id});
      var q := v.(toUpdate := v.toUpdate + [c]);
      assert UpdateReason(args, st, c) by {
        if origin == Dependency {
          var u :| u in st.toUpdate && tok in u.depends;
        }
      }
      JustifiedGrows(catalog, args, st, q);
      assert forall t :: t in c.depends ==> OriginOk(args, q, t, Dependency) by {
        assert c in q.toUpdate;
      }
      VisitShrinks(catalog, st.visited, c);
      JustifiedTokens(catalog, args, c.depends, Dependency, q);
    }
  }

  lemma {:induction false} JustifiedTokens(catalog: seq<Component>, args: seq<string>, toks: seq<string>,
                                           origin: Origin, st: UState)
    requires UpdJustified(catalog, args, st)
    requires forall t :: t in toks ==> OriginOk(args, st, t, origin)
    ensures UpdJustified(catalog, args, UpdTokens(catalog, toks, origin, st))
    decreases UUnvisited(catalog, st), 2, |toks|
  {
    if |toks| > 0 {
      var st1 := UpdToken(catalog, toks[0], origin, st);
      JustifiedToken(catalog, args, toks[0], origin, st);
      StepKeepsUpdates(catalog, st, st1);
      forall t | t in toks[1..] ensures OriginOk(args, st1, t, origin) {
        assert t in toks;
        if origin == Dependency {
          var u :| u in st.toUpdate && t in u.depends;
          assert u in st1.toUpdate;
        }
      }
      UnvisitedShrinks(catalog, st.visited, st1.visited);
      JustifiedTokens(catalog, args, toks[1..], origin, st1);
    }
  }

  /** The end of the walk over the arguments. */
  function Walked(catalog: seq<Component>, args: seq<string>): UState {
    UpdTokens(catalog, args, Explicit, UStart)
  }

  /** The two queues and the notices of `handleUpdate`. */
  datatype UpdatePlan = UpdatePlan(toUpdate: seq<Component>, toDownload: seq<Component>, notices: seq<Notice>)

  predicate NeedsUpdate(c: Component) {
    c.downloaded && c.outdated
  }

  predicate MissingRequired(c: Component) {
    IsRequired(c) && !c.downloaded
  }

  /** The loop over the whole catalog when no argument is given. */
  function UpdateAll(catalog: seq<Component>): UpdatePlan {
    UpdatePlan(Filter(catalog, NeedsUpdate), Filter(catalog, MissingRequired), [])
  }

  /** `handleUpdate`'s plan: the walk or the whole-catalog loop, then `unique` on both
      queues. */
  function PlanUpdate(catalog: seq<Component>, args: seq<string>): UpdatePlan {
    var p := if |args| > 0 then
               var st := Walked(catalog, args);
               UpdatePlan(st.toUpdate, st.toDownload, st.notices)
             else UpdateAll(catalog);
    UpdatePlan(Unique(p.toUpdate), Unique(p.toDownload), p.notices)
  }

  /** With arguments, `unique` leaves the walk's queues as they are. */
  lemma PlanIsWalk(catalog: seq<Component>, args: seq<string>)
    requires |args| > 0
    ensures PlanUpdate(catalog, args).toUpdate == Walked(catalog, args).toUpdate
    ensures PlanUpdate(catalog, args).toDownload == Walked(catalog, args).toDownload
    ensures PlanUpdate(catalog, args).notices == Walked(catalog, args).notices
  {
    var st := Walked(catalog, args);
    assert st.toUpdate[|UStart.toUpdate|..] == st.toUpdate;
    assert st.toDownload[|UStart.toDownload|..] == st.toDownload;
    assert Ids(st.toUpdate) !! {} && Ids(st.toDownload) !! {};
    UniqueFromDistinct(st.toUpdate, {});
    UniqueFromDistinct(st.toDownload, {});
  }

  lemma UpdateTargetedSound(catalog: seq<Component>, args: seq<string>)
    requires |args| > 0
    ensures PlanUpdate(catalog, args).toUpdate == Walked(catalog, args).toUpdate
    ensures PlanUpdate(catalog, args).toDownload == Walked(catalog, args).toDownload
    ensures forall c :: c in PlanUpdate(catalog, args).toUpdate ==> c in catalog && c.downloaded && c.outdated
    ensures forall c :: c in PlanUpdate(catalog, args).toDownload ==> c in catalog && !c.downloaded
    ensures DistinctIds(PlanUpdate(catalog, args).toUpdate) && DistinctIds(PlanUpdate(catalog, args).toDownload)
  {
    PlanIsWalk(catalog, args);
    var st := Walked(catalog, args);
    assert st.toUpdate[|UStart.toUpdate|..] == st.toUpdate;
    assert st.toDownload[|UStart.toDownload|..] == st.toDownload;
    assert forall i :: 0 <= i < |st.toUpdate| ==> FreshUpdate(catalog, UStart, st, st.toUpdate[i]);
    assert forall i :: 0 <= i < |st.toDownload| ==> FreshDownload(catalog, UStart, st, st.toDownload[i]);
  }

  /** The walk's final state is complete, and every component it queues for update has
      had the components its dependencies name visited. */
  lemma WalkComplete(catalog: seq<Component>, args: seq<string>)
    requires DistinctIds(catalog)
    ensures UComplete(catalog, Walked(catalog, args))
    ensures forall u :: u in Walked(catalog, args).toUpdate ==> Closed(catalog, u, Walked(catalog, args).visited)
  {
    var st := Walked(catalog, args);
    assert UComplete(catalog, UStart);
    forall u | u in st.toUpdate ensures Closed(catalog, u, st.visited) {
      var i :| 0 <= i < |st.toUpdate| && st.toUpdate[i] == u;
      assert FreshUpdate(catalog, UStart, st, st.toUpdate[i]);
    }
  }

  /** Every outdated component an argument matches is in the update queue. */
  predicate RequestedCovered(catalog: seq<Component>, args: seq<string>, toUpdate: seq<Component>) {
    forall a, m :: (a in args && m in catalog && Matches(m.id, a) && NeedsUpdate(m)) ==> m in toUpdate
  }

  /** Every outdated dependency of a queued update is queued for update, and every missing
      one is queued for download unless an argument names it. */
  predicate DependenciesCovered(catalog: seq<Component>, args: seq<string>,
                                toUpdate: seq<Component>, toDownload: seq<Component>) {
    forall u, d, m :: (u in toUpdate && d in u.depends && m in catalog && Matches(m.id, d)) ==>
      (NeedsUpdate(m) ==> m in toUpdate)
      && (!m.downloaded ==> m in toDownload || exists a :: a in args && Matches(m.id, a))
  }

  /** With distinct IDs, a targeted update covers what was asked and closes the update queue
      under dependencies. A missing dependency that an argument also names may instead be
      reported as not downloaded, when the argument reached it first (`UpdateOrderMatters`). */
  lemma UpdateTargetedClosed(catalog: seq<Component>, args: seq<string>)
    requires |args| > 0 && DistinctIds(catalog)
    ensures RequestedCovered(catalog, args, PlanUpdate(catalog, args).toUpdate)
    ensures DependenciesCovered(catalog, args, PlanUpdate(catalog, args).toUpdate, PlanUpdate(catalog, args).toDownload)
  {
    PlanIsWalk(catalog, args);
    WalkRequestedCovered(catalog, args);
    WalkDependenciesCovered(catalog, args);
  }

  lemma WalkRequestedCovered(catalog: seq<Component>, args: seq<string>)
    requires DistinctIds(catalog)
    ensures RequestedCovered(catalog, args, Walked(catalog, args).toUpdate)
  {
    WalkComplete(catalog, args);
  }

  lemma WalkDependenciesCovered(catalog: seq<Component>, args: seq<string>)
    requires DistinctIds(catalog)
    ensures DependenciesCovered(catalog, args, Walked(catalog, args).toUpdate, Walked(catalog, args).toDownload)
  {
    WalkComplete(catalog, args);
    WalkJustified(catalog, args);
    var st := Walked(catalog, args);
    forall u, d, m | u in st.toUpdate && d in u.depends && m in catalog && Matches(m.id, d)
      ensures (NeedsUpdate(m) ==> m in st.toUpdate)
        && (!m.downloaded ==> m in st.toDownload || exists a :: a in args && Matches(m.id, a))
    {
      assert m.id in st.visited;
      if !m.downloaded && m !in st.toDownload {
        assert NoticeOk(catalog, args, NotDownloaded(m.id));
      }
    }
  }

  /** Nothing is planned without a reason: each download is named by a dependency of an
      update, each update by an argument or by a dependency of another update, each
      notice concerns an argument, and every argument that names nothing gets a notice. */
  lemma UpdateTargetedJustified(catalog: seq<Component>, args: seq<string>)
    requires |args| > 0
    ensures forall x :: x in PlanUpdate(catalog, args).toDownload ==>
      exists u, d :: u in PlanUpdate(catalog, args).toUpdate && d in u.depends && Matches(x.id, d)
    ensures forall x :: x in PlanUpdate(catalog, args).toUpdate ==>
      (exists a :: a in args && Matches(x.id, a))
      || exists u, d :: u in PlanUpdate(catalog, args).toUpdate && d in u.depends && Matches(x.id, d)
    ensures forall n :: n in PlanUpdate(catalog, args).notices ==> NoticeOk(catalog, args, n)
    ensures forall a :: a in args && Find(catalog, a) == [] ==> NoSuchComponent(a) in PlanUpdate(catalog, args).notices
  {
    UpdateTargetedSound(catalog, args);
    WalkJustified(catalog, args);
    var st := Walked(catalog, args);
    assert forall x :: x in st.toUpdate ==> UpdateReason(args, st, x);
  }

  lemma WalkJustified(catalog: seq<Component>, args: seq<string>)
    ensures UpdJustified(catalog, args, Walked(catalog, args))
  {
    JustifiedTokens(catalog, args, args, Explicit, UStart);
  }

  /** Without arguments, the plan updates exactly the outdated components and downloads
      exactly the missing components whose ID starts with `core-` (exactly by ID; exactly
      as components when catalog IDs are distinct), with no notices. */
  lemma UpdateAllSpec(catalog: seq<Component>)
    ensures forall c :: c in PlanUpdate(catalog, []).toUpdate ==> c in catalog && NeedsUpdate(c)
    ensures forall c :: c in PlanUpdate(catalog, []).toDownload ==> c in catalog && MissingRequired(c)
    ensures forall c :: c in catalog && NeedsUpdate(c) ==> c.id in Ids(PlanUpdate(catalog, []).toUpdate)
    ensures forall c :: c in catalog && MissingRequired(c) ==> c.id in Ids(PlanUpdate(catalog, []).toDownload)
    ensures DistinctIds(PlanUpdate(catalog, []).toUpdate) && DistinctIds(PlanUpdate(catalog, []).toDownload)
    ensures PlanUpdate(catalog, []).notices == []
  {
    var p := UpdateAll(catalog);
    UniqueSpec(p.toUpdate);
    UniqueSpec(p.toDownload);
    SubsequenceMembers(Unique(p.toUpdate), p.toUpdate);
    SubsequenceMembers(Unique(p.toDownload), p.toDownload);
    forall c | c in catalog && NeedsUpdate(c) ensures c.id in Ids(Unique(p.toUpdate)) {
      assert c in p.toUpdate;
    }
    forall c | c in catalog && MissingRequired(c) ensures c.id in Ids(Unique(p.toDownload)) {
      assert c in p.toDownload;
    }
  }

  /** A component with only the fields the planners look at set. */
  function Sample(id: string, downloaded: bool, outdated: bool, depends: seq<string>): Component {
    Component(id, "", "", "", "", None, 0, 0, "", depends, downloaded, outdated, 0)
  }

  /** An outdated `app` depending on a missing `lib`. */
  const App := Sample("app", true, true, ["lib"])
  const Lib := Sample("lib", false, false, [])
  const AppLib := [App, Lib]

  lemma AppLibFind()
    ensures Find(AppLib, "app") == [App] && Find(AppLib, "lib") == [Lib]
  {
    assert !Matches("lib", "app") && !Matches("app", "lib");
    FindCons(App, [Lib], "app");
    FindCons(Lib, [], "app");
    FindCons(App, [Lib], "lib");
    FindCons(Lib, [], "lib");
  }

  /** Walking `lib` from a state where it is already visited changes nothing. */
  lemma LibSeen(origin: Origin, st: UState)
    requires "lib" in st.visited
    ensures UpdToken(AppLib, "lib", origin, st) == st
    ensures UpdTokens(AppLib, ["lib"], origin, st) == st
  {
    AppLibFind();
    assert Lib.id == "lib";
    assert UpdVisit(AppLib, Lib, origin, st) == st;
    assert UpdMatches(AppLib, [Lib][1..], origin, st) == st;
    assert UpdMatches(AppLib, [Lib], origin, st) == st;
    assert UpdTokens(AppLib, ["lib"][1..], origin, st) == st;
  }

  /** The dependency walk from `app`: `lib` is queued for download. */
  lemma LibDownloaded()
    ensures UpdTokens(AppLib, ["lib"], Dependency, UState({"app"}, [App], [], []))
         == UState({"app", "lib"}, [App], [Lib], [])
  {
    AppLibFind();
    var q := UState({"app"}, [App], [], []);
    var d := UState({"app", "lib"}, [App], [Lib], []);
    assert Lib.id == "lib" && !Lib.downloaded;
    assert q.(visited := q.visited + {"lib"}).(toDownload := q.toDownload + [Lib]) == d;
    assert UpdVisit(AppLib, Lib, Dependency, q) == d;
    assert UpdMatches(AppLib, [Lib][1..], Dependency, d) == d;
    assert UpdMatches(AppLib, [Lib], Dependency, q) == d;
    assert UpdToken(AppLib, "lib", Dependency, q) == d;
    assert UpdTokens(AppLib, ["lib"][1..], Dependency, d) == d;
  }

  /** Walking `app` with nothing visited updates it and downloads `lib`. */
  lemma AppUpdated()
    ensures UpdToken(AppLib, "app", Explicit, UStart) == UState({"app", "lib"}, [App], [Lib], [])
  {
    AppLibFind();
    LibDownloaded();
    var d := UState({"app", "lib"}, [App], [Lib], []);
    assert App.id == "app" && App.downloaded && App.outdated && App.depends == ["lib"];
    assert UStart.(visited := UStart.visited + {"app"}).(toUpdate := UStart.toUpdate + [App])
        == UState({"app"}, [App], [], []);
    assert UpdVisit(AppLib, App, Explicit, UStart) == d;
    assert UpdMatches(AppLib, [App][1..], Explicit, d) == d;
    assert UpdMatches(AppLib, [App], Explicit, UStart) == d;
  }

  /** `update app lib`: `app` is updated, and its dependency `lib` downloaded. */
  lemma AppFirst()
    ensures Walked(AppLib, ["app", "lib"]) == UState({"app", "lib"}, [App], [Lib], [])
  {
    var d := UState({"app", "lib"}, [App], [Lib], []);
    AppUpdated();
    LibSeen(Explicit, d);
    assert ["app", "lib"][1..] == ["lib"];
    assert UpdTokens(AppLib, ["app", "lib"], Explicit, UStart) == UpdTokens(AppLib, ["lib"], Explicit, d);
  }

  /** Walking `lib` as an argument with nothing visited skips it with a notice. */
  lemma LibSkipped()
    ensures UpdToken(AppLib, "lib", Explicit, UStart) == UState({"lib"}, [], [], [NotDownloaded("lib")])
  {
    AppLibFind();
    var r := UState({"lib"}, [], [], [NotDownloaded("lib")]);
    assert Lib.id == "lib" && !Lib.downloaded;
    assert UStart.(visited := UStart.visited + {"lib"}).(notices := UStart.notices + [NotDownloaded("lib")]) == r;
    assert UpdVisit(AppLib, Lib, Explicit, UStart) == r;
    assert UpdMatches(AppLib, [Lib][1..], Explicit, r) == r;
    assert UpdMatches(AppLib, [Lib], Explicit, UStart) == r;
  }

  /** Walking `app` after `lib` was skipped updates `app` only. */
  lemma AppAfterLib()
    ensures UpdToken(AppLib, "app", Explicit, UState({"lib"}, [], [], [NotDownloaded("lib")]))
         == UState({"lib", "app"}, [App], [], [NotDownloaded("lib")])
  {
    AppLibFind();
    var r := UState({"lib"}, [], [], [NotDownloaded("lib")]);
    var r' := UState({"lib", "app"}, [App], [], [NotDownloaded("lib")]);
    assert App.id == "app" && App.downloaded && App.outdated && App.depends == ["lib"];
    assert r.(visited := r.visited + {"app"}).(toUpdate := r.toUpdate + [App]) == r';
    LibSeen(Dependency, r');
    assert UpdVisit(AppLib, App, Explicit, r) == r';
    assert UpdMatches(AppLib, [App][1..], Explicit, r') == r';
    assert UpdMatches(AppLib, [App], Explicit, r) == r';
  }

  /** A one-token walk is that token's walk. */
  lemma TokensOfOne(catalog: seq<Component>, toks: seq<string>, origin: Origin, st: UState)
    requires |toks| == 1
    ensures UpdTokens(catalog, toks, origin, st) == UpdToken(catalog, toks[0], origin, st)
  {
    var st1 := UpdToken(catalog, toks[0], origin, st);
    assert toks[1..] == [];
    assert UpdTokens(catalog, toks[1..], origin, st1) == st1;
  }

  /** `update lib app`: `lib` is skipped as an argument, and `app`'s walk then finds it
      already visited. */
  lemma LibFirst()
    ensures Walked(AppLib, ["lib", "app"]) == UState({"lib", "app"}, [App], [], [NotDownloaded("lib")])
  {
    var r := UState({"lib"}, [], [], [NotDownloaded("lib")]);
    var r' := UState({"lib", "app"}, [App], [], [NotDownloaded("lib")]);
    LibSkipped();
    AppAfterLib();
    TokensOfOne(AppLib, ["app"], Explicit, r);
    assert ["lib", "app"][1..] == ["app"];
    assert UpdTokens(AppLib, ["lib", "app"], Explicit, UStart) == UpdTokens(AppLib, ["app"], Explicit, r);
  }

  /** The walk's shared visited set makes the plan depend on argument order: `update app
      lib` downloads the missing dependency `lib`, while `update lib app` skips it with a
      notice, because `lib` is first reached as an argument. */
  lemma UpdateOrderMatters()
    ensures PlanUpdate(AppLib, ["app", "lib"]) == UpdatePlan([App], [Lib], [])
    ensures PlanUpdate(AppLib, ["lib", "app"]) == UpdatePlan([App], [], [NotDownloaded("lib")])
  {
    AppFirst();
    LibFirst();
    UpdateTargetedSound(AppLib, ["app", "lib"]);
    UpdateTargetedSound(AppLib, ["lib", "app"]);
  }

  /** `core` itself is not required: only IDs with the `core-` prefix are, so an
      untargeted update with neither installed downloads `core-audio` and not `core`. */
  lemma UpdateAllRequiredPrefix()
    ensures var core, audio := Sample("core", false, false, []), Sample("core-audio", false, false, []);
      PlanUpdate([core, audio], []).toDownload == [audio]
  {
    var core, audio := Sample("core", false, false, []), Sample("core-audio", false, false, []);
    assert !MissingRequired(core) && MissingRequired(audio);
    assert Filter([core, audio], MissingRequired) == [audio] by {
      assert [core, audio][1..] == [audio];
      assert [audio][1..] == [];
    }
    assert Unique([audio]) == [audio] by {
      UniqueFromCons(audio, [], {});
    }
  }
}
