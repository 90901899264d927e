/** `resolveQueue`: the dependency closure of a list of requested tokens under a selection
    predicate. The closures `add` (one token) and its loop over matches become three
    mutually recursive functions over an explicit state; a component is visited at most
    once, and only a visited component that passes the predicate is queued and has its
    dependencies resolved in turn. The recursion ends because every visit removes one
    catalog ID from the unvisited ones. */
module Resolver {
  import opened Components
  import opened Catalog

  /** The closures' shared variables: the visited IDs, the queue, and the tokens reported as
      naming nothing (the program prints these; the model collects them). */
  datatype State = State(visited: set<string>, queue: seq<Component>, missing: seq<string>)

  const Start := State({}, [], [])

  function Unvisited(catalog: seq<Component>, visited: set<string>): nat {
    |Ids(catalog) - visited|
  }

  lemma UnvisitedShrinks(catalog: seq<Component>, visited: set<string>, visited': set<string>)
    requires visited <= visited'
    ensures Unvisited(catalog, visited') <= Unvisited(catalog, visited)
  {
    SubsetCard(Ids(catalog) - visited', Ids(catalog) - visited);
  }

  lemma SubsetCard<T>(a: set<T>, b: set<T>)
    requires a <= b
    ensures |a| <= |b|
  {
    if a != {} {
      var x :| x in a;
      SubsetCard(a - {x}, b - {x});
    }
  }

  lemma VisitShrinks(catalog: seq<Component>, visited: set<string>, c: Component)
    requires c in catalog && c.id !in visited
    ensures Unvisited(catalog, visited + {c.id}) < Unvisited(catalog, visited)
  {
    assert Ids(catalog) - visited == (Ids(catalog) - (visited + {c.id})) + {c.id};
  }

  /** Every component named by a dependency of `c` has been visited. */
  predicate Closed(catalog: seq<Component>, c: Component, visited: set<string>) {
    forall d, m :: d in c.depends && m in catalog && Matches(m.id, d) ==> m.id in visited
  }

  /** Every dependency of `c` that names nothing has been reported. */
  predicate DepsReported(catalog: seq<Component>, c: Component, missing: seq<string>) {
    forall d :: d in c.depends && Find(catalog, d) == [] ==> d in missing
  }

  /** A component queued between `st` and `st'`: from the catalog, selected, not visited
      before, visited after, with all its dependencies visited and those naming nothing
      reported. */
  predicate Fresh(catalog: seq<Component>, crit: Component -> bool, st: State, st': State, c: Component) {
    c in catalog && crit(c) && c.id !in st.visited && c.id in st'.visited
    && Closed(catalog, c, st'.visited) && DepsReported(catalog, c, st'.missing)
  }

  /** What every resolution step guarantees: the visited set grows, the queue and the
      report list are only appended to, every newly queued component is `Fresh`, the new
      queue entries have distinct IDs, and every newly reported token names nothing. */
  predicate Step(catalog: seq<Component>, crit: Component -> bool, st: State, st': State) {
    && st.visited <= st'.visited
    && |st.queue| <= |st'.queue| && st'.queue[..|st.queue|] == st.queue
    && (forall i :: |st.queue| <= i < |st'.queue| ==> Fresh(catalog, crit, st, st', st'.queue[i]))
    && DistinctIds(st'.queue[|st.queue|..])
    && |st.missing| <= |st'.missing| && st'.missing[..|st.missing|] == st.missing
    && (forall i :: |st.missing| <= i < |st'.missing| ==> Find(catalog, st'.missing[i]) == [])
  }

  /** Every visited catalog component that passes the predicate is queued. */
  predicate Complete(catalog: seq<Component>, crit: Component -> bool, st: State) {
    forall m :: m in catalog && m.id in st.visited && crit(m) ==> m in st.queue
  }

  lemma StepRefl(catalog: seq<Component>, crit: Component -> bool, st: State)
    ensures Step(catalog, crit, st, st)
  {
    assert st.queue[|st.queue|..] == [];
  }

  lemma StepTrans(catalog: seq<Component>, crit: Component -> bool, a: State, b: State, c: State)
    requires Step(catalog, crit, a, b) && Step(catalog, crit, b, c)
    ensures Step(catalog, crit, a, c)
  {
    var na, nb := |a.queue|, |b.queue|;
    assert c.queue[..na] == b.queue[..na];
    assert forall t :: t in b.missing ==> t in c.missing by {
      assert c.missing[..|b.missing|] == b.missing;
    }
    forall i | na <= i < |c.queue|
      ensures Fresh(catalog, crit, a, c, c.queue[i])
    {
      if i < nb {
        assert c.queue[i] == b.queue[i];
      }
    }
    forall i, j | 0 <= i < j < |c.queue[na..]|
      ensures c.queue[na..][i].id != c.queue[na..][j].id
    {
      var x, y := c.queue[na + i], c.queue[na + j];
      if na + j < nb {
        assert x == b.queue[na..][i] && y == b.queue[na..][j];
      } else if na + i < nb {
        assert x == b.queue[na + i];
        assert Fresh(catalog, crit, a, b, b.queue[na + i]);
        assert Fresh(catalog, crit, b, c, c.queue[na + j]);
      } else {
        assert x == c.queue[nb..][na + i - nb] && y == c.queue[nb..][na + j - nb];
      }
    }
    assert c.missing[..|a.missing|] == b.missing[..|a.missing|];
    forall i | |a.missing| <= i < |c.missing|
      ensures Find(catalog, c.missing[i]) == []
    {
      if i < |b.missing| {
        assert c.missing[i] == b.missing[i];
      }
    }
  }

  /** `add(tok)`: a token naming nothing is reported; otherwise its matches are visited in
      catalog order. Afterwards every component the token names has been visited. */
  function AddToken(catalog: seq<Component>, crit: Component -> bool, tok: string, st: State): (st': State)
    ensures Step(catalog, crit, st, st')
    ensures forall m :: m in catalog && Matches(m.id, tok) ==> m.id in st'.visited
    ensures Find(catalog, tok) == [] ==> tok in st'.missing
    ensures DistinctIds(catalog) && Complete(catalog, crit, st) ==> Complete(catalog, crit, st')
    decreases Unvisited(catalog, st.visited), 1, 0
  {
    var ms := Find(catalog, tok);
    if |ms| == 0 then
      var st' := st.(missing := st.missing + [tok]);
      assert st'.missing[|st.missing|..] == [tok];
      assert st.queue[|st.queue|..] == [];
      st'
    else
      AddMatches(catalog, crit, ms, st)
  }

  /** The loop of `add` over the matches. */
  function AddMatches(catalog: seq<Component>, crit: Component -> bool, ms: seq<Component>, st: State): (st': State)
    requires forall m :: m in ms ==> m in catalog
    ensures Step(catalog, crit, st, st')
    ensures forall m :: m in ms ==> m.id in st'.visited
    ensures DistinctIds(catalog) && Complete(catalog, crit, st) ==> Complete(catalog, crit, st')
    decreases Unvisited(catalog, st.visited), 0, |ms|
  {
    if |ms| == 0 then
      StepRefl(catalog, crit, st);
      st
    else
      var st1 := Visit(catalog, crit, ms[0], st);
      UnvisitedShrinks(catalog, st.visited, st1.visited);
      var st2 := AddMatches(catalog, crit, ms[1..], st1);
      StepTrans(catalog, crit, st, st1, st2);
      assert forall m :: m in ms ==> m == ms[0] || m in ms[1..];
      st2
  }

  /** One iteration of that loop: skip a visited component; otherwise mark it visited, and
      when it passes the predicate queue it and resolve each of its dependencies. */
  function Visit(catalog: seq<Component>, crit: Component -> bool, c: Component, st: State): (st': State)
    requires c in catalog
    ensures Step(catalog, crit, st, st')
    ensures c.id in st'.visited
    ensures DistinctIds(catalog) && Complete(catalog, crit, st) ==> Complete(catalog, crit, st')
    decreases Unvisited(catalog, st.visited), 0, 0
  {
    if c.id in st.visited then
      StepRefl(catalog, crit, st);
      st
    else
      var v := st.(visited := st.visited + {c.id});
      VisitShrinks(catalog, st.visited, c);
      if crit(c) then
        var q := v.(queue := v.queue + [c]);
        var st' := AddTokens(catalog, crit, c.depends, q);
        VisitQueued(catalog, crit, c, st, q, st');
        st'
      else
        VisitSkipped(catalog, crit, c, st, v);
        v
  }

  /** `Visit` on a selected, unvisited component is a `Step`, and keeps completeness. */
  lemma VisitQueued(catalog: seq<Component>, crit: Component -> bool, c: Component,
                    st: State, q: State, st': State)
    requires c in catalog && crit(c) && c.id !in st.visited
    requires q == State(st.visited + {c.id}, st.queue + [c], st.missing)
    requires Step(catalog, crit, q, st')
    requires forall t, m :: t in c.depends && m in catalog && Matches(m.id, t) ==> m.id in st'.visited
    requires DepsReported(catalog, c, st'.missing)
    requires DistinctIds(catalog) && Complete(catalog, crit, q) ==> Complete(catalog, crit, st')
    ensures Step(catalog, crit, st, st')
    ensures DistinctIds(catalog) && Complete(catalog, crit, st) ==> Complete(catalog, crit, st')
  {
    var n := |st.queue|;
    assert st'.queue[..n + 1] == q.queue;
    assert st'.queue[n] == c;
    assert st'.queue[..n] == st.queue;
    forall i | n <= i < |st'.queue|
      ensures Fresh(catalog, crit, st, st', st'.queue[i])
    {
      if i > n {
        assert Fresh(catalog, crit, q, st', st'.queue[i]);
      }
    }
    var tail := st'.queue[n + 1..];
    assert st'.queue[n..] == [c] + tail;
    assert c.id !in Ids(tail) by {
      forall x | x in tail ensures x.id != c.id {
        var i :| 0 <= i < |tail| && tail[i] == x;
        assert x == st'.queue[n + 1 + i];
        assert Fresh(catalog, crit, q, st', st'.queue[n + 1 + i]);
      }
    }
    DistinctCons(c, tail);
    if DistinctIds(catalog) && Complete(catalog, crit, st) {
      forall m | m in catalog && m.id in q.visited && crit(m)
        ensures m in q.queue
      {
        if m.id == c.id {
          DistinctIdsDetermine(catalog, m, c);
        } else {
          assert m in st.queue;
        }
      }
    }
  }

  /** `Visit` on an unselected, unvisited component only marks it visited. */
  lemma VisitSkipped(catalog: seq<Component>, crit: Component -> bool, c: Component,
                     st: State, v: State)
    requires c in catalog && !crit(c) && c.id !in st.visited
    requires v == st.(visited := st.visited + {c.id})
    ensures Step(catalog, crit, st, v)
    ensures DistinctIds(catalog) && Complete(catalog, crit, st) ==> Complete(catalog, crit, v)
  {
    assert v.queue[|st.queue|..] == [];
    assert v.missing[..|st.missing|] == st.missing;
    if DistinctIds(catalog) && Complete(catalog, crit, st) {
      forall m | m in catalog && m.id in v.visited && crit(m)
        ensures m in v.queue
      {
        if m.id == c.id {
          DistinctIdsDetermine(catalog, m, c);
        }
      }
    }
  }

  /** The loops of `resolveQueue` and of `add` over a component's dependencies: resolve
      each token in turn. */
  function AddTokens(catalog: seq<Component>, crit: Component -> bool, toks: seq<string>, st: State): (st': State)
    ensures Step(catalog, crit, st, st')
    ensures forall t, m :: t in toks && m in catalog && Matches(m.id, t) ==> m.id in st'.visited
    ensures forall t :: t in toks && Find(catalog, t) == [] ==> t in st'.missing
    ensures DistinctIds(catalog) && Complete(catalog, crit, st) ==> Complete(catalog, crit, st')
    decreases Unvisited(catalog, st.visited), 2, |toks|
  {
    if |toks| == 0 then
      StepRefl(catalog, crit, st);
      st
    else
      var st1 := AddToken(catalog, crit, toks[0], st);
      UnvisitedShrinks(catalog, st.visited, st1.visited);
      var st2 := AddTokens(catalog, crit, toks[1..], st1);
      StepTrans(catalog, crit, st, st1, st2);
      assert forall t :: t in toks ==> t == toks[0] || t in toks[1..];
      assert forall t :: t in st1.missing ==> t in st2.missing by {
        assert st2.missing[..|st1.missing|] == st1.missing;
      }
      st2
  }

  /** The tokens `resolveQueue` starts from: the arguments, or every catalog ID when there
      are none. */
  function Requested(catalog: seq<Component>, args: seq<string>): (toks: seq<string>)
    ensures |args| > 0 ==> toks == args
    ensures |args| == 0 ==> |toks| == |catalog| && forall i :: 0 <= i < |catalog| ==> toks[i] == catalog[i].id
  {
    if |args| > 0 then args else seq(|catalog|, i requires 0 <= i < |catalog| => catalog[i].id)
  }

  /** The final state of `resolveQueue`'s closures. */
  function Resolve(catalog: seq<Component>, args: seq<string>, crit: Component -> bool): State {
    AddTokens(catalog, crit, Requested(catalog, args), Start)
  }

  /** `resolveQueue`: the queue, passed through `unique`. */
  function ResolveQueue(catalog: seq<Component>, args: seq<string>, crit: Component -> bool): seq<Component> {
    Unique(Resolve(catalog, args, crit).queue)
  }

  /** Every queued component is from the catalog and passes the predicate, no ID is queued
      twice, and so the final `unique` changes nothing. */
  lemma ResolveSound(catalog: seq<Component>, args: seq<string>, crit: Component -> bool)
    ensures forall c :: c in ResolveQueue(catalog, args, crit) ==> c in catalog && crit(c)
    ensures DistinctIds(ResolveQueue(catalog, args, crit))
    ensures ResolveQueue(catalog, args, crit) == Resolve(catalog, args, crit).queue
  {
    var st := Resolve(catalog, args, crit);
    assert st.queue[|Start.queue|..] == st.queue;
    assert forall i :: 0 <= i < |st.queue| ==> Fresh(catalog, crit, Start, st, st.queue[i]);
    assert Ids(st.queue) !! {};
    UniqueFromDistinct(st.queue, {});
  }

  /** Dependency closure: in a catalog with distinct IDs, every component a queued
      component's dependency names is queued if it passes the predicate, and so is every
      component a requested token names. */
  lemma ResolveClosed(catalog: seq<Component>, args: seq<string>, crit: Component -> bool)
    requires DistinctIds(catalog)
    ensures forall c, d, m ::
      (c in ResolveQueue(catalog, args, crit) && d in c.depends && m in catalog && Matches(m.id, d) && crit(m))
      ==> m in ResolveQueue(catalog, args, crit)
    ensures forall t, m ::
      (t in Requested(catalog, args) && m in catalog && Matches(m.id, t) && crit(m))
      ==> m in ResolveQueue(catalog, args, crit)
  {
    ResolveSound(catalog, args, crit);
    var st := Resolve(catalog, args, crit);
    assert Complete(catalog, crit, Start);
    assert Complete(catalog, crit, st);
    forall c, d, m | c in st.queue && d in c.depends && m in catalog && Matches(m.id, d) && crit(m)
      ensures m in st.queue
    {
      var i :| 0 <= i < |st.queue| && st.queue[i] == c;
      assert Fresh(catalog, crit, Start, st, st.queue[i]);
    }
  }

  /** With no arguments, in a catalog with distinct IDs, the queue holds exactly the
      catalog components that pass the predicate. */
  lemma ResolveAllWithoutArgs(catalog: seq<Component>, crit: Component -> bool)
    requires DistinctIds(catalog)
    ensures forall c :: c in ResolveQueue(catalog, [], crit) <==> c in catalog && crit(c)
  {
    ResolveSound(catalog, [], crit);
    ResolveClosed(catalog, [], crit);
    var toks := Requested(catalog, []);
    forall c | c in catalog && crit(c)
      ensures c in ResolveQueue(catalog, [], crit)
    {
      var i :| 0 <= i < |catalog| && catalog[i] == c;
      assert toks[i] == c.id && toks[i] in toks;
    }
  }

  /** Why the `k`-th queued component is there: a requested token names it, or a
      dependency of a component queued before it does. */
  predicate Reason(q: seq<Component>, roots: seq<string>, k: int)
    requires 0 <= k < |q|
  {
    (exists t :: t in roots && Matches(q[k].id, t))
    || (exists j, d :: 0 <= j < k && d in q[j].depends && Matches(q[k].id, d))
  }

  predicate Justified(q: seq<Component>, roots: seq<string>) {
    forall k :: 0 <= k < |q| ==> Reason(q, roots, k)
  }

  /** A token the resolver may be asked about: requested, or a dependency of a queued
      component. */
  predicate TokenOk(q: seq<Component>, roots: seq<string>, tok: string) {
    tok in roots || exists j :: 0 <= j < |q| && tok in q[j].depends
  }

  /** Extending the queue keeps the reasons of the entries already there, and keeps
      admissible tokens admissible. */
  lemma ReasonExtends(q: seq<Component>, q': seq<Component>, roots: seq<string>)
    requires |q| <= |q'| && q'[..|q|] == q
    ensures forall k :: 0 <= k < |q| && Reason(q, roots, k) ==> Reason(q', roots, k)
    ensures forall t :: TokenOk(q, roots, t) ==> TokenOk(q', roots, t)
  {
    forall k | 0 <= k < |q| && Reason(q, roots, k)
      ensures Reason(q', roots, k)
    {
      assert q'[k] == q[k];
      if !(exists t :: t in roots && Matches(q[k].id, t)) {
        var j, d :| 0 <= j < k && d in q[j].depends && Matches(q[k].id, d);
        assert q'[j] == q[j];
      }
    }
    forall t | TokenOk(q, roots, t)
      ensures TokenOk(q', roots, t)
    {
      if t !in roots {
        var j :| 0 <= j < |q| && t in q[j].depends;
        assert q'[j] == q[j];
      }
    }
  }

  lemma {:induction false} JustifiedToken(catalog: seq<Component>, crit: Component -> bool,
                                          roots: seq<string>, tok: string, st: State)
    requires Justified(st.queue, roots) && TokenOk(st.queue, roots, tok)
    ensures Justified(AddToken(catalog, crit, tok, st).queue, roots)
    decreases Unvisited(catalog, st.visited), 1, 0
  {
    var ms := Find(catalog, tok);
    if |ms| > 0 {
      JustifiedMatches(catalog, crit, roots, tok, ms, st);
    }
  }

  lemma {:induction false} JustifiedMatches(catalog: seq<Component>, crit: Component -> bool,
                                            roots: seq<string>, tok: string, ms: seq<Component>, st: State)
    requires forall m :: m in ms ==> m in catalog && Matches(m.id, tok)
    requires Justified(st.queue, roots) && TokenOk(st.queue, roots, tok)
    ensures Justified(AddMatches(catalog, crit, ms, st).queue, roots)
    decreases Unvisited(catalog, st.visited), 0, |ms|
  {
    if |ms| > 0 {
      var st1 := Visit(catalog, crit, ms[0], st);
      JustifiedVisit(catalog, crit, roots, tok, ms[0], st);
      ReasonExtends(st.queue, st1.queue, roots);
      UnvisitedShrinks(catalog, st.visited, st1.visited);
      JustifiedMatches(catalog, crit, roots, tok, ms[1..], st1);
    }
  }

  lemma {:induction false} JustifiedVisit(catalog: seq<Component>, crit: Component -> bool,
                                          roots: seq<string>, tok: string, c: Component, st: State)
    requires c in catalog && Matches(c.id, tok)
    requires Justified(st.queue, roots) && TokenOk(st.queue, roots, tok)
    ensures Justified(Visit(catalog, crit, c, st).queue, roots)
    decreases Unvisited(catalog, st.visited), 0, 0
  {
    if c.id !in st.visited && crit(c) {
      var n := |st.queue|;
      var q := State(st.visited + {c.id}, st.queue + [c], st.missing);
      ReasonExtends(st.queue, q.queue, roots);
      assert q.queue[n] == c;
      assert Reason(q.queue, roots, n) by {
        if tok !in roots {
          var j :| 0 <= j < n && tok in st.queue[j].depends;
          assert q.queue[j] == st.queue[j];
        }
      }
      forall t | t in c.depends
        ensures TokenOk(q.queue, roots, t)
      {
        assert t in q.queue[n].depends;
      }
      VisitShrinks(catalog, st.visited, c);
      JustifiedTokens(catalog, crit, roots, c.depends, q);
    }
  }

  lemma {:induction false} JustifiedTokens(catalog: seq<Component>, crit: Component -> bool,
                                           roots: seq<string>, toks: seq<string>, st: State)
    requires Justified(st.queue, roots)
    requires forall t :: t in toks ==> TokenOk(st.queue, roots, t)
    ensures Justified(AddTokens(catalog, crit, toks, st).queue, roots)
    decreases Unvisited(catalog, st.visited), 2, |toks|
  {
    if |toks| > 0 {
      var st1 := AddToken(catalog, crit, toks[0], st);
      JustifiedToken(catalog, crit, roots, toks[0], st);
      ReasonExtends(st.queue, st1.queue, roots);
      UnvisitedShrinks(catalog, st.visited, st1.visited);
      JustifiedTokens(catalog, crit, roots, toks[1..], st1);
    }
  }

  /** Nothing is queued without a reason: each queued component is named by a requested
      token or by a dependency of a component queued before it. */
  lemma ResolveJustified(catalog: seq<Component>, args: seq<string>, crit: Component -> bool)
    ensures Justified(ResolveQueue(catalog, args, crit), Requested(catalog, args))
  {
    ResolveSound(catalog, args, crit);
    JustifiedTokens(catalog, crit, Requested(catalog, args), Requested(catalog, args), Start);
  }

  /** Every reported token is one the resolver may be asked about. */
  predicate Reported(st: State, roots: seq<string>) {
    forall i :: 0 <= i < |st.missing| ==> TokenOk(st.queue, roots, st.missing[i])
  }

  lemma ReportedExtends(st: State, st': State, roots: seq<string>)
    requires Reported(st, roots) && st'.missing == st.missing
    requires |st.queue| <= |st'.queue| && st'.queue[..|st.queue|] == st.queue
    ensures Reported(st', roots)
  {
    ReasonExtends(st.queue, st'.queue, roots);
  }

  lemma {:induction false} ReportedToken(catalog: seq<Component>, crit: Component -> bool,
                                         roots: seq<string>, tok: string, st: State)
    requires Reported(st, roots) && TokenOk(st.queue, roots, tok)
    ensures Reported(AddToken(catalog, crit, tok, st), roots)
    decreases Unvisited(catalog, st.visited), 1, 0
  {
    var ms := Find(catalog, tok);
    if |ms| > 0 {
      ReportedMatches(catalog, crit, roots, ms, st);
    } else {
      var st' := AddToken(catalog, crit, tok, st);
      assert st'.missing == st.missing + [tok];
    }
  }

  lemma {:induction false} ReportedMatches(catalog: seq<Component>, crit: Component -> bool,
                                           roots: seq<string>, ms: seq<Component>, st: State)
    requires forall m :: m in ms ==> m in catalog
    requires Reported(st, roots)
    ensures Reported(AddMatches(catalog, crit, ms, st), roots)
    decreases Unvisited(catalog, st.visited), 0, |ms|
  {
    if |ms| > 0 {
      var st1 := Visit(catalog, crit, ms[0], st);
      ReportedVisit(catalog, crit, roots, ms[0], st);
      UnvisitedShrinks(catalog, st.visited, st1.visited);
      ReportedMatches(catalog, crit, roots, ms[1..], st1);
    }
  }

  lemma {:induction false} ReportedVisit(catalog: seq<Component>, crit: Component -> bool,
                                         roots: seq<string>, c: Component, st: State)
    requires c in catalog
    requires Reported(st, roots)
    ensures Reported(Visit(catalog, crit, c, st), roots)
    decreases Unvisited(catalog, st.visited), 0, 0
  {
    if c.id !in st.visited && crit(c) {
      var n := |st.queue|;
      var q := State(st.visited + {c.id}, st.queue + [c], st.missing);
      ReportedExtends(st, q, roots);
      forall t | t in c.depends
        ensures TokenOk(q.queue, roots, t)
      {
        assert t in q.queue[n].depends;
      }
      VisitShrinks(catalog, st.visited, c);
      ReportedTokens(catalog, crit, roots, c.depends, q);
    }
  }

  lemma {:induction false} ReportedTokens(catalog: seq<Component>, crit: Component -> bool,
                                          roots: seq<string>, toks: seq<string>, st: State)
    requires Reported(st, roots)
    requires forall t :: t in toks ==> TokenOk(st.queue, roots, t)
    ensures Reported(AddTokens(catalog, crit, toks, st), roots)
    decreases Unvisited(catalog, st.visited), 2, |toks|
  {
    if |toks| > 0 {
      var st1 := AddToken(catalog, crit, toks[0], st);
      ReportedToken(catalog, crit, roots, toks[0], st);
      ReasonExtends(st.queue, st1.queue, roots);
      UnvisitedShrinks(catalog, st.visited, st1.visited);
      ReportedTokens(catalog, crit, roots, toks[1..], st1);
    }
  }

  /** The tokens `resolveQueue` reports as naming nothing are exactly the tokens that name
      nothing among the requested ones and the dependencies of queued components. */
  lemma ResolveReportsMissing(catalog: seq<Component>, args: seq<string>, crit: Component -> bool)
    ensures forall t :: t in Resolve(catalog, args, crit).missing <==>
      Find(catalog, t) == [] &&
      (t in Requested(catalog, args) || exists c :: c in Resolve(catalog, args, crit).queue && t in c.depends)
  {
    var st := Resolve(catalog, args, crit);
    var roots := Requested(catalog, args);
    ReportedTokens(catalog, crit, roots, roots, Start);
    assert st.missing[|Start.missing|..] == st.missing;
    assert st.queue[|Start.queue|..] == st.queue;
    forall t | t in st.missing
      ensures Find(catalog, t) == []
      ensures t in roots || exists c :: c in st.queue && t in c.depends
    {
      var i :| 0 <= i < |st.missing| && st.missing[i] == t;
      if t !in roots {
        var j :| 0 <= j < |st.queue| && t in st.queue[j].depends;
        assert st.queue[j] in st.queue;
      }
    }
    forall t, c | c in st.queue && t in c.depends && Find(catalog, t) == []
      ensures t in st.missing
    {
      var j :| 0 <= j < |st.queue| && st.queue[j] == c;
      assert Fresh(catalog, crit, Start, st, st.queue[j]);
    }
  }
}
