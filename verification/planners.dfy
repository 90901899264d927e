/** The download, remove and list commands, minus their printing and confirmation: each
    turns the catalog and the command's arguments into the list of components to act on
    (and, for remove, the skip notices the program prints). */
module Planners {
  import opened Seqs
  import opened Components
  import opened Catalog
  import opened Resolver

  /** The skip notices the planners print. */
  datatype Notice =
    | NoSuchComponent(token: string)
    | NotDownloaded(id: string)
    | UpToDate(id: string)

  /** `handleDownload`'s selection: components that are not downloaded. */
  predicate NotYetDownloaded(c: Component) {
    !c.downloaded
  }

  /** `handleDownload`'s queue. */
  function PlanDownload(catalog: seq<Component>, args: seq<string>): seq<Component> {
    ResolveQueue(catalog, args, NotYetDownloaded)
  }

  /** The download queue holds distinct, not yet downloaded catalog components; with no
      arguments (and distinct catalog IDs) it holds every one of them, and with arguments
      everything the arguments and the queued components' dependencies name that is not
      yet downloaded. */
  lemma DownloadPlanSpec(catalog: seq<Component>, args: seq<string>)
    ensures forall c :: c in PlanDownload(catalog, args) ==> c in catalog && !c.downloaded
    ensures DistinctIds(PlanDownload(catalog, args))
    ensures DistinctIds(catalog) && |args| == 0 ==>
      forall c :: c in PlanDownload(catalog, args) <==> c in catalog && !c.downloaded
    ensures DistinctIds(catalog) ==> forall t, m ::
      (t in args && m in catalog && Matches(m.id, t) && !m.downloaded) ==> m in PlanDownload(catalog, args)
  {
    ResolveSound(catalog, args, NotYetDownloaded);
    if DistinctIds(catalog) {
      ResolveClosed(catalog, args, NotYetDownloaded);
      if |args| == 0 {
        ResolveAllWithoutArgs(catalog, NotYetDownloaded);
      }
    }
  }

  /** A removal plan: the components to remove and the notices printed on the way. */
  datatype RemovePlan = RemovePlan(queue: seq<Component>, notices: seq<Notice>)

  /** The matches of one token: downloaded ones are queued, the others get a notice. */
  function SortMatches(ms: seq<Component>): (p: RemovePlan)
    ensures forall c :: c in p.queue <==> c in ms && c.downloaded
    ensures forall n :: n in p.notices <==> exists c :: c in ms && !c.downloaded && n == NotDownloaded(c.id)
  {
    if |ms| == 0 then RemovePlan([], [])
    else
      var rest := SortMatches(ms[1..]);
      var c := ms[0];
      assert forall x :: x in ms <==> x == c || x in ms[1..];
      if c.downloaded then RemovePlan([c] + rest.queue, rest.notices)
      else RemovePlan(rest.queue, [NotDownloaded(c.id)] + rest.notices)
  }

  /** What one argument of `handleRemove` contributes. */
  function RemoveToken(catalog: seq<Component>, t: string): RemovePlan {
    var ms := Find(catalog, t);
    if |ms| == 0 then RemovePlan([], [NoSuchComponent(t)]) else SortMatches(ms)
  }

  /** The loop of `handleRemove` over the arguments, before `unique`. */
  function CollectRemovals(catalog: seq<Component>, args: seq<string>): RemovePlan {
    if |args| == 0 then RemovePlan([], [])
    else
      var head := RemoveToken(catalog, args[0]);
      var rest := CollectRemovals(catalog, args[1..]);
      RemovePlan(head.queue + rest.queue, head.notices + rest.notices)
  }

  /** `handleRemove`'s plan: only what the arguments name, never their dependencies. */
  function PlanRemove(catalog: seq<Component>, args: seq<string>): RemovePlan {
    var p := CollectRemovals(catalog, args);
    RemovePlan(Unique(p.queue), p.notices)
  }

  /** The contents of the collected plan, token by token. */
  lemma {:induction false} CollectRemovalsSpec(catalog: seq<Component>, args: seq<string>)
    ensures forall c :: c in CollectRemovals(catalog, args).queue <==>
      c in catalog && c.downloaded && exists t :: t in args && Matches(c.id, t)
    ensures forall t :: NoSuchComponent(t) in CollectRemovals(catalog, args).notices <==>
      t in args && Find(catalog, t) == []
    ensures forall id :: NotDownloaded(id) in CollectRemovals(catalog, args).notices <==>
      exists t, m :: t in args && m in catalog && Matches(m.id, t) && !m.downloaded && m.id == id
    ensures forall n :: n in CollectRemovals(catalog, args).notices ==> !n.UpToDate?
  {
    if |args| > 0 {
      CollectRemovalsSpec(catalog, args[1..]);
      assert forall t :: t in args <==> t == args[0] || t in args[1..];
    }
  }

  /** The removal plan holds distinct, downloaded catalog components, each named by an
      argument (there is no dependency expansion), and, for every argument, every
      downloaded component it names (by ID, which in a catalog with distinct IDs is the
      component itself). */
  lemma RemovePlanSpec(catalog: seq<Component>, args: seq<string>)
    ensures DistinctIds(PlanRemove(catalog, args).queue)
    ensures forall c :: c in PlanRemove(catalog, args).queue ==>
      c in catalog && c.downloaded && exists t :: t in args && Matches(c.id, t)
    ensures forall t, m :: (t in args && m in catalog && Matches(m.id, t) && m.downloaded) ==>
      m.id in Ids(PlanRemove(catalog, args).queue)
    ensures DistinctIds(catalog) ==> forall t, m ::
      (t in args && m in catalog && Matches(m.id, t) && m.downloaded) ==> m in PlanRemove(catalog, args).queue
  {
    var q := CollectRemovals(catalog, args).queue;
    CollectRemovalsSpec(catalog, args);
    UniqueSpec(q);
    SubsequenceMembers(Unique(q), q);
    forall t, m | t in args && m in catalog && Matches(m.id, t) && m.downloaded
      ensures m.id in Ids(Unique(q))
    {
      assert m in q;
    }
    if DistinctIds(catalog) {
      forall t, m | t in args && m in catalog && Matches(m.id, t) && m.downloaded
        ensures m in Unique(q)
      {
        assert m.id in Ids(Unique(q));
        var x :| x in Unique(q) && x.id == m.id;
        DistinctIdsDetermine(catalog, x, m);
      }
    }
  }

  /** One plan followed by another. */
  function Then(p: RemovePlan, q: RemovePlan): RemovePlan {
    RemovePlan(p.queue + q.queue, p.notices + q.notices)
  }

  lemma ThenAssoc(p: RemovePlan, q: RemovePlan, r: RemovePlan)
    ensures Then(p, Then(q, r)) == Then(Then(p, q), r)
  {
    assert p.queue + (q.queue + r.queue) == (p.queue + q.queue) + r.queue;
    assert p.notices + (q.notices + r.notices) == (p.notices + q.notices) + r.notices;
  }

  /** The plan for consecutive argument lists is the concatenation of their plans. */
  lemma {:induction false} CollectRemovalsAppend(catalog: seq<Component>, a: seq<string>, b: seq<string>)
    ensures CollectRemovals(catalog, a + b) == Then(CollectRemovals(catalog, a), CollectRemovals(catalog, b))
  {
    if |a| == 0 {
      assert a + b == b;
    } else {
      var h := RemoveToken(catalog, a[0]);
      var ra := CollectRemovals(catalog, a[1..]);
      var rb := CollectRemovals(catalog, b);
      assert (a + b)[0] == a[0];
      assert (a + b)[1..] == a[1..] + b;
      assert CollectRemovals(catalog, a + b) == Then(h, CollectRemovals(catalog, a[1..] + b));
      CollectRemovalsAppend(catalog, a[1..], b);
      assert CollectRemovals(catalog, a) == Then(h, ra);
      ThenAssoc(h, ra, rb);
    }
  }

  /** A token that names nothing changes nothing but the notices: removing with it
      inserted anywhere queues the same components, and the only extra notice says the
      token names nothing. */
  lemma RemoveIgnoresUnmatched(catalog: seq<Component>, a: seq<string>, t: string, b: seq<string>)
    requires Find(catalog, t) == []
    ensures PlanRemove(catalog, a + [t] + b).queue == PlanRemove(catalog, a + b).queue
    ensures PlanRemove(catalog, a + [t] + b).notices ==
      CollectRemovals(catalog, a).notices + [NoSuchComponent(t)] + CollectRemovals(catalog, b).notices
  {
    CollectRemovalsAppend(catalog, a + [t], b);
    CollectRemovalsAppend(catalog, a, [t]);
    CollectRemovalsAppend(catalog, a, b);
    assert CollectRemovals(catalog, [t]) == RemovePlan([], [NoSuchComponent(t)]) by {
      assert [t][1..] == [];
    }
    assert CollectRemovals(catalog, a).queue + [] == CollectRemovals(catalog, a).queue;
  }

  /** Removing a component that was never downloaded removes nothing and says why. */
  lemma RemoveNeverDownloaded(catalog: seq<Component>, t: string)
    requires forall m :: m in catalog && Matches(m.id, t) ==> !m.downloaded
    ensures PlanRemove(catalog, [t]).queue == []
    ensures |PlanRemove(catalog, [t]).notices| >= 1
  {
    CollectRemovalsSpec(catalog, [t]);
    var p := CollectRemovals(catalog, [t]);
    if Find(catalog, t) == [] {
      assert NoSuchComponent(t) in p.notices;
    } else {
      var m := Find(catalog, t)[0];
      assert m in Find(catalog, t);
      assert NotDownloaded(m.id) in p.notices;
    }
  }

  /** The options of `handleList`: `verbose` anywhere switches on titles; any other word
      is the filter, the last one winning. */
  datatype ListOptions = ListOptions(filter: string, verbose: bool)

  function ParseListArgs(args: seq<string>): (o: ListOptions)
    ensures o.verbose <==> "verbose" in args
  {
    if |args| == 0 then ListOptions("", false)
    else
      var init := ParseListArgs(args[..|args| - 1]);
      var last := args[|args| - 1];
      assert forall x :: x in args <==> x == last || x in args[..|args| - 1];
      if last == "verbose" then init.(verbose := true) else init.(filter := last)
  }

  /** Every argument from index `i` on is `verbose`. */
  predicate VerboseFrom(args: seq<string>, i: nat) {
    forall j :: i <= j < |args| ==> args[j] == "verbose"
  }

  /** The filter is the last argument other than `verbose`, or empty when there is none. */
  lemma {:induction false} ParseListArgsFilter(args: seq<string>)
    ensures VerboseFrom(args, 0) ==> ParseListArgs(args).filter == ""
    ensures forall i :: 0 <= i < |args| && args[i] != "verbose" && VerboseFrom(args, i + 1) ==>
      ParseListArgs(args).filter == args[i]
  {
    if |args| > 0 {
      var init, last := args[..|args| - 1], args[|args| - 1];
      ParseListArgsFilter(init);
      if last == "verbose" {
        assert VerboseFrom(args, 0) ==> VerboseFrom(init, 0) by {
          assert forall j :: 0 <= j < |init| ==> init[j] == args[j];
        }
        forall i | 0 <= i < |args| && args[i] != "verbose" && VerboseFrom(args, i + 1)
          ensures ParseListArgs(args).filter == args[i]
        {
          assert i < |init| && init[i] == args[i];
          assert VerboseFrom(init, i + 1) by {
            assert forall j :: i + 1 <= j < |init| ==> init[j] == args[j];
          }
        }
      } else {
        forall i | 0 <= i < |args| && args[i] != "verbose" && VerboseFrom(args, i + 1)
          ensures i == |args| - 1
        {
        }
      }
    }
  }

  /** Whether a component is shown under a filter; an unknown filter shows everything. */
  predicate Shown(c: Component, filter: string) {
    if filter == "available" then !c.downloaded
    else if filter == "downloaded" then c.downloaded
    else if filter == "updates" then c.outdated
    else true
  }

  /** The components `handleList` prints, in catalog order. */
  function Listed(catalog: seq<Component>, filter: string): (r: seq<Component>)
    ensures forall c :: c in r <==> c in catalog && Shown(c, filter)
    ensures IsSubsequence(r, catalog)
  {
    Filter(catalog, c => Shown(c, filter))
  }

  /** The status marker: `!` downloaded but outdated, `*` downloaded and current, blank
      otherwise. */
  function Marker(c: Component): (m: char)
    ensures m == '!' <==> c.downloaded && c.outdated
    ensures m == '*' <==> c.downloaded && !c.outdated
    ensures m == ' ' <==> !c.downloaded
  {
    if c.downloaded then (if c.outdated then '!' else '*') else ' '
  }

  /** One printed line: the marker, a space, the ID, and with `verbose` the title in
      parentheses. */
  function ListLine(c: Component, verbose: bool): string {
    [Marker(c)] + " " + c.id + (if verbose then " (" + c.title + ")" else "")
  }

  /** The lines `handleList` prints for the arguments after the command word. */
  function ListLines(catalog: seq<Component>, args: seq<string>): seq<string> {
    var o := ParseListArgs(args);
    var shown := Listed(catalog, o.filter);
    seq(|shown|, i requires 0 <= i < |shown| => ListLine(shown[i], o.verbose))
  }

  /** A listing line names `c`: its status marker, a space, then the full ID. */
  predicate LineNames(line: string, c: Component) {
    |line| >= 2 + |c.id| && line[0] == Marker(c) && line[1] == ' ' && line[2..2 + |c.id|] == c.id
  }

  /** A line names its component and carries more than the marker and the ID exactly when
      the listing is verbose, in which case it closes with the parenthesised title. */
  lemma ListLineShape(c: Component, verbose: bool)
    ensures LineNames(ListLine(c, verbose), c)
    ensures |ListLine(c, verbose)| == 2 + |c.id| <==> !verbose
    ensures verbose ==> ListLine(c, verbose)[|ListLine(c, verbose)| - 1] == ')'
    ensures verbose ==> ListLine(c, verbose)[2 + |c.id|..] == " (" + c.title + ")"
  {
  }

  /** The listing prints one line per component the filter shows, in catalog order, and
      each line names its component. */
  lemma ListLinesSpec(catalog: seq<Component>, args: seq<string>)
    ensures |ListLines(catalog, args)| == |Listed(catalog, ParseListArgs(args).filter)|
    ensures forall i :: 0 <= i < |ListLines(catalog, args)| ==>
      LineNames(ListLines(catalog, args)[i], Listed(catalog, ParseListArgs(args).filter)[i])
    ensures forall c :: c in catalog ==>
      (Shown(c, ParseListArgs(args).filter) <==>
        exists i :: 0 <= i < |ListLines(catalog, args)| && Listed(catalog, ParseListArgs(args).filter)[i] == c)
  {
    var shown := Listed(catalog, ParseListArgs(args).filter);
    forall i | 0 <= i < |shown|
      ensures LineNames(ListLines(catalog, args)[i], shown[i])
    {
      ListLineShape(shown[i], ParseListArgs(args).verbose);
    }
  }
}
