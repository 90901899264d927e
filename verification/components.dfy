/** The component record and the identifier conventions shared by every part of the
    component manager: hierarchical dash-joined IDs, the category-prefix matching rule, and
    the reserved `core-` prefix of required components. */
module Components {
  import opened Options
  import opened Strings

  /** One installable component. The first group of fields comes from the manifest; the last
      three (`downloaded`, `outdated`, `oldSize`) from the local installation record.
      `lastUpdated` keeps the manifest's unix timestamp rather than its formatted date. */
  datatype Component = Component(
    id: string,
    title: string,
    description: string,
    url: string,
    directory: string,
    lastUpdated: Option<int>,
    downloadSize: int,
    installSize: int,
    hash: string,
    depends: seq<string>,
    downloaded: bool,
    outdated: bool,
    oldSize: int)

  /** The matching rule of `findComponents`: a token names the component with exactly that
      ID and every component below it in the hierarchy. */
  predicate Matches(id: string, token: string) {
    id == token || HasPrefix(id, token + "-")
  }

  /** Components whose ID starts with this prefix are required and installed by an
      untargeted update. */
  const RequiredPrefix: string := "core-"

  predicate IsRequired(c: Component) {
    HasPrefix(c.id, RequiredPrefix)
  }

  function Ids(cs: seq<Component>): set<string> {
    set c | c in cs :: c.id
  }

  lemma IdsCons(c: Component, t: seq<Component>)
    ensures Ids([c] + t) == {c.id} + Ids(t)
  {
    assert forall x :: x in [c] + t <==> x == c || x in t;
  }

  lemma IdsSnoc(t: seq<Component>, c: Component)
    ensures Ids(t + [c]) == Ids(t) + {c.id}
  {
    assert forall x :: x in t + [c] <==> x == c || x in t;
  }

  /** No two entries share an ID. */
  predicate DistinctIds(cs: seq<Component>) {
    forall i, j :: 0 <= i < j < |cs| ==> cs[i].id != cs[j].id
  }

  /** In a list with distinct IDs an entry is determined by its ID. */
  lemma DistinctIdsDetermine(cs: seq<Component>, a: Component, b: Component)
    requires DistinctIds(cs) && a in cs && b in cs && a.id == b.id
    ensures a == b
  {
    var i :| 0 <= i < |cs| && cs[i] == a;
    var j :| 0 <= j < |cs| && cs[j] == b;
    assert i == j;
  }

  /** Category tokens nest: a component below `b`, where `b` is itself below `c`, is below
      `c`. */
  lemma MatchesNested(a: string, b: string, c: string)
    requires Matches(a, b) && Matches(b, c)
    ensures Matches(a, c)
  {
    if a != b && b != c {
      assert a[..|b|] == b;
      assert b[..|c| + 1] == c + "-";
      assert a[..|c| + 1] == b[..|c| + 1];
    }
  }

  /** `MatchesNested` for every entry of a list at once. */
  lemma MatchesNestedAll(cs: seq<Component>, b: string, c: string)
    ensures (forall x :: x in cs ==> Matches(x.id, b)) && Matches(b, c) ==>
      forall x :: x in cs ==> Matches(x.id, c)
  {
    if (forall x :: x in cs ==> Matches(x.id, b)) && Matches(b, c) {
      forall x | x in cs
        ensures Matches(x.id, c)
      {
        MatchesNested(x.id, b, c);
      }
    }
  }

  /** The matching rule respects the dash boundary: `core-server` names `core-server` and
      `core-server-gamezip` but not `core-serverX`. */
  lemma CategoryBoundary()
    ensures Matches("core-server", "core-server")
    ensures Matches("core-server-gamezip", "core-server")
    ensures !Matches("core-serverX", "core-server")
  {
    assert "core-server-gamezip"[..12] == "core-server-";
    assert "core-serverX"[..12] != "core-server-" by {
      assert "core-serverX"[11] == 'X';
    }
  }
}
