/** Queries over the in-memory catalog: `findComponents` (all components a token names, in
    catalog order) and `unique` (order-preserving removal of repeated IDs). */
module Catalog {
  import opened Seqs
  import opened Components

  /** `findComponents`: the catalog entries the token names, in catalog order. */
  function Find(catalog: seq<Component>, token: string): (ms: seq<Component>)
    ensures forall c :: c in ms <==> c in catalog && Matches(c.id, token)
  {
    if |catalog| == 0 then []
    else
      var c := catalog[0];
      var rest := Find(catalog[1..], token);
      assert forall x :: x in catalog <==> x == c || x in catalog[1..];
      if Matches(c.id, token) then [c] + rest else rest
  }

  /** One step of `Find`, stated on a cons. */
  lemma FindCons(c: Component, t: seq<Component>, token: string)
    ensures Find([c] + t, token) ==
      if Matches(c.id, token) then [c] + Find(t, token) else Find(t, token)
  {
    assert ([c] + t)[1..] == t;
  }

  /** `Find` keeps exactly the matching entries, each as often as it occurs in the
      catalog, and in catalog order. */
  lemma {:induction false} FindExact(catalog: seq<Component>, token: string)
    ensures forall c: Component :: Matches(c.id, token) ==>
      multiset(Find(catalog, token))[c] == multiset(catalog)[c]
    ensures IsSubsequence(Find(catalog, token), catalog)
  {
    if |catalog| > 0 {
      var c, t := catalog[0], catalog[1..];
      assert catalog == [c] + t;
      FindExact(t, token);
      FindCons(c, t, token);
      var rest := Find(t, token);
      if Matches(c.id, token) {
        SubsequenceCons(c, rest, t);
      } else {
        SubsequenceOfTail(rest, catalog);
      }
    }
  }

  /** `unique` continued after the IDs in `seen` have already been kept. */
  function UniqueFrom(s: seq<Component>, seen: set<string>): seq<Component> {
    if |s| == 0 then []
    else if s[0].id in seen then UniqueFrom(s[1..], seen)
    else [s[0]] + UniqueFrom(s[1..], seen + {s[0].id})
  }

  /** `unique`. */
  function Unique(s: seq<Component>): seq<Component> {
    UniqueFrom(s, {})
  }

  /** One step of `UniqueFrom`, stated on a cons. */
  lemma UniqueFromCons(c: Component, t: seq<Component>, seen: set<string>)
    ensures UniqueFrom([c] + t, seen) ==
      if c.id in seen then UniqueFrom(t, seen) else [c] + UniqueFrom(t, seen + {c.id})
  {
    assert ([c] + t)[1..] == t;
  }

  /** Putting an entry with a new ID in front of a list with distinct IDs keeps them
      distinct. */
  lemma DistinctCons(c: Component, t: seq<Component>)
    requires DistinctIds(t) && c.id !in Ids(t)
    ensures DistinctIds([c] + t)
  {
    forall i, j | 0 <= i < j < |[c] + t|
      ensures ([c] + t)[i].id != ([c] + t)[j].id
    {
      assert ([c] + t)[j] == t[j - 1];
      if i > 0 {
        assert ([c] + t)[i] == t[i - 1];
      }
    }
  }

  /** What `unique` returns after `seen`: distinct IDs, exactly the input's IDs not yet
      seen, in input order. */
  lemma {:induction false} UniqueFromSpec(s: seq<Component>, seen: set<string>)
    ensures DistinctIds(UniqueFrom(s, seen))
    ensures Ids(UniqueFrom(s, seen)) == Ids(s) - seen
    ensures IsSubsequence(UniqueFrom(s, seen), s)
  {
    if |s| > 0 {
      var c, t := s[0], s[1..];
      assert s == [c] + t;
      IdsCons(c, t);
      UniqueFromCons(c, t, seen);
      if c.id in seen {
        UniqueFromSpec(t, seen);
        SubsequenceOfTail(UniqueFrom(t, seen), s);
      } else {
        var rest := UniqueFrom(t, seen + {c.id});
        UniqueFromSpec(t, seen + {c.id});
        DistinctCons(c, rest);
        IdsCons(c, rest);
        SubsequenceCons(c, rest, t);
      }
    }
  }

  /** `unique` returns pairwise-distinct IDs, keeps every ID of its input, and takes its
      entries from the input in input order. */
  lemma UniqueSpec(s: seq<Component>)
    ensures DistinctIds(Unique(s))
    ensures Ids(Unique(s)) == Ids(s)
    ensures IsSubsequence(Unique(s), s)
  {
    UniqueFromSpec(s, {});
  }

  /** The entries of `s` that are the first with their ID, in order; this is what `unique`
      promises to keep. */
  function FirstOccurrences(s: seq<Component>): seq<Component> {
    if |s| == 0 then []
    else
      var init := s[..|s| - 1];
      var last := s[|s| - 1];
      FirstOccurrences(init) + (if last.id in Ids(init) then [] else [last])
  }

  /** Appending one entry to the input of `UniqueFrom` appends it to the output exactly when
      its ID is new. */
  lemma {:induction false} UniqueFromSnoc(s: seq<Component>, x: Component, seen: set<string>)
    ensures UniqueFrom(s + [x], seen) ==
      UniqueFrom(s, seen) + (if x.id in seen + Ids(s) then [] else [x])
  {
    if |s| == 0 {
      assert s + [x] == [x] + [];
      UniqueFromCons(x, [], seen);
    } else {
      var c, t := s[0], s[1..];
      assert s == [c] + t;
      assert s + [x] == [c] + (t + [x]);
      IdsCons(c, t);
      UniqueFromCons(c, t + [x], seen);
      UniqueFromCons(c, t, seen);
      if c.id in seen {
        UniqueFromSnoc(t, x, seen);
      } else {
        UniqueFromSnoc(t, x, seen + {c.id});
      }
    }
  }

  /** `unique` keeps exactly the first occurrence of every ID, in input order. */
  lemma {:induction false} UniqueKeepsFirstOccurrences(s: seq<Component>)
    ensures Unique(s) == FirstOccurrences(s)
  {
    if |s| > 0 {
      var init := s[..|s| - 1];
      UniqueKeepsFirstOccurrences(init);
      UniqueFromSnoc(init, s[|s| - 1], {});
      assert init + [s[|s| - 1]] == s;
    }
  }

  /** A list whose IDs are already distinct (and unseen) passes through unchanged. */
  lemma {:induction false} UniqueFromDistinct(s: seq<Component>, seen: set<string>)
    requires DistinctIds(s)
    requires Ids(s) !! seen
    ensures UniqueFrom(s, seen) == s
  {
    if |s| > 0 {
      var c := s[0];
      assert s == [c] + s[1..];
      UniqueFromCons(c, s[1..], seen);
      IdsCons(c, s[1..]);
      assert c.id !in Ids(s[1..]) by {
        forall j | 0 <= j < |s[1..]|
          ensures s[1..][j].id != c.id
        {
          assert s[1..][j] == s[j + 1];
        }
      }
      UniqueFromDistinct(s[1..], seen + {c.id});
    }
  }

  /** `unique` keeps every ID, and applying it twice is the same as once. */
  lemma UniqueIdempotent(s: seq<Component>)
    ensures Ids(Unique(s)) == Ids(s)
    ensures Unique(Unique(s)) == Unique(s)
  {
    UniqueSpec(s);
    UniqueFromDistinct(Unique(s), {});
  }
}
