/** The manifest walk of `getComponents`/`parseNodes`: the decoded document tree is walked
    depth first, carrying the dash-joined ID of the enclosing categories; only `component`
    elements become catalog entries, and each is immediately reconciled with its local
    installation record. */
module Manifest {
  import opened Options
  import opened Strings
  import opened Numbers
  import opened Components

  /** One attribute, by local name (the namespace is ignored, as the program does). */
  datatype Attr = Attr(name: string, value: string)

  /** One element of the decoded document: tag name, attributes in document order, child
      elements. Character data is never used and is not modelled. */
  datatype Node = Node(tag: string, attrs: seq<Attr>, children: seq<Node>)

  /** No attribute in `attrs` is called `name`. */
  predicate NoneNamed(attrs: seq<Attr>, name: string) {
    forall j :: 0 <= j < |attrs| ==> attrs[j].name != name
  }

  /** The value of the first attribute called `name`, if any. */
  function FirstAttr(attrs: seq<Attr>, name: string): (v: Option<string>)
    ensures v.None? <==> NoneNamed(attrs, name)
    ensures forall i ::
      (0 <= i < |attrs| && attrs[i].name == name && NoneNamed(attrs[..i], name)) ==> v == Some(attrs[i].value)
  {
    if |attrs| == 0 then None
    else if attrs[0].name == name then Some(attrs[0].value)
    else
      var v := FirstAttr(attrs[1..], name);
      FirstAttrShift(attrs, name);
      v
  }

  /** The facts about `attrs[1..]` that `FirstAttr` needs when the head is skipped. */
  lemma FirstAttrShift(attrs: seq<Attr>, name: string)
    requires |attrs| > 0 && attrs[0].name != name
    ensures NoneNamed(attrs, name) <==> NoneNamed(attrs[1..], name)
    ensures forall i :: 1 <= i < |attrs| ==>
      attrs[i] == attrs[1..][i - 1] && (NoneNamed(attrs[..i], name) <==> NoneNamed(attrs[1..][..i - 1], name))
  {
    forall i | 1 <= i < |attrs|
      ensures NoneNamed(attrs[..i], name) <==> NoneNamed(attrs[1..][..i - 1], name)
    {
      assert attrs[..i] == [attrs[0]] + attrs[1..][..i - 1];
    }
    if NoneNamed(attrs[1..], name) {
      forall j | 0 <= j < |attrs|
        ensures attrs[j].name != name
      {
        if j > 0 {
          assert attrs[j] == attrs[1..][j - 1];
        }
      }
    }
  }

  /** `getAttr`: the first attribute's value, or the empty string when there is none. */
  function GetAttr(n: Node, name: string): string {
    FirstAttr(n.attrs, name).GetOr("")
  }

  /** The repository base URL taken from the root element's first `url` attribute, with a
      slash appended when it lacks one; empty when the root has no such attribute. */
  function RepoBase(root: Node): (url: string)
    ensures url == "" <==> FirstAttr(root.attrs, "url").None?
    ensures url != "" ==> HasSuffix(url, "/")
    ensures FirstAttr(root.attrs, "url").Some? ==>
      HasPrefix(url, FirstAttr(root.attrs, "url").value)
      && |url| <= |FirstAttr(root.attrs, "url").value| + 1
    ensures FirstAttr(root.attrs, "url").Some? && HasSuffix(FirstAttr(root.attrs, "url").value, "/") ==>
      url == FirstAttr(root.attrs, "url").value
  {
    match FirstAttr(root.attrs, "url")
    case None => ""
    case Some(v) => if HasSuffix(v, "/") then v else v + "/"
  }

  /** The element names the walk descends into; anything else is skipped with its subtree. */
  predicate IsWalked(tag: string) {
    tag == "component" || tag == "category" || tag == "list"
  }

  /** The full ID of an element with attribute `id` below an element whose full ID is
      `parentId`: the parent's ID when the element has none, and the element's own when
      there is no parent. */
  function FullId(parentId: string, id: string): (r: string)
    ensures parentId == "" ==> r == id
    ensures parentId != "" ==> Matches(r, parentId)
  {
    if parentId != "" && id != "" then
      assert HasPrefix(parentId + "-" + id, parentId + "-");
      parentId + "-" + id
    else if parentId != "" then parentId
    else id
  }

  /** What the installation record says about one component. */
  datatype LocalState = LocalState(downloaded: bool, outdated: bool, oldSize: int)

  /** The staleness check of `parseNodes`. `record` is `None` when the record file does not
      exist, `Some(None)` when it exists but yields no first line, and `Some(Some(line))`
      otherwise. A record marks the component downloaded; it is outdated only when the
      first line has at least two space-separated fields and the first differs from the
      manifest hash, and then the second field, parsed as an integer with its error
      ignored, is the previously installed size. */
  function Classify(hash: string, record: Option<Option<string>>): (st: LocalState)
    ensures st.downloaded <==> record.Some?
    ensures st.outdated ==> st.downloaded
    ensures !st.outdated ==> st.oldSize == 0
    ensures InInt64(st.oldSize)
  {
    match record
    case None => LocalState(false, false, 0)
    case Some(None) => LocalState(true, false, 0)
    case Some(Some(line)) =>
      var parts := Split(line, ' ');
      if |parts| >= 2 && parts[0] != hash then LocalState(true, true, ParseInt64(parts[1]).Got())
      else LocalState(true, false, 0)
  }

  /** A record's first line marks the component outdated exactly when it holds a space and
      the text before the first space is not the manifest's hash. */
  lemma ClassifyOutdated(hash: string, line: string)
    ensures Classify(hash, Some(Some(line))).outdated <==>
      ' ' in line && line[..IndexOf(line, ' ')] != hash
  {
    SplitFieldCount(line, ' ');
    SplitFirst(line, ' ');
  }

  /** The record lookup: a record exists for `id` when the map has the key. */
  function RecordOf(records: map<string, Option<string>>, id: string): Option<Option<string>> {
    if id in records then Some(records[id]) else None
  }

  /** A numeric attribute: the parsed value, or `None` when it is missing or not a
      64-bit decimal integer. */
  function NumericAttr(n: Node, name: string): Option<int> {
    var p := ParseInt64(GetAttr(n, name));
    if p.Value? then Some(p.n) else None
  }

  /** The catalog entry built from a `component` element with full ID `id`. */
  function MakeComponent(n: Node, id: string, repo: string,
                         records: map<string, Option<string>>): (c: Component)
    ensures c.id == id && c.url == repo + id + ".zip"
    ensures c.outdated ==> c.downloaded
    ensures c.downloaded <==> id in records
    ensures GetAttr(n, "depends") == "" ==> c.depends == []
    ensures GetAttr(n, "depends") != "" ==>
      Join(c.depends, " ") == GetAttr(n, "depends")
      && forall i :: 0 <= i < |c.depends| ==> ' ' !in c.depends[i]
    ensures InInt64(c.installSize) && InInt64(c.downloadSize)
    ensures c.installSize == (if ParseInt64(GetAttr(n, "install-size")).Value?
                              then ParseInt64(GetAttr(n, "install-size")).n else 0)
    ensures c.downloadSize == (if ParseInt64(GetAttr(n, "download-size")).Value?
                               then ParseInt64(GetAttr(n, "download-size")).n else 0)
  {
    var hash := GetAttr(n, "hash");
    var deps := GetAttr(n, "depends");
    JoinSplit(deps, ' ');
    SplitNoSep(deps, ' ');
    var st := Classify(hash, RecordOf(records, id));
    Component(
      id := id,
      title := GetAttr(n, "title"),
      description := GetAttr(n, "description"),
      url := repo + id + ".zip",
      directory := GetAttr(n, "path"),
      lastUpdated := NumericAttr(n, "date-modified"),
      downloadSize := NumericAttr(n, "download-size").GetOr(0),
      installSize := NumericAttr(n, "install-size").GetOr(0),
      hash := hash,
      depends := if deps != "" then Split(deps, ' ') else [],
      downloaded := st.downloaded,
      outdated := st.outdated,
      oldSize := st.oldSize)
  }

  /** A size attribute holding the `%d` rendering of a 64-bit value is read back as that
      value; anything `ParseInt` rejects gives size 0. */
  lemma MakeComponentSizes(n: Node, id: string, repo: string,
                           records: map<string, Option<string>>, v: int)
    requires InInt64(v)
    ensures GetAttr(n, "install-size") == FormatInt(v) ==> MakeComponent(n, id, repo, records).installSize == v
    ensures GetAttr(n, "download-size") == FormatInt(v) ==> MakeComponent(n, id, repo, records).downloadSize == v
  {
    ParseFormatInt(v);
  }

  /** `parseNodes`: the components of `nodes` and their walked descendants, in document
      order (an element before its descendants). Every URL is the base URL, the full ID and
      `.zip`; no entry is outdated without being downloaded; below a non-empty parent ID,
      every entry is named by that ID as a category token. */
  function Walk(nodes: seq<Node>, parentId: string, repo: string,
                records: map<string, Option<string>>): (cs: seq<Component>)
    ensures forall c :: c in cs ==> c.url == repo + c.id + ".zip"
    ensures forall c :: c in cs ==> c.outdated ==> c.downloaded
    ensures parentId != "" ==> forall c :: c in cs ==> Matches(c.id, parentId)
    decreases nodes
  {
    if |nodes| == 0 then []
    else
      var n := nodes[0];
      assert n in nodes;
      var here :=
        if !IsWalked(n.tag) then []
        else (
          var fid := FullId(parentId, GetAttr(n, "id"));
          var below := Walk(n.children, fid, repo, records);
          MatchesNestedAll(below, fid, parentId);
          (if n.tag == "component" then [MakeComponent(n, fid, repo, records)] else []) + below);
      here + Walk(nodes[1..], parentId, repo, records)
  }

  /** The catalog of a whole manifest: the walk of the root element's children from an
      empty parent ID, with the root's base URL. */
  function ParseManifest(root: Node, records: map<string, Option<string>>): (cs: seq<Component>)
    ensures forall c :: c in cs ==> c.url == RepoBase(root) + c.id + ".zip"
  {
    Walk(root.children, "", RepoBase(root), records)
  }

  /** The dash-join of the non-empty IDs along a path of walked elements. */
  function PathId(path: seq<string>): string {
    Join(NonEmpty(path), "-")
  }

  function NonEmpty(path: seq<string>): (r: seq<string>)
    ensures forall i :: 0 <= i < |r| ==> r[i] != ""
  {
    if |path| == 0 then []
    else NonEmpty(path[..|path| - 1]) + (if path[|path| - 1] == "" then [] else [path[|path| - 1]])
  }

  /** Accumulating the full ID step by step agrees with joining the whole path at once. */
  lemma FullIdExtendsPath(path: seq<string>, id: string)
    ensures FullId(PathId(path), id) == PathId(path + [id])
  {
    var ne := NonEmpty(path);
    assert (path + [id])[..|path|] == path;
    assert NonEmpty(path + [id]) == ne + (if id == "" then [] else [id]);
    if |ne| > 0 {
      JoinNonEmpty(ne, "-");
      assert PathId(path) != "";
    } else {
      assert PathId(path) == "";
    }
    if id != "" {
      JoinSnoc(ne, id, "-");
      assert PathId(path + [id]) == if |ne| == 0 then id else PathId(path) + "-" + id;
    } else {
      assert ne + [] == ne;
      assert PathId(path + [id]) == PathId(path);
    }
  }

  /** The reference definition of the walk: each component's ID is the dash-join of the
      non-empty `id` attributes of its walked ancestors and of itself, in nesting order. */
  function WalkPath(nodes: seq<Node>, path: seq<string>, repo: string,
                    records: map<string, Option<string>>): seq<Component>
    decreases nodes
  {
    if |nodes| == 0 then []
    else
      var n := nodes[0];
      assert n in nodes;
      var here :=
        if !IsWalked(n.tag) then []
        else (
          var p := path + [GetAttr(n, "id")];
          (if n.tag == "component" then [MakeComponent(n, PathId(p), repo, records)] else [])
            + WalkPath(n.children, p, repo, records));
      here + WalkPath(nodes[1..], path, repo, records)
  }

  /** The walk's accumulated parent ID builds exactly the ancestor-path IDs: nesting
      `core` > `server` > `gamezip` yields `core-server-gamezip`, and an element without
      an `id` adds nothing to the path. */
  lemma {:induction false} WalkBuildsPathIds(nodes: seq<Node>, path: seq<string>, repo: string,
                                             records: map<string, Option<string>>)
    ensures Walk(nodes, PathId(path), repo, records) == WalkPath(nodes, path, repo, records)
    decreases nodes
  {
    if |nodes| > 0 {
      var n := nodes[0];
      assert n in nodes;
      if IsWalked(n.tag) {
        var p := path + [GetAttr(n, "id")];
        FullIdExtendsPath(path, GetAttr(n, "id"));
        WalkBuildsPathIds(n.children, p, repo, records);
      }
      WalkBuildsPathIds(nodes[1..], path, repo, records);
    }
  }
}
