/** `downloadComponent` after the archive is fetched and opened: the destination
    directory, the zip-slip check on every file entry, the paths written, and the local
    installation record. The HTTP request, the temporary file and the archive reader are
    left out; the archive is given as its list of entries. */
module Install {
  import opened Options
  import opened Strings
  import opened Seqs
  import opened Numbers
  import opened Components
  import opened Manifest
  import opened Records
  import opened Paths

  /** One archive entry: its slash-separated name and whether it is a directory. */
  datatype Entry = Entry(name: string, isDir: bool)

  predicate IsFile(e: Entry) {
    !e.isDir
  }

  /** The names of the file entries, in archive order. */
  function FileNames(entries: seq<Entry>): (names: seq<string>)
    ensures |names| <= |entries|
    ensures forall n :: n in names <==> exists e :: e in entries && IsFile(e) && e.name == n
  {
    if |entries| == 0 then []
    else
      var rest := FileNames(entries[1..]);
      assert forall e :: e in entries <==> e == entries[0] || e in entries[1..];
      if IsFile(entries[0]) then [entries[0].name] + rest else rest
  }

  /** Each name joined onto a directory. */
  function Under(dir: string, names: seq<string>): (paths: seq<string>)
    ensures |paths| == |names|
  {
    seq(|names|, i requires 0 <= i < |names| => JoinPath(dir, names[i]))
  }

  /** Which zip-slip check the extraction loop applies: the prefix test `downloadComponent`
      runs (`Paths.ZipSlipAccepts`), or the containment test it evidently intends
      (`Paths.ZipSlipInside`). The two differ only for destinations that clean to `/` or `.`
      or that climb out through `..` (`ExtractGuardsAgree`). */
  datatype Guard = AsWritten | Intended

  predicate Passes(g: Guard, dest: string, name: string) {
    match g
    case AsWritten => ZipSlipAccepts(dest, name)
    case Intended => ZipSlipInside(dest, name)
  }

  /** The extraction loop: the paths written so far and the paths recorded for them, or
      the first path that failed the check with the paths written before it. */
  datatype Extraction =
    | Extracted(written: seq<string>, recorded: seq<string>)
    | Illegal(path: string, written: seq<string>)

  /** Every file entry passes the zip-slip check. */
  predicate AllPass(g: Guard, dest: string, entries: seq<Entry>) {
    forall i :: 0 <= i < |entries| && IsFile(entries[i]) ==> Passes(g, dest, entries[i].name)
  }

  function Extract(g: Guard, dest: string, dir: string, entries: seq<Entry>): Extraction
    decreases |entries|
  {
    if |entries| == 0 then Extracted([], [])
    else
      var e := entries[0];
      if e.isDir then Extract(g, dest, dir, entries[1..])
      else
        var fpath := JoinPath(dest, e.name);
        if !Passes(g, dest, e.name) then Illegal(fpath, [])
        else
          match Extract(g, dest, dir, entries[1..])
          case Extracted(w, r) => Extracted([fpath] + w, [JoinPath(dir, e.name)] + r)
          case Illegal(p, w) => Illegal(p, [fpath] + w)
  }

  lemma UnderCons(dir: string, n: string, names: seq<string>)
    ensures Under(dir, [n] + names) == [JoinPath(dir, n)] + Under(dir, names)
  {
  }

  lemma AllPassCons(g: Guard, dest: string, entries: seq<Entry>)
    requires |entries| > 0
    ensures AllPass(g, dest, entries) <==>
      (IsFile(entries[0]) ==> Passes(g, dest, entries[0].name)) && AllPass(g, dest, entries[1..])
  {
    assert forall i :: 0 < i < |entries| ==> entries[i] == entries[1..][i - 1];
  }

  /** Extraction succeeds exactly when every file entry passes the check. */
  lemma {:induction false} ExtractSucceeds(g: Guard, dest: string, dir: string, entries: seq<Entry>)
    ensures Extract(g, dest, dir, entries).Extracted? <==> AllPass(g, dest, entries)
    decreases |entries|
  {
    if |entries| > 0 {
      ExtractSucceeds(g, dest, dir, entries[1..]);
      AllPassCons(g, dest, entries);
    }
  }

  /** A successful extraction writes and records one path per file entry, in order. */
  lemma {:induction false} ExtractWritten(g: Guard, dest: string, dir: string, entries: seq<Entry>)
    requires Extract(g, dest, dir, entries).Extracted?
    ensures Extract(g, dest, dir, entries).written == Under(dest, FileNames(entries))
    ensures Extract(g, dest, dir, entries).recorded == Under(dir, FileNames(entries))
    decreases |entries|
  {
    if |entries| > 0 {
      var e, rest := entries[0], entries[1..];
      ExtractWritten(g, dest, dir, rest);
      if IsFile(e) {
        UnderCons(dest, e.name, FileNames(rest));
        UnderCons(dir, e.name, FileNames(rest));
      }
    }
  }

  /** The entry at which an extraction fails: a file entry that does not pass, after file
      entries that all pass and whose paths were written. */
  predicate FailsAt(g: Guard, dest: string, entries: seq<Entry>, k: int, path: string, written: seq<string>) {
    0 <= k < |entries|
    && IsFile(entries[k]) && !Passes(g, dest, entries[k].name)
    && AllPass(g, dest, entries[..k])
    && path == JoinPath(dest, entries[k].name)
    && written == Under(dest, FileNames(entries[..k]))
  }

  lemma FailsAtCons(g: Guard, dest: string, entries: seq<Entry>, k: int, path: string, written: seq<string>)
    requires |entries| > 0 && FailsAt(g, dest, entries[1..], k, path, written)
    requires IsFile(entries[0]) ==> Passes(g, dest, entries[0].name)
    ensures FailsAt(g, dest, entries, k + 1,
                    path, if IsFile(entries[0]) then [JoinPath(dest, entries[0].name)] + written else written)
  {
    var e, rest := entries[0], entries[1..];
    assert entries[..k + 1] == [e] + rest[..k];
    assert entries[..k + 1][1..] == rest[..k];
    AllPassCons(g, dest, entries[..k + 1]);
    if IsFile(e) {
      UnderCons(dest, e.name, FileNames(rest[..k]));
    }
  }

  /** A failed extraction fails at the first file entry that does not pass. */
  lemma {:induction false} ExtractFails(g: Guard, dest: string, dir: string, entries: seq<Entry>)
    requires Extract(g, dest, dir, entries).Illegal?
    ensures exists k :: FailsAt(g, dest, entries, k, Extract(g, dest, dir, entries).path, Extract(g, dest, dir, entries).written)
    decreases |entries|
  {
    var e, rest := entries[0], entries[1..];
    if IsFile(e) && !Passes(g, dest, e.name) {
      assert entries[..0] == [];
      assert FailsAt(g, dest, entries, 0, Extract(g, dest, dir, entries).path, Extract(g, dest, dir, entries).written);
    } else {
      ExtractFails(g, dest, dir, rest);
      var k :| FailsAt(g, dest, rest, k, Extract(g, dest, dir, rest).path, Extract(g, dest, dir, rest).written);
      FailsAtCons(g, dest, entries, k, Extract(g, dest, dir, rest).path, Extract(g, dest, dir, rest).written);
    }
  }

  /** What `downloadComponent` does with a component and its archive: nothing for a
      component without install size, a failure at the first entry that would escape the
      destination, or the written paths and the installation record. */
  datatype Outcome =
    | Skipped
    | Rejected(path: string, written: seq<string>)
    | Installed(written: seq<string>, record: string)

  /** The destination directory of a component under the installation base. */
  function Destination(base: string, c: Component): string {
    JoinPath(base, c.directory)
  }

  function Download(g: Guard, base: string, c: Component, entries: seq<Entry>): (o: Outcome)
    ensures o.Skipped? <==> c.installSize == 0
  {
    if c.installSize == 0 then Skipped
    else
      match Extract(g, Destination(base, c), c.directory, entries)
      case Illegal(p, w) => Rejected(p, w)
      case Extracted(w, r) => Installed(w, RecordContent(FormatHeader(c.hash, c.installSize, c.depends), r))
  }

  /** A component with a size installs exactly when every file entry passes the check. */
  lemma {:induction false} DownloadInstallsIffInside(g: Guard, base: string, c: Component, entries: seq<Entry>)
    requires c.installSize != 0
    ensures Download(g, base, c, entries).Installed? <==> AllPass(g, Destination(base, c), entries)
  {
    ExtractSucceeds(g, Destination(base, c), c.directory, entries);
  }

  /** An installation writes the destination joined with each file entry's name, in order. */
  lemma {:induction false} DownloadWrites(g: Guard, base: string, c: Component, entries: seq<Entry>)
    requires Download(g, base, c, entries).Installed?
    ensures Download(g, base, c, entries).written == Under(Destination(base, c), FileNames(entries))
  {
    ExtractWritten(g, Destination(base, c), c.directory, entries);
  }

  /** A rejection names the first file entry that fails the check, after writing the
      entries before it. */
  lemma {:induction false} DownloadRejects(g: Guard, base: string, c: Component, entries: seq<Entry>)
    requires Download(g, base, c, entries).Rejected?
    ensures exists k :: FailsAt(g, Destination(base, c), entries, k,
      Download(g, base, c, entries).path, Download(g, base, c, entries).written)
  {
    ExtractFails(g, Destination(base, c), c.directory, entries);
  }

  /** A line `removeComponent` reads back unchanged. */
  predicate RecordLine(s: string) {
    s != "" && '\n' !in s && TrimSpace(s) == s
  }

  /** The recorded paths of a download whose entries are all inside. */
  function Recorded(c: Component, entries: seq<Entry>): seq<string> {
    Under(c.directory, FileNames(entries))
  }

  /** The hash and dependency IDs fit on the record's header line. */
  predicate HeaderSafe(c: Component) {
    && ' ' !in c.hash && '\n' !in c.hash && '\r' !in c.hash
    && forall i :: 0 <= i < |c.depends| ==> '\n' !in c.depends[i] && '\r' !in c.depends[i]
  }

  /** An installation's record is the header built from the component's hash, install size
      and dependencies, followed by one recorded path per file entry. */
  lemma {:induction false} DownloadRecord(g: Guard, base: string, c: Component, entries: seq<Entry>)
    requires Download(g, base, c, entries).Installed?
    ensures Download(g, base, c, entries).record
         == RecordContent(FormatHeader(c.hash, c.installSize, c.depends), Recorded(c, entries))
  {
    ExtractWritten(g, Destination(base, c), c.directory, entries);
  }

  /** Download then remove, first half: the record's lines after the header are the recorded
      paths, provided they are single lines without surrounding space. */
  lemma {:induction false} DownloadRecordsFiles(g: Guard, base: string, c: Component, entries: seq<Entry>)
    requires HeaderSafe(c)
    requires forall n :: n in FileNames(entries) ==> RecordLine(JoinPath(c.directory, n))
    requires Download(g, base, c, entries).Installed?
    ensures RemovalTargets(Some(Download(g, base, c, entries).record)) == Recorded(c, entries)
  {
    var names := FileNames(entries);
    DownloadRecord(g, base, c, entries);
    HeaderFields(c.hash, c.installSize, c.depends);
    var rec := Recorded(c, entries);
    assert forall i :: 0 <= i < |rec| ==> rec[i] == JoinPath(c.directory, names[i]) && names[i] in names;
    RecordRemovalRoundTrip(FormatHeader(c.hash, c.installSize, c.depends), rec);
  }

  /** Download then remove, second half: for a relative recorded path, the path removal
      deletes is the path download wrote. */
  lemma {:induction false} DownloadRemovesWritten(g: Guard, base: string, c: Component, entries: seq<Entry>)
    requires base != ""
    requires forall n :: n in FileNames(entries) ==> !IsRooted(JoinPath(c.directory, n))
    requires Download(g, base, c, entries).Installed?
    ensures |Download(g, base, c, entries).written| == |Recorded(c, entries)|
    ensures forall i :: 0 <= i < |Recorded(c, entries)| ==>
      JoinPath(base, Recorded(c, entries)[i]) == Download(g, base, c, entries).written[i]
  {
    var names := FileNames(entries);
    ExtractWritten(g, Destination(base, c), c.directory, entries);
    forall i | 0 <= i < |names|
      ensures JoinPath(base, Recorded(c, entries)[i]) == Download(g, base, c, entries).written[i]
    {
      assert names[i] in names;
      RemovalMatchesWritten(base, c.directory, names[i]);
    }
  }

  /** The relative-path requirement of `DownloadRemovesWritten` cannot be dropped: under
      the base `/b`, a component whose `path` is `/../c` installs its entry `n` by writing
      `/c/n` and records `/c/n`, which removal joins back onto the base as `/b/c/n`, a path
      download never wrote. */
  lemma DownloadRemoveMismatch(g: Guard, c: Component)
    requires c.installSize != 0 && c.directory == "/../c"
    ensures Download(g, "/b", c, [Entry("n", false)]).Installed?
    ensures Download(g, "/b", c, [Entry("n", false)]).written == ["/c/n"]
    ensures Recorded(c, [Entry("n", false)]) == ["/c/n"]
    ensures JoinPath("/b", Recorded(c, [Entry("n", false)])[0]) == "/b/c/n"
  {
    RootedClimbPaths();
    ClimbEntryPasses();
    var entries := [Entry("n", false)];
    assert Destination("/b", c) == "/c";
    assert Passes(g, "/c", "n");
    assert entries[1..] == [];
    assert Extract(g, "/c", c.directory, entries) == Extracted(["/c/n"], ["/c/n"]);
    assert FileNames(entries) == ["n"] by {
      assert FileNames(entries[1..]) == [];
    }
  }

  /** Download then reload: the record's first line, read back by the manifest loader,
      marks the component downloaded, and outdated exactly when the manifest's hash differs
      from the one it was installed with, keeping the installed size as the old size. This
      needs a header short enough for the scanner (`Records.RecordHeaderTooLong` is the
      other case). */
  lemma {:induction false} DownloadStalenessRoundTrip(g: Guard, base: string, c: Component, entries: seq<Entry>, manifestHash: string)
    requires c.installSize != 0 && InInt64(c.installSize)
    requires HeaderSafe(c)
    requires Utf8Len(FormatHeader(c.hash, c.installSize, c.depends)) < MaxScanTokenSize
    requires Download(g, base, c, entries).Installed?
    ensures Classify(manifestHash, Some(FirstLine(Download(g, base, c, entries).record)))
         == LocalState(true, manifestHash != c.hash, if manifestHash != c.hash then c.installSize else 0)
  {
    var r := Extract(g, Destination(base, c), c.directory, entries);
    RecordStalenessRoundTrip(c.hash, c.installSize, c.depends, r.recorded, manifestHash);
  }

  /** Where the two checks agree on every name (a destination that keeps at least one
      segment and none of them `..`), so do the two extractions. */
  lemma {:induction false} ExtractGuardsAgree(dest: string, dir: string, entries: seq<Entry>)
    requires |Stack(dest)| > 0
    requires forall i :: 0 <= i < |Stack(dest)| ==> Stack(dest)[i] != ".."
    ensures Extract(AsWritten, dest, dir, entries) == Extract(Intended, dest, dir, entries)
    decreases |entries|
  {
    if |entries| > 0 {
      ExtractGuardsAgree(dest, dir, entries[1..]);
      ZipSlipAgrees(dest, entries[0].name);
    }
  }

  /** Under an absolute destination other than `/`, the program's download is the intended
      one: it installs exactly when every file entry lies inside the destination. */
  lemma DownloadGuardsAgree(base: string, c: Component, entries: seq<Entry>)
    requires IsRooted(Destination(base, c)) && Clean(Destination(base, c)) != "/"
    ensures Download(AsWritten, base, c, entries) == Download(Intended, base, c, entries)
  {
    var dest := Destination(base, c);
    StackTidy([], dest, true);
    ExtractGuardsAgree(dest, c.directory, entries);
  }

  /** A destination that cleans to no segment at all (`/` or `.`) makes the check as
      written reject the first file entry, whatever its name, before anything is written. */
  lemma {:induction false} ExtractEmptyStackRejects(dest: string, dir: string, entries: seq<Entry>)
    requires Stack(dest) == []
    requires FileNames(entries) != []
    ensures Extract(AsWritten, dest, dir, entries) == Illegal(JoinPath(dest, FileNames(entries)[0]), [])
    decreases |entries|
  {
    var e := entries[0];
    if e.isDir {
      ExtractEmptyStackRejects(dest, dir, entries[1..]);
    } else {
      ZipSlipSegments(dest, e.name);
    }
  }

  /** A component installed straight into the base `/` (empty `path`) is always rejected by
      the program, while the intended check installs a plain file `a`. */
  lemma DownloadRootRejects(c: Component, entries: seq<Entry>)
    requires c.installSize != 0 && c.directory == ""
    requires FileNames(entries) != []
    ensures Download(AsWritten, "/", c, entries) == Rejected(JoinPath("/", FileNames(entries)[0]), [])
    ensures Download(Intended, "/", c, [Entry("a", false)]).Installed?
  {
    RootDestination(c);
    EmptyStacks();
    ExtractEmptyStackRejects("/", c.directory, entries);
    RootDestRejectsAll("a");
  }

  lemma RootDestination(c: Component)
    requires c.directory == ""
    ensures Destination("/", c) == "/"
  {
    EmptyStacks();
    assert "/" + "/" + "" == "//";
    SplitAround("", '/', "/");
    assert "" + ['/'] + "/" == "//";
    assert Segments("//") == ["", "", ""];
  }

  /** A component installed into the relative base `..` (empty `path`) accepts the entry
      `../x`, which lands outside the base; the intended check rejects it. */
  lemma DownloadDotDotEscapes(c: Component)
    requires c.installSize != 0 && c.directory == ""
    ensures Download(AsWritten, "..", c, [Entry("../x", false)]).Installed?
    ensures Download(Intended, "..", c, [Entry("../x", false)]).Rejected?
  {
    DotDotDestination(c);
    DotDotDestAcceptsEscape();
  }

  lemma DotDotDestination(c: Component)
    requires c.directory == ""
    ensures Destination("..", c) == ".."
  {
    DotDotStacks();
    assert ".." + "/" + "" == "../";
    SplitAround("..", '/', "");
    assert ".." + ['/'] + "" == "../";
    SplitWithoutSep("..", '/');
    assert Segments("../") == ["..", ""];
  }
}
