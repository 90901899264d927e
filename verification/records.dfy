/** The installation record: the text file `Components/<id>` that `downloadComponent`
    writes after extracting a component, whose first line the manifest walk reads back to
    decide staleness, and whose remaining lines `removeComponent` reads to know what to
    delete. */
module Records {
  import opened Options
  import opened Strings
  import opened Numbers
  import opened Manifest
  import opened Seqs

  /** The header line `hash size dep1 dep2 …` (the `%s %d %s` format, so an empty
      dependency list still leaves the second space). */
  function FormatHeader(hash: string, installSize: int, depends: seq<string>): string {
    hash + " " + FormatInt(installSize) + " " + Join(depends, " ")
  }

  /** The record file: the header followed by one installed path per line, joined with
      newlines and with no final newline. */
  function RecordContent(header: string, files: seq<string>): string {
    Join([header] + files, "\n")
  }

  /** `bufio.MaxScanTokenSize`: a `bufio.Scanner` with its default buffer fails on a line
      of this many bytes or more. */
  const MaxScanTokenSize: nat := 64 * 1024

  /** What one `bufio.Scanner` line scan yields for the file: nothing for an empty file or
      for a first line (up to the newline) of `MaxScanTokenSize` bytes or more, otherwise the
      text up to the first newline (or the end), minus a final carriage return. */
  function FirstLine(content: string): Option<string> {
    if |content| == 0 then None
    else
      var line := Split(content, '\n')[0];
      if Utf8Len(line) >= MaxScanTokenSize then None else Some(DropCR(line))
  }

  function DropCR(line: string): string {
    if |line| > 0 && line[|line| - 1] == '\r' then line[..|line| - 1] else line
  }

  /** The paths `removeComponent` deletes: every line after the header, trimmed of
      surrounding white space, except the lines that trim to nothing. A record that cannot
      be read contributes none. */
  function RemovalTargets(record: Option<string>): seq<string> {
    match record
    case None => []
    case Some(content) => NonBlank(Split(content, '\n')[1..])
  }

  function NonBlank(lines: seq<string>): (r: seq<string>)
    ensures forall i :: 0 <= i < |r| ==> r[i] != "" && TrimSpace(r[i]) == r[i]
  {
    if |lines| == 0 then []
    else
      var t := TrimSpace(lines[0]);
      (if t == "" then [] else (TrimSpaceIdempotent(lines[0]); [t])) + NonBlank(lines[1..])
  }

  predicate NotBlank(t: string) {
    t != ""
  }

  /** Every line trimmed of surrounding white space. */
  function TrimAll(lines: seq<string>): (r: seq<string>)
    ensures |r| == |lines| && forall i :: 0 <= i < |lines| ==> r[i] == TrimSpace(lines[i])
  {
    seq(|lines|, i requires 0 <= i < |lines| => TrimSpace(lines[i]))
  }

  /** The removal lines are the trimmed lines with the blank ones dropped, in order and
      with their repetitions. */
  lemma {:induction false} NonBlankIsFilter(lines: seq<string>)
    ensures NonBlank(lines) == Filter(TrimAll(lines), NotBlank)
  {
    if |lines| > 0 {
      NonBlankIsFilter(lines[1..]);
      assert TrimAll(lines)[1..] == TrimAll(lines[1..]);
    }
  }

  /** A path is a removal target exactly when some line trims to it and it is not blank. */
  lemma {:induction false} NonBlankMembers(lines: seq<string>)
    ensures forall t :: t in NonBlank(lines) <==>
      exists i :: 0 <= i < |lines| && t == TrimSpace(lines[i]) && t != ""
  {
    NonBlankIsFilter(lines);
    var ts := TrimAll(lines);
    forall t | t in NonBlank(lines)
      ensures exists i :: 0 <= i < |lines| && t == TrimSpace(lines[i]) && t != ""
    {
      var i :| 0 <= i < |ts| && ts[i] == t;
    }
    forall t, i | 0 <= i < |lines| && t == TrimSpace(lines[i]) && t != ""
      ensures t in NonBlank(lines)
    {
      assert ts[i] == t;
    }
  }

  lemma TrimSpaceIdempotent(s: string)
    ensures TrimSpace(TrimSpace(s)) == TrimSpace(s)
  {
    TrimSpaceKeepsTrimmed(TrimSpace(s));
  }

  /** A header built from a hash and dependency IDs without line breaks is one line that
      does not end in a carriage return. */
  lemma HeaderOneLine(hash: string, installSize: int, depends: seq<string>)
    requires '\n' !in hash && '\r' !in hash
    requires forall i :: 0 <= i < |depends| ==> '\n' !in depends[i] && '\r' !in depends[i]
    ensures '\n' !in FormatHeader(hash, installSize, depends)
    ensures DropCR(FormatHeader(hash, installSize, depends)) == FormatHeader(hash, installSize, depends)
  {
    var size := FormatInt(installSize);
    var deps := Join(depends, " ");
    var header := FormatHeader(hash, installSize, depends);
    JoinExcludes(depends, " ", '\n');
    JoinExcludes(depends, " ", '\r');
    assert '\n' !in size && '\r' !in size by {
      forall i | 0 <= i < |size| ensures size[i] != '\n' && size[i] != '\r' {
      }
    }
    assert header == hash + [' '] + (size + [' '] + deps);
    if |deps| > 0 {
      assert header[|header| - 1] == deps[|deps| - 1];
    }
  }

  /** A header built from a hash without spaces or line breaks and dependency IDs without
      line breaks is one line that does not end in a carriage return, split by spaces into
      the hash, the size, and the rest. */
  lemma HeaderFields(hash: string, installSize: int, depends: seq<string>)
    requires ' ' !in hash && '\n' !in hash && '\r' !in hash
    requires forall i :: 0 <= i < |depends| ==> '\n' !in depends[i] && '\r' !in depends[i]
    ensures '\n' !in FormatHeader(hash, installSize, depends)
    ensures DropCR(FormatHeader(hash, installSize, depends)) == FormatHeader(hash, installSize, depends)
    ensures |Split(FormatHeader(hash, installSize, depends), ' ')| >= 2
    ensures Split(FormatHeader(hash, installSize, depends), ' ')[0] == hash
    ensures Split(FormatHeader(hash, installSize, depends), ' ')[1] == FormatInt(installSize)
  {
    var size := FormatInt(installSize);
    var deps := Join(depends, " ");
    var header := FormatHeader(hash, installSize, depends);
    JoinExcludes(depends, " ", '\n');
    JoinExcludes(depends, " ", '\r');
    assert ' ' !in size && '\n' !in size && '\r' !in size by {
      forall i | 0 <= i < |size| ensures size[i] != ' ' && size[i] != '\n' && size[i] != '\r' {
      }
    }
    assert header == hash + [' '] + (size + [' '] + deps);
    assert '\n' !in header;
    if |deps| > 0 {
      assert header[|header| - 1] == deps[|deps| - 1];
    }
    SplitAround(hash, ' ', size + [' '] + deps);
    SplitAround(size, ' ', deps);
    SplitWithoutSep(hash, ' ');
    SplitWithoutSep(size, ' ');
  }

  /** The record's first line is its header, provided the header is one line. */
  lemma HeaderFirst(header: string, files: seq<string>)
    requires '\n' !in header
    ensures Split(RecordContent(header, files), '\n')[0] == header
  {
    var content := RecordContent(header, files);
    if |files| == 0 {
      assert content == header;
      SplitWithoutSep(header, '\n');
    } else {
      assert content == header + "\n" + Join(files, "\n");
      SplitAround(header, '\n', Join(files, "\n"));
      SplitWithoutSep(header, '\n');
    }
  }

  /** A one-line header the scanner can read is the record's first line. */
  lemma FirstLineOfHeader(header: string, files: seq<string>)
    requires header != "" && '\n' !in header && DropCR(header) == header
    requires Utf8Len(header) < MaxScanTokenSize
    ensures FirstLine(RecordContent(header, files)) == Some(header)
  {
    HeaderFirst(header, files);
    assert |RecordContent(header, files)| > 0 by {
      assert |Split(RecordContent(header, files), '\n')[0]| > 0;
    }
  }

  /** A first line that starts with a hash containing a space marks that hash outdated. */
  lemma SpacedHashOutdated(hash: string, rest: string)
    requires ' ' in hash
    ensures Classify(hash, Some(Some(hash + rest))).outdated
  {
    IndexOfPrefix(hash, rest, ' ');
    ClassifyOutdated(hash, hash + rest);
  }

  /** A hash containing a space is cut at that space when read back, so the record never
      matches the manifest again: the component stays outdated even when the manifest's
      hash is the one it was installed with. */
  lemma RecordSpacedHashOutdated(hash: string, installSize: int, depends: seq<string>,
                                 files: seq<string>)
    requires ' ' in hash && '\n' !in hash && '\r' !in hash
    requires forall i :: 0 <= i < |depends| ==> '\n' !in depends[i] && '\r' !in depends[i]
    requires Utf8Len(FormatHeader(hash, installSize, depends)) < MaxScanTokenSize
    ensures Classify(hash,
                     Some(FirstLine(RecordContent(FormatHeader(hash, installSize, depends), files)))).outdated
  {
    var header := FormatHeader(hash, installSize, depends);
    HeaderOneLine(hash, installSize, depends);
    HeaderStartsWithHash(hash, installSize, depends);
    FirstLineOfHeader(header, files);
    SpacedHashOutdated(hash, HeaderRest(installSize, depends));
  }

  /** The header after the hash. */
  function HeaderRest(installSize: int, depends: seq<string>): string {
    " " + FormatInt(installSize) + " " + Join(depends, " ")
  }

  lemma HeaderStartsWithHash(hash: string, installSize: int, depends: seq<string>)
    ensures FormatHeader(hash, installSize, depends) == hash + HeaderRest(installSize, depends)
  {
  }

  /** The record of a header whose last dependency ID holds a line break is the record of
      the two header lines. */
  lemma RecordOfBrokenHeader(line: string, post: string, files: seq<string>)
    ensures RecordContent(line + "\n" + post, files) == Join([line, post] + files, "\n")
  {
    if |files| > 0 {
      assert ([line, post] + files)[1..] == [post] + files;
      assert ([post] + files)[1..] == files;
      assert ([line + "\n" + post] + files)[1..] == files;
    }
  }

  /** A dependency ID `pre⏎post` splits the header over two lines, and the second line
      becomes a removal target that no download wrote: removal deletes `post` and then the
      recorded files. */
  lemma DependsLineBreakAddsTarget(hash: string, installSize: int, pre: string, post: string,
                                   files: seq<string>)
    requires '\n' !in hash && '\n' !in pre
    requires post != "" && '\n' !in post && TrimSpace(post) == post
    requires forall i :: 0 <= i < |files| ==>
      files[i] != "" && '\n' !in files[i] && TrimSpace(files[i]) == files[i]
    ensures RemovalTargets(Some(RecordContent(FormatHeader(hash, installSize, [pre + "\n" + post]), files)))
         == [post] + files
  {
    var size := FormatInt(installSize);
    var line := hash + " " + size + " " + pre;
    assert Join([pre + "\n" + post], " ") == pre + "\n" + post;
    assert FormatHeader(hash, installSize, [pre + "\n" + post]) == line + "\n" + post;
    assert '\n' !in size by {
      forall i | 0 <= i < |size| ensures size[i] != '\n' {
      }
    }
    assert '\n' !in line;
    RecordOfBrokenHeader(line, post, files);
    var lines := [line, post] + files;
    SplitJoin(lines, '\n');
    assert lines[1..] == [post] + files;
    NonBlankKeeps([post] + files);
  }

  /** Reading back a freshly written record whose header the scanner can read: the
      component is downloaded, it is outdated exactly when the manifest hash now differs
      from the recorded one, and then the recorded size is the previous install size. */
  lemma RecordStalenessRoundTrip(hash: string, installSize: int, depends: seq<string>,
                                 files: seq<string>, manifestHash: string)
    requires ' ' !in hash && '\n' !in hash && '\r' !in hash
    requires forall i :: 0 <= i < |depends| ==> '\n' !in depends[i] && '\r' !in depends[i]
    requires InInt64(installSize)
    requires Utf8Len(FormatHeader(hash, installSize, depends)) < MaxScanTokenSize
    ensures Classify(manifestHash,
                     Some(FirstLine(RecordContent(FormatHeader(hash, installSize, depends), files))))
         == LocalState(true, manifestHash != hash, if manifestHash != hash then installSize else 0)
  {
    var header := FormatHeader(hash, installSize, depends);
    HeaderFields(hash, installSize, depends);
    HeaderFirst(header, files);
    var content := RecordContent(header, files);
    assert |content| > 0 by {
      assert |Split(content, '\n')[0]| > 0 by {
        assert |FormatInt(installSize)| > 0;
      }
    }
    assert FirstLine(content) == Some(header);
    ParseFormatInt(installSize);
  }

  /** A header too long for the scanner is never read back: the component counts as
      downloaded and never as outdated, whatever the manifest's hash. */
  lemma RecordHeaderTooLong(hash: string, installSize: int, depends: seq<string>,
                            files: seq<string>, manifestHash: string)
    requires ' ' !in hash && '\n' !in hash && '\r' !in hash
    requires forall i :: 0 <= i < |depends| ==> '\n' !in depends[i] && '\r' !in depends[i]
    requires Utf8Len(FormatHeader(hash, installSize, depends)) >= MaxScanTokenSize
    ensures Classify(manifestHash,
                     Some(FirstLine(RecordContent(FormatHeader(hash, installSize, depends), files))))
         == LocalState(true, false, 0)
  {
    var header := FormatHeader(hash, installSize, depends);
    HeaderFields(hash, installSize, depends);
    HeaderFirst(header, files);
    var content := RecordContent(header, files);
    assert |content| > 0 by {
      assert |Split(content, '\n')[0]| > 0;
    }
  }

  /** The record lists one line per installed file after the header, and removal reads
      back exactly the installed files, provided each is a non-empty single line without
      surrounding white space. */
  lemma RecordRemovalRoundTrip(header: string, files: seq<string>)
    requires '\n' !in header
    requires forall i :: 0 <= i < |files| ==>
      files[i] != "" && '\n' !in files[i] && TrimSpace(files[i]) == files[i]
    ensures |Split(RecordContent(header, files), '\n')| == |files| + 1
    ensures RemovalTargets(Some(RecordContent(header, files))) == files
  {
    var lines := [header] + files;
    SplitJoin(lines, '\n');
    assert lines[1..] == files;
    NonBlankKeeps(files);
  }

  lemma {:induction false} NonBlankKeeps(lines: seq<string>)
    requires forall i :: 0 <= i < |lines| ==> lines[i] != "" && TrimSpace(lines[i]) == lines[i]
    ensures NonBlank(lines) == lines
  {
    if |lines| > 0 {
      NonBlankKeeps(lines[1..]);
    }
  }
}
