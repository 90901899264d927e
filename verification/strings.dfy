/** The string operations of Go's `strings` package that the component manager relies on,
    restricted to a single-character separator (the only form the program uses). Strings are
    sequences of Unicode scalar values; the program's byte-level comparisons coincide with
    these on well-formed UTF-8. */
module Strings {

  /** `strings.HasPrefix`. */
  predicate HasPrefix(s: string, prefix: string) {
    |prefix| <= |s| && s[..|prefix|] == prefix
  }

  /** The number of bytes a code point takes in UTF-8, the encoding of Go strings. */
  function Utf8Width(c: char): nat {
    if c as int < 0x80 then 1
    else if c as int < 0x800 then 2
    else if c as int < 0x1_0000 then 3
    else 4
  }

  /** The length in bytes of a string's UTF-8 encoding (Go's `len`). */
  function Utf8Len(s: string): (n: nat)
    ensures |s| <= n <= 4 * |s|
  {
    if |s| == 0 then 0 else Utf8Width(s[0]) + Utf8Len(s[1..])
  }

  /** `strings.HasSuffix`. */
  predicate HasSuffix(s: string, suffix: string) {
    |suffix| <= |s| && s[|s| - |suffix|..] == suffix
  }

  /** `strings.Split(s, string(sep))`: the pieces between occurrences of `sep`; an empty
      string yields one empty piece, and two adjacent separators yield an empty piece. */
  function Split(s: string, sep: char): (parts: seq<string>)
    ensures |parts| >= 1
  {
    if |s| == 0 then [""]
    else
      var rest := Split(s[1..], sep);
      if s[0] == sep then [""] + rest
      else [[s[0]] + rest[0]] + rest[1..]
  }

  /** `strings.Join(parts, sep)`. */
  function Join(parts: seq<string>, sep: string): string {
    if |parts| == 0 then ""
    else if |parts| == 1 then parts[0]
    else parts[0] + sep + Join(parts[1..], sep)
  }

  /** Joining one more piece appends it after a separator. */
  lemma {:induction false} JoinSnoc(parts: seq<string>, x: string, sep: string)
    ensures Join(parts + [x], sep) == if |parts| == 0 then x else Join(parts, sep) + sep + x
  {
    if |parts| == 1 {
      assert parts + [x] == [parts[0], x];
    } else if |parts| > 1 {
      assert (parts + [x])[1..] == parts[1..] + [x];
      JoinSnoc(parts[1..], x, sep);
    }
  }

  /** The join is non-empty as soon as its first piece is. */
  lemma JoinNonEmpty(parts: seq<string>, sep: string)
    requires |parts| > 0 && parts[0] != ""
    ensures Join(parts, sep) != ""
  {
  }

  /** A character found neither in the pieces nor in the separator is not in the join. */
  lemma {:induction false} JoinExcludes(parts: seq<string>, sep: string, c: char)
    requires c !in sep
    requires forall i :: 0 <= i < |parts| ==> c !in parts[i]
    ensures c !in Join(parts, sep)
  {
    if |parts| > 1 {
      JoinExcludes(parts[1..], sep, c);
    }
  }

  /** Joining the pieces back with the separator restores the string. */
  lemma {:induction false} JoinSplit(s: string, sep: char)
    ensures Join(Split(s, sep), [sep]) == s
  {
    if |s| > 0 {
      JoinSplit(s[1..], sep);
      var rest := Split(s[1..], sep);
      if s[0] == sep {
        assert Split(s, sep) == [""] + rest;
        assert s == [sep] + s[1..];
      } else if |rest| == 1 {
        assert Split(s, sep) == [[s[0]] + rest[0]];
        assert s == [s[0]] + s[1..];
      } else {
        var parts := Split(s, sep);
        assert parts[1..] == rest[1..];
        assert Join(rest, [sep]) == rest[0] + [sep] + Join(rest[1..], [sep]);
        assert s == [s[0]] + s[1..];
      }
    }
  }

  /** A string without the separator is one piece. */
  lemma {:induction false} SplitWithoutSep(s: string, sep: char)
    requires sep !in s
    ensures Split(s, sep) == [s]
  {
    if |s| > 0 {
      SplitWithoutSep(s[1..], sep);
      assert s == [s[0]] + s[1..];
    }
  }

  /** The index of the first `c` in `s`, or `|s|` when there is none. */
  function IndexOf(s: string, c: char): (i: nat)
    ensures i <= |s|
    ensures c !in s[..i]
    ensures i < |s| ==> s[i] == c
  {
    if |s| == 0 then 0
    else if s[0] == c then 0
    else
      var i := IndexOf(s[1..], c) + 1;
      assert s[..i] == [s[0]] + s[1..][..i - 1];
      i
  }

  /** The first `c` of a string that contains one is the first `c` of any extension. */
  lemma {:induction false} IndexOfPrefix(a: string, b: string, c: char)
    requires c in a
    ensures IndexOf(a + b, c) == IndexOf(a, c) < |a|
  {
    if a[0] != c {
      IndexOfPrefix(a[1..], b, c);
      assert (a + b)[1..] == a[1..] + b;
    }
  }

  /** A split has more than one field exactly when the separator occurs. */
  lemma {:induction false} SplitFieldCount(s: string, sep: char)
    ensures |Split(s, sep)| >= 2 <==> sep in s
  {
    if |s| > 0 {
      SplitFieldCount(s[1..], sep);
      SplitCons(s[0], s[1..], sep);
      assert s == [s[0]] + s[1..];
    }
  }

  /** The first field of a split is everything before the first separator. */
  lemma {:induction false} SplitFirst(s: string, sep: char)
    ensures Split(s, sep)[0] == s[..IndexOf(s, sep)]
  {
    if |s| > 0 && s[0] != sep {
      SplitFirst(s[1..], sep);
      SplitCons(s[0], s[1..], sep);
      assert s == [s[0]] + s[1..];
      var i := IndexOf(s[1..], sep);
      assert s[..i + 1] == [s[0]] + s[1..][..i];
    }
  }

  /** One step of `Split`, stated on a cons so that larger proofs need not unfold it. */
  lemma SplitCons(c: char, t: string, sep: char)
    ensures Split([c] + t, sep) ==
      if c == sep then [""] + Split(t, sep) else [[c] + Split(t, sep)[0]] + Split(t, sep)[1..]
  {
    assert ([c] + t)[1..] == t;
  }

  /** No piece of a split contains the separator. */
  lemma {:induction false} SplitNoSep(s: string, sep: char)
    ensures forall i :: 0 <= i < |Split(s, sep)| ==> sep !in Split(s, sep)[i]
  {
    if |s| > 0 {
      SplitNoSep(s[1..], sep);
      SplitCons(s[0], s[1..], sep);
      assert s == [s[0]] + s[1..];
    }
  }

  /** Splitting at one occurrence of the separator splits the pieces there. */
  lemma {:induction false} SplitAround(a: string, sep: char, b: string)
    ensures Split(a + [sep] + b, sep) == Split(a, sep) + Split(b, sep)
  {
    if |a| == 0 {
      assert a + [sep] + b == [sep] + b;
      SplitCons(sep, b, sep);
    } else {
      var x, a' := a[0], a[1..];
      assert a == [x] + a';
      assert a + [sep] + b == [x] + (a' + [sep] + b);
      SplitAround(a', sep, b);
      SplitCons(x, a' + [sep] + b, sep);
      SplitCons(x, a', sep);
    }
  }

  /** Splitting the joined pieces restores them, provided no piece holds the separator. */
  lemma {:induction false} SplitJoin(parts: seq<string>, sep: char)
    requires |parts| >= 1
    requires forall i :: 0 <= i < |parts| ==> sep !in parts[i]
    ensures Split(Join(parts, [sep]), sep) == parts
  {
    if |parts| == 1 {
      SplitWithoutSep(parts[0], sep);
    } else {
      SplitJoin(parts[1..], sep);
      SplitWithoutSep(parts[0], sep);
      SplitAround(parts[0], sep, Join(parts[1..], [sep]));
      assert parts == [parts[0]] + parts[1..];
    }
  }

  /** Go's `unicode.IsSpace`: the Latin-1 spaces and the Unicode White_Space characters. */
  predicate IsSpace(c: char) {
    c == '\t' || c == '\n' || c == '\U{000B}' || c == '\U{000C}' || c == '\r' || c == ' '
    || c == '\U{0085}' || c == '\U{00A0}' || c == '\U{1680}'
    || ('\U{2000}' <= c <= '\U{200A}')
    || c == '\U{2028}' || c == '\U{2029}' || c == '\U{202F}' || c == '\U{205F}' || c == '\U{3000}'
  }

  /** The index of the first non-space character at or after `i`, or `|s|`. */
  function SkipSpaces(s: string, i: nat): (k: nat)
    requires i <= |s|
    ensures i <= k <= |s|
    ensures forall j :: i <= j < k ==> IsSpace(s[j])
    ensures k < |s| ==> !IsSpace(s[k])
    decreases |s| - i
  {
    if i < |s| && IsSpace(s[i]) then SkipSpaces(s, i + 1) else i
  }

  /** The index just past the last non-space character of `s[lo..e]`, or `lo`. */
  function SkipSpacesBack(s: string, lo: nat, e: nat): (k: nat)
    requires lo <= e <= |s|
    ensures lo <= k <= e
    ensures forall j :: k <= j < e ==> IsSpace(s[j])
    ensures k > lo ==> !IsSpace(s[k - 1])
    decreases e
  {
    if e > lo && IsSpace(s[e - 1]) then SkipSpacesBack(s, lo, e - 1) else e
  }

  /** How many leading characters `TrimSpace` cuts off. */
  function TrimStart(s: string): nat
    ensures TrimStart(s) <= |s|
  {
    SkipSpaces(s, 0)
  }

  /** `strings.TrimSpace`: the infix of `s` that neither starts nor ends with a space;
      everything cut off on either side is space. */
  function TrimSpace(s: string): (r: string)
    ensures |r| > 0 ==> !IsSpace(r[0]) && !IsSpace(r[|r| - 1])
    ensures TrimStart(s) + |r| <= |s| && r == s[TrimStart(s)..TrimStart(s) + |r|]
    ensures forall i :: 0 <= i < TrimStart(s) ==> IsSpace(s[i])
    ensures forall i :: TrimStart(s) + |r| <= i < |s| ==> IsSpace(s[i])
  {
    var k := SkipSpaces(s, 0);
    s[k..SkipSpacesBack(s, k, |s|)]
  }

  /** A string that neither starts nor ends with a space is left alone. */
  lemma TrimSpaceKeepsTrimmed(s: string)
    requires |s| > 0 ==> !IsSpace(s[0]) && !IsSpace(s[|s| - 1])
    ensures TrimSpace(s) == s
  {
    assert SkipSpaces(s, 0) == 0;
    assert SkipSpacesBack(s, 0, |s|) == |s|;
    assert s[0..|s|] == s;
  }
}
