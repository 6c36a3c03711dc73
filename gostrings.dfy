/**
 * The string and path helpers of Go's standard library that the watcher relies on:
 * strings.HasPrefix, strings.HasSuffix, strings.Split (with a one-character separator)
 * and path.Base (identical to filepath.Base on a Unix system, where paths have no
 * volume name). Strings are sequences of characters; the watcher only ever splits on
 * ',' and '/', which are single bytes, so byte and character views coincide here.
 */
module GoStrings {

  /** strings.HasPrefix(s, prefix) */
  predicate HasPrefix(s: string, prefix: string) {
    prefix <= s
  }

  /** strings.HasSuffix(s, suffix) */
  predicate HasSuffix(s: string, suffix: string) {
    |suffix| <= |s| && s[|s| - |suffix|..] == suffix
  }

  /** HasPrefix compares characters: prefix fits in s and s starts with prefix's characters. */
  lemma HasPrefixCharwise(s: string, prefix: string)
    ensures HasPrefix(s, prefix) <==> |prefix| <= |s| && forall i :: 0 <= i < |prefix| ==> s[i] == prefix[i]
  {
    if |prefix| <= |s| && forall i :: 0 <= i < |prefix| ==> s[i] == prefix[i] {
      assert s[..|prefix|] == prefix;
    }
  }

  /** HasSuffix compares characters: suffix fits in s and s ends with suffix's characters. */
  lemma HasSuffixCharwise(s: string, suffix: string)
    ensures HasSuffix(s, suffix) <==>
      |suffix| <= |s| && forall i :: 0 <= i < |suffix| ==> s[|s| - |suffix| + i] == suffix[i]
  {
    if |suffix| <= |s| && forall i :: 0 <= i < |suffix| ==> s[|s| - |suffix| + i] == suffix[i] {
      assert s[|s| - |suffix|..] == suffix;
    }
  }

  /**
   * strings.Split(s, [sep]): the pieces of s between occurrences of sep. The empty
   * string splits into one empty piece, and a trailing separator yields a trailing
   * empty piece.
   */
  function Split(s: string, sep: char): (parts: seq<string>)
    ensures |parts| >= 1
    ensures forall i :: 0 <= i < |parts| ==> sep !in parts[i]
  {
    if s == [] then [[]]
    else
      var rest := Split(s[1..], sep);
      if s[0] == sep then [[]] + rest
      else [[s[0]] + rest[0]] + rest[1..]
  }

  /** strings.Join(parts, [sep]) */
  function Join(parts: seq<string>, sep: char): string
    requires |parts| >= 1
  {
    if |parts| == 1 then parts[0] else parts[0] + [sep] + Join(parts[1..], sep)
  }

  /** Joining the pieces of a split gives back the original string. */
  lemma {:induction false} JoinSplit(s: string, sep: char)
    ensures Join(Split(s, sep), sep) == s
  {
    if s != [] {
      var rest := Split(s[1..], sep);
      JoinSplit(s[1..], sep);
      if s[0] == sep {
        assert Split(s, sep)[1..] == rest;
      } else if |rest| > 1 {
        assert Split(s, sep)[1..] == rest[1..];
      }
    }
  }

  /** A string without the separator is a single piece. */
  lemma {:induction false} SplitWithoutSeparator(s: string, sep: char)
    requires sep !in s
    ensures Split(s, sep) == [s]
  {
    if s != [] {
      assert s[0] != sep;
      SplitWithoutSeparator(s[1..], sep);
      assert [s[0]] + s[1..] == s;
    }
  }

  /** Splitting distributes over a separator: the pieces of a, then those of b. */
  lemma {:induction false} SplitAtSeparator(a: string, b: string, sep: char)
    ensures Split(a + [sep] + b, sep) == Split(a, sep) + Split(b, sep)
  {
    if a == [] {
      assert a + [sep] + b == [sep] + b;
      SplitCons(sep, b, sep);
    } else {
      var c, rest := a[0], a[1..];
      var tail := rest + [sep] + b;
      assert a + [sep] + b == [c] + tail;
      assert a == [c] + rest;
      SplitAtSeparator(rest, b, sep);
      SplitCons(c, tail, sep);
      SplitCons(c, rest, sep);
      ConsPieces(c, Split(rest, sep), Split(b, sep), sep);
    }
  }

  lemma ConsPieces(c: char, pa: seq<string>, pb: seq<string>, sep: char)
    requires |pa| >= 1
    ensures (if c == sep then [[]] + (pa + pb) else [[c] + (pa + pb)[0]] + (pa + pb)[1..])
         == (if c == sep then [[]] + pa else [[c] + pa[0]] + pa[1..]) + pb
  {
    if c != sep {
      assert (pa + pb)[0] == pa[0];
      assert (pa + pb)[1..] == pa[1..] + pb;
    }
  }

  /** Split unfolded once on its first character. */
  lemma SplitCons(c: char, t: string, sep: char)
    ensures Split([c] + t, sep) ==
      if c == sep then [[]] + Split(t, sep) else [[c] + Split(t, sep)[0]] + Split(t, sep)[1..]
  {
    assert ([c] + t)[0] == c && ([c] + t)[1..] == t;
  }

  /** Splitting a join of separator-free pieces gives back the pieces. */
  lemma {:induction false} SplitJoin(parts: seq<string>, sep: char)
    requires |parts| >= 1
    requires forall i :: 0 <= i < |parts| ==> sep !in parts[i]
    ensures Split(Join(parts, sep), sep) == parts
  {
    SplitWithoutSeparator(parts[0], sep);
    if |parts| > 1 {
      SplitJoin(parts[1..], sep);
      SplitAtSeparator(parts[0], Join(parts[1..], sep), sep);
    }
  }

  /** The length of s[..j] once every trailing '/' is removed. */
  function TrimmedLength(s: string, j: nat): nat
    requires j <= |s|
  {
    if j > 0 && s[j - 1] == '/' then TrimmedLength(s, j - 1) else j
  }

  lemma {:induction false} TrimmedLengthBounds(s: string, j: nat)
    requires j <= |s|
    ensures var n := TrimmedLength(s, j);
            && n <= j && (n == 0 || s[n - 1] != '/')
            && forall i :: n <= i < j ==> s[i] == '/'
  {
    if j > 0 && s[j - 1] == '/' {
      TrimmedLengthBounds(s, j - 1);
    }
  }

  /** Where the last element of s[..j] starts: just after its last '/', or at 0 when it holds none. */
  function ElementStart(s: string, j: nat): nat
    requires j <= |s|
  {
    if j > 0 && s[j - 1] != '/' then ElementStart(s, j - 1) else j
  }

  lemma {:induction false} ElementStartBounds(s: string, j: nat)
    requires j <= |s|
    ensures var i := ElementStart(s, j);
            && i <= j && (i == 0 || s[i - 1] == '/')
            && forall k :: i <= k < j ==> s[k] != '/'
  {
    if j > 0 && s[j - 1] != '/' {
      ElementStartBounds(s, j - 1);
    }
  }

  /**
   * path.Base(p): the last element of p after trailing slashes are removed; "." for
   * the empty path and "/" for a path made only of slashes.
   */
  function Base(p: string): (b: string)
    ensures b != []
    ensures b == "/" || '/' !in b
  {
    if p == [] then "."
    else
      var n := TrimmedLength(p, |p|);
      TrimmedLengthBounds(p, |p|);
      if n == 0 then "/"
      else
        ElementStartBounds(p, n);
        p[ElementStart(p, n)..n]
  }

  /**
   * The base of a path that does not end in '/' is its last element: a non-empty suffix
   * of the path, without '/', that is all of it or is preceded by a '/'.
   */
  lemma BaseIsLastElement(p: string)
    requires p != [] && p[|p| - 1] != '/'
    ensures var b := Base(p);
            && 0 < |b| <= |p| && b == p[|p| - |b|..] && '/' !in b
            && (|b| == |p| || p[|p| - |b| - 1] == '/')
  {
    assert TrimmedLength(p, |p|) == |p|;
    ElementStartBounds(p, |p|);
  }

  /** The base of a non-empty name without slashes is the name itself. */
  lemma BaseOfName(n: string)
    requires n != [] && '/' !in n
    ensures Base(n) == n
  {
    assert TrimmedLength(n, |n|) == |n|;
    ElementStartBounds(n, |n|);
    var i := ElementStart(n, |n|);
    assert i == 0;
  }

  /** The base of dir + "/" + n is n, for a non-empty n without slashes. */
  lemma BaseOfChild(dir: string, n: string)
    requires n != [] && '/' !in n
    ensures Base(dir + "/" + n) == n
  {
    var p := dir + "/" + n;
    assert p[|p| - 1] == n[|n| - 1];
    assert TrimmedLength(p, |p|) == |p|;
    ElementStartBounds(p, |p|);
    var i := ElementStart(p, |p|);
    assert p[|dir|] == '/';
    assert i == |dir| + 1;
    assert p[i..] == n;
  }
}
