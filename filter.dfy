/**
 * The watcher's two filters: which change events trigger a rebuild (skipChange) and
 * which directories are watched at all (skipDir), together with the configuration they
 * read. Times and durations are integer nanoseconds, as Go's time.Duration.
 */
module Filter {
  import opened GoStrings

  /** fsnotify.Op: a bit mask of the operations one notification reports. */
  type Op = bv32

  const Create: Op := 1
  const Write: Op := 2
  const Remove: Op := 4
  const Rename: Op := 8
  const Chmod: Op := 16

  /** fsnotify.Event: the path that changed and what happened to it. */
  datatype Event = Event(name: string, op: Op)

  /**
   * The configuration the filters read: the debounce window (delayDuration), the
   * excluded file-name prefixes (excludeFilePrefixesList) and the excluded directory
   * names (excludeDirsList).
   */
  datatype Policy = Policy(delay: int, excludePrefixes: seq<string>, excludeDirs: seq<string>)

  /** The only file suffix that triggers a rebuild; it is not configurable. */
  const WatchedSuffix := ".go"

  const MinInt64 := -0x8000_0000_0000_0000
  const MaxInt64 := 0x7fff_ffff_ffff_ffff
  const NanosPerMilli := 1_000_000

  /** Two's-complement wrap-around of a mathematical integer into Go's int64. */
  function WrapInt64(x: int): (w: int)
    ensures MinInt64 <= w <= MaxInt64
    ensures (w - x) % 0x1_0000_0000_0000_0000 == 0
    ensures MinInt64 <= x <= MaxInt64 ==> w == x
  {
    (x - MinInt64) % 0x1_0000_0000_0000_0000 + MinInt64
  }

  /** time.Duration(delay) * time.Millisecond, an int64 product that wraps. */
  function DelayDuration(delayMs: int): (d: int)
    requires MinInt64 <= delayMs <= MaxInt64
    ensures MinInt64 <= d <= MaxInt64
    ensures (d - delayMs * NanosPerMilli) % 0x1_0000_0000_0000_0000 == 0
    ensures -MaxDelayMs <= delayMs <= MaxDelayMs ==> d == delayMs * NanosPerMilli
  {
    WrapInt64(delayMs * NanosPerMilli)
  }

  /** The largest delay in milliseconds whose duration fits in an int64. */
  const MaxDelayMs := 9_223_372_036_854

  /** The flag defaults of -delay, -exclude and -exclude-dirs. */
  const DefaultDelayMs := 1000
  const DefaultExclude := ".,#,flymake,#flymake"
  const DefaultExcludeDirs := "vendor,node_modules"

  /** The policy the default flags produce (see DefaultPolicy). */
  const Defaults := Policy(1_000_000_000, [".", "#", "flymake", "#flymake"], ["vendor", "node_modules"])

  /** The policy main derives from the three flag values before it starts watching. */
  function PolicyFromFlags(delayMs: int, exclude: string, excludeDirs: string): (p: Policy)
    requires MinInt64 <= delayMs <= MaxInt64
    ensures |p.excludePrefixes| >= 1 && |p.excludeDirs| >= 1
    ensures forall i :: 0 <= i < |p.excludePrefixes| ==> ',' !in p.excludePrefixes[i]
    ensures forall i :: 0 <= i < |p.excludeDirs| ==> ',' !in p.excludeDirs[i]
  {
    Policy(DelayDuration(delayMs), Split(exclude, ','), Split(excludeDirs, ','))
  }

  /** Whether name starts with one of the prefixes: the scan at the end of skipChange. */
  function AnyPrefix(name: string, prefixes: seq<string>): (r: bool)
    ensures r <==> exists i :: 0 <= i < |prefixes| && HasPrefix(name, prefixes[i])
  {
    if prefixes == [] then false
    else HasPrefix(name, prefixes[0]) || AnyPrefix(name, prefixes[1..])
  }

  /** Whether name equals one of the names: the scan at the end of skipDir. */
  function AnyEqual(name: string, names: seq<string>): (r: bool)
    ensures r <==> name in names
  {
    if names == [] then false
    else names[0] == name || AnyEqual(name, names[1..])
  }

  /**
   * skipChange: whether the change event e is ignored, given the last accepted file,
   * the time it was accepted and the current time. The checks run in the source's
   * order, but the result is their disjunction, so the order does not matter.
   */
  function SkipChange(e: Event, lastModFile: string, lastModTime: int, now: int, p: Policy): (skip: bool)
    ensures skip <==>
      || (e.op & Write == 0 && e.op & Create == 0)
      || (e.name == lastModFile && now - lastModTime <= p.delay)
      || !HasSuffix(e.name, WatchedSuffix)
      || exists i :: 0 <= i < |p.excludePrefixes| && HasPrefix(Base(e.name), p.excludePrefixes[i])
  {
    if e.op & (Write | Create) == 0 then true
    else if lastModFile == e.name && now - lastModTime <= p.delay then true
    else if !HasSuffix(e.name, WatchedSuffix) then true
    else AnyPrefix(Base(e.name), p.excludePrefixes)
  }

  /**
   * skipDir: whether the walk prunes the directory at path. The walk root "." is
   * never pruned; any other directory is when its base name is hidden (starts with
   * '.') or is one of the excluded directory names.
   */
  function SkipDir(path: string, excludeDirs: seq<string>): (skip: bool)
    ensures path == "." ==> !skip
    ensures path != "." ==> (skip <==> HasPrefix(Base(path), ".") || Base(path) in excludeDirs)
  {
    if path == "." then false
    else
      var baseDir := Base(path);
      if HasPrefix(baseDir, ".") then true
      else AnyEqual(baseDir, excludeDirs)
  }

  /** An empty entry among the excluded prefixes excludes every file. */
  lemma EmptyPrefixSkipsEverything(e: Event, lastModFile: string, lastModTime: int, now: int, p: Policy)
    requires "" in p.excludePrefixes
    ensures SkipChange(e, lastModFile, lastModTime, now, p)
  {
    var i :| 0 <= i < |p.excludePrefixes| && p.excludePrefixes[i] == "";
    assert HasPrefix(Base(e.name), p.excludePrefixes[i]);
  }

  /**
   * The -exclude flag set to the empty string (or ending in a comma) produces an empty
   * prefix, so no change at all ever triggers a rebuild.
   */
  lemma {:induction false} EmptyExcludeFlagSkipsEverything(
    delayMs: int, exclude: string, excludeDirs: string,
    e: Event, lastModFile: string, lastModTime: int, now: int)
    requires MinInt64 <= delayMs <= MaxInt64
    requires exclude == "" || exclude[|exclude| - 1] == ','
    ensures SkipChange(e, lastModFile, lastModTime, now, PolicyFromFlags(delayMs, exclude, excludeDirs))
  {
    var p := PolicyFromFlags(delayMs, exclude, excludeDirs);
    if exclude != "" {
      var head := exclude[..|exclude| - 1];
      assert exclude == head + [','] + "";
      SplitAtSeparator(head, "", ',');
    }
    assert p.excludePrefixes[|p.excludePrefixes| - 1] == "";
    EmptyPrefixSkipsEverything(e, lastModFile, lastModTime, now, p);
  }

  /** An empty entry among the excluded directory names never matches: no base is empty. */
  lemma EmptyDirNameExcludesNothing(path: string, excludeDirs: seq<string>)
    ensures SkipDir(path, excludeDirs) == SkipDir(path, excludeDirs + [""])
  {
  }

  /** The default flags: a one-second window, four excluded prefixes and two excluded directories. */
  lemma {:induction false} DefaultPolicy()
    ensures PolicyFromFlags(DefaultDelayMs, DefaultExclude, DefaultExcludeDirs) == Defaults
  {
    DefaultPrefixes();
    DefaultDirNames();
  }

  lemma {:induction false} DefaultPrefixes()
    ensures Split(DefaultExclude, ',') == [".", "#", "flymake", "#flymake"]
  {
    var parts := [".", "#", "flymake", "#flymake"];
    assert Join(parts[3..], ',') == "#flymake";
    assert Join(parts[2..], ',') == "flymake,#flymake";
    assert Join(parts[1..], ',') == "#,flymake,#flymake";
    assert Join(parts, ',') == DefaultExclude;
    SplitJoin(parts, ',');
  }

  lemma {:induction false} DefaultDirNames()
    ensures Split(DefaultExcludeDirs, ',') == ["vendor", "node_modules"]
  {
    var parts := ["vendor", "node_modules"];
    assert Join(parts[1..], ',') == "node_modules";
    assert Join(parts, ',') == DefaultExcludeDirs;
    SplitJoin(parts, ',');
  }

  /** Hidden files, such as an editor's ".#main.go" lock file, never trigger under the defaults. */
  lemma {:induction false} DefaultSkipsHiddenFiles(e: Event, lastModFile: string, lastModTime: int, now: int)
    requires HasPrefix(Base(e.name), ".")
    ensures SkipChange(e, lastModFile, lastModTime, now, Defaults)
  {
    assert Defaults.excludePrefixes[0] == ".";
  }

  /**
   * A file name in the root directory whose first character is none of '.', '#' and
   * 'f', such as "main.go", passes the prefix check under the default flags.
   */
  lemma {:induction false} PlainNameNotExcluded(n: string)
    requires n != [] && '/' !in n && n[0] != '.' && n[0] != '#' && n[0] != 'f'
    ensures Base(n) == n
    ensures !AnyPrefix(Base(n), Defaults.excludePrefixes)
  {
    BaseOfName(n);
    NoDefaultPrefix(n);
  }

  lemma NoDefaultPrefix(n: string)
    requires n != [] && n[0] != '.' && n[0] != '#' && n[0] != 'f'
    ensures !AnyPrefix(n, Defaults.excludePrefixes)
  {
    var prefixes := Defaults.excludePrefixes;
    forall i | 0 <= i < |prefixes| ensures !HasPrefix(n, prefixes[i]) {
      assert prefixes[i][0] != n[0];
    }
  }
}
