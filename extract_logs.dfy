/**
 * Session extraction from an access log: every matched GET request with a
 * status below 400 appends its path to the list of its host, an optional
 * limit caps the number of matched lines, the per-file maps are merged, and
 * hosts with at least two paths are written out as comma-joined lines.
 */
module ExtractLogs {

  import opened Wrappers
  import opened Text

  /** What the log-line pattern captures: host, path and status. */
  datatype LogEntry = LogEntry(host: string, path: string, status: int)

  /** A dictionary from host to its list of paths: the keys in insertion
      order (the order `items()` yields them) and the mapping itself. */
  datatype SessionMap = SessionMap(hosts: seq<string>, paths: map<string, seq<string>>)

  predicate Distinct(s: seq<string>)
  {
    forall i, j :: 0 <= i < j < |s| ==> s[i] != s[j]
  }

  /** The insertion order lists every key exactly once. */
  ghost predicate Valid(m: SessionMap)
  {
    Distinct(m.hosts) && (forall h :: h in m.hosts ==> h in m.paths) &&
    forall h :: h in m.paths ==> h in m.hosts
  }

  /** Every host in the map has at least one path. */
  predicate NonEmptyLists(m: SessionMap)
  {
    forall h :: h in m.paths ==> m.paths[h] != []
  }

  /** The list of `h`, or the empty list when `h` is not a key. */
  function Lookup(m: SessionMap, h: string): seq<string>
  {
    if h in m.paths then m.paths[h] else []
  }

  const Empty := SessionMap([], map[])

  /**
   * `if host not in sessions: sessions[host] = []` followed by
   * `sessions[host].extend(ps)` (an `append` is the extension by one path):
   * the list of `host` grows by `ps` at its end, a new host goes last in the
   * insertion order, and no other host changes.
   */
  function Extend(m: SessionMap, host: string, ps: seq<string>): (r: SessionMap)
    ensures Valid(m) ==> Valid(r)
    ensures Lookup(r, host) == Lookup(m, host) + ps
    ensures forall h :: h != host ==> Lookup(r, h) == Lookup(m, h)
    ensures r.hosts == if host in m.paths then m.hosts else m.hosts + [host]
  {
    if host in m.paths then SessionMap(m.hosts, m.paths[host := m.paths[host] + ps])
    else SessionMap(m.hosts + [host], m.paths[host := ps])
  }

  /** The sum of the lengths of the lists of `hosts`. */
  function SumOver(hosts: seq<string>, m: SessionMap): nat
  {
    if hosts == [] then 0 else SumOver(hosts[..|hosts| - 1], m) + |Lookup(m, hosts[|hosts| - 1])|
  }

  /** The number of paths held by all hosts together. */
  function TotalPaths(m: SessionMap): nat
  {
    SumOver(m.hosts, m)
  }

  lemma {:induction false} SumOverSame(hosts: seq<string>, m: SessionMap, m': SessionMap)
    requires forall h :: h in hosts ==> Lookup(m, h) == Lookup(m', h)
    ensures SumOver(hosts, m) == SumOver(hosts, m')
  {
    if hosts != [] {
      SumOverSame(hosts[..|hosts| - 1], m, m');
    }
  }

  /** Growing the list of one of the hosts by `n` paths grows the sum by `n`. */
  lemma {:induction false} SumOverGrow(hosts: seq<string>, m: SessionMap, m': SessionMap, x: string)
    requires Distinct(hosts) && x in hosts
    requires |Lookup(m', x)| >= |Lookup(m, x)|
    requires forall h :: h != x ==> Lookup(m, h) == Lookup(m', h)
    ensures SumOver(hosts, m') == SumOver(hosts, m) + |Lookup(m', x)| - |Lookup(m, x)|
  {
    var init := hosts[..|hosts| - 1];
    if hosts[|hosts| - 1] == x {
      assert forall i :: 0 <= i < |init| ==> init[i] != x;
      SumOverSame(init, m, m');
    } else {
      SumOverGrow(init, m, m', x);
    }
  }

  /** Extending a list by `ps` adds `|ps|` paths to the total. */
  lemma ExtendTotal(m: SessionMap, host: string, ps: seq<string>)
    requires Valid(m)
    ensures TotalPaths(Extend(m, host, ps)) == TotalPaths(m) + |ps|
  {
    var r := Extend(m, host, ps);
    if host in m.paths {
      SumOverGrow(m.hosts, m, r, host);
    } else {
      assert r.hosts[..|r.hosts| - 1] == m.hosts;
      SumOverSame(m.hosts, m, r);
    }
  }

  /** The variables of `process_log_file`'s loop. */
  datatype State = State(sessions: SessionMap, count: nat)

  /**
   * One line of the log. A line the pattern does not match changes
   * nothing; a matched line is counted; an error status (400 and above)
   * adds no path; any other status appends the path to its host's list and
   * leaves every other host alone.
   */
  function Step(line: string, matcher: string -> Option<LogEntry>, st: State): (r: State)
    ensures Valid(st.sessions) ==> Valid(r.sessions)
    ensures matcher(line).None? ==> r == st
    ensures matcher(line).Some? ==> r.count == st.count + 1
    ensures matcher(line).Some? && matcher(line).value.status >= 400 ==> r.sessions == st.sessions
    ensures matcher(line).Some? && matcher(line).value.status < 400 ==>
              var e := matcher(line).value;
              Lookup(r.sessions, e.host) == Lookup(st.sessions, e.host) + [e.path] &&
              forall h :: h != e.host ==> Lookup(r.sessions, h) == Lookup(st.sessions, h)
  {
    match matcher(line)
    case None => st
    case Some(e) =>
      if e.status >= 400 then State(st.sessions, st.count + 1)
      else State(Extend(st.sessions, e.host, [e.path]), st.count + 1)
  }

  /** The loop of `process_log_file` from state `st`: it stops early once
      `count` reaches the limit. */
  function Run(lines: seq<string>, matcher: string -> Option<LogEntry>, limit: Option<nat>, st: State): (r: State)
    ensures st.count <= r.count <= st.count + |lines|
    ensures Valid(st.sessions) ==> Valid(r.sessions)
    decreases |lines|
  {
    if lines == [] then st
    else if limit.Some? && st.count >= limit.value then st
    else Run(lines[1..], matcher, limit, Step(lines[0], matcher, st))
  }

  /** What the loop of `process_log_file` keeps true. */
  ghost predicate Bounded(st: State, limit: Option<nat>)
  {
    Valid(st.sessions) && NonEmptyLists(st.sessions) &&
    TotalPaths(st.sessions) <= st.count &&
    (limit.Some? ==> st.count <= limit.value)
  }

  lemma StepBounded(line: string, matcher: string -> Option<LogEntry>, limit: Option<nat>, st: State)
    requires Bounded(st, limit)
    requires limit.Some? ==> st.count < limit.value
    ensures Bounded(Step(line, matcher, st), limit)
  {
    var m := matcher(line);
    if m.Some? && m.value.status < 400 {
      ExtendTotal(st.sessions, m.value.host, [m.value.path]);
    }
  }

  /**
   * With a limit `L`, at most `L` matched lines are processed, so no more
   * than `L` paths are collected; paths never outnumber matched lines; every
   * host present has a non-empty list.
   */
  lemma {:induction false} RunBounded(lines: seq<string>, matcher: string -> Option<LogEntry>,
                                      limit: Option<nat>, st: State)
    requires Bounded(st, limit)
    ensures Bounded(Run(lines, matcher, limit, st), limit)
    decreases |lines|
  {
    if lines != [] && !(limit.Some? && st.count >= limit.value) {
      StepBounded(lines[0], matcher, limit, st);
      RunBounded(lines[1..], matcher, limit, Step(lines[0], matcher, st));
    }
  }

  /**
   * `process_log_file`: the lines of the file are given, and the regular
   * expression is the parameter `matcher`, which yields the host, the path
   * and the status of a matched line.
   */
  method ProcessLogFile(lines: seq<string>, matcher: string -> Option<LogEntry>, limit: Option<nat>)
    returns (sessions: SessionMap)
    ensures sessions == Run(lines, matcher, limit, State(Empty, 0)).sessions
    ensures Valid(sessions) && NonEmptyLists(sessions)
    ensures limit.Some? ==> TotalPaths(sessions) <= limit.value
  {
    sessions := Empty;
    var count: nat := 0;
    var i := 0;
    while i < |lines|
      invariant 0 <= i <= |lines|
      invariant Run(lines[i..], matcher, limit, State(sessions, count)) == Run(lines, matcher, limit, State(Empty, 0))
    {
      if limit.Some? && count >= limit.value {
        break;
      }
      assert lines[i..][1..] == lines[i + 1..];
      var m := matcher(lines[i]);
      if m.Some? {
        var e := m.value;
        count := count + 1;
        if e.status < 400 {
          sessions := Extend(sessions, e.host, [e.path]);
        }
      }
      i := i + 1;
    }
    assert Run(lines[i..], matcher, limit, State(sessions, count)) == State(sessions, count);
    RunBounded(lines, matcher, limit, State(Empty, 0));
  }

  /** The hosts of `hs` that are not keys of `m`, in order. */
  function NewHosts(hs: seq<string>, m: SessionMap): seq<string>
  {
    if hs == [] then []
    else
      var prev := NewHosts(hs[..|hs| - 1], m);
      var h := hs[|hs| - 1];
      if h in m.paths then prev else prev + [h]
  }

  /** The new hosts are the hosts of `hs` that are not keys of `m`. */
  lemma {:induction false} NewHostsMembers(hs: seq<string>, m: SessionMap, h: string)
    ensures h in NewHosts(hs, m) <==> h in hs && h !in m.paths
  {
    if hs != [] {
      var init := hs[..|hs| - 1];
      NewHostsMembers(init, m, h);
      assert hs == init + [hs[|hs| - 1]];
    }
  }

  /** In a sequence without repeats, an element does not occur before its
      position. */
  lemma NotBefore(s: seq<string>, i: nat)
    requires Distinct(s) && i < |s|
    ensures s[i] !in s[..i]
  {
  }

  lemma MergeStepLookup(all: SessionMap, file: SessionMap, merged: SessionMap, i: nat)
    requires Distinct(file.hosts) && i < |file.hosts|
    requires forall h :: Lookup(merged, h) ==
               Lookup(all, h) + (if h in file.hosts[..i] then Lookup(file, h) else [])
    ensures var next := Extend(merged, file.hosts[i], Lookup(file, file.hosts[i]));
            forall h :: Lookup(next, h) ==
              Lookup(all, h) + (if h in file.hosts[..i + 1] then Lookup(file, h) else [])
  {
    var host := file.hosts[i];
    NotBefore(file.hosts, i);
    assert file.hosts[..i + 1] == file.hosts[..i] + [host];
  }

  /** One more host of the file adds itself to the new hosts when it is
      not a key yet. */
  lemma NewHostsAppend(done: seq<string>, host: string, m: SessionMap)
    ensures NewHosts(done + [host], m) == NewHosts(done, m) + (if host in m.paths then [] else [host])
  {
    assert (done + [host])[..|done|] == done;
  }

  /** The insertion order after one more host of the file: unchanged when
      the host is already a key, else extended by it. */
  lemma MergeStepHosts(all: SessionMap, done: seq<string>, host: string, mergedHosts: seq<string>, present: bool)
    requires host !in done
    requires mergedHosts == all.hosts + NewHosts(done, all)
    requires present <==> host in mergedHosts
    requires host in all.paths <==> host in all.hosts
    ensures (if present then mergedHosts else mergedHosts + [host]) == all.hosts + NewHosts(done + [host], all)
  {
    NewHostsAppend(done, host, all);
    NewHostsMembers(done, all, host);
    assert present <==> host in all.hosts;
    if host in all.paths {
      assert NewHosts(done, all) + [] == NewHosts(done, all);
    } else {
      assert all.hosts + NewHosts(done, all) + [host] == all.hosts + (NewHosts(done, all) + [host]);
    }
  }

  /** The insertion order after one more host of the file. */
  lemma MergeStepOrder(all: SessionMap, file: SessionMap, merged: SessionMap, i: nat)
    requires Valid(all) && Valid(file) && Valid(merged)
    requires i < |file.hosts| && merged.hosts == all.hosts + NewHosts(file.hosts[..i], all)
    ensures Extend(merged, file.hosts[i], file.paths[file.hosts[i]]).hosts == all.hosts + NewHosts(file.hosts[..i + 1], all)
  {
    var host := file.hosts[i];
    NotBefore(file.hosts, i);
    assert file.hosts[..i + 1] == file.hosts[..i] + [host];
    MergeStepHosts(all, file.hosts[..i], host, merged.hosts, host in merged.paths);
  }

  /** The dictionary the merge in `main` produces: the hosts of `a`, then
      the hosts of `b` that `a` lacks, in `b`'s order, each host with its
      list in `a` followed by its list in `b`. */
  function Merged(a: SessionMap, b: SessionMap): SessionMap
  {
    SessionMap(a.hosts + NewHosts(b.hosts, a),
               map h | h in a.paths.Keys + b.paths.Keys :: Lookup(a, h) + Lookup(b, h))
  }

  /** With the merged order, a host is a key exactly when it is a key of the
      merged dictionary. */
  lemma MergedKey(all: SessionMap, file: SessionMap, merged: SessionMap, h: string)
    requires Valid(all) && Valid(file) && Valid(merged)
    requires merged.hosts == all.hosts + NewHosts(file.hosts, all)
    ensures h in merged.paths <==> h in Merged(all, file).paths
  {
    NewHostsMembers(file.hosts, all, h);
    assert h in merged.paths <==> h in all.hosts + NewHosts(file.hosts, all);
  }

  /** With the merged order, the keys are those of the merged dictionary. */
  lemma MergedKeys(all: SessionMap, file: SessionMap, merged: SessionMap)
    requires Valid(all) && Valid(file) && Valid(merged)
    requires merged.hosts == all.hosts + NewHosts(file.hosts, all)
    ensures merged.paths.Keys == Merged(all, file).paths.Keys
  {
    forall h
      ensures h in merged.paths <==> h in Merged(all, file).paths
    {
      MergedKey(all, file, merged, h);
    }
  }

  /** A valid dictionary with the merged order and the merged lists is the
      merged dictionary. */
  lemma MergedExactly(all: SessionMap, file: SessionMap, merged: SessionMap)
    requires Valid(all) && Valid(file) && Valid(merged)
    requires forall h :: Lookup(merged, h) == Lookup(all, h) + Lookup(file, h)
    requires merged.hosts == all.hosts + NewHosts(file.hosts, all)
    ensures merged == Merged(all, file)
  {
    var g := Merged(all, file);
    MergedKeys(all, file, merged);
    forall h | h in merged.paths
      ensures merged.paths[h] == g.paths[h]
    {
      MergedValue(all, file, merged, h);
    }
    assert merged.paths == g.paths;
  }

  /** Where both have the host, the dictionary's list is the merged list. */
  lemma MergedValue(all: SessionMap, file: SessionMap, merged: SessionMap, h: string)
    requires h in merged.paths && h in Merged(all, file).paths
    requires Lookup(merged, h) == Lookup(all, h) + Lookup(file, h)
    ensures merged.paths[h] == Merged(all, file).paths[h]
  {
  }

  /**
   * The merge in `main`: every host of `file` is added to `all` when new
   * and has its list extended by the file's list. Each merged list is the
   * old list followed by the file's, and new hosts follow the old ones in
   * the file's order.
   */
  method MergeSessions(all: SessionMap, file: SessionMap) returns (merged: SessionMap)
    requires Valid(all) && Valid(file)
    ensures Valid(merged)
    ensures forall h :: Lookup(merged, h) == Lookup(all, h) + Lookup(file, h)
    ensures merged.hosts == all.hosts + NewHosts(file.hosts, all)
    ensures merged == Merged(all, file)
  {
    merged := all;
    var i := 0;
    while i < |file.hosts|
      invariant 0 <= i <= |file.hosts|
      invariant Valid(merged)
      invariant forall h :: Lookup(merged, h) ==
                  Lookup(all, h) + (if h in file.hosts[..i] then Lookup(file, h) else [])
      invariant merged.hosts == all.hosts + NewHosts(file.hosts[..i], all)
    {
      var host := file.hosts[i];
      assert host in file.paths && Lookup(file, host) == file.paths[host];
      MergeStepLookup(all, file, merged, i);
      MergeStepOrder(all, file, merged, i);
      merged := Extend(merged, host, file.paths[host]);
      i := i + 1;
    }
    assert file.hosts[..i] == file.hosts;
    MergedExactly(all, file, merged);
  }

  /** Every host's list, gathered over the files in order. */
  ghost function Gathered(files: seq<seq<string>>, matcher: string -> Option<LogEntry>, h: string): seq<string>
  {
    if files == [] then []
    else Gathered(files[..|files| - 1], matcher, h) +
         Lookup(Run(files[|files| - 1], matcher, None, State(Empty, 0)).sessions, h)
  }

  /** The dictionary `main` builds: the per-file dictionaries merged in file
      order. Its insertion order is the order in which hosts are first seen. */
  ghost function GatheredMap(files: seq<seq<string>>, matcher: string -> Option<LogEntry>): SessionMap
  {
    if files == [] then Empty
    else Merged(GatheredMap(files[..|files| - 1], matcher),
                Run(files[|files| - 1], matcher, None, State(Empty, 0)).sessions)
  }

  /** The list of a host in the merged dictionary is its gathered list. */
  lemma {:induction false} GatheredLookup(files: seq<seq<string>>, matcher: string -> Option<LogEntry>, h: string)
    ensures Lookup(GatheredMap(files, matcher), h) == Gathered(files, matcher, h)
  {
    if files != [] {
      GatheredLookup(files[..|files| - 1], matcher, h);
    }
  }

  /** The loop of `main` over the log files, each read without a limit. */
  method ExtractSessions(files: seq<seq<string>>, matcher: string -> Option<LogEntry>)
    returns (all: SessionMap)
    ensures Valid(all)
    ensures all == GatheredMap(files, matcher)
    ensures forall h :: Lookup(all, h) == Gathered(files, matcher, h)
  {
    all := Empty;
    var k := 0;
    while k < |files|
      invariant 0 <= k <= |files|
      invariant Valid(all)
      invariant all == GatheredMap(files[..k], matcher)
    {
      assert files[..k + 1][..k] == files[..k];
      var fileSessions := ProcessLogFile(files[k], matcher, None);
      all := MergeSessions(all, fileSessions);
      k := k + 1;
    }
    assert files[..k] == files;
    forall h
      ensures Lookup(all, h) == Gathered(files, matcher, h)
    {
      GatheredLookup(files, matcher, h);
    }
  }

  /** The path lists written by `main`: those of at least two paths, in
      insertion order. */
  function Emitted(hosts: seq<string>, m: SessionMap): (r: seq<seq<string>>)
    ensures |r| <= |hosts|
  {
    if hosts == [] then []
    else
      var prev := Emitted(hosts[..|hosts| - 1], m);
      var ps := Lookup(m, hosts[|hosts| - 1]);
      if |ps| >= 2 then prev + [ps] else prev
  }

  /** The sum of the lengths of some lists. */
  function SumLengths(lists: seq<seq<string>>): nat
  {
    if lists == [] then 0 else SumLengths(lists[..|lists| - 1]) + |lists[|lists| - 1]|
  }

  /**
   * A written list has at least two paths and is the list of one of the
   * hosts; conversely, every host whose list has at least two paths is
   * written; and the written paths are no more than all paths.
   */
  lemma {:induction false} EmittedExactly(hosts: seq<string>, m: SessionMap)
    ensures forall ps :: ps in Emitted(hosts, m) ==> |ps| >= 2 && exists h :: h in hosts && ps == Lookup(m, h)
    ensures forall h :: h in hosts && |Lookup(m, h)| >= 2 ==> Lookup(m, h) in Emitted(hosts, m)
    ensures SumLengths(Emitted(hosts, m)) <= SumOver(hosts, m)
  {
    if hosts != [] {
      var init := hosts[..|hosts| - 1];
      EmittedExactly(init, m);
      var prev := Emitted(init, m);
      var ps := Lookup(m, hosts[|hosts| - 1]);
      if |ps| >= 2 {
        assert (prev + [ps])[..|prev|] == prev;
      }
      forall ps' | ps' in Emitted(hosts, m)
        ensures exists h :: h in hosts && ps' == Lookup(m, h)
      {
        if ps' in prev {
          var h :| h in init && ps' == Lookup(m, h);
          assert h in hosts;
        } else {
          assert hosts[|hosts| - 1] in hosts;
        }
      }
    }
  }

  /** Each written line reads back as its list when no path holds a comma. */
  lemma EmittedReadBack(ps: seq<string>)
    requires |ps| >= 2 && forall k :: 0 <= k < |ps| ==> ',' !in ps[k]
    ensures Split(Join(ps, ","), ',') == ps
  {
    SplitJoin(ps, ',');
  }

  /**
   * The output loop of `main`: for each host in insertion order whose list
   * has at least two paths, write the comma-joined list and count it.
   */
  method WriteSessions(all: SessionMap) returns (out: seq<string>, totalSessions: nat, totalPaths: nat)
    ensures |out| == |Emitted(all.hosts, all)| == totalSessions
    ensures forall k :: 0 <= k < |out| ==> out[k] == Join(Emitted(all.hosts, all)[k], ",")
    ensures totalPaths == SumLengths(Emitted(all.hosts, all)) <= TotalPaths(all)
  {
    out, totalSessions, totalPaths := [], 0, 0;
    var i := 0;
    while i < |all.hosts|
      invariant 0 <= i <= |all.hosts|
      invariant |out| == |Emitted(all.hosts[..i], all)| == totalSessions
      invariant forall k :: 0 <= k < |out| ==> out[k] == Join(Emitted(all.hosts[..i], all)[k], ",")
      invariant totalPaths == SumLengths(Emitted(all.hosts[..i], all))
    {
      assert all.hosts[..i + 1][..i] == all.hosts[..i];
      var paths := Lookup(all, all.hosts[i]);
      if paths != [] && |paths| >= 2 {
        out := out + [Join(paths, ",")];
        totalSessions := totalSessions + 1;
        totalPaths := totalPaths + |paths|;
      }
      i := i + 1;
    }
    assert all.hosts[..i] == all.hosts;
    EmittedExactly(all.hosts, all);
  }

  /** The `k`-th written list belongs to a host with at least two paths. */
  lemma EmittedFrom(hosts: seq<string>, m: SessionMap, k: nat)
    requires k < |Emitted(hosts, m)|
    ensures exists h :: h in hosts && |Lookup(m, h)| >= 2 && Emitted(hosts, m)[k] == Lookup(m, h)
  {
    EmittedExactly(hosts, m);
    assert Emitted(hosts, m)[k] in Emitted(hosts, m);
  }

  /** Each written line is the joined list of one host, gathered over all
      files, when the merged map holds the gathered lists. */
  lemma WrittenFromGathered(files: seq<seq<string>>, matcher: string -> Option<LogEntry>,
                            all: SessionMap, out: seq<string>, k: nat)
    requires forall h :: Lookup(all, h) == Gathered(files, matcher, h)
    requires k < |out| == |Emitted(all.hosts, all)|
    requires out[k] == Join(Emitted(all.hosts, all)[k], ",")
    ensures WrittenByMain(files, matcher, out[k])
  {
    EmittedFrom(all.hosts, all, k);
    var h :| h in all.hosts && |Lookup(all, h)| >= 2 && Emitted(all.hosts, all)[k] == Lookup(all, h);
    assert WrittenAs(files, matcher, h, out[k]);
  }

  /**
   * `main`: extract the sessions of every file, merge them and write, in the
   * order hosts were first seen, the comma-joined list of every host with at
   * least two paths; the counters are the number of lines and of their paths.
   */
  method ExtractMain(files: seq<seq<string>>, matcher: string -> Option<LogEntry>)
    returns (out: seq<string>, totalSessions: nat, totalPaths: nat)
    ensures var g := GatheredMap(files, matcher);
            |out| == totalSessions == |Emitted(g.hosts, g)| &&
            (forall k :: 0 <= k < |out| ==> out[k] == Join(Emitted(g.hosts, g)[k], ",")) &&
            totalPaths == SumLengths(Emitted(g.hosts, g))
    ensures forall k :: 0 <= k < |out| ==> WrittenByMain(files, matcher, out[k])
    ensures forall h :: |Gathered(files, matcher, h)| >= 2 ==> Join(Gathered(files, matcher, h), ",") in out
  {
    var all := ExtractSessions(files, matcher);
    out, totalSessions, totalPaths := WriteSessions(all);
    forall k | 0 <= k < |out|
      ensures WrittenByMain(files, matcher, out[k])
    {
      WrittenFromGathered(files, matcher, all, out, k);
    }
    EmittedExactly(all.hosts, all);
    forall h | |Gathered(files, matcher, h)| >= 2
      ensures Join(Gathered(files, matcher, h), ",") in out
    {
      var e := Emitted(all.hosts, all);
      assert h in all.paths && h in all.hosts;
      var k :| 0 <= k < |e| && e[k] == Lookup(all, h);
      assert out[k] == Join(Gathered(files, matcher, h), ",");
    }
  }

  /** `line` is the comma-joined list of `h` gathered over all files, which
      has at least two paths. */
  ghost predicate WrittenAs(files: seq<seq<string>>, matcher: string -> Option<LogEntry>, h: string, line: string)
  {
    var ps := Gathered(files, matcher, h);
    |ps| >= 2 && line == Join(ps, ",")
  }

  /** `line` is the comma-joined list of some host, gathered over all files,
      which has at least two paths. */
  ghost predicate WrittenByMain(files: seq<seq<string>>, matcher: string -> Option<LogEntry>, line: string)
  {
    exists h :: WrittenAs(files, matcher, h, line)
  }
}
