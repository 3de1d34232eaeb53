/**
 * The second cleaning script, which works on the raw session file: strip
 * every field, drop empty and noise fields and the bare root, collapse
 * repeats, and keep sessions of at least two paths. It reuses the noise
 * tables and the repeat-collapsing loop, which the script defines exactly as
 * the first cleaning script does.
 */
module CleanUserSessions {

  import opened Wrappers
  import opened Text
  import opened Noise
  import opened Consecutive

  /** `[p.strip() for p in paths if p.strip() and not is_noise_path(p.strip())]`. */
  function StrippedSignal(paths: seq<string>): (r: seq<string>)
    ensures |r| <= |paths|
  {
    if paths == [] then []
    else
      var prev := StrippedSignal(paths[..|paths| - 1]);
      var p := Strip(paths[|paths| - 1]);
      if p != [] && !IsNoisePath(p) then prev + [p] else prev
  }

  /** `[p for p in cleaned_paths if p and p != '/']`. */
  function DropEmptyAndRoot(paths: seq<string>): (r: seq<string>)
    ensures |r| <= |paths|
  {
    if paths == [] then []
    else
      var prev := DropEmptyAndRoot(paths[..|paths| - 1]);
      var p := paths[|paths| - 1];
      if p != [] && p != "/" then prev + [p] else prev
  }

  /** Every field, stripped; the sequence the comprehension draws from. */
  function StripEach(paths: seq<string>): (r: seq<string>)
    ensures |r| == |paths|
    ensures forall k :: 0 <= k < |r| ==> r[k] == Strip(paths[k])
  {
    if paths == [] then [] else StripEach(paths[..|paths| - 1]) + [Strip(paths[|paths| - 1])]
  }

  /** `clean_session`: the cleaned paths of one line, or `None` when fewer
      than two remain. */
  function CleanSession(line: string): (r: Option<seq<string>>)
    ensures r.Some? ==> |r.value| >= 2
  {
    var paths := Split(Strip(line), ',');
    var cleaned := Dedup(DropEmptyAndRoot(StrippedSignal(paths)));
    if |cleaned| < 2 then None else Some(cleaned)
  }

  /** What a path kept by `clean_session` satisfies. */
  predicate Meaningful(p: string)
  {
    Strip(p) == p && p != [] && p != "/" && !IsNoisePath(p) && ',' !in p
  }

  /** The kept fields are stripped, non-empty, not noise, and are the
      stripped fields in their order with some left out. */
  lemma {:induction false} StrippedSignalSound(paths: seq<string>)
    requires forall k :: 0 <= k < |paths| ==> ',' !in paths[k]
    ensures var r := StrippedSignal(paths);
            (forall k :: 0 <= k < |r| ==> r[k] != [] && Strip(r[k]) == r[k] && !IsNoisePath(r[k]) && ',' !in r[k]) &&
            IsSubsequence(r, StripEach(paths))
  {
    if paths != [] {
      var init := paths[..|paths| - 1];
      var last := paths[|paths| - 1];
      StrippedSignalSound(init);
      StripIdempotent(last);
      StripChars(last, ',');
      var p := Strip(last);
      var prev := StrippedSignal(init);
      assert StripEach(paths) == StripEach(init) + [p];
      assert StripEach(paths)[..|paths| - 1] == StripEach(init);
      if p != [] && !IsNoisePath(p) {
        assert (prev + [p])[..|prev|] == prev;
      }
    }
  }

  /** The second filter keeps exactly the non-empty paths other than the
      root, in their order. */
  lemma {:induction false} DropEmptyAndRootSound(paths: seq<string>)
    ensures var r := DropEmptyAndRoot(paths);
            (forall k :: 0 <= k < |r| ==> r[k] != [] && r[k] != "/") &&
            IsSubsequence(r, paths) &&
            (forall p :: p in paths && p != [] && p != "/" ==> p in r)
  {
    if paths != [] {
      var init := paths[..|paths| - 1];
      var p := paths[|paths| - 1];
      DropEmptyAndRootSound(init);
      var prev := DropEmptyAndRoot(init);
      assert paths == init + [p];
      if p != [] && p != "/" {
        assert (prev + [p])[..|prev|] == prev;
      }
    }
  }

  /**
   * A session `clean_session` keeps is made of meaningful paths with no
   * repeat side by side, taken in order from the stripped fields of the
   * line; so it never has more paths than the line has fields, and written
   * out with commas it reads back as itself.
   */
  lemma CleanSessionSound(line: string)
    requires CleanSession(line).Some?
    ensures var v := CleanSession(line).value;
            var fields := Split(Strip(line), ',');
            NoAdjacentDuplicates(v) &&
            (forall k :: 0 <= k < |v| ==> Meaningful(v[k])) &&
            IsSubsequence(v, StripEach(fields)) && |v| <= |fields| &&
            Split(Join(v, ","), ',') == v
  {
    var fields := Split(Strip(line), ',');
    var a := StrippedSignal(fields);
    var b := DropEmptyAndRoot(a);
    var v := Dedup(b);
    StrippedSignalSound(fields);
    DropEmptyAndRootSound(a);
    DedupNoAdjacent(b);
    DedupSubsequence(b);
    SubsequenceTransitive(v, b, a);
    SubsequenceTransitive(v, a, StripEach(fields));
    SubsequenceLength(v, StripEach(fields));
    forall k | 0 <= k < |v|
      ensures Meaningful(v[k])
    {
      SubsequenceElements(v, b, v[k]);
      SubsequenceElements(b, a, v[k]);
    }
    SplitJoin(v, ',');
  }

  /** The first filter loses no stripped field that is non-empty and not
      noise. */
  lemma {:induction false} StrippedSignalComplete(paths: seq<string>, p: string)
    requires p in StripEach(paths) && p != [] && !IsNoisePath(p)
    ensures p in StrippedSignal(paths)
  {
    var init := paths[..|paths| - 1];
    var last := paths[|paths| - 1];
    assert StripEach(paths) == StripEach(init) + [Strip(last)];
    if p != Strip(last) {
      StrippedSignalComplete(init, p);
    }
  }

  /** Every meaningful field of the line appears in the session kept for it:
      cleaning removes only empty fields, noise and the bare root. */
  lemma CleanSessionComplete(line: string, p: string)
    requires CleanSession(line).Some?
    requires p in StripEach(Split(Strip(line), ',')) && p != [] && p != "/" && !IsNoisePath(p)
    ensures p in CleanSession(line).value
  {
    var a := StrippedSignal(Split(Strip(line), ','));
    StrippedSignalComplete(Split(Strip(line), ','), p);
    DropEmptyAndRootSound(a);
    DedupSameElements(DropEmptyAndRoot(a), p);
  }

  /** A stripped field that the two filters keep. */
  predicate Survives(p: string)
  {
    p != [] && p != "/" && !IsNoisePath(p)
  }

  /** The filtered fields are exactly the surviving stripped fields. */
  lemma FilteredExactly(fields: seq<string>, x: string)
    requires forall k :: 0 <= k < |fields| ==> ',' !in fields[k]
    ensures x in DropEmptyAndRoot(StrippedSignal(fields)) <==> x in StripEach(fields) && Survives(x)
  {
    var a := StrippedSignal(fields);
    var b := DropEmptyAndRoot(a);
    StrippedSignalSound(fields);
    DropEmptyAndRootSound(a);
    if x in b {
      SubsequenceElements(b, a, x);
      SubsequenceElements(a, StripEach(fields), x);
      var k :| 0 <= k < |a| && a[k] == x;
    }
    if x in StripEach(fields) && Survives(x) {
      StrippedSignalComplete(fields, x);
    }
  }

  /** `clean_session` returns `None` exactly when the line has no two
      different surviving fields. */
  lemma CleanSessionNoneExactly(line: string)
    ensures var fields := StripEach(Split(Strip(line), ','));
            CleanSession(line).None? <==>
              forall p, q :: p in fields && Survives(p) && q in fields && Survives(q) ==> p == q
  {
    var fields := Split(Strip(line), ',');
    var b := DropEmptyAndRoot(StrippedSignal(fields));
    forall x | true ensures x in b <==> x in StripEach(fields) && Survives(x) {
      FilteredExactly(fields, x);
    }
    DedupShort(b);
  }

  /** A line `main` skips: empty once stripped, or an empty quoted string. */
  predicate Blank(line: string)
  {
    line == [] || line == "\"\""
  }

  /** What `main` writes and counts. */
  datatype Stats = Stats(written: seq<seq<string>>, original: nat, cleaned: nat,
                         pathsBefore: nat, pathsAfter: nat)

  /** The specification of `main`'s loop over the lines of the input. */
  function CleanSessions(lines: seq<string>): (r: Stats)
    ensures |r.written| <= r.original <= |lines|
  {
    if lines == [] then Stats([], 0, 0, 0, 0)
    else
      var acc := CleanSessions(lines[..|lines| - 1]);
      var line := Strip(lines[|lines| - 1]);
      if Blank(line) then acc
      else
        var counted := acc.(original := acc.original + 1,
                            pathsBefore := acc.pathsBefore + |Split(line, ',')|);
        match CleanSession(line)
        case None => counted
        case Some(v) => counted.(written := acc.written + [v], cleaned := acc.cleaned + 1,
                                 pathsAfter := acc.pathsAfter + |v|)
  }

  /** What every written session satisfies. */
  predicate WellFormedSession(v: seq<string>)
  {
    |v| >= 2 && NoAdjacentDuplicates(v) && (forall k :: 0 <= k < |v| ==> Meaningful(v[k])) &&
    Split(Join(v, ","), ',') == v
  }

  /** A session `clean_session` keeps is well formed. */
  lemma CleanSessionWellFormed(line: string)
    requires CleanSession(line).Some?
    ensures WellFormedSession(CleanSession(line).value)
  {
    CleanSessionSound(line);
  }

  /**
   * The statistics `main` prints are consistent: every written session is
   * counted as cleaned, no more sessions are cleaned than read, and no more
   * paths survive than were read.
   */
  lemma {:induction false} CleanSessionsCounts(lines: seq<string>)
    ensures var r := CleanSessions(lines);
            r.cleaned == |r.written| && r.cleaned <= r.original &&
            r.pathsAfter <= r.pathsBefore
  {
    if lines != [] {
      CleanSessionsCounts(lines[..|lines| - 1]);
      var line := Strip(lines[|lines| - 1]);
      if !Blank(line) && CleanSession(line).Some? {
        StripIdempotent(lines[|lines| - 1]);
        CleanSessionSound(line);
      }
    }
  }

  /** Every session `main` writes is well formed. */
  lemma {:induction false} CleanSessionsWellFormed(lines: seq<string>)
    ensures forall v :: v in CleanSessions(lines).written ==> WellFormedSession(v)
  {
    if lines != [] {
      var init := lines[..|lines| - 1];
      CleanSessionsWellFormed(init);
      var line := Strip(lines[|lines| - 1]);
      if !Blank(line) && CleanSession(line).Some? {
        CleanSessionWellFormed(line);
      }
    }
  }

  /**
   * The loop of `main`: strip each line, skip blank ones, count the line
   * and its fields, and write the cleaned session when there is one.
   */
  method CleanUserSessionsMain(lines: seq<string>) returns (r: Stats)
    ensures r == CleanSessions(lines)
    ensures r.cleaned == |r.written| <= r.original
    ensures r.pathsAfter <= r.pathsBefore
    ensures forall v :: v in r.written ==> WellFormedSession(v)
  {
    var written: seq<seq<string>> := [];
    var totalOriginal: nat, totalCleaned: nat, totalPathsBefore: nat, totalPathsAfter: nat := 0, 0, 0, 0;
    var n := 0;
    while n < |lines|
      invariant 0 <= n <= |lines|
      invariant Stats(written, totalOriginal, totalCleaned, totalPathsBefore, totalPathsAfter)
                == CleanSessions(lines[..n])
    {
      assert lines[..n + 1][..n] == lines[..n] && lines[..n + 1][n] == lines[n];
      var line := Strip(lines[n]);
      if !Blank(line) {
        totalOriginal := totalOriginal + 1;
        totalPathsBefore := totalPathsBefore + |Split(line, ',')|;
        var cleanedPaths := CleanSession(line);
        if cleanedPaths.Some? {
          written := written + [cleanedPaths.value];
          totalCleaned := totalCleaned + 1;
          totalPathsAfter := totalPathsAfter + |cleanedPaths.value|;
        }
      }
      n := n + 1;
    }
    assert lines[..n] == lines;
    r := Stats(written, totalOriginal, totalCleaned, totalPathsBefore, totalPathsAfter);
    CleanSessionsCounts(lines);
    CleanSessionsWellFormed(lines);
  }
}
