/**
 * The cleaning pass over extracted sessions: `clean_path`, `is_valid_path`
 * and the per-line loop of `main` that cleans, filters, collapses repeats and
 * keeps sessions of at least two paths.
 */
module CleanExtracted {

  import opened Text
  import opened Noise
  import opened Consecutive

  /** `s.split(c)[0]`: everything before the first `c`. */
  function BeforeFirst(s: string, c: char): (r: string)
    ensures r <= s && c !in r
    ensures |r| < |s| ==> s[|r|] == c
  {
    if s == [] || s[0] == c then [] else [s[0]] + BeforeFirst(s[1..], c)
  }

  /** No two consecutive slashes. */
  predicate NoDoubleSlash(s: string)
  {
    forall i :: 0 <= i < |s| - 1 ==> !(s[i] == '/' && s[i + 1] == '/')
  }

  /** `re.sub(r'/+', '/', s)`: every run of slashes becomes one slash. */
  function CollapseSlashes(s: string): (r: string)
    ensures |r| <= |s| && NoDoubleSlash(r)
    ensures s != [] ==> r != [] && r[0] == s[0]
  {
    if |s| <= 1 then s
    else if s[0] == '/' && s[1] == '/' then CollapseSlashes(s[1..])
    else [s[0]] + CollapseSlashes(s[1..])
  }

  /** Collapsing adds no character. */
  lemma {:induction false} CollapseSlashesChars(s: string, c: char)
    ensures c in CollapseSlashes(s) ==> c in s
  {
    if |s| > 1 {
      CollapseSlashesChars(s[1..], c);
    }
  }

  /** The input with query, fragment and repeated slashes removed. */
  function Normalise(path: string): string
  {
    CollapseSlashes(BeforeFirst(BeforeFirst(path, '?'), '#'))
  }

  /** `if path.endswith('/') and len(path) > 1: path = path[:-1]`. Once
      slashes are collapsed, what remains ends in a slash only if it is "/". */
  function TrimTrailingSlash(p: string): (r: string)
    ensures r <= p
    ensures NoDoubleSlash(p) && r != [] && r[|r| - 1] == '/' ==> r == "/"
  {
    if |p| > 1 && p[|p| - 1] == '/' then p[..|p| - 1] else p
  }

  /** `p.rfind('/') + 1`: where `os.path.basename` starts. */
  function SlashCut(p: string): (i: nat)
    ensures i <= |p|
    ensures i > 0 ==> p[i - 1] == '/'
    ensures '/' !in p[i..]
  {
    if p == [] then 0
    else if p[|p| - 1] == '/' then |p|
    else SlashCut(p[..|p| - 1])
  }

  /** `os.path.basename(p)`: the part after the last slash. */
  function Basename(p: string): string
  {
    p[SlashCut(p)..]
  }

  predicate AllSlashes(s: string)
  {
    forall i :: 0 <= i < |s| ==> s[i] == '/'
  }

  /** `s.rstrip('/')`. */
  function RStripSlashes(s: string): (r: string)
    ensures r <= s && (r == [] || r[|r| - 1] != '/')
    ensures forall i :: |r| <= i < |s| ==> s[i] == '/'
  {
    if s != [] && s[|s| - 1] == '/' then RStripSlashes(s[..|s| - 1]) else s
  }

  /** `os.path.dirname(p)` (POSIX): the part up to the last slash, without its
      trailing slashes unless it consists of slashes only. */
  function Dirname(p: string): (r: string)
    ensures r <= p
  {
    var head := p[..SlashCut(p)];
    if head != [] && !AllSlashes(head) then RStripSlashes(head) else head
  }

  /** A prefix of a string without double slashes has none either. */
  lemma PrefixNoDoubleSlash(a: string, b: string)
    requires a <= b && NoDoubleSlash(b)
    ensures NoDoubleSlash(a)
  {
    assert forall i :: 0 <= i < |a| ==> a[i] == b[i];
  }

  /** A prefix holds only characters of the whole. */
  lemma PrefixChars(a: string, b: string)
    requires a <= b
    ensures forall c :: c in a ==> c in b
  {
    forall c | c in a ensures c in b {
      var i :| 0 <= i < |a| && a[i] == c;
      assert b[i] == c;
    }
  }

  /** The second half of `clean_path`: if the last segment holds a dot, take
      the parent directory; then drop a trailing slash again. */
  function DropFileSegment(t: string): (r: string)
    ensures r <= t
    ensures NoDoubleSlash(t) && r != [] && r[|r| - 1] == '/' ==> r == "/"
  {
    var d := if '.' in Basename(t) then Dirname(t) else t;
    assert NoDoubleSlash(t) ==> NoDoubleSlash(d) by {
      if NoDoubleSlash(t) { PrefixNoDoubleSlash(d, t); }
    }
    TrimTrailingSlash(d)
  }

  /**
   * `clean_path`: drop the query and fragment, collapse slashes, drop one
   * trailing slash, replace a last segment holding a dot by its parent
   * directory, and drop a trailing slash once more.
   */
  function CleanPath(path: string): (r: string)
    ensures '?' !in r && '#' !in r
    ensures NoDoubleSlash(r)
    ensures r != [] && r[|r| - 1] == '/' ==> r == "/"
    ensures r <= Normalise(path) && |r| <= |path|
  {
    var p0 := BeforeFirst(path, '?');
    var p1 := BeforeFirst(p0, '#');
    var p2 := CollapseSlashes(p1);
    var p3 := TrimTrailingSlash(p2);
    var r := DropFileSegment(p3);
    assert '?' !in p1 && '#' !in p1 && |p1| <= |path| by {
      PrefixChars(p1, p0);
    }
    assert '?' !in p2 && '#' !in p2 by {
      CollapseSlashesChars(p1, '?');
      CollapseSlashesChars(p1, '#');
    }
    assert r <= p2;
    assert '?' !in r && '#' !in r by {
      PrefixChars(r, p2);
    }
    assert NoDoubleSlash(p3) && NoDoubleSlash(r) by {
      PrefixNoDoubleSlash(p3, p2);
      PrefixNoDoubleSlash(r, p2);
    }
    r
  }

  /** Cleaning adds no character. */
  lemma CleanPathChars(path: string, c: char)
    ensures c in CleanPath(path) ==> c in path
  {
    var p0 := BeforeFirst(path, '?');
    var p1 := BeforeFirst(p0, '#');
    PrefixChars(p1, p0);
    PrefixChars(p0, path);
    CollapseSlashesChars(p1, c);
    PrefixChars(CleanPath(path), Normalise(path));
  }

  /** When the last slash is not the first character, the parent directory
      is everything before that slash. */
  lemma DirnameBelowSlash(t: string)
    requires NoDoubleSlash(t) && SlashCut(t) > 1
    ensures Dirname(t) == t[..SlashCut(t) - 1]
    ensures t == Dirname(t) + "/" + Basename(t)
    ensures Dirname(t) != [] && Dirname(t)[|Dirname(t)| - 1] != '/'
  {
    var i := SlashCut(t);
    var head := t[..i];
    assert t[i - 1] == '/';
    assert t[i - 2] != '/';
    assert head[i - 2] != '/';
    assert !AllSlashes(head);
    assert head[..i - 1] == t[..i - 1];
    assert RStripSlashes(head) == RStripSlashes(t[..i - 1]);
    assert RStripSlashes(t[..i - 1]) == t[..i - 1];
    assert t == t[..i - 1] + "/" + t[i..];
  }


  /** The one step towards the parent: if the last segment of `t` holds a
      dot, the result is exactly the parent directory of `t`; otherwise `t`
      itself (when `t` is already trimmed). Only one step is taken. */
  lemma DropFileSegmentIsParent(t: string)
    requires NoDoubleSlash(t)
    requires t != [] && t[|t| - 1] == '/' ==> t == "/"
    ensures var b := Basename(t);
            var r := DropFileSegment(t);
            ('.' !in b ==> r == t) &&
            ('.' in b ==>
               (r == [] && t == b) ||
               (r == "/" && t == "/" + b) ||
               (r != [] && r != "/" && t == r + "/" + b))
    ensures var b := Basename(t);
            '.' in b && |t| > |b| + 1 ==> DropFileSegment(t) == t[..|t| - |b| - 1]
  {
    var i := SlashCut(t);
    var b := Basename(t);
    assert t == t[..i] + b;
    if '.' in b {
      if i == 0 {
        assert Dirname(t) == [];
      } else if i == 1 {
        assert t[..i] == "/" && AllSlashes(t[..i]);
        assert Dirname(t) == "/";
      } else {
        DirnameBelowSlash(t);
        var d := Dirname(t);
        assert TrimTrailingSlash(d) == d;
      }
    }
  }


  /** `clean_path` is that step applied to the trimmed, normalised input. */
  lemma CleanPathDropsFileSegment(path: string)
    ensures var t := TrimTrailingSlash(Normalise(path));
            var b := Basename(t);
            var r := CleanPath(path);
            ('.' !in b ==> r == t) &&
            ('.' in b ==>
               (r == [] && t == b) ||
               (r == "/" && t == "/" + b) ||
               (r != [] && r != "/" && t == r + "/" + b))
  {
    var n := Normalise(path);
    var t := TrimTrailingSlash(n);
    PrefixNoDoubleSlash(t, n);
    DropFileSegmentIsParent(t);
  }

  lemma {:induction false} BeforeFirstAbsent(s: string, c: char)
    requires c !in s
    ensures BeforeFirst(s, c) == s
  {
    if s != [] {
      BeforeFirstAbsent(s[1..], c);
    }
  }

  lemma {:induction false} CollapseSlashesCollapsed(s: string)
    requires NoDoubleSlash(s)
    ensures CollapseSlashes(s) == s
  {
    if |s| > 1 {
      CollapseSlashesCollapsed(s[1..]);
    }
  }

  /** Removing one slash of a double slash does not change the result: a run
      of slashes collapses to one slash whatever its length, and together
      with `CollapseSlashesCollapsed` this determines the function. */
  lemma {:induction false} CollapseDrop(s: string, i: nat)
    requires i < |s| - 1 && s[i] == '/' && s[i + 1] == '/'
    ensures CollapseSlashes(s) == CollapseSlashes(s[..i] + s[i + 1..])
  {
    var t := s[..i] + s[i + 1..];
    if i > 0 {
      assert t[0] == s[0] && t[1] == s[1];
      assert t[1..] == s[1..][..i - 1] + s[1..][i..];
      CollapseDrop(s[1..], i - 1);
    } else {
      assert t == s[1..];
    }
  }

  /** On a path that is already normalised and trimmed, `clean_path` only
      takes the step towards the parent. */
  lemma CleanPathOfNormalised(t: string)
    requires '?' !in t && '#' !in t && NoDoubleSlash(t)
    requires t != [] && t[|t| - 1] == '/' ==> t == "/"
    ensures CleanPath(t) == DropFileSegment(t)
  {
    BeforeFirstAbsent(t, '?');
    BeforeFirstAbsent(t, '#');
    CollapseSlashesCollapsed(t);
  }

  /** Joining a directory without a trailing slash and a segment without
      slashes creates no double slash. */
  lemma JoinedNoDoubleSlash(d: string, b: string)
    requires d != [] && d[|d| - 1] != '/' && NoDoubleSlash(d) && '/' !in b
    ensures NoDoubleSlash(d + "/" + b)
  {
    var t := d + "/" + b;
    forall i | 0 <= i < |t| - 1 ensures !(t[i] == '/' && t[i + 1] == '/') {
      if i < |d| - 1 {
        assert t[i] == d[i] && t[i + 1] == d[i + 1];
      } else if i == |d| - 1 {
        assert t[i] == d[|d| - 1];
      } else {
        assert t[i + 1] == b[i - |d|];
      }
    }
  }

  /** The last slash of `d + "/" + b` is the one joining them when `b` has
      no slash. */
  lemma JoinedBasename(d: string, b: string)
    requires '/' !in b
    ensures SlashCut(d + "/" + b) == |d| + 1
  {
    var t := d + "/" + b;
    assert t[|d|] == '/';
  }



  /** A character in neither part is not in the joined path, unless it is
      the slash. */
  lemma JoinedChars(d: string, b: string, c: char)
    requires c !in d && c !in b && c != '/'
    ensures c !in d + "/" + b
  {
    var t := d + "/" + b;
    forall k | 0 <= k < |t| ensures t[k] != c {
      if k < |d| {
        assert t[k] == d[k];
      } else if k > |d| {
        assert t[k] == b[k - |d| - 1];
      }
    }
  }

  /** The step towards the parent removes a dotted last segment. */
  lemma DropParent(d: string, b: string)
    requires d != [] && d[|d| - 1] != '/' && NoDoubleSlash(d)
    requires '/' !in b && '.' in b
    ensures DropFileSegment(d + "/" + b) == d
  {
    var t := d + "/" + b;
    JoinedNoDoubleSlash(d, b);
    JoinedBasename(d, b);
    assert Basename(t) == b;
    DirnameBelowSlash(t);
    assert Dirname(t) == d;
  }

  /** A normalised path whose last segment holds a dot is cleaned to the
      directory above that segment. */
  lemma CleanPathParent(d: string, b: string)
    requires d != [] && d[|d| - 1] != '/' && NoDoubleSlash(d)
    requires b != [] && '/' !in b && '.' in b
    requires '?' !in d && '?' !in b && '#' !in d && '#' !in b
    ensures CleanPath(d + "/" + b) == d
  {
    var t := d + "/" + b;
    JoinedNoDoubleSlash(d, b);
    JoinedChars(d, b, '?');
    JoinedChars(d, b, '#');
    assert t[|t| - 1] == b[|b| - 1];
    CleanPathOfNormalised(t);
    DropParent(d, b);
  }



  lemma CleanFileExample(t: string)
    requires t == "/a/b.c/d.e"
    ensures CleanPath(t) == "/a/b.c"
  {
    var d, b := "/a/b.c", "d.e";
    assert t == d + "/" + b;
    assert d[5] != '/' && b[1] == '.';
    assert NoDoubleSlash(d) by {
      forall i | 0 <= i < |d| - 1 ensures !(d[i] == '/' && d[i + 1] == '/') {
        if i == 0 {} else if i == 1 {} else if i == 2 {} else if i == 3 {} else {}
      }
    }
    CleanPathParent(d, b);
  }

  lemma CleanDirExample(u: string)
    requires u == "/a/b.c"
    ensures CleanPath(u) == "/a"
  {
    var d, b := "/a", "b.c";
    assert u == d + "/" + b;
    assert d[1] != '/' && b[1] == '.';
    CleanPathParent(d, b);
  }

  /** Cleaning is not idempotent: a second pass strips another dotted
      segment. */
  lemma CleanPathNotIdempotent(t: string)
    requires t == "/a/b.c/d.e"
    ensures CleanPath(t) == "/a/b.c"
    ensures CleanPath(CleanPath(t)) == "/a"
  {
    CleanFileExample(t);
    CleanDirExample(CleanPath(t));
  }

  /** `is_valid_path`: false exactly for the empty path and the root. */
  predicate IsValidPath(p: string)
    ensures IsValidPath(p) ==> |p| >= 1 && (p[0] == '/' ==> |p| >= 2)
  {
    p != [] && p != "/"
  }

  /** The filter `main` applies to a cleaned path. */
  predicate Kept(p: string)
  {
    IsValidPath(p) && !IsNoisePath(p)
  }

  /** The filtering part of the inner loop of `main`: the cleaned form of
      each field, kept when valid and not noise. */
  function CleanFields(fields: seq<string>): (r: seq<string>)
    ensures |r| <= |fields|
    ensures forall k :: 0 <= k < |r| ==> Kept(r[k])
  {
    if fields == [] then []
    else
      var prev := CleanFields(fields[..|fields| - 1]);
      var c := CleanPath(fields[|fields| - 1]);
      if Kept(c) then prev + [c] else prev
  }

  /** `clean_path` of every field, before any is filtered out. */
  function CleanEach(fields: seq<string>): (r: seq<string>)
    ensures |r| == |fields|
  {
    if fields == [] then [] else CleanEach(fields[..|fields| - 1]) + [CleanPath(fields[|fields| - 1])]
  }

  lemma {:induction false} CleanEachAt(fields: seq<string>, k: int)
    requires 0 <= k < |fields|
    ensures CleanEach(fields)[k] == CleanPath(fields[k])
  {
    if k < |fields| - 1 {
      var init := fields[..|fields| - 1];
      CleanEachAt(init, k);
      assert fields[k] == init[k];
    }
  }

  /** `p` is `clean_path` of one of the fields. */
  ghost predicate CleanedFrom(fields: seq<string>, p: string)
  {
    exists j :: 0 <= j < |fields| && p == CleanPath(fields[j])
  }

  /** The kept paths are the cleaned fields in their order, some left out. */
  lemma {:induction false} CleanFieldsSubsequence(fields: seq<string>)
    ensures IsSubsequence(CleanFields(fields), CleanEach(fields))
  {
    if fields != [] {
      var init := fields[..|fields| - 1];
      var c := CleanPath(fields[|fields| - 1]);
      var prev := CleanFields(init);
      CleanFieldsSubsequence(init);
      assert CleanEach(fields)[..|fields| - 1] == CleanEach(init);
      if Kept(c) {
        assert (prev + [c])[..|prev|] == prev;
      }
    }
  }

  /** A field whose cleaned form is kept adds it after the earlier ones. */
  lemma CleanFieldsKeepsLast(fields: seq<string>)
    requires fields != [] && Kept(CleanPath(fields[|fields| - 1]))
    ensures CleanFields(fields) == CleanFields(fields[..|fields| - 1]) + [CleanPath(fields[|fields| - 1])]
  {
  }

  /** A field whose cleaned form is not kept adds nothing. */
  lemma CleanFieldsDropsLast(fields: seq<string>)
    requires fields != [] && !Kept(CleanPath(fields[|fields| - 1]))
    ensures CleanFields(fields) == CleanFields(fields[..|fields| - 1])
  {
  }

  /** Every cleaned field that is valid and not noise is kept. */
  lemma {:induction false} CleanFieldsComplete(fields: seq<string>, p: string)
    requires p in CleanEach(fields) && Kept(p)
    ensures p in CleanFields(fields)
  {
    var init := fields[..|fields| - 1];
    var c := CleanPath(fields[|fields| - 1]);
    if p in CleanEach(init) {
      CleanFieldsComplete(init, p);
    }
    if Kept(c) {
      CleanFieldsKeepsLast(fields);
    } else {
      CleanFieldsDropsLast(fields);
    }
  }

  /** The kept paths are exactly the cleaned fields that are valid and not
      noise. */
  lemma CleanFieldsExactly(fields: seq<string>, p: string)
    ensures p in CleanFields(fields) <==> p in CleanEach(fields) && Kept(p)
  {
    CleanFieldsSubsequence(fields);
    if p in CleanFields(fields) {
      SubsequenceElements(CleanFields(fields), CleanEach(fields), p);
    }
    if p in CleanEach(fields) && Kept(p) {
      CleanFieldsComplete(fields, p);
    }
  }

  /** The session `main` builds from one stripped, non-empty line. */
  function SessionOf(line: string): seq<string>
  {
    Dedup(CleanFields(Split(line, ',')))
  }

  /** Every path of a session is `clean_path` of one of the line's fields,
      and the session keeps the fields' order. */
  lemma SessionOfFromFields(line: string)
    ensures IsSubsequence(SessionOf(line), CleanEach(Split(line, ',')))
    ensures forall p :: p in SessionOf(line) ==> CleanedFrom(Split(line, ','), p)
  {
    var fields := Split(line, ',');
    var c := CleanFields(fields);
    CleanFieldsSubsequence(fields);
    DedupSubsequence(c);
    SubsequenceTransitive(Dedup(c), c, CleanEach(fields));
    forall p | p in SessionOf(line)
      ensures CleanedFrom(fields, p)
    {
      SubsequenceElements(Dedup(c), CleanEach(fields), p);
      var j :| 0 <= j < |CleanEach(fields)| && CleanEach(fields)[j] == p;
      CleanEachAt(fields, j);
    }
  }

  /** A path is in a line's session exactly when it is the cleaned form of
      one of the line's fields and is valid and not noise. */
  lemma SessionOfExactly(line: string, p: string)
    ensures p in SessionOf(line) <==> p in CleanEach(Split(line, ',')) && Kept(p)
  {
    var c := CleanFields(Split(line, ','));
    DedupSameElements(c, p);
    CleanFieldsExactly(Split(line, ','), p);
  }

  /** What `main` writes and counts. */
  datatype Summary = Summary(written: seq<seq<string>>, totalSessions: nat, totalPaths: nat)

  /** One iteration of `main`'s loop: what reading `raw` adds to the summary. */
  function Step(acc: Summary, raw: string): Summary
  {
    var line := Strip(raw);
    if line == [] then acc
    else
      var s := SessionOf(line);
      if |s| >= 2 then Summary(acc.written + [s], acc.totalSessions + 1, acc.totalPaths + |s|)
      else acc
  }

  /** A non-blank line adds its session, with both counters, exactly when
      the session has at least two paths. */
  lemma StepSession(acc: Summary, raw: string)
    requires Strip(raw) != []
    ensures var s := SessionOf(Strip(raw));
            Step(acc, raw) == if |s| >= 2 then Summary(acc.written + [s], acc.totalSessions + 1, acc.totalPaths + |s|) else acc
  {
  }

  /** The specification of `main`'s loop over the lines of the input. */
  function CleanAll(lines: seq<string>): (r: Summary)
    ensures |r.written| <= |lines|
  {
    if lines == [] then Summary([], 0, 0)
    else Step(CleanAll(lines[..|lines| - 1]), lines[|lines| - 1])
  }

  /** Reading one more line applies one `Step`. */
  lemma CleanAllSnoc(lines: seq<string>, n: nat)
    requires n < |lines|
    ensures CleanAll(lines[..n + 1]) == Step(CleanAll(lines[..n]), lines[n])
  {
    assert lines[..n + 1][..n] == lines[..n] && lines[..n + 1][n] == lines[n];
  }

  /** What every written session satisfies. */
  predicate WellFormedSession(s: seq<string>)
  {
    |s| >= 2 && NoAdjacentDuplicates(s) &&
    forall k :: 0 <= k < |s| ==> Kept(s[k]) && ',' !in s[k]
  }

  /** Cleaning adds no character: a character absent from every field is
      absent from every cleaned path. */
  lemma {:induction false} CleanFieldsWithout(fields: seq<string>, ch: char)
    requires forall j :: 0 <= j < |fields| ==> ch !in fields[j]
    ensures forall k :: 0 <= k < |CleanFields(fields)| ==> ch !in CleanFields(fields)[k]
  {
    if fields != [] {
      CleanFieldsWithout(fields[..|fields| - 1], ch);
      CleanPathChars(fields[|fields| - 1], ch);
    }
  }

  /** A kept session is well formed. */
  lemma SessionOfWellFormed(line: string)
    requires |SessionOf(line)| >= 2
    ensures WellFormedSession(SessionOf(line))
  {
    var fields := Split(line, ',');
    var c := CleanFields(fields);
    var s := Dedup(c);
    CleanFieldsWithout(fields, ',');
    DedupNoAdjacent(c);
    forall k | 0 <= k < |s|
      ensures Kept(s[k]) && ',' !in s[k]
    {
      DedupSameElements(c, s[k]);
    }
  }

  /** One line writes nothing, or appends the session of its stripped text. */
  lemma StepWritten(acc: Summary, raw: string)
    ensures Step(acc, raw).written == acc.written ||
            (Strip(raw) != [] && Step(acc, raw).written == acc.written + [SessionOf(Strip(raw))])
  {
  }

  /** Every session `main` writes is the session of one of its non-blank
      input lines, so each written path is `clean_path` of a field of that
      line. */
  lemma {:induction false} WrittenFrom(lines: seq<string>, i: nat) returns (j: nat)
    requires i < |CleanAll(lines).written|
    ensures j < |lines| && Strip(lines[j]) != [] && CleanAll(lines).written[i] == SessionOf(Strip(lines[j]))
  {
    var init := lines[..|lines| - 1];
    var acc := CleanAll(init);
    assert CleanAll(lines) == Step(acc, lines[|lines| - 1]);
    StepWritten(acc, lines[|lines| - 1]);
    if i < |acc.written| {
      j := WrittenFrom(init, i);
      assert lines[j] == init[j];
    } else {
      j := |lines| - 1;
    }
  }

  /** Every session `main` writes is well formed, the counters agree with
      what is written, and each written line reads back as its session. */
  lemma {:induction false} CleanAllWellFormed(lines: seq<string>)
    ensures var r := CleanAll(lines);
            r.totalSessions == |r.written| &&
            forall i :: 0 <= i < |r.written| ==>
              WellFormedSession(r.written[i]) && Split(Join(r.written[i], ","), ',') == r.written[i]
  {
    if lines != [] {
      var init := lines[..|lines| - 1];
      CleanAllWellFormed(init);
      var acc := CleanAll(init);
      var r := CleanAll(lines);
      assert r == Step(acc, lines[|lines| - 1]);
      var line := Strip(lines[|lines| - 1]);
      if line != [] && |SessionOf(line)| >= 2 {
        var s := SessionOf(line);
        assert r.written == acc.written + [s];
        SessionOfWellFormed(line);
        SplitJoin(s, ',');
        forall i | 0 <= i < |r.written|
          ensures WellFormedSession(r.written[i]) && Split(Join(r.written[i], ","), ',') == r.written[i]
        {
          if i < |acc.written| {
            assert r.written[i] == acc.written[i];
          }
        }
      }
    }
  }

  /** The inner loop of `main` over the fields of one line: clean each
      field and keep it when it is a valid, non-noise path. */
  method CleanLineFields(paths: seq<string>) returns (cleanedPaths: seq<string>)
    ensures cleanedPaths == CleanFields(paths)
  {
    cleanedPaths := [];
    var j := 0;
    while j < |paths|
      invariant 0 <= j <= |paths|
      invariant cleanedPaths == CleanFields(paths[..j])
    {
      assert paths[..j + 1][..j] == paths[..j];
      var cleaned := CleanPath(paths[j]);
      if Kept(cleaned) {
        cleanedPaths := cleanedPaths + [cleaned];
      }
      j := j + 1;
    }
    assert paths[..j] == paths;
  }

  /**
   * The loop of `main`: strip each line, skip it when empty, split it at
   * commas, clean and filter each field, collapse repeats, and write the
   * session when at least two paths remain.
   */
  method CleanExtractedData(lines: seq<string>)
    returns (written: seq<seq<string>>, totalSessions: nat, totalPaths: nat)
    ensures Summary(written, totalSessions, totalPaths) == CleanAll(lines)
    ensures totalSessions == |written|
    ensures forall i :: 0 <= i < |written| ==> WellFormedSession(written[i])
    ensures forall i :: 0 <= i < |written| ==> Split(Join(written[i], ","), ',') == written[i]
  {
    written, totalSessions, totalPaths := [], 0, 0;
    var n := 0;
    while n < |lines|
      invariant 0 <= n <= |lines|
      invariant Summary(written, totalSessions, totalPaths) == CleanAll(lines[..n])
    {
      CleanAllSnoc(lines, n);
      var line := Strip(lines[n]);
      if line != [] {
        var cleanedPaths := CleanLineFields(Split(line, ','));
        cleanedPaths := RemoveConsecutiveDuplicates(cleanedPaths);
        assert cleanedPaths == SessionOf(line);
        StepSession(Summary(written, totalSessions, totalPaths), lines[n]);
        if |cleanedPaths| >= 2 {
          written := written + [cleanedPaths];
          totalSessions := totalSessions + 1;
          totalPaths := totalPaths + |cleanedPaths|;
        }
      }
      n := n + 1;
    }
    assert lines[..n] == lines;
    CleanAllWellFormed(lines);
  }

}
