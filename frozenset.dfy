/**
 * `parse_frozenset`: the rule tables store each item set as the text
 * `frozenset({'a', 'b'})`. The cell is searched for the first
 * `frozenset({...})` (the shortest content of at least one character, with
 * no line break, followed by `})`), and the items are the non-empty runs
 * between single quotes in that content.
 */
module Frozenset {

  import opened Wrappers
  import opened Text

  /** A table cell: missing (pandas NaN) or a string. */
  datatype Cell = Missing | Text(s: string)

  const Opener: string := "frozenset({"

  /** `a` occurs in `b` starting at position `i`. */
  predicate OccursAt(a: string, b: string, i: int)
  {
    0 <= i <= |b| - |a| && b[i..i + |a|] == a
  }

  /** `a` occurs in `b` as a contiguous piece. */
  predicate Occurs(a: string, b: string)
  {
    exists i :: 0 <= i <= |b| && OccursAt(a, b, i)
  }

  /** `b[i..]` begins with `})`. */
  predicate CloseAt(b: string, i: int)
  {
    0 <= i && i + 1 < |b| && b[i] == '}' && b[i + 1] == ')'
  }

  /**
   * The lazy `(.+?)\}\)` once the first content character is consumed: the
   * first position at or after `i` where `})` begins, provided no line
   * break comes before it.
   */
  function FindClose(s: string, i: nat): (r: Option<nat>)
    ensures r.Some? ==> i <= r.value && CloseAt(s, r.value) && '\n' !in s[i..r.value]
    ensures r.Some? ==> forall e :: i <= e < r.value ==> !CloseAt(s, e)
    decreases |s| - i
  {
    if i >= |s| then None
    else if CloseAt(s, i) then Some(i)
    else if s[i] == '\n' then None
    else
      var r := FindClose(s, i + 1);
      if r.Some? then
        assert s[i..r.value] == [s[i]] + s[i + 1..r.value];
        r
      else r
  }

  /** Where the content of a match starts and ends. */
  datatype Span = Span(start: nat, end: nat)

  /**
   * `re.search(r"frozenset\(\{(.+?)\}\)", s)` from position `p`: the
   * leftmost position where the opener is followed by at least one
   * character and then, lazily, by `})`.
   */
  function Search(s: string, p: nat): (r: Option<Span>)
    ensures r.Some? ==> p + |Opener| <= r.value.start < r.value.end && r.value.end + 2 <= |s|
    ensures r.Some? ==> OccursAt(Opener, s, r.value.start - |Opener|)
    ensures r.Some? ==> CloseAt(s, r.value.end) && '\n' !in s[r.value.start..r.value.end]
    ensures r.Some? ==> forall e :: r.value.start < e < r.value.end ==> !CloseAt(s, e)
    decreases |s| - p
  {
    if p + |Opener| >= |s| then None
    else
      var c := p + |Opener|;
      if OccursAt(Opener, s, p) && s[c] != '\n' && FindClose(s, c + 1).Some? then
        var e := FindClose(s, c + 1).value;
        assert s[c..e] == [s[c]] + s[c + 1..e];
        Some(Span(c, e))
      else Search(s, p + 1)
  }

  /** The position of the first quote at or after `i`, or `|s|`. */
  function NextQuote(s: string, i: nat): (j: nat)
    requires i <= |s|
    ensures i <= j <= |s| && '\'' !in s[i..j] && (j < |s| ==> s[j] == '\'')
    decreases |s| - i
  {
    if i == |s| || s[i] == '\'' then i
    else
      var j := NextQuote(s, i + 1);
      assert s[i..j] == [s[i]] + s[i + 1..j];
      j
  }

  /** An item wrapped in single quotes. */
  function Quote(x: string): string
  {
    ['\''] + x + ['\'']
  }

  /** An occurrence in a suffix is an occurrence in the whole. */
  lemma OccursInSuffix(a: string, b: string, k: nat)
    requires k <= |b| && Occurs(a, b[k..])
    ensures Occurs(a, b)
  {
    var i :| 0 <= i <= |b[k..]| && OccursAt(a, b[k..], i);
    assert b[k..][i..i + |a|] == a;
    assert b[k + i..k + i + |a|] == a;
    assert OccursAt(a, b, k + i);
  }

  /**
   * `re.findall(r"'([^']+)'", s)`: at a quote, the run of non-quotes up to
   * the next quote is an item when it is not empty; an empty run makes the
   * search resume at the second quote; a quote with no partner ends the
   * search.
   */
  function QuotedItems(s: string): (r: seq<string>)
    ensures forall k :: 0 <= k < |r| ==> r[k] != [] && '\'' !in r[k] && Occurs(Quote(r[k]), s)
    decreases |s|
  {
    if s == [] then []
    else if s[0] != '\'' then
      var r := QuotedItems(s[1..]);
      assert forall k :: 0 <= k < |r| ==> Occurs(Quote(r[k]), s) by {
        forall k | 0 <= k < |r| ensures Occurs(Quote(r[k]), s) { OccursInSuffix(Quote(r[k]), s, 1); }
      }
      r
    else
      var j := NextQuote(s, 1);
      if j == |s| then []
      else if j == 1 then
        var r := QuotedItems(s[1..]);
        assert forall k :: 0 <= k < |r| ==> Occurs(Quote(r[k]), s) by {
          forall k | 0 <= k < |r| ensures Occurs(Quote(r[k]), s) { OccursInSuffix(Quote(r[k]), s, 1); }
        }
        r
      else
        var x := s[1..j];
        var rest := QuotedItems(s[j + 1..]);
        assert s[0..j + 1] == Quote(x);
        assert OccursAt(Quote(x), s, 0);
        assert forall k :: 0 <= k < |rest| ==> Occurs(Quote(rest[k]), s) by {
          forall k | 0 <= k < |rest| ensures Occurs(Quote(rest[k]), s) { OccursInSuffix(Quote(rest[k]), s, j + 1); }
        }
        [x] + rest
  }

  function SetOf(xs: seq<string>): set<string>
  {
    set k | 0 <= k < |xs| :: xs[k]
  }

  /** The text of the content of the first match, if any. */
  function Group(s: string): Option<string>
  {
    match Search(s, 0)
    case None => None
    case Some(sp) => Some(s[sp.start..sp.end])
  }

  /**
   * `parse_frozenset`: the empty set for a missing cell or a cell with no
   * match; otherwise the set of quoted items of the match's content. Every
   * item is non-empty, holds no quote, and occurs quoted in that content.
   */
  function ParseFrozenset(cell: Cell): (r: set<string>)
    ensures cell.Missing? ==> r == {}
    ensures cell.Text? && !Occurs(Opener, cell.s) ==> r == {}
    ensures r != {} ==> cell.Text? && Group(cell.s).Some?
    ensures forall x :: x in r ==> x != [] && '\'' !in x && Occurs(Quote(x), Group(cell.s).value)
  {
    match cell
    case Missing => {}
    case Text(s) =>
      match Group(s)
      case None => {}
      case Some(g) => SetOf(QuotedItems(g))
  }

  /** Every item quoted. */
  function QuoteEach(xs: seq<string>): (r: seq<string>)
    ensures |r| == |xs| && forall k :: 0 <= k < |r| ==> r[k] == Quote(xs[k])
  {
    if xs == [] then [] else [Quote(xs[0])] + QuoteEach(xs[1..])
  }

  /** An item the parser can read back: non-empty, with no quote,
      backslash, line break or closing brace. Python's `repr` also escapes
      tabs and other non-printable characters, so for such items the text
      below is not what `str` prints. */
  predicate PlainItem(x: string)
  {
    x != [] && '\'' !in x && '\\' !in x && '\n' !in x && '}' !in x
  }

  /** The text `str(frozenset(xs))` prints for printable plain items, listed
      in `xs`'s order. */
  function Encode(xs: seq<string>): (r: string)
    ensures xs == [] <==> r == "frozenset()"
    ensures xs != [] ==> Opener <= r
  {
    if xs == [] then "frozenset()" else Opener + Join(QuoteEach(xs), ", ") + "})"
  }

  /** Text without quotes yields no items and is skipped. */
  lemma {:induction false} QuotedItemsSkip(u: string, v: string)
    requires '\'' !in u
    ensures QuotedItems(u + v) == QuotedItems(v)
  {
    if u == [] {
      assert u + v == v;
    } else {
      assert u[0] in u;
      assert (u + v)[0] == u[0] && (u + v)[1..] == u[1..] + v;
      QuotedItemsSkip(u[1..], v);
    }
  }

  /** A quoted plain item is read as that item. */
  lemma QuotedItemsItem(x: string, v: string)
    requires x != [] && '\'' !in x
    ensures QuotedItems(Quote(x) + v) == [x] + QuotedItems(v)
  {
    var s := Quote(x) + v;
    var j := NextQuote(s, 1);
    assert s[|x| + 1] == '\'';
    assert s[1..|x| + 1] == x;
    assert s[1..j] == x;
    assert s[j + 1..] == v;
  }

  /** The quoted items of a `", "`-joined list of quoted plain items are those
      items. */
  lemma {:induction false} QuotedItemsJoin(xs: seq<string>)
    requires forall k :: 0 <= k < |xs| ==> xs[k] != [] && '\'' !in xs[k]
    ensures QuotedItems(Join(QuoteEach(xs), ", ")) == xs
  {
    var qs := QuoteEach(xs);
    if |xs| == 1 {
      assert Join(qs, ", ") == Quote(xs[0]) + [];
      QuotedItemsItem(xs[0], []);
    } else if |xs| > 1 {
      assert qs[1..] == QuoteEach(xs[1..]);
      var rest := Join(qs[1..], ", ");
      assert Join(qs, ", ") == Quote(xs[0]) + (", " + rest);
      QuotedItemsItem(xs[0], ", " + rest);
      QuotedItemsSkip(", ", rest);
      QuotedItemsJoin(xs[1..]);
    }
  }

  /** The joined quoted items hold only the items' characters, quotes,
      commas and spaces. */
  lemma {:induction false} JoinQuotedChars(xs: seq<string>, c: char)
    requires c in Join(QuoteEach(xs), ", ")
    ensures c == '\'' || c == ',' || c == ' ' || exists k :: 0 <= k < |xs| && c in xs[k]
  {
    var qs := QuoteEach(xs);
    if |xs| == 1 {
      assert Join(qs, ", ") == ['\''] + xs[0] + ['\''];
    } else if |xs| > 1 {
      assert qs[1..] == QuoteEach(xs[1..]);
      var rest := Join(qs[1..], ", ");
      assert Join(qs, ", ") == ['\''] + xs[0] + ['\''] + ", " + rest;
      if c in rest {
        JoinQuotedChars(xs[1..], c);
        if c != '\'' && c != ',' && c != ' ' {
          var k :| 0 <= k < |xs[1..]| && c in xs[1..][k];
          assert c in xs[k + 1];
        }
      } else if c in xs[0] {
        assert c in xs[0];
      }
    }
  }

  /** The lazy search stops at the first `})` when no line break and no
      closing brace comes before it. */
  lemma {:induction false} FindCloseFirst(s: string, i: nat, e: nat)
    requires i <= e && CloseAt(s, e)
    requires forall k :: i <= k < e ==> s[k] != '}' && s[k] != '\n'
    ensures FindClose(s, i) == Some(e)
    decreases e - i
  {
    if i < e {
      FindCloseFirst(s, i + 1, e);
    }
  }

  /** The joined quoted plain items start with a quote and hold no closing
      brace and no line break. */
  lemma EncodedBody(xs: seq<string>)
    requires xs != [] && forall k :: 0 <= k < |xs| ==> PlainItem(xs[k])
    ensures var body := Join(QuoteEach(xs), ", ");
            body != [] && body[0] == '\'' && forall k :: 0 <= k < |body| ==> body[k] != '}' && body[k] != '\n'
  {
    var qs := QuoteEach(xs);
    var body := Join(qs, ", ");
    if |xs| == 1 {
      assert body == Quote(xs[0]);
    } else {
      assert body == Quote(xs[0]) + ", " + Join(qs[1..], ", ");
    }
    forall k | 0 <= k < |body|
      ensures body[k] != '}' && body[k] != '\n'
    {
      var c := body[k];
      JoinQuotedChars(xs, c);
      if c != '\'' && c != ',' && c != ' ' {
        var m :| 0 <= m < |xs| && c in xs[m];
        assert PlainItem(xs[m]);
      }
    }
  }

  /** Content with no closing brace and no line break, wrapped in the
      opener and `})`, is found whole. */
  lemma SearchWrapped(body: string)
    requires body != [] && forall k :: 0 <= k < |body| ==> body[k] != '}' && body[k] != '\n'
    ensures Group(Opener + body + "})") == Some(body)
  {
    var s := Opener + body + "})";
    var n := |Opener|;
    assert s[n..n + |body|] == body;
    assert OccursAt(Opener, s, 0);
    assert forall k :: n <= k < n + |body| ==> s[k] == body[k - n];
    assert CloseAt(s, n + |body|);
    FindCloseFirst(s, n + 1, n + |body|);
  }

  /** The match in the text of a non-empty set is its whole content. */
  lemma SearchEncoded(xs: seq<string>)
    requires xs != [] && forall k :: 0 <= k < |xs| ==> PlainItem(xs[k])
    ensures Group(Encode(xs)) == Some(Join(QuoteEach(xs), ", "))
  {
    EncodedBody(xs);
    SearchWrapped(Join(QuoteEach(xs), ", "));
  }

  /** Reading back the text of a non-empty set of plain items gives the set. */
  lemma ParseEncoded(xs: seq<string>)
    requires xs != [] && forall k :: 0 <= k < |xs| ==> PlainItem(xs[k])
    ensures ParseFrozenset(Text(Encode(xs))) == SetOf(xs)
  {
    SearchEncoded(xs);
    QuotedItemsJoin(xs);
  }

  /** The text of the empty set, `frozenset()`, reads back as the empty set. */
  lemma ParseEmptySet(t: string)
    requires t == Encode([])
    ensures ParseFrozenset(Text(t)) == {}
  {
    assert t[10] != Opener[10];
  }
}
