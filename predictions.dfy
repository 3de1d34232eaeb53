/**
 * The rule-based next-page predictor: every rule whose antecedents were all
 * visited offers its consequents with the score
 * `confidence * (1 + (lift - 1) * 0.1)`; each page not yet visited keeps the
 * first rule with the strictly highest score; the pages are ranked by score
 * and the first `top_n` returned. Also the list of all paths named by the
 * rules, sorted.
 */
module Predictions {

  import opened Wrappers
  import opened Text
  import opened PathOrder

  /** A rule table cell after loading: a missing column, a set of paths, or
      any other value. */
  datatype ItemField = Absent | Items(items: set<string>) | Other

  /** One row of a rule table; a missing number is `None`. */
  datatype Rule = Rule(antecedents: ItemField, consequents: ItemField,
                       confidence: Option<real>, lift: Option<real>, support: Option<real>)

  /** What is stored for a predicted page. */
  datatype Prediction = Prediction(score: real, confidence: real, lift: real, support: real, basedOn: string)

  /** One row of the returned table. */
  datatype Row = Row(page: string, data: Prediction)

  /** `rule.get(column, default)` for a numeric column. */
  function GetOr(v: Option<real>, default: real): real
  {
    if v.Some? then v.value else default
  }

  function ConfidenceOf(rule: Rule): real { GetOr(rule.confidence, 0.0) }
  function LiftOf(rule: Rule): real { GetOr(rule.lift, 1.0) }
  function SupportOf(rule: Rule): real { GetOr(rule.support, 0.0) }

  /** The score: confidence, adjusted by a tenth of the lift's excess over 1. */
  function Score(confidence: real, lift: real): (s: real)
    ensures confidence >= 0.0 && lift >= 1.0 ==> s >= confidence
    ensures confidence >= 0.0 && lift <= 1.0 ==> s <= confidence
  {
    confidence * (1.0 + (lift - 1.0) * 0.1)
  }

  /** The score prefers higher confidence at any lift above -9, rewards lift
      above 1, and is the confidence itself at lift 1. */
  lemma ScoreOrder(c1: real, c2: real, l1: real, l2: real)
    ensures Score(c1, 1.0) == c1
    ensures c1 <= c2 && l1 >= -9.0 ==> Score(c1, l1) <= Score(c2, l1)
    ensures c1 >= 0.0 && l1 <= l2 ==> Score(c1, l1) <= Score(c1, l2)
  {
    var f := 1.0 + (l1 - 1.0) * 0.1;
    assert Score(c2, l1) - Score(c1, l1) == (c2 - c1) * f;
    if c1 <= c2 && l1 >= -9.0 {
      ProductNonNegative(c2 - c1, f);
    }
    assert Score(c1, l2) - Score(c1, l1) == c1 * (l2 - l1) * 0.1;
    if c1 >= 0.0 && l1 <= l2 {
      ProductNonNegative(c1, l2 - l1);
    }
  }

  lemma ProductNonNegative(a: real, b: real)
    requires a >= 0.0 && b >= 0.0
    ensures a * b >= 0.0
  {
  }

  function RuleScore(rule: Rule): real
  {
    Score(ConfidenceOf(rule), LiftOf(rule))
  }

  /** A cell that is a non-empty set; anything else makes the row skipped. */
  predicate Usable(f: ItemField)
  {
    f.Items? && f.items != {}
  }

  /** The rule is well formed and all its antecedents were visited. */
  predicate Applies(rule: Rule, visited: set<string>)
  {
    Usable(rule.antecedents) && Usable(rule.consequents) && rule.antecedents.items <= visited
  }

  /** The rule proposes `page`: it applies and `page` is an unvisited
      consequent. */
  predicate Offers(rule: Rule, page: string, visited: set<string>)
  {
    Applies(rule, visited) && page in rule.consequents.items && page !in visited
  }

  /** What an applying rule stores for each page it wins. */
  ghost function Offer(rule: Rule): Prediction
  {
    var ants := if rule.antecedents.Items? then rule.antecedents.items else {};
    Prediction(RuleScore(rule), ConfidenceOf(rule), LiftOf(rule), SupportOf(rule),
               Join(SortedPaths(ants), ", "))
  }

  /** The update of the inner loop for the pages in `pages`: a page is
      (re)assigned `p` when it is new or `p` scores strictly higher. */
  function ConsiderPages(m: map<string, Prediction>, pages: set<string>, p: Prediction): map<string, Prediction>
  {
    map page | page in m.Keys + pages ::
      if page in pages && (page !in m || p.score > m[page].score) then p else m[page]
  }

  /** The effect of one rule on the predictions. */
  ghost function Consider(m: map<string, Prediction>, rule: Rule, visited: set<string>): map<string, Prediction>
  {
    if Applies(rule, visited) then ConsiderPages(m, rule.consequents.items - visited, Offer(rule)) else m
  }

  /** The predictions after the rules, in table order. */
  ghost function Best(rules: seq<Rule>, visited: set<string>): (r: map<string, Prediction>)
    ensures forall page :: page in r ==> r[page].score == Score(r[page].confidence, r[page].lift)
  {
    if rules == [] then map[]
    else Consider(Best(rules[..|rules| - 1], visited), rules[|rules| - 1], visited)
  }

  /** Some rule proposes `page`. */
  ghost predicate OfferedBySome(rules: seq<Rule>, page: string, visited: set<string>)
  {
    exists i :: 0 <= i < |rules| && Offers(rules[i], page, visited)
  }

  /** Rule `i` proposes `page` with the highest score, and no earlier rule
      proposing it scores as high. */
  ghost predicate EarliestBest(rules: seq<Rule>, page: string, visited: set<string>, i: int)
  {
    0 <= i < |rules| && Offers(rules[i], page, visited) &&
    (forall j :: 0 <= j < |rules| && Offers(rules[j], page, visited) ==> RuleScore(rules[j]) <= RuleScore(rules[i])) &&
    (forall j :: 0 <= j < i && Offers(rules[j], page, visited) ==> RuleScore(rules[j]) < RuleScore(rules[i]))
  }

  /** The stored prediction of `page` is the offer of the earliest rule with
      the highest score among those proposing it. */
  ghost predicate ChosenFrom(rules: seq<Rule>, page: string, visited: set<string>, p: Prediction)
  {
    exists i :: EarliestBest(rules, page, visited, i) && p == Offer(rules[i])
  }

  /** How one rule changes the entry of one page. */
  lemma ConsiderAt(m: map<string, Prediction>, rule: Rule, visited: set<string>, page: string)
    ensures page in Consider(m, rule, visited) <==> page in m || Offers(rule, page, visited)
    ensures page in Consider(m, rule, visited) ==>
      Consider(m, rule, visited)[page] ==
        if Offers(rule, page, visited) && (page !in m || RuleScore(rule) > m[page].score) then Offer(rule) else m[page]
  {
  }

  /** A rule appended to the table adds its own proposals to the others. */
  lemma OfferedExtend(init: seq<Rule>, r: Rule, page: string, visited: set<string>)
    ensures OfferedBySome(init + [r], page, visited) <==> OfferedBySome(init, page, visited) || Offers(r, page, visited)
  {
    var rules := init + [r];
    if OfferedBySome(init, page, visited) {
      var j :| 0 <= j < |init| && Offers(init[j], page, visited);
      assert rules[j] == init[j];
    }
    if Offers(r, page, visited) {
      assert rules[|init|] == r;
    }
    if OfferedBySome(rules, page, visited) && !Offers(r, page, visited) {
      var j :| 0 <= j < |rules| && Offers(rules[j], page, visited);
      assert j < |init| && rules[j] == init[j];
    }
  }

  /** An appended rule that does not beat the current winner leaves it the
      winner. */
  lemma EarliestKeep(init: seq<Rule>, r: Rule, page: string, visited: set<string>, i: int)
    requires EarliestBest(init, page, visited, i)
    requires Offers(r, page, visited) ==> RuleScore(r) <= RuleScore(init[i])
    ensures EarliestBest(init + [r], page, visited, i)
  {
    var rules := init + [r];
    assert forall j :: 0 <= j < |init| ==> rules[j] == init[j];
    assert rules[|init|] == r;
  }

  /** An appended rule that proposes the page and beats every earlier
      proposal becomes the winner. */
  lemma EarliestNew(init: seq<Rule>, r: Rule, page: string, visited: set<string>)
    requires Offers(r, page, visited)
    requires forall j :: 0 <= j < |init| && Offers(init[j], page, visited) ==> RuleScore(init[j]) < RuleScore(r)
    ensures EarliestBest(init + [r], page, visited, |init|)
  {
    var rules := init + [r];
    assert forall j :: 0 <= j < |init| ==> rules[j] == init[j];
    assert rules[|init|] == r;
  }

  /**
   * A page is predicted exactly when some applying rule proposes it as an
   * unvisited consequent, and what is stored for it comes from the first
   * rule reaching the highest score for it.
   */
  lemma {:induction false} BestAt(rules: seq<Rule>, visited: set<string>, page: string)
    ensures page in Best(rules, visited) <==> OfferedBySome(rules, page, visited)
    ensures page in Best(rules, visited) ==> ChosenFrom(rules, page, visited, Best(rules, visited)[page])
  {
    if rules != [] {
      var n := |rules| - 1;
      var init := rules[..n];
      var r := rules[n];
      assert rules == init + [r];
      BestAt(init, visited, page);
      var m := Best(init, visited);
      ConsiderAt(m, r, visited, page);
      OfferedExtend(init, r, page, visited);
      var m' := Best(rules, visited);
      if page in m' {
        if Offers(r, page, visited) && (page !in m || RuleScore(r) > m[page].score) {
          if page in m {
            var i :| EarliestBest(init, page, visited, i) && m[page] == Offer(init[i]);
            assert Offer(init[i]).score == RuleScore(init[i]);
          } else {
            forall j | 0 <= j < |init| && Offers(init[j], page, visited)
              ensures false
            {
            }
          }
          EarliestNew(init, r, page, visited);
        } else {
          var i :| EarliestBest(init, page, visited, i) && m[page] == Offer(init[i]);
          assert Offer(init[i]).score == RuleScore(init[i]);
          EarliestKeep(init, r, page, visited, i);
        }
      }
    }
  }

  /** `BestAt` for every page: the predicted pages are exactly the unvisited
      pages some applying rule proposes. */
  lemma BestKeys(rules: seq<Rule>, visited: set<string>)
    ensures forall page :: page in Best(rules, visited) <==> OfferedBySome(rules, page, visited)
    ensures forall page :: page in Best(rules, visited) ==>
      page !in visited && ChosenFrom(rules, page, visited, Best(rules, visited)[page])
  {
    forall page
      ensures page in Best(rules, visited) <==> OfferedBySome(rules, page, visited)
      ensures page in Best(rules, visited) ==>
        page !in visited && ChosenFrom(rules, page, visited, Best(rules, visited)[page])
    {
      BestAt(rules, visited, page);
    }
  }

  /** No visited page is predicted. */
  lemma BestUnvisited(rules: seq<Rule>, visited: set<string>)
    ensures forall page :: page in Best(rules, visited) ==> page !in visited
  {
    forall page | page in Best(rules, visited)
      ensures page !in visited
    {
      BestAt(rules, visited, page);
    }
  }

  /** The inner loop over one rule's consequents, in any order. */
  method ConsiderConsequents(predictions: map<string, Prediction>, consequents: set<string>,
                             visited: set<string>, offer: Prediction)
    returns (updated: map<string, Prediction>)
    ensures updated == ConsiderPages(predictions, consequents - visited, offer)
  {
    updated := predictions;
    var remaining := consequents;
    while remaining != {}
      invariant remaining <= consequents
      invariant updated == ConsiderPages(predictions, (consequents - remaining) - visited, offer)
      decreases |remaining|
    {
      var page :| page in remaining;
      if page !in visited {
        if page !in updated || offer.score > updated[page].score {
          updated := updated[page := offer];
        }
      }
      remaining := remaining - {page};
    }
    assert (consequents - remaining) - visited == consequents - visited;
  }

  /** The scores never increase along the table. */
  predicate NonIncreasing(rows: seq<Row>)
  {
    forall i, j :: 0 <= i < j < |rows| ==> rows[j].data.score <= rows[i].data.score
  }

  /** No page appears twice. */
  predicate DistinctPages(rows: seq<Row>)
  {
    forall i, j :: 0 <= i < j < |rows| ==> rows[i].page != rows[j].page
  }

  /** Places `row` after every row scoring at least as much. */
  function InsertRow(rows: seq<Row>, row: Row): (r: seq<Row>)
    ensures multiset(r) == multiset(rows) + multiset{row}
  {
    if rows == [] then [row]
    else if rows[0].data.score < row.data.score then [row] + rows
    else
      assert rows == [rows[0]] + rows[1..];
      [rows[0]] + InsertRow(rows[1..], row)
  }

  /** The rows after inserting are the rows before and the new one. */
  lemma InsertRowMembers(rows: seq<Row>, row: Row)
    ensures |InsertRow(rows, row)| == |rows| + 1
    ensures forall x :: x in InsertRow(rows, row) <==> x in rows || x == row
  {
    var r := InsertRow(rows, row);
    assert |r| == |multiset(r)|;
    assert forall x :: x in r <==> x in multiset(r);
    assert forall x :: x in rows <==> x in multiset(rows);
  }

  /** In a table best first, the first row scores highest. */
  lemma FirstIsBest(rows: seq<Row>, x: Row)
    requires NonIncreasing(rows) && x in rows
    ensures x.data.score <= rows[0].data.score
  {
    var j :| 0 <= j < |rows| && rows[j] == x;
    if j > 0 {
      assert rows[j].data.score <= rows[0].data.score;
    }
  }

  /** A row in front of a best-first table scoring no less than any of it
      keeps the table best first. */
  lemma ConsNonIncreasing(h: Row, t: seq<Row>)
    requires NonIncreasing(t)
    requires forall x :: x in t ==> x.data.score <= h.data.score
    ensures NonIncreasing([h] + t)
  {
    var r := [h] + t;
    forall i, j | 0 <= i < j < |r| ensures r[j].data.score <= r[i].data.score {
      if i == 0 {
        assert r[j] in t;
      } else {
        assert r[i] == t[i - 1] && r[j] == t[j - 1];
      }
    }
  }

  /** A row in front of a table with distinct pages, none of them its own,
      keeps the pages distinct. */
  lemma ConsDistinct(h: Row, t: seq<Row>)
    requires DistinctPages(t)
    requires forall x :: x in t ==> x.page != h.page
    ensures DistinctPages([h] + t)
  {
    var r := [h] + t;
    forall i, j | 0 <= i < j < |r| ensures r[i].page != r[j].page {
      if i == 0 {
        assert r[j] in t;
      } else {
        assert r[i] == t[i - 1] && r[j] == t[j - 1];
      }
    }
  }

  /** Inserting keeps the table best first. */
  lemma {:induction false} InsertRowNonIncreasing(rows: seq<Row>, row: Row)
    requires NonIncreasing(rows)
    ensures NonIncreasing(InsertRow(rows, row))
  {
    if rows == [] {
    } else if rows[0].data.score < row.data.score {
      forall x | x in rows ensures x.data.score <= row.data.score {
        FirstIsBest(rows, x);
      }
      ConsNonIncreasing(row, rows);
    } else {
      var tail := InsertRow(rows[1..], row);
      InsertRowNonIncreasing(rows[1..], row);
      forall x | x in tail ensures x.data.score <= rows[0].data.score {
        assert x in multiset(tail);
        if x != row {
          assert x in rows[1..];
          FirstIsBest(rows, x);
        }
      }
      ConsNonIncreasing(rows[0], tail);
    }
  }

  /** Inserting a row for a new page keeps the pages distinct. */
  lemma {:induction false} InsertRowDistinct(rows: seq<Row>, row: Row)
    requires DistinctPages(rows)
    requires forall x :: x in rows ==> x.page != row.page
    ensures DistinctPages(InsertRow(rows, row))
  {
    if rows == [] {
    } else if rows[0].data.score < row.data.score {
      ConsDistinct(row, rows);
    } else {
      var tail := InsertRow(rows[1..], row);
      assert forall x :: x in rows[1..] ==> x in rows;
      InsertRowDistinct(rows[1..], row);
      forall x | x in tail ensures x.page != rows[0].page {
        assert x in multiset(tail);
        if x != row {
          var k :| 0 <= k < |rows[1..]| && rows[1..][k] == x;
          assert rows[k + 1] == x;
        }
      }
      ConsDistinct(rows[0], tail);
    }
  }

  /** The rows kept by a head of a best-first table score no less than any
      row left out. */
  lemma HeadIsTop(rows: seq<Row>, count: nat, m: map<string, Prediction>)
    requires NonIncreasing(rows) && count <= |rows|
    requires forall page :: page in m ==> Row(page, m[page]) in rows
    ensures forall page, x :: page in m && x in rows[..count] && Row(page, m[page]) !in rows[..count] ==>
      m[page].score <= x.data.score
  {
    forall page, x | page in m && x in rows[..count] && Row(page, m[page]) !in rows[..count]
      ensures m[page].score <= x.data.score
    {
      var j :| 0 <= j < |rows| && rows[j] == Row(page, m[page]);
      var k :| 0 <= k < count && rows[..count][k] == x;
      assert rows[k] == x;
    }
  }

  /** The rows of the predictions, best score first. */
  method RankByScore(predictions: map<string, Prediction>) returns (rows: seq<Row>)
    ensures |rows| == |predictions|
    ensures forall x :: x in rows ==> x.page in predictions && x.data == predictions[x.page]
    ensures forall page :: page in predictions ==> Row(page, predictions[page]) in rows
    ensures DistinctPages(rows)
    ensures NonIncreasing(rows)
  {
    rows := [];
    var remaining := predictions.Keys;
    ghost var done: set<string> := {};
    while remaining != {}
      invariant remaining !! done && remaining + done == predictions.Keys
      invariant |rows| == |done|
      invariant forall x :: x in rows ==> x.page in done && x.data == predictions[x.page]
      invariant forall page :: page in done ==> Row(page, predictions[page]) in rows
      invariant DistinctPages(rows)
      invariant NonIncreasing(rows)
      decreases |remaining|
    {
      var page :| page in remaining;
      var row := Row(page, predictions[page]);
      InsertRowNonIncreasing(rows, row);
      InsertRowDistinct(rows, row);
      InsertRowMembers(rows, row);
      rows := InsertRow(rows, row);
      assert |done + {page}| == |done| + 1;
      remaining := remaining - {page};
      done := done + {page};
    }
    assert done == predictions.Keys;
  }

  /** How many rows `head(n)` keeps of `len`: the first `n`, or all but the
      last `-n` when `n` is negative. */
  function HeadCount(len: nat, n: int): (k: nat)
    ensures k <= len
    ensures n >= 0 ==> (k == n || (k == len && len < n))
    ensures n < 0 ==> (k + -n == len || (k == 0 && len <= -n))
  {
    if n >= 0 then (if n < len then n else len)
    else if len + n > 0 then len + n else 0
  }

  /** The set of the visited paths. */
  function UserSet(userPaths: seq<string>): set<string>
  {
    set p | p in userPaths
  }

  /** Whether the table is empty or missing, in which case nothing is
      predicted. */
  predicate NoRules(rules: Option<seq<Rule>>)
  {
    rules.None? || rules.value == []
  }

  /** The loop over the rules: the predictions of the whole table. */
  method CollectPredictions(table: seq<Rule>, userSet: set<string>)
    returns (predictions: map<string, Prediction>)
    ensures predictions == Best(table, userSet)
  {
    predictions := map[];
    var i := 0;
    while i < |table|
      invariant 0 <= i <= |table|
      invariant predictions == Best(table[..i], userSet)
    {
      assert table[..i + 1][..i] == table[..i];
      var rule := table[i];
      var antecedents := rule.antecedents;
      var consequents := rule.consequents;
      if antecedents.Items? && antecedents.items != {} && consequents.Items? && consequents.items != {} {
        if antecedents.items <= userSet {
          var confidence := GetOr(rule.confidence, 0.0);
          var lift := GetOr(rule.lift, 1.0);
          var support := GetOr(rule.support, 0.0);
          var score := Score(confidence, lift);
          var sortedAntecedents := SortPaths(antecedents.items);
          var offer := Prediction(score, confidence, lift, support, Join(sortedAntecedents, ", "));
          predictions := ConsiderConsequents(predictions, consequents.items, userSet, offer);
        }
      }
      i := i + 1;
    }
    assert table[..i] == table;
  }

  /**
   * The predictions for a session: the `topN`-count head of the pages the
   * rules propose, each with the offer of its best rule, best first.
   */
  method GetPredictions(userPaths: seq<string>, rules: Option<seq<Rule>>, topN: int)
    returns (result: seq<Row>)
    ensures userPaths == [] || NoRules(rules) ==> result == []
    ensures userPaths != [] && !NoRules(rules) ==>
      |result| == HeadCount(|Best(rules.value, UserSet(userPaths))|, topN)
    ensures !NoRules(rules) ==> forall x :: x in result ==>
      x.page !in userPaths &&
      x.page in Best(rules.value, UserSet(userPaths)) &&
      x.data == Best(rules.value, UserSet(userPaths))[x.page]
    ensures DistinctPages(result)
    ensures NonIncreasing(result)
    ensures !NoRules(rules) ==> forall page, x ::
      page in Best(rules.value, UserSet(userPaths)) && x in result && Row(page, Best(rules.value, UserSet(userPaths))[page]) !in result ==>
        Best(rules.value, UserSet(userPaths))[page].score <= x.data.score
  {
    if userPaths == [] || rules.None? || |rules.value| == 0 {
      return [];
    }
    var table := rules.value;
    var userSet := UserSet(userPaths);
    var predictions := CollectPredictions(table, userSet);
    BestUnvisited(table, userSet);
    if |predictions| == 0 {
      return [];
    }
    var rows := RankByScore(predictions);
    var count := HeadCount(|rows|, topN);
    HeadIsTop(rows, count, predictions);
    result := rows[..count];
    assert forall x :: x in result ==> x in rows;
    assert DistinctPages(result) && NonIncreasing(result);
  }

  /** The paths a rule names; cells that are not sets name none. */
  function RulePaths(rule: Rule): set<string>
  {
    (if rule.antecedents.Items? then rule.antecedents.items else {}) +
    (if rule.consequents.Items? then rule.consequents.items else {})
  }

  /** The paths named anywhere in one table. */
  function TablePaths(rules: seq<Rule>): set<string>
  {
    if rules == [] then {} else TablePaths(rules[..|rules| - 1]) + RulePaths(rules[|rules| - 1])
  }

  /** The paths named anywhere in the tables that are present. */
  function AllPaths(tables: seq<Option<seq<Rule>>>): set<string>
  {
    if tables == [] then {}
    else
      var last := tables[|tables| - 1];
      AllPaths(tables[..|tables| - 1]) + (if last.Some? then TablePaths(last.value) else {})
  }

  /** Some row of the table names `p`. */
  ghost predicate NamedInTable(rules: seq<Rule>, p: string)
  {
    exists j :: 0 <= j < |rules| && p in RulePaths(rules[j])
  }

  /** Some present table names `p`. */
  ghost predicate NamedInTables(tables: seq<Option<seq<Rule>>>, p: string)
  {
    exists i :: 0 <= i < |tables| && tables[i].Some? && NamedInTable(tables[i].value, p)
  }

  lemma {:induction false} TablePathsMembers(rules: seq<Rule>, p: string)
    ensures p in TablePaths(rules) <==> NamedInTable(rules, p)
  {
    if rules != [] {
      var n := |rules| - 1;
      TablePathsMembers(rules[..n], p);
      if NamedInTable(rules[..n], p) {
        var j :| 0 <= j < n && p in RulePaths(rules[..n][j]);
        assert rules[j] == rules[..n][j];
      }
      if NamedInTable(rules, p) && p !in RulePaths(rules[n]) {
        var j :| 0 <= j < |rules| && p in RulePaths(rules[j]);
        assert rules[..n][j] == rules[j];
      }
    }
  }

  /** The listed paths are exactly the paths some present table names. */
  lemma {:induction false} AllPathsMembers(tables: seq<Option<seq<Rule>>>, p: string)
    ensures p in AllPaths(tables) <==> NamedInTables(tables, p)
  {
    if tables != [] {
      var n := |tables| - 1;
      AllPathsMembers(tables[..n], p);
      if tables[n].Some? {
        TablePathsMembers(tables[n].value, p);
      }
      if NamedInTables(tables[..n], p) {
        var i :| 0 <= i < n && tables[..n][i].Some? && NamedInTable(tables[..n][i].value, p);
        assert tables[i] == tables[..n][i];
      }
      if NamedInTables(tables, p) && !(tables[n].Some? && NamedInTable(tables[n].value, p)) {
        var i :| 0 <= i < |tables| && tables[i].Some? && NamedInTable(tables[i].value, p);
        assert i < n && tables[..n][i] == tables[i];
      }
    }
  }

  /** Every predicted page is one of the paths the table names, so it is
      among the paths offered for selection. */
  lemma PredictedAreNamed(rules: seq<Rule>, visited: set<string>)
    ensures forall page :: page in Best(rules, visited) ==> page in TablePaths(rules)
  {
    forall page | page in Best(rules, visited)
      ensures page in TablePaths(rules)
    {
      BestAt(rules, visited, page);
      var i :| 0 <= i < |rules| && Offers(rules[i], page, visited);
      assert page in RulePaths(rules[i]);
      TablePathsMembers(rules, page);
    }
  }

  /** Every cell of the table is a set, as loading makes it. */
  predicate Loaded(rules: seq<Rule>)
  {
    forall rule :: rule in rules ==> rule.antecedents.Items? && rule.consequents.Items?
  }

  /** The sorted list of every path named by the tables that are present. */
  method GetAllPaths(tables: seq<Option<seq<Rule>>>) returns (r: seq<string>)
    requires forall t :: t in tables && t.Some? ==> Loaded(t.value)
    ensures r == SortedPaths(AllPaths(tables))
    ensures StrictlySorted(r)
    ensures forall p :: p in r <==> NamedInTables(tables, p)
  {
    var allPaths: set<string> := {};
    var i := 0;
    while i < |tables|
      invariant 0 <= i <= |tables|
      invariant allPaths == AllPaths(tables[..i])
    {
      assert tables[..i + 1][..i] == tables[..i];
      var df := tables[i];
      if df.Some? && |df.value| > 0 {
        var rules := df.value;
        ghost var before := allPaths;
        var j := 0;
        while j < |rules|
          invariant 0 <= j <= |rules|
          invariant allPaths == before + TablePaths(rules[..j])
        {
          assert rules[..j + 1][..j] == rules[..j];
          assert rules[j] in rules;
          allPaths := allPaths + rules[j].antecedents.items;
          allPaths := allPaths + rules[j].consequents.items;
          j := j + 1;
        }
        assert rules[..j] == rules;
      }
      i := i + 1;
    }
    assert tables[..i] == tables;
    r := SortPaths(allPaths);
    forall p ensures p in r <==> NamedInTables(tables, p) {
      AllPathsMembers(tables, p);
    }
  }
}
