/** components/ScoreSummary.tsx: the overall total, the total maximum and
    the per-category breakdown (`categoryData`) shown beside the rubric.
    The same totals appear in the footer of App.tsx. */
module ScoreSummary {
  import opened JsString
  import opened JsNumber
  import opened Types

  // ---------------------------------------------------------------------
  // Totals
  // ---------------------------------------------------------------------

  /** `Object.values(scores).reduce((a, b) => a + b, 0)`: the sum of every
      value of the score map. Integer addition does not depend on the order
      in which the values are visited, so the order is left open. */
  ghost function SumValues(m: map<string, int>): int
    decreases |m|
  {
    if m == map[] then 0
    else
      var k :| k in m;
      assert |m - {k}| < |m| by {
        assert m.Keys - {k} < m.Keys;
      }
      m[k] + SumValues(m - {k})
  }

  /** Any key can be taken first: the sum is the same. */
  lemma {:induction false} SumValuesRemove(m: map<string, int>, k: string)
    requires k in m
    ensures SumValues(m) == m[k] + SumValues(m - {k})
    decreases |m|
  {
    var j :| j in m && SumValues(m) == m[j] + SumValues(m - {j});
    if j != k {
      assert m.Keys - {j} < m.Keys && m.Keys - {k} < m.Keys;
      SumValuesRemove(m - {j}, k);
      SumValuesRemove(m - {k}, j);
      assert m - {j} - {k} == m - {k} - {j};
    }
  }

  /** A map whose values are all 0 sums to 0. */
  lemma {:induction false} SumValuesZero(m: map<string, int>)
    requires forall k :: k in m ==> m[k] == 0
    ensures SumValues(m) == 0
    decreases |m|
  {
    if m != map[] {
      var k :| k in m;
      SumValuesRemove(m, k);
      assert m.Keys - {k} < m.Keys;
      SumValuesZero(m - {k});
    }
  }

  /** Setting one entry changes the sum by the difference between the new
      value and the old one (0 for a key that was absent). */
  lemma SumValuesUpdate(m: map<string, int>, id: string, v: int)
    ensures SumValues(m[id := v]) == SumValues(m) - ScoreOf(m, id) + v
  {
    var m' := m[id := v];
    SumValuesRemove(m', id);
    assert m' - {id} == m - {id};
    if id in m {
      SumValuesRemove(m, id);
    } else {
      assert m - {id} == m;
    }
  }

  /** The sum of `w` over the items, left to right as `reduce` adds. */
  function SumOf(items: seq<RubricItem>, w: RubricItem -> int): int {
    if items == [] then 0 else SumOf(items[..|items| - 1], w) + w(items[|items| - 1])
  }

  /** The weight of an item in the maximum: its `maxPoints`. */
  function Points(item: RubricItem): int {
    item.maxPoints
  }

  /** The weight of an item in a score: `scores[item.id] || 0`. */
  function ScoreWeight(scores: map<string, int>): RubricItem -> int {
    (item: RubricItem) => ScoreOf(scores, item.id)
  }

  /** `maxTotal`: the sum of the items' maxima. */
  function MaxTotal(items: seq<RubricItem>): int {
    SumOf(items, Points)
  }

  lemma SumOfSnoc(items: seq<RubricItem>, x: RubricItem, w: RubricItem -> int)
    ensures SumOf(items + [x], w) == SumOf(items, w) + w(x)
  {
    assert (items + [x])[..|items|] == items;
  }

  /** When the keys of the score map are exactly the ids of the items, and
      no two items share an id, the items' scores add up to the sum of the
      map. */
  lemma {:induction false} ItemScoresAreTotal(items: seq<RubricItem>, scores: map<string, int>)
    requires DistinctIds(items)
    requires scores.Keys == Ids(items)
    ensures SumOf(items, ScoreWeight(scores)) == SumValues(scores)
  {
    if items == [] {
      assert scores == map[];
    } else {
      var n := |items| - 1;
      var init, x := items[..n], items[n];
      var rest := scores - {x.id};
      assert items == init + [x];
      assert Ids(items) == Ids(init) + {x.id};
      assert x.id !in Ids(init);
      assert rest.Keys == Ids(init);
      ItemScoresAreTotal(init, rest);
      SameScores(init, scores, rest);
      SumValuesRemove(scores, x.id);
    }
  }

  /** Two maps that agree on the ids of the items give the items the same
      scores. */
  lemma {:induction false} SameScores(items: seq<RubricItem>, m1: map<string, int>, m2: map<string, int>)
    requires forall k :: 0 <= k < |items| ==> ScoreOf(m1, items[k].id) == ScoreOf(m2, items[k].id)
    ensures SumOf(items, ScoreWeight(m1)) == SumOf(items, ScoreWeight(m2))
  {
    if items != [] {
      SameScores(items[..|items| - 1], m1, m2);
    }
  }

  // ---------------------------------------------------------------------
  // Categories in first-seen order
  // ---------------------------------------------------------------------

  predicate NoDuplicates(xs: seq<string>) {
    forall j, k :: 0 <= j < k < |xs| ==> xs[j] != xs[k]
  }

  /** `Array.from(new Set(xs))`: each value once, where it first occurs. */
  function Distinct(xs: seq<string>): (r: seq<string>)
    ensures forall x :: x in r <==> x in xs
    ensures NoDuplicates(r)
  {
    if xs == [] then []
    else
      var d := Distinct(xs[..|xs| - 1]);
      var x := xs[|xs| - 1];
      assert xs == xs[..|xs| - 1] + [x];
      if x in d then d else d + [x]
  }

  /** The position of the first occurrence of `x` in `xs`. */
  function FirstIndex(xs: seq<string>, x: string): (i: nat)
    requires x in xs
    ensures i < |xs| && xs[i] == x && x !in xs[..i]
  {
    if xs[0] == x then 0 else 1 + FirstIndex(xs[1..], x)
  }

  lemma {:induction false} FirstIndexOfPrefix(xs: seq<string>, y: string, x: string)
    requires x in xs
    ensures FirstIndex(xs + [y], x) == FirstIndex(xs, x)
  {
    if xs[0] != x {
      assert (xs + [y])[1..] == xs[1..] + [y];
      FirstIndexOfPrefix(xs[1..], y, x);
    }
  }

  lemma {:induction false} FirstIndexOfLast(xs: seq<string>, x: string)
    requires x !in xs
    ensures FirstIndex(xs + [x], x) == |xs|
  {
    if xs != [] {
      assert (xs + [x])[1..] == xs[1..] + [x];
      FirstIndexOfLast(xs[1..], x);
    }
  }

  /** The distinct values keep the order of their first occurrences. */
  lemma {:induction false} DistinctFirstSeen(xs: seq<string>)
    ensures forall j, k :: 0 <= j < k < |Distinct(xs)| ==>
      FirstIndex(xs, Distinct(xs)[j]) < FirstIndex(xs, Distinct(xs)[k])
  {
    if xs != [] {
      var init, x := xs[..|xs| - 1], xs[|xs| - 1];
      assert xs == init + [x];
      DistinctFirstSeen(init);
      var d := Distinct(init);
      forall v | v in d ensures FirstIndex(xs, v) == FirstIndex(init, v) {
        FirstIndexOfPrefix(init, x, v);
      }
      if x !in d {
        var r := d + [x];
        assert x !in init;
        assert FirstIndex(xs, x) == |init| by {
          FirstIndexOfLast(init, x);
        }
        forall j, k | 0 <= j < k < |r| ensures FirstIndex(xs, r[j]) < FirstIndex(xs, r[k]) {
          assert r[j] == d[j] && d[j] in d;
          assert FirstIndex(init, d[j]) < |init|;
          if k < |d| {
            assert r[k] == d[k] && d[k] in d;
            assert FirstIndex(init, d[j]) < FirstIndex(init, d[k]);
          } else {
            assert r[k] == x;
          }
        }
      }
    }
  }

  /** The category of each item, in item order. */
  function CategoryNames(items: seq<RubricItem>): (r: seq<string>)
    ensures |r| == |items| && forall k :: 0 <= k < |items| ==> r[k] == items[k].category
  {
    seq(|items|, k requires 0 <= k < |items| => items[k].category)
  }

  /** The distinct categories of the items, in first-seen order (the
      `categories` memo of App.tsx and the first line of `categoryData`). */
  function Categories(items: seq<RubricItem>): seq<string> {
    Distinct(CategoryNames(items))
  }

  /** The category list holds each item's category, nothing else, each
      once, in the order in which the categories first appear. */
  lemma CategoriesSpec(items: seq<RubricItem>)
    ensures NoDuplicates(Categories(items))
    ensures forall c :: c in Categories(items) <==> exists k :: 0 <= k < |items| && items[k].category == c
    ensures forall j, k :: 0 <= j < k < |Categories(items)| ==>
      FirstIndex(CategoryNames(items), Categories(items)[j]) < FirstIndex(CategoryNames(items), Categories(items)[k])
  {
    var names := CategoryNames(items);
    var cs := Categories(items);
    DistinctFirstSeen(names);
    assert forall c :: c in cs <==> c in names;
    forall c ensures c in names <==> exists k :: 0 <= k < |items| && items[k].category == c {
      if c in names {
        var k :| 0 <= k < |names| && names[k] == c;
        assert items[k].category == c;
      }
      if exists k :: 0 <= k < |items| && items[k].category == c {
        var k :| 0 <= k < |items| && items[k].category == c;
        assert names[k] == c;
      }
    }
  }

  // ---------------------------------------------------------------------
  // Per-category sums
  // ---------------------------------------------------------------------

  /** `items.filter(i => i.category === cat)`. */
  function InCategory(items: seq<RubricItem>, cat: string): (r: seq<RubricItem>)
    ensures forall k :: 0 <= k < |r| ==> r[k].category == cat
    ensures |r| <= |items|
  {
    if items == [] then []
    else
      var x := items[|items| - 1];
      InCategory(items[..|items| - 1], cat) + if x.category == cat then [x] else []
  }

  /** The sum of `w` over the items of one category. */
  function CategorySum(items: seq<RubricItem>, cat: string, w: RubricItem -> int): int {
    SumOf(InCategory(items, cat), w)
  }

  lemma CategorySumSnoc(items: seq<RubricItem>, x: RubricItem, cat: string, w: RubricItem -> int)
    ensures CategorySum(items + [x], cat, w) ==
      CategorySum(items, cat, w) + if x.category == cat then w(x) else 0
  {
    assert (items + [x])[..|items|] == items;
    if x.category == cat {
      SumOfSnoc(InCategory(items, cat), x, w);
    } else {
      assert InCategory(items + [x], cat) == InCategory(items, cat) + [];
      assert InCategory(items, cat) + [] == InCategory(items, cat);
    }
  }

  /** The category sums of `w` over a list of categories. */
  function SumOverCategories(cats: seq<string>, items: seq<RubricItem>, w: RubricItem -> int): int {
    if cats == [] then 0 else CategorySum(items, cats[0], w) + SumOverCategories(cats[1..], items, w)
  }

  lemma {:induction false} SumOverCategoriesSnoc(cats: seq<string>, items: seq<RubricItem>, x: RubricItem,
                                                w: RubricItem -> int)
    requires NoDuplicates(cats)
    ensures SumOverCategories(cats, items + [x], w) ==
      SumOverCategories(cats, items, w) + if x.category in cats then w(x) else 0
  {
    if cats != [] {
      CategorySumSnoc(items, x, cats[0], w);
      assert NoDuplicates(cats[1..]) by {
        forall j, k | 0 <= j < k < |cats[1..]| ensures cats[1..][j] != cats[1..][k] {
          assert cats[1..][j] == cats[j + 1] && cats[1..][k] == cats[k + 1];
        }
      }
      SumOverCategoriesSnoc(cats[1..], items, x, w);
      if x.category == cats[0] {
        assert x.category !in cats[1..] by {
          forall k | 0 <= k < |cats[1..]| ensures cats[1..][k] != cats[0] {
            assert cats[1..][k] == cats[k + 1];
          }
        }
      }
      assert x.category in cats <==> x.category == cats[0] || x.category in cats[1..] by {
        assert cats == [cats[0]] + cats[1..];
      }
    }
  }

  /** Summing category by category over categories that cover every item,
      each once, gives the sum over all items. */
  lemma {:induction false} SumByCategory(cats: seq<string>, items: seq<RubricItem>, w: RubricItem -> int)
    requires NoDuplicates(cats)
    requires forall k :: 0 <= k < |items| ==> items[k].category in cats
    ensures SumOverCategories(cats, items, w) == SumOf(items, w)
  {
    if items == [] {
      EmptySums(cats, w);
    } else {
      var init, x := items[..|items| - 1], items[|items| - 1];
      assert items == init + [x];
      SumByCategory(cats, init, w);
      SumOverCategoriesSnoc(cats, init, x, w);
    }
  }

  lemma {:induction false} EmptySums(cats: seq<string>, w: RubricItem -> int)
    ensures SumOverCategories(cats, [], w) == 0
  {
    if cats != [] {
      EmptySums(cats[1..], w);
    }
  }

  // ---------------------------------------------------------------------
  // Display name
  // ---------------------------------------------------------------------

  /** `replace(/^\d+\.\s*\/, '')`: a leading number followed by a dot, and
      the whitespace after it, are dropped. */
  function DropNumbering(s: string): (r: string)
    ensures |r| <= |s|
  {
    var d := DigitRun(s);
    if d != [] && |d| < |s| && s[|d|] == '.' then TrimStart(s[|d| + 1..]) else s
  }

  /** The longest suffix of `s` made of decimal digits. */
  function TrailingDigits(s: string): (r: string)
    ensures |r| <= |s| && r == s[|s| - |r|..] && AllDigits(r)
    ensures |r| == |s| || !IsDigit(s[|s| - |r| - 1])
  {
    if s != [] && IsDigit(s[|s| - 1]) then TrailingDigits(s[..|s| - 1]) + [s[|s| - 1]] else []
  }

  /** `replace(/\s*\(\d+%\)$/, '')`: a trailing `(<digits>%)`, and the
      whitespace before it, are dropped. */
  function DropPercent(s: string): (r: string)
    ensures |r| <= |s|
  {
    if |s| >= 2 && s[|s| - 2] == '%' && s[|s| - 1] == ')' then
      var t := s[..|s| - 2];
      var p := TrailingDigits(t);
      if p != [] && |p| < |t| && t[|t| - |p| - 1] == '(' then TrimEnd(t[..|t| - |p| - 1]) else s
    else s
  }

  /** The name shown for a category. */
  function DisplayName(cat: string): string {
    DropPercent(DropNumbering(cat))
  }

  lemma {:induction false} TrailingDigitsOf(s: string, p: string)
    requires AllDigits(p)
    requires s == [] || !IsDigit(s[|s| - 1])
    ensures TrailingDigits(s + p) == p
  {
    if p != [] {
      assert (s + p)[..|s + p| - 1] == s + p[..|p| - 1];
      TrailingDigitsOf(s, p[..|p| - 1]);
    } else {
      assert s + p == s;
    }
  }

  /** A number, a dot and spaces in front of a name are dropped. */
  lemma DropNumberingOf(d: string, ws: string, rest: string)
    requires d != [] && AllDigits(d) && AllSpace(ws)
    requires rest == [] || !IsSpace(rest[0])
    ensures DropNumbering(d + "." + ws + rest) == rest
  {
    var tail := ws + rest;
    var t := ['.'] + tail;
    var s := d + t;
    assert d + "." + ws + rest == s by {
      assert d + "." + ws + rest == d + ("." + (ws + rest));
    }
    assert DigitRun(s) == d by {
      DigitRunOfDigits(d, t);
    }
    assert |d| < |s| && s[|d|] == '.' && s[|d| + 1..] == tail;
    assert DropNumbering(s) == TrimStart(tail) by {
      DropNumberingAt(s, d);
    }
    assert TrimStart(tail) == rest by {
      TrimStartOfSpaces(ws, rest);
    }
  }

  lemma DropNumberingAt(s: string, d: string)
    requires DigitRun(s) == d && d != [] && |d| < |s| && s[|d|] == '.'
    ensures DropNumbering(s) == TrimStart(s[|d| + 1..])
  {
  }

  /** A text that does not start with a digit keeps its beginning. */
  lemma DropNumberingNoop(s: string)
    requires s == [] || !IsDigit(s[0])
    ensures DropNumbering(s) == s
  {
  }

  /** Spaces and a `(<digits>%)` after a name are dropped. */
  lemma DropPercentOf(name: string, ws: string, p: string)
    requires name == [] || !IsSpace(name[|name| - 1])
    requires AllSpace(ws) && p != [] && AllDigits(p)
    ensures DropPercent(name + ws + "(" + p + "%)") == name
  {
    var pre := name + ws + "(";
    assert pre[..|pre| - 1] == name + ws;
    DropPercentAfterParen(pre, p);
    TrimEndOfSpaces(name, ws);
  }

  /** A `(`, then digits, then `%)` at the end: everything from the `(` on
      is dropped, and so is the whitespace before it. */
  lemma DropPercentAfterParen(pre: string, p: string)
    requires |pre| >= 1 && pre[|pre| - 1] == '('
    requires p != [] && AllDigits(p)
    ensures DropPercent(pre + p + "%)") == TrimEnd(pre[..|pre| - 1])
  {
    var s := pre + p + "%)";
    var t := s[..|s| - 2];
    assert t == pre + p;
    assert TrailingDigits(t) == p by {
      TrailingDigitsOf(pre, p);
    }
    assert t[|t| - |p| - 1] == '(' && t[..|t| - |p| - 1] == pre[..|pre| - 1];
    DropPercentAt(s, p);
  }

  lemma DropPercentAt(s: string, p: string)
    requires |s| >= 2 && s[|s| - 2] == '%' && s[|s| - 1] == ')'
    requires TrailingDigits(s[..|s| - 2]) == p && p != [] && |p| < |s| - 2
    requires s[..|s| - 2][|s| - 3 - |p|] == '('
    ensures DropPercent(s) == TrimEnd(s[..|s| - 2][..|s| - 3 - |p|])
  {
  }

  /** A text that does not end with `)` keeps its end. */
  lemma DropPercentNoop(s: string)
    requires s == [] || s[|s| - 1] != ')'
    ensures DropPercent(s) == s
  {
  }

  /** `1. Technique (40%)` is shown as `Technique`: the numbering and the
      weight around a category name are both dropped. */
  lemma DisplayNameOfNumbered(d: string, ws: string, name: string, ws2: string, p: string)
    requires d != [] && AllDigits(d) && AllSpace(ws) && AllSpace(ws2) && p != [] && AllDigits(p)
    requires name != [] && !IsSpace(name[0]) && !IsSpace(name[|name| - 1])
    ensures DisplayName(d + "." + ws + name + ws2 + "(" + p + "%)") == name
  {
    var tail := name + ws2 + "(" + p + "%)";
    assert d + "." + ws + name + ws2 + "(" + p + "%)" == d + "." + ws + tail;
    DropNumberingOf(d, ws, tail);
    DropPercentOf(name, ws2, p);
  }

  // ---------------------------------------------------------------------
  // categoryData
  // ---------------------------------------------------------------------

  /** One entry of `categoryData`. */
  datatype CategoryEntry = CategoryEntry(
    category: string,
    fullCategory: string,
    score: int,
    max: int,
    percentage: real)

  /** `catMax > 0 ? (catScore / catMax) * 100 : 0`. */
  function Percentage(score: int, max: int): (p: real)
    ensures max <= 0 ==> p == 0.0
    ensures max > 0 ==> p * (max as real) == (score as real) * 100.0
  {
    if max > 0 then (score as real / max as real) * 100.0 else 0.0
  }

  /** A score between 0 and the maximum is between 0 and 100 percent. */
  lemma PercentageRange(score: int, max: int)
    requires 0 <= score <= max
    ensures 0.0 <= Percentage(score, max) <= 100.0
  {
    if max > 0 {
      var q := score as real / max as real;
      assert q * (max as real) == score as real;
      assert 0.0 <= q <= 1.0;
    }
  }

  function Entry(items: seq<RubricItem>, scores: map<string, int>, cat: string): CategoryEntry {
    var score := CategorySum(items, cat, ScoreWeight(scores));
    var max := CategorySum(items, cat, Points);
    CategoryEntry(DisplayName(cat), cat, score, max, Percentage(score, max))
  }

  function Entries(items: seq<RubricItem>, scores: map<string, int>, cats: seq<string>): seq<CategoryEntry> {
    seq(|cats|, k requires 0 <= k < |cats| => Entry(items, scores, cats[k]))
  }

  /** `categoryData`: one entry per distinct category, in first-seen order. */
  function CategoryData(items: seq<RubricItem>, scores: map<string, int>): seq<CategoryEntry> {
    Entries(items, scores, Categories(items))
  }

  function EntryScores(es: seq<CategoryEntry>): int {
    if es == [] then 0 else es[0].score + EntryScores(es[1..])
  }

  function EntryMaxima(es: seq<CategoryEntry>): int {
    if es == [] then 0 else es[0].max + EntryMaxima(es[1..])
  }

  lemma {:induction false} EntrySums(items: seq<RubricItem>, scores: map<string, int>, cats: seq<string>)
    ensures EntryScores(Entries(items, scores, cats)) == SumOverCategories(cats, items, ScoreWeight(scores))
    ensures EntryMaxima(Entries(items, scores, cats)) == SumOverCategories(cats, items, Points)
  {
    if cats != [] {
      EntrySums(items, scores, cats[1..]);
      assert Entries(items, scores, cats)[1..] == Entries(items, scores, cats[1..]);
    }
  }

  lemma CategoriesCover(items: seq<RubricItem>)
    ensures NoDuplicates(Categories(items))
    ensures forall k :: 0 <= k < |items| ==> items[k].category in Categories(items)
  {
    var names := CategoryNames(items);
    forall k | 0 <= k < |items| ensures items[k].category in Categories(items) {
      assert names[k] == items[k].category;
    }
  }

  /** Each entry is the category's display name, its full name, the sum of
      its items' scores (0 for a missing id) and maxima, and the guarded
      percentage; there is one entry per distinct category. */
  lemma CategoryDataSpec(items: seq<RubricItem>, scores: map<string, int>)
    ensures var data, cs := CategoryData(items, scores), Categories(items);
      && |data| == |cs|
      && (forall k :: 0 <= k < |data| ==>
            && data[k].fullCategory == cs[k]
            && data[k].category == DisplayName(cs[k])
            && data[k].score == SumOf(InCategory(items, cs[k]), ScoreWeight(scores))
            && data[k].max == SumOf(InCategory(items, cs[k]), Points)
            && data[k].percentage == Percentage(data[k].score, data[k].max))
      && (forall j, k :: 0 <= j < k < |data| ==> data[j].fullCategory != data[k].fullCategory)
      && (forall k :: 0 <= k < |items| ==> exists j :: 0 <= j < |data| && data[j].fullCategory == items[k].category)
  {
    var data, cs := CategoryData(items, scores), Categories(items);
    CategoriesCover(items);
    forall k | 0 <= k < |items| ensures exists j :: 0 <= j < |data| && data[j].fullCategory == items[k].category {
      var j :| 0 <= j < |cs| && cs[j] == items[k].category;
      assert data[j].fullCategory == cs[j];
    }
  }

  /** The entries' maxima add up to `maxTotal`. */
  lemma EntryMaximaAreMaxTotal(items: seq<RubricItem>, scores: map<string, int>)
    ensures EntryMaxima(CategoryData(items, scores)) == MaxTotal(items)
  {
    CategoriesCover(items);
    EntrySums(items, scores, Categories(items));
    SumByCategory(Categories(items), items, Points);
  }

  /** When the keys of the score map are exactly the item ids (as after
      loading or a reset, and as long as only item ids are set), the
      entries' scores add up to `totalScore`. */
  lemma EntryScoresAreTotal(items: seq<RubricItem>, scores: map<string, int>)
    requires DistinctIds(items)
    requires scores.Keys == Ids(items)
    ensures EntryScores(CategoryData(items, scores)) == SumValues(scores)
  {
    CategoriesCover(items);
    EntrySums(items, scores, Categories(items));
    SumByCategory(Categories(items), items, ScoreWeight(scores));
    ItemScoresAreTotal(items, scores);
  }

  /** With every score of the category's items between 0 and that item's
      maximum, the category's percentage lies between 0 and 100. */
  lemma EntryPercentageRange(items: seq<RubricItem>, scores: map<string, int>, cat: string)
    requires forall k :: 0 <= k < |items| ==> 0 <= ScoreOf(scores, items[k].id) <= items[k].maxPoints
    ensures 0.0 <= Entry(items, scores, cat).percentage <= 100.0
  {
    var inCat := InCategory(items, cat);
    forall k | 0 <= k < |inCat| ensures 0 <= ScoreOf(scores, inCat[k].id) <= inCat[k].maxPoints {
      InCategoryMembers(items, cat, inCat[k]);
    }
    SumBounded(inCat, scores);
    PercentageRange(CategorySum(items, cat, ScoreWeight(scores)), CategorySum(items, cat, Points));
  }

  /** The filter keeps exactly the items of the category. */
  lemma {:induction false} InCategoryMembers(items: seq<RubricItem>, cat: string, x: RubricItem)
    ensures x in InCategory(items, cat) <==> x in items && x.category == cat
  {
    if items != [] {
      var init, last := items[..|items| - 1], items[|items| - 1];
      assert items == init + [last];
      InCategoryMembers(init, cat, x);
    }
  }

  lemma {:induction false} SumBounded(items: seq<RubricItem>, scores: map<string, int>)
    requires forall k :: 0 <= k < |items| ==> 0 <= ScoreOf(scores, items[k].id) <= items[k].maxPoints
    ensures 0 <= SumOf(items, ScoreWeight(scores)) <= SumOf(items, Points)
  {
    if items != [] {
      SumBounded(items[..|items| - 1], scores);
    }
  }
}
