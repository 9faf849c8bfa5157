/** App.tsx: the page state (the rubric, the group name, the score map and
    the loaded flag) and its handlers: loading the rubric, moving a
    slider, resetting the grid and exporting the results. */
module App {
  import opened JsString
  import opened JsNumber
  import opened Types
  import opened CsvHelper
  import opened ScoreSummary
  import opened RubricSlider

  // ---------------------------------------------------------------------
  // The export file name
  // ---------------------------------------------------------------------

  /** `replace(/\s+/g, '_')`: every run of whitespace becomes one `_`. */
  function UnderscoreSpaces(s: string): (r: string)
    ensures NoSpace(r)
    decreases |s|
  {
    if s == [] then []
    else if IsSpace(s[0]) then
      "_" + UnderscoreSpaces(TrimStart(s[1..]))
    else [s[0]] + UnderscoreSpaces(s[1..])
  }

  /** Text without whitespace is kept as it is. */
  lemma {:induction false} UnderscoreSpacesOfPlain(s: string)
    requires NoSpace(s)
    ensures UnderscoreSpaces(s) == s
  {
    if s != [] {
      UnderscoreSpacesOfPlain(s[1..]);
      assert s == [s[0]] + s[1..];
    }
  }

  /** A whitespace run in front of a non-space becomes a single `_`. */
  lemma UnderscoreSpacesOfRun(ws: string, rest: string)
    requires ws != [] && AllSpace(ws)
    requires rest == [] || !IsSpace(rest[0])
    ensures UnderscoreSpaces(ws + rest) == "_" + UnderscoreSpaces(rest)
  {
    assert (ws + rest)[1..] == ws[1..] + rest;
    TrimStartOfSpaces(ws[1..], rest);
  }

  /** Text without whitespace in front is copied unchanged. */
  lemma {:induction false} UnderscoreSpacesConcat(x: string, y: string)
    requires NoSpace(x)
    ensures UnderscoreSpaces(x + y) == x + UnderscoreSpaces(y)
  {
    if x != [] {
      assert (x + y)[0] == x[0] && (x + y)[1..] == x[1..] + y;
      UnderscoreSpacesConcat(x[1..], y);
      assert x == [x[0]] + x[1..];
    } else {
      assert x + y == y;
    }
  }

  /** `slice(0, 10)`: at most the first ten characters. */
  function Prefix10(s: string): (r: string)
    ensures |r| <= 10 && |r| <= |s| && r == s[..|r|]
    ensures |s| >= 10 ==> |r| == 10
    ensures |s| < 10 ==> r == s
  {
    if |s| <= 10 then s else s[..10]
  }

  /** `Evaluation_<group>_<date>.csv`, with each whitespace run of the group
      name replaced by `_` and the date cut to the ten characters
      `YYYY-MM-DD` of an ISO time stamp. */
  function Filename(groupName: string, isoDate: string): string {
    "Evaluation_" + UnderscoreSpaces(groupName) + "_" + Prefix10(isoDate) + ".csv"
  }

  lemma NoSpaceConcat(a: string, b: string)
    requires NoSpace(a) && NoSpace(b)
    ensures NoSpace(a + b)
  {
    forall k | 0 <= k < |a + b| ensures !IsSpace((a + b)[k]) {
      if k >= |a| {
        assert (a + b)[k] == b[k - |a|];
      }
    }
  }

  lemma NoSpacePrefix(s: string)
    requires NoSpace(s)
    ensures NoSpace(Prefix10(s))
  {
    var d := Prefix10(s);
    forall k | 0 <= k < |d| ensures !IsSpace(d[k]) {
      assert d[k] == s[k];
    }
  }

  /** The file name holds no whitespace, whatever the group name. */
  lemma FilenameHasNoSpace(groupName: string, isoDate: string)
    requires NoSpace(isoDate)
    ensures NoSpace(Filename(groupName, isoDate))
  {
    var u, d := UnderscoreSpaces(groupName), Prefix10(isoDate);
    var head: string := "Evaluation_";
    var under: string := "_";
    var ext: string := ".csv";
    assert NoSpace(head) && NoSpace(under) && NoSpace(ext);
    NoSpacePrefix(isoDate);
    NoSpaceConcat(head, u);
    NoSpaceConcat(head + u, under);
    NoSpaceConcat(head + u + under, d);
    NoSpaceConcat(head + u + under + d, ext);
  }

  /** A group name such as `Team  A` on 2024-05-01 gives
      `Evaluation_Team_A_2024-05-01.csv`. */
  lemma FilenameOfTwoWords(first: string, ws: string, second: string, isoDate: string)
    requires first != [] && NoSpace(first) && ws != [] && AllSpace(ws) && NoSpace(second)
    requires |isoDate| >= 10
    ensures Filename(first + ws + second, isoDate) ==
      "Evaluation_" + first + "_" + second + "_" + isoDate[..10] + ".csv"
  {
    UnderscoreTwoWords(first, ws, second);
  }

  lemma UnderscoreTwoWords(first: string, ws: string, second: string)
    requires NoSpace(first) && ws != [] && AllSpace(ws) && NoSpace(second)
    ensures UnderscoreSpaces(first + ws + second) == first + "_" + second
  {
    var rest := ws + second;
    assert first + ws + second == first + rest;
    assert UnderscoreSpaces(first + rest) == first + UnderscoreSpaces(rest) by {
      UnderscoreSpacesConcat(first, rest);
    }
    assert UnderscoreSpaces(rest) == "_" + second by {
      assert second == [] || !IsSpace(second[0]);
      UnderscoreSpacesOfRun(ws, second);
      UnderscoreSpacesOfPlain(second);
    }
  }

  // ---------------------------------------------------------------------
  // The page state
  // ---------------------------------------------------------------------

  /** What `handleExport` does: nothing but an alert when the group name
      is blank, otherwise the download of `content` under `filename`. */
  datatype ExportResult = Rejected | Exported(filename: string, content: string)

  /** `items.forEach(item => initialScores[item.id] = 0)`: a score of 0
      for every item id, and no other key. */
  method InitialScores(items: seq<RubricItem>) returns (scores: map<string, int>)
    ensures scores.Keys == Ids(items)
    ensures forall id :: id in scores ==> scores[id] == 0
  {
    scores := map[];
    for k := 0 to |items|
      invariant scores.Keys == Ids(items[..k])
      invariant forall id :: id in scores ==> scores[id] == 0
    {
      assert Ids(items[..k + 1]) == Ids(items[..k]) + {items[k].id} by {
        assert items[..k + 1] == items[..k] + [items[k]];
      }
      scores := scores[items[k].id := 0];
    }
    assert items[..|items|] == items;
  }

  class Session {
    var rubricItems: seq<RubricItem>
    var groupName: string
    var scores: map<string, int>
    var isLoaded: bool

    /** No two items share an id, the score map holds exactly the item
        ids, no item has a maximum of 0 and no category or criterion holds
        a line feed (as the parser guarantees). */
    predicate Valid()
      reads this
    {
      && DistinctIds(rubricItems)
      && scores.Keys == Ids(rubricItems)
      && (forall k :: 0 <= k < |rubricItems| ==> rubricItems[k].maxPoints != 0)
      && forall k :: 0 <= k < |rubricItems| ==>
           '\n' !in rubricItems[k].category && '\n' !in rubricItems[k].criteria
    }

    /** The state before the rubric is loaded. */
    constructor()
      ensures rubricItems == [] && groupName == "" && scores == map[] && !isLoaded
      ensures Valid()
    {
      rubricItems := [];
      groupName := "";
      scores := map[];
      isLoaded := false;
    }

    /** The mount effect: parse the rubric, give every item a score of 0
        and mark the page loaded. */
    method Load(csvText: string)
      modifies this
      ensures rubricItems == ParseRubric(csvText)
      ensures scores.Keys == Ids(rubricItems)
      ensures forall id :: id in scores ==> scores[id] == 0
      ensures SumValues(scores) == 0
      ensures isLoaded && groupName == old(groupName)
      ensures Valid()
    {
      var items := ParseRubricCsv(csvText);
      ParsedIds(csvText);
      ParsedTextsHaveNoNewline(csvText);
      rubricItems := items;
      scores := InitialScores(items);
      isLoaded := true;
      SumValuesZero(scores);
    }

    /** `handleScoreChange`, called by the slider of an item with that
        item's id: the key takes the new value, which the slider then
        shows; every other key, and the rest of the state, stay as they
        were. The total moves by the difference. */
    method HandleScoreChange(id: string, val: int)
      requires Valid() && id in Ids(rubricItems)
      modifies this
      ensures scores == old(scores)[id := val]
      ensures ScoreOf(scores, id) == val
      ensures forall other :: other != id ==> ScoreOf(scores, other) == ScoreOf(old(scores), other)
      ensures SumValues(scores) == old(SumValues(scores)) - ScoreOf(old(scores), id) + val
      ensures rubricItems == old(rubricItems) && groupName == old(groupName) && isLoaded == old(isLoaded)
      ensures Valid()
    {
      SumValuesUpdate(scores, id, val);
      scores := scores[id := val];
    }

    /** The group name input. */
    method SetGroupName(name: string)
      requires Valid()
      modifies this
      ensures groupName == name
      ensures rubricItems == old(rubricItems) && scores == old(scores) && isLoaded == old(isLoaded)
      ensures Valid()
    {
      groupName := name;
    }

    /** `handleReset`: when the user confirms, every item's score is back
        to 0, keys of no item are dropped and the group name is cleared;
        when the user declines, nothing changes. */
    method HandleReset(confirmed: bool)
      requires Valid()
      modifies this
      ensures confirmed ==> scores.Keys == Ids(rubricItems) && groupName == ""
      ensures confirmed ==> forall id :: id in scores ==> scores[id] == 0
      ensures confirmed ==> SumValues(scores) == 0
      ensures !confirmed ==> scores == old(scores) && groupName == old(groupName)
      ensures rubricItems == old(rubricItems) && isLoaded == old(isLoaded)
      ensures Valid()
    {
      if confirmed {
        scores := InitialScores(rubricItems);
        groupName := "";
        SumValuesZero(scores);
      }
    }

    /** `handleExport`: rejected while the group name is blank; otherwise
        the generated results under the computed file name. The state does
        not change. */
    method HandleExport(isoDate: string) returns (r: ExportResult)
      ensures r == Rejected <==> AllSpace(groupName)
      ensures r.Exported? ==> r.content == GenerateResultCsv(groupName, rubricItems, scores)
      ensures r.Exported? ==> r.filename == Filename(groupName, isoDate)
    {
      if Trim(groupName) == [] {
        r := Rejected;
      } else {
        var content := GenerateResultCsv(groupName, rubricItems, scores);
        r := Exported(Filename(groupName, isoDate), content);
      }
    }

    /** The score a slider shows is the one the export writes on its item's
        line, and the slider's label names the band written on that line. */
    lemma ShownScoreIsExported(k: nat)
      requires Valid() && k < |rubricItems|
      requires '\n' !in groupName
      ensures var item := rubricItems[k];
        var shown, level := ScoreOf(scores, item.id), Level(ScoreOf(scores, item.id), item.maxPoints);
        var lines := Split(GenerateResultCsv(groupName, rubricItems, scores), '\n');
        && shown == scores[item.id]
        && |lines| == |rubricItems| + 1
        && |LineFields(lines[k + 1])| == 6
        && ParseInt(LineFields(lines[k + 1])[3]) == Finite(shown)
        && LevelLabel(level) == "Niveau " + LineFields(lines[k + 1])[5]
    {
      var item := rubricItems[k];
      var shown := ScoreOf(scores, item.id);
      var lines := Split(GenerateResultCsv(groupName, rubricItems, scores), '\n');
      assert item.id in scores by {
        assert item.id in Ids(rubricItems);
      }
      assert |lines| == |rubricItems| + 1 && DescribesItem(LineFields(lines[k + 1]), groupName, item, scores) by {
        ExportDescribesItems(groupName, rubricItems, scores);
      }
      var fields := LineFields(lines[k + 1]);
      assert fields[5] == BandText(BandOfLevel(Level(shown, item.maxPoints))) by {
        LevelAgreesWithBand(shown, item.maxPoints);
      }
      LabelNamesBand(Level(shown, item.maxPoints));
    }

    /** The totals of the summary panel are the footer's: the category
        scores add up to the sum of the score map, and the category maxima
        to the sum of the items' maxima. */
    lemma SummaryMatchesFooter()
      requires Valid()
      ensures EntryScores(CategoryData(rubricItems, scores)) == SumValues(scores)
      ensures EntryMaxima(CategoryData(rubricItems, scores)) == MaxTotal(rubricItems)
    {
      EntryScoresAreTotal(rubricItems, scores);
      EntryMaximaAreMaxTotal(rubricItems, scores);
    }

    /** The items shown under each category heading, in category order. */
    function Sections(): (r: seq<seq<RubricItem>>)
      reads this
      ensures |r| == |Categories(rubricItems)|
    {
      var items := rubricItems;
      var cats := Categories(items);
      seq(|cats|, j requires 0 <= j < |cats| => InCategory(items, cats[j]))
    }

    /** Every item is shown under the heading of its own category and no
        other; each heading appears once. */
    lemma SectionsShowEachItem()
      ensures NoDuplicates(Categories(rubricItems))
      ensures forall k, j :: 0 <= k < |rubricItems| && 0 <= j < |Sections()| ==>
        (rubricItems[k] in Sections()[j] <==> Categories(rubricItems)[j] == rubricItems[k].category)
    {
      CategoriesCover(rubricItems);
      forall k, j | 0 <= k < |rubricItems| && 0 <= j < |Sections()|
        ensures rubricItems[k] in Sections()[j] <==> Categories(rubricItems)[j] == rubricItems[k].category
      {
        assert Sections()[j] == InCategory(rubricItems, Categories(rubricItems)[j]);
        InCategoryMembers(rubricItems, Categories(rubricItems)[j], rubricItems[k]);
      }
    }
  }
}
