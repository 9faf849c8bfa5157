/** utils/csvHelper.ts: the rubric parser `parseRubricCSV` and the result
    generator `generateResultCSV` with its `escape` helper. */
module CsvHelper {
  import opened JsString
  import opened JsNumber
  import opened Types

  // ---------------------------------------------------------------------
  // Splitting a line into fields
  // ---------------------------------------------------------------------

  /** The number of `"` characters in `s`. */
  function QuoteCount(s: string): nat {
    if s == [] then 0 else (if s[0] == '"' then 1 else 0) + QuoteCount(s[1..])
  }

  lemma {:induction false} QuoteCountConcat(x: string, y: string)
    ensures QuoteCount(x + y) == QuoteCount(x) + QuoteCount(y)
  {
    if x != [] {
      assert (x + y)[1..] == x[1..] + y;
      QuoteCountConcat(x[1..], y);
    } else {
      assert x + y == y;
    }
  }

  /** The split regex `,(?=(?:(?:[^"]*"){2})*[^"]*$)`: the comma at `p`
      separates fields when an even number of `"` follow it on the line. */
  predicate IsFieldSeparator(line: string, p: nat)
    requires p < |line|
  {
    line[p] == ',' && QuoteCount(line[p + 1..]) % 2 == 0
  }

  /** `line.split(splitRegex)`: the line cut at every separator comma. */
  function SplitFields(line: string): (parts: seq<string>)
    ensures |parts| >= 1
  {
    if line == [] then [""]
    else
      var rest := SplitFields(line[1..]);
      if IsFieldSeparator(line, 0) then [""] + rest
      else [[line[0]] + rest[0]] + rest[1..]
  }

  /** A reference splitter written the classic way: read the line from the
      left, let every `"` toggle an in-quotes flag, and cut at each comma
      met outside quotes. */
  function ScanFields(line: string, inQuotes: bool): (parts: seq<string>)
    ensures |parts| >= 1
  {
    if line == [] then [""]
    else
      var rest := ScanFields(line[1..], if line[0] == '"' then !inQuotes else inQuotes);
      if line[0] == ',' && !inQuotes then [""] + rest
      else [[line[0]] + rest[0]] + rest[1..]
  }

  /** The regex split is the classic scanner started "inside quotes"
      exactly when the line holds an odd number of `"`. */
  lemma {:induction false} SplitFieldsIsScan(line: string)
    ensures SplitFields(line) == ScanFields(line, QuoteCount(line) % 2 == 1)
  {
    if line != [] {
      SplitFieldsIsScan(line[1..]);
    }
  }

  /** On a line with balanced quotes a comma separates fields exactly when
      it lies outside a quoted section. */
  lemma BalancedLineSplit(line: string)
    requires QuoteCount(line) % 2 == 0
    ensures SplitFields(line) == ScanFields(line, false)
  {
    SplitFieldsIsScan(line);
  }

  /** The fields, joined again with commas, are the line: splitting loses
      and invents nothing. */
  lemma {:induction false} JoinSplitFields(line: string)
    ensures Join(SplitFields(line), ',') == line
  {
    if line != [] {
      JoinSplitFields(line[1..]);
      var rest := SplitFields(line[1..]);
      if IsFieldSeparator(line, 0) {
        assert ([""] + rest)[1..] == rest;
      } else if |rest| > 1 {
        var parts := [[line[0]] + rest[0]] + rest[1..];
        assert parts[1..] == rest[1..];
        assert Join(rest, ',') == rest[0] + [','] + Join(rest[1..], ',');
      }
    }
  }

  lemma {:induction false} SplitFieldsNoComma(s: string)
    requires ',' !in s
    ensures SplitFields(s) == [s]
  {
    if s != [] {
      assert s[0] in s && forall c :: c in s[1..] ==> c in s;
      SplitFieldsNoComma(s[1..]);
      assert [s[0]] + s[1..] == s;
    }
  }

  /** A comma followed by text with an even number of quotes is a
      separator, and what precedes it splits on its own. */
  lemma {:induction false} SplitFieldsConcat(x: string, y: string)
    requires QuoteCount(y) % 2 == 0
    ensures SplitFields(x + [','] + y) == SplitFields(x) + SplitFields(y)
  {
    if x == [] {
      ConcatEmpty([','], y);
      SplitFieldsSeparator(y);
    } else {
      var x1 := x[1..];
      var tail := x1 + [','] + y;
      assert QuoteCount(tail) % 2 == QuoteCount(x1) % 2 by {
        QuoteCountConcat(x1 + [','], y);
        QuoteCountConcat(x1, [',']);
      }
      assert SplitFields(tail) == SplitFields(x1) + SplitFields(y) by {
        SplitFieldsConcat(x1, y);
      }
      SplitFieldsConsSuffix(x[0], x1, tail, SplitFields(y));
      assert x + [','] + y == [x[0]] + tail && x == [x[0]] + x1 by {
        ConsConcat(x, [','], y);
      }
    }
  }

  lemma ConcatEmpty<T>(m: seq<T>, y: seq<T>)
    ensures [] + m + y == m + y
  {
  }

  /** The first element of `x`, then the rest of `x + m + y`. */
  lemma ConsConcat<T>(x: seq<T>, m: seq<T>, y: seq<T>)
    requires |x| > 0
    ensures x + m + y == [x[0]] + (x[1..] + m + y)
    ensures x == [x[0]] + x[1..]
  {
  }

  /** Putting the same character in front of two texts whose splits differ
      by trailing fields, with quote counts of the same parity, keeps that
      difference. */
  lemma SplitFieldsConsSuffix(c: char, a: string, b: string, more: seq<string>)
    requires SplitFields(b) == SplitFields(a) + more
    requires QuoteCount(b) % 2 == QuoteCount(a) % 2
    ensures SplitFields([c] + b) == SplitFields([c] + a) + more
  {
    if c == ',' && QuoteCount(a) % 2 == 0 {
      SplitFieldsSeparator(b);
      SplitFieldsSeparator(a);
      ConcatAssoc([""], SplitFields(a), more);
    } else {
      InsideSuffix(c, a, b, more);
    }
  }

  lemma InsideSuffix(c: char, a: string, b: string, more: seq<string>)
    requires SplitFields(b) == SplitFields(a) + more
    requires c != ',' || QuoteCount(a) % 2 == 1
    requires QuoteCount(b) % 2 == QuoteCount(a) % 2
    ensures SplitFields([c] + b) == SplitFields([c] + a) + more
  {
    SplitFieldsInside(c, b);
    SplitFieldsInside(c, a);
    HeadSuffix([c], SplitFields(a), more);
  }

  lemma HeadSuffix(h: string, r: seq<string>, more: seq<string>)
    requires |r| >= 1
    ensures [h + (r + more)[0]] + (r + more)[1..] == ([h + r[0]] + r[1..]) + more
  {
    assert (r + more)[0] == r[0] && (r + more)[1..] == r[1..] + more;
    ConcatAssoc([h + r[0]], r[1..], more);
  }

  lemma ConcatAssoc<T>(a: seq<T>, b: seq<T>, c: seq<T>)
    ensures a + (b + c) == (a + b) + c
  {
  }

  /** A comma followed by an even number of quotes starts a new field. */
  lemma SplitFieldsSeparator(tail: string)
    requires QuoteCount(tail) % 2 == 0
    ensures SplitFields([','] + tail) == [""] + SplitFields(tail)
  {
    assert ([','] + tail)[1..] == tail;
  }

  /** Any other character joins the first field of what follows it. */
  lemma SplitFieldsInside(c: char, tail: string)
    requires c != ',' || QuoteCount(tail) % 2 == 1
    ensures var rest := SplitFields(tail);
      SplitFields([c] + tail) == [[c] + rest[0]] + rest[1..]
  {
    assert ([c] + tail)[1..] == tail;
  }

  // ---------------------------------------------------------------------
  // Cleaning a field, and the `escape` it undoes
  // ---------------------------------------------------------------------

  /** `replace(/^"|"$/g, '')`: drop one leading and one trailing `"`. */
  function StripQuotes(s: string): string {
    var t := if |s| > 0 && s[0] == '"' then s[1..] else s;
    if |t| > 0 && t[|t| - 1] == '"' then t[..|t| - 1] else t
  }

  /** `replace(/""/g, '"')`, scanning from the left. */
  function CollapseQuotes(s: string): string {
    if |s| >= 2 && s[0] == '"' && s[1] == '"' then ['"'] + CollapseQuotes(s[2..])
    else if s == [] then []
    else [s[0]] + CollapseQuotes(s[1..])
  }

  /** One part of a rubric line as the parser keeps it: trimmed, unquoted,
      with doubled quotes collapsed. */
  function CleanField(part: string): string {
    CollapseQuotes(StripQuotes(Trim(part)))
  }

  function CleanFields(parts: seq<string>): (fields: seq<string>)
    ensures |fields| == |parts|
  {
    seq(|parts|, k requires 0 <= k < |parts| => CleanField(parts[k]))
  }

  /** The cleaned fields of one line. */
  function LineFields(line: string): (fields: seq<string>)
    ensures |fields| == |SplitFields(line)|
  {
    CleanFields(SplitFields(line))
  }

  /** `str.replace(/"/g, '""')`. */
  function DoubleQuotes(s: string): string {
    if s == [] then []
    else (if s[0] == '"' then ['"', '"'] else [s[0]]) + DoubleQuotes(s[1..])
  }

  /** `escape`: the text in quotes, inner quotes doubled. Collapsing the
      doubled quotes between the outer pair gives the text back. */
  function Escape(s: string): (r: string)
    ensures |r| >= 2 && r[0] == '"' && r[|r| - 1] == '"'
    ensures CollapseQuotes(r[1..|r| - 1]) == s
    ensures QuoteCount(r) == 2 * QuoteCount(s) + 2
  {
    var d := DoubleQuotes(s);
    CollapseDoubled(s);
    DoubleQuotesCount(s);
    QuoteCountConcat(['"'], d);
    QuoteCountConcat(['"'] + d, ['"']);
    assert (['"'] + d + ['"'])[1..|d| + 1] == d;
    ['"'] + d + ['"']
  }

  lemma {:induction false} DoubleQuotesCount(s: string)
    ensures QuoteCount(DoubleQuotes(s)) == 2 * QuoteCount(s)
  {
    if s != [] {
      DoubleQuotesCount(s[1..]);
      QuoteCountConcat(if s[0] == '"' then ['"', '"'] else [s[0]], DoubleQuotes(s[1..]));
    }
  }

  lemma {:induction false} DoubleQuotesKeepsChar(s: string, c: char)
    requires c != '"' && c !in s
    ensures c !in DoubleQuotes(s)
  {
    if s != [] {
      assert s[0] in s && forall d :: d in s[1..] ==> d in s;
      DoubleQuotesKeepsChar(s[1..], c);
    }
  }

  /** Collapsing undoes doubling. */
  lemma {:induction false} CollapseDoubled(s: string)
    ensures CollapseQuotes(DoubleQuotes(s)) == s
  {
    if s != [] {
      var d := DoubleQuotes(s);
      CollapseDoubled(s[1..]);
      if s[0] == '"' {
        assert d[2..] == DoubleQuotes(s[1..]);
      } else {
        assert d[1..] == DoubleQuotes(s[1..]);
      }
      assert [s[0]] + s[1..] == s;
    }
  }

  /** The parser's field cleaning undoes the generator's `escape`:
      `"Say ""hi"""` reads back as `Say "hi"`, `"Foo, bar"` as `Foo, bar`. */
  lemma {:induction false} CleanEscape(s: string)
    ensures CleanField(Escape(s)) == s
  {
    var e := Escape(s);
    calc {
      CleanField(e);
      CollapseQuotes(StripQuotes(Trim(e)));
      { TrimNoop(e); }
      CollapseQuotes(StripQuotes(e));
      { EscapeUnquoted(s); }
      CollapseQuotes(DoubleQuotes(s));
      { CollapseDoubled(s); }
      s;
    }
  }

  lemma EscapeUnquoted(s: string)
    ensures StripQuotes(Escape(s)) == DoubleQuotes(s)
  {
    var t := Escape(s)[1..];
    assert t == DoubleQuotes(s) + ['"'];
    assert t[..|t| - 1] == DoubleQuotes(s);
  }

  /** One step of `SplitFields`: the first character either starts a new
      field (a separator comma) or joins the first field of the rest. */
  lemma SplitFieldsCons(c: char, tail: string)
    ensures var rest := SplitFields(tail);
      SplitFields([c] + tail) ==
        if c == ',' && QuoteCount(tail) % 2 == 0 then [""] + rest
        else [[c] + rest[0]] + rest[1..]
  {
    assert ([c] + tail)[1..] == tail;
  }

  /** A doubled quote in front of text with an odd number of quotes joins
      that text's first field. */
  lemma SplitFieldsQuotePair(tail: string)
    ensures var r := SplitFields(tail);
      SplitFields(['"', '"'] + tail) == [['"', '"'] + r[0]] + r[1..]
  {
    var r := SplitFields(tail);
    var t1 := ['"'] + tail;
    assert SplitFields(t1) == [['"'] + r[0]] + r[1..] by {
      SplitFieldsCons('"', tail);
    }
    var r1 := SplitFields(t1);
    assert SplitFields(['"'] + t1) == [['"'] + r1[0]] + r1[1..] by {
      SplitFieldsCons('"', t1);
    }
    assert ['"', '"'] + tail == ['"'] + t1;
    assert r1[0] == ['"'] + r[0] && r1[1..] == r[1..];
    assert ['"'] + (['"'] + r[0]) == ['"', '"'] + r[0];
  }

  /** Inside an escaped text every comma is followed by an odd number of
      quotes, so the doubled text sticks to the field that follows it. */
  lemma {:induction false} SplitFieldsDoubled(t: string, y: string)
    requires QuoteCount(y) % 2 == 1
    ensures var rest := SplitFields(y);
      SplitFields(DoubleQuotes(t) + y) == [DoubleQuotes(t) + rest[0]] + rest[1..]
  {
    var rest := SplitFields(y);
    if t == [] {
      assert DoubleQuotes(t) == [];
      assert DoubleQuotes(t) + y == y;
      assert DoubleQuotes(t) + rest[0] == rest[0];
      assert [rest[0]] + rest[1..] == rest;
    } else {
      var d := DoubleQuotes(t[1..]);
      var tail := d + y;
      var r := SplitFields(tail);
      assert r == [d + rest[0]] + rest[1..] by {
        SplitFieldsDoubled(t[1..], y);
      }
      var pre: string := if t[0] == '"' then ['"', '"'] else [t[0]];
      assert DoubleQuotes(t) + y == pre + tail;
      assert SplitFields(pre + tail) == [pre + r[0]] + r[1..] by {
        if t[0] == '"' {
          SplitFieldsQuotePair(tail);
        } else {
          assert QuoteCount(tail) % 2 == 1 by {
            QuoteCountConcat(d, y);
            DoubleQuotesCount(t[1..]);
          }
          SplitFieldsCons(t[0], tail);
        }
      }
      assert pre + r[0] == DoubleQuotes(t) + rest[0];
    }
  }

  /** An escaped text is one field. */
  lemma SplitFieldsOfEscape(s: string)
    ensures SplitFields(Escape(s)) == [Escape(s)]
    ensures QuoteCount(Escape(s)) % 2 == 0
  {
    var e := Escape(s);
    var q: string := ['"'];
    var d := DoubleQuotes(s);
    var empty: string := [];
    assert SplitFields(empty) == [empty];
    SplitFieldsCons('"', empty);
    assert q + empty == q;
    assert SplitFields(q) == [q];
    SplitFieldsDoubled(s, q);
    assert SplitFields(d + q) == [d + q];
    SplitFieldsCons('"', d + q);
    assert e == ['"'] + (d + q);
    assert ['"'] + (d + q) == e;
    assert e[1..] == DoubleQuotes(s) + q;
    QuoteCountConcat(q, DoubleQuotes(s) + q);
    QuoteCountConcat(DoubleQuotes(s), q);
    DoubleQuotesCount(s);
  }

  /** Text without quotes, commas or whitespace: numbers and band names. */
  predicate Plain(s: string) {
    forall i :: 0 <= i < |s| ==> s[i] != '"' && s[i] != ',' && !IsSpace(s[i])
  }

  lemma {:induction false} CollapseNoQuotes(s: string)
    requires '"' !in s
    ensures CollapseQuotes(s) == s
  {
    if s != [] {
      assert s[0] in s && forall c :: c in s[1..] ==> c in s;
      CollapseNoQuotes(s[1..]);
      assert [s[0]] + s[1..] == s;
    }
  }

  lemma {:induction false} QuoteCountNoQuotes(s: string)
    requires '"' !in s
    ensures QuoteCount(s) == 0
  {
    if s != [] {
      assert forall c :: c in s[1..] ==> c in s;
      QuoteCountNoQuotes(s[1..]);
    }
  }

  /** A cell that splits to itself and holds an even number of quotes. */
  predicate OneField(c: string) {
    SplitFields(c) == [c] && QuoteCount(c) % 2 == 0
  }

  /** One step of `SplitFieldsOfJoin`: a field in front of a comma and an
      already split tail. */
  lemma JoinStep(c: string, tail: string, cells: seq<string>)
    requires OneField(c)
    requires SplitFields(tail) == cells && QuoteCount(tail) % 2 == 0
    ensures SplitFields(c + [','] + tail) == [c] + cells
    ensures QuoteCount(c + [','] + tail) % 2 == 0
  {
    SplitFieldsConcat(c, tail);
    QuoteCountConcat(c + [','], tail);
    QuoteCountConcat(c, [',']);
  }

  /** A plain text is one field with no quotes. */
  lemma PlainOneField(s: string)
    requires Plain(s)
    ensures OneField(s)
  {
    SplitFieldsNoComma(s);
    QuoteCountNoQuotes(s);
  }

  /** A plain text cleans to itself. */
  lemma PlainCleans(s: string)
    requires Plain(s)
    ensures CleanField(s) == s
  {
    assert Trim(s) == s by {
      TrimNoop(s);
    }
    assert StripQuotes(s) == s by {
      assert s == [] || (s[0] != '"' && s[|s| - 1] != '"');
    }
    assert CollapseQuotes(s) == s by {
      assert '"' !in s;
      CollapseNoQuotes(s);
    }
  }

  /** Joining fields each of which splits to itself and holds an even
      number of quotes, and splitting again, gives the fields back. */
  lemma {:induction false} SplitFieldsOfJoin(cells: seq<string>)
    requires |cells| >= 1
    requires forall k :: 0 <= k < |cells| ==> OneField(cells[k])
    ensures SplitFields(Join(cells, ',')) == cells
    ensures QuoteCount(Join(cells, ',')) % 2 == 0
  {
    if |cells| > 1 {
      SplitFieldsOfJoin(cells[1..]);
      JoinStep(cells[0], Join(cells[1..], ','), cells[1..]);
      assert [cells[0]] + cells[1..] == cells;
    } else {
      assert OneField(cells[0]);
    }
  }

  // ---------------------------------------------------------------------
  // parseRubricCSV
  // ---------------------------------------------------------------------

  /** `parseInt(field, 10) || 10`: NaN and 0 are falsy and give the default
      10; every other value, negative ones included, is kept. */
  function MaxPointsOf(field: string): (r: int)
    ensures r != 0
  {
    match ParseInt(field)
    case NaN => 10
    case Finite(v) => if v == 0 then 10 else v
  }

  /** A written integer, followed by anything but a digit, is the item's
      maximum unless it is 0. */
  lemma MaxPointsOfWritten(v: int, rest: string)
    requires rest == [] || !IsDigit(rest[0])
    ensures MaxPointsOf(IntToString(v) + rest) == if v == 0 then 10 else v
  {
    ParseIntOfIntToString(v, rest);
  }

  /** A field whose first non-blank character is neither a digit nor a
      sign followed by a digit holds no number: `parseInt` gives NaN and
      the maximum falls back to 10. */
  lemma MaxPointsOfNaN(ws: string, rest: string)
    requires AllSpace(ws)
    requires rest == [] || !IsSpace(rest[0])
    requires rest == [] || !IsDigit(rest[0])
    requires |rest| >= 2 && (rest[0] == '-' || rest[0] == '+') ==> !IsDigit(rest[1])
    ensures ParseInt(ws + rest) == NaN
    ensures MaxPointsOf(ws + rest) == 10
  {
    assert TrimStart(ws + rest) == rest by {
      TrimStartOfSpaces(ws, rest);
    }
    if rest != [] && (rest[0] == '-' || rest[0] == '+') {
      assert DigitRun(rest[1..]) == [];
    } else {
      assert DigitRun(rest) == [];
    }
  }

  /** The id given to the item read from line `i`. */
  function CritId(i: nat): string {
    "crit_" + NatToString(i)
  }

  /** Different lines get different ids. */
  lemma CritIdInjective(i: nat, j: nat)
    ensures CritId(i) == CritId(j) <==> i == j
  {
    if CritId(i) == CritId(j) {
      assert NatToString(i) == CritId(i)[5..] && NatToString(j) == CritId(j)[5..];
      NatToStringInjective(i, j);
    }
  }

  /** The lines of the rubric text: trimmed, then split at LF. */
  function Lines(csvText: string): (lines: seq<string>)
    ensures |lines| >= 1
  {
    Split(Trim(csvText), '\n')
  }

  /** A line yields an item when it is not empty and splits into at least
      seven parts. */
  predicate Accepts(line: string) {
    line != [] && |SplitFields(line)| >= 7
  }

  /** The item built from line `i`'s cleaned fields; fields after the
      seventh are ignored. */
  function ItemOfFields(i: nat, fields: seq<string>): RubricItem
    requires |fields| >= 7
  {
    RubricItem(CritId(i), fields[0], fields[1], fields[2], fields[3], fields[4], fields[5],
               MaxPointsOf(fields[6]))
  }

  function LineItem(line: string, i: nat): (r: Option<RubricItem>)
    ensures r.Some? <==> Accepts(line)
  {
    if line == [] then None
    else
      var parts := LineFields(line);
      if |parts| >= 7 then Some(ItemOfFields(i, parts)) else None
  }

  /** The items read from `lines[1..n]`, in line order. */
  function ItemsBelow(lines: seq<string>, n: nat): seq<RubricItem>
    requires n <= |lines|
  {
    if n <= 1 then []
    else
      ItemsBelow(lines, n - 1) +
      match LineItem(lines[n - 1], n - 1)
      case Some(item) => [item]
      case None => []
  }

  /** The specification of `parseRubricCSV`. */
  function ParseRubric(csvText: string): seq<RubricItem> {
    var lines := Lines(csvText);
    ItemsBelow(lines, |lines|)
  }

  /** `parseRubricCSV`: skip the header, skip empty lines, and push one
      item for every line with at least seven parts. */
  method ParseRubricCsv(csvText: string) returns (items: seq<RubricItem>)
    ensures items == ParseRubric(csvText)
  {
    var lines := Split(Trim(csvText), '\n');
    items := [];
    for i := 1 to |lines|
      invariant items == ItemsBelow(lines, i)
    {
      ItemsBelowStep(lines, i);
      var line := lines[i];
      if line == [] {
        continue;
      }
      var parts := CleanFields(SplitFields(line));
      if |parts| >= 7 {
        items := items + [RubricItem(CritId(i), parts[0], parts[1], parts[2], parts[3], parts[4],
                                     parts[5], MaxPointsOf(parts[6]))];
      }
    }
  }

  /** One more line adds its item, if it yields one. */
  lemma ItemsBelowStep(lines: seq<string>, n: nat)
    requires 1 <= n < |lines|
    ensures ItemsBelow(lines, n + 1) ==
      ItemsBelow(lines, n) + if Accepts(lines[n]) then [ItemOfFields(n, LineFields(lines[n]))] else []
  {
  }

  /** The indices of the lines among `lines[1..n]` that yield an item:
      increasing, each after the header and below `n`. */
  function ItemLines(lines: seq<string>, n: nat): (idx: seq<nat>)
    requires n <= |lines|
    ensures |idx| <= if n == 0 then 0 else n - 1
    ensures forall k :: 0 <= k < |idx| ==> 1 <= idx[k] < n && Accepts(lines[idx[k]])
    ensures forall j, k :: 0 <= j < k < |idx| ==> idx[j] < idx[k]
  {
    if n <= 1 then []
    else ItemLines(lines, n - 1) + if Accepts(lines[n - 1]) then [n - 1] else []
  }

  /** Every accepted line after the header is among the item lines. */
  lemma {:induction false} ItemLinesMembers(lines: seq<string>, n: nat)
    requires n <= |lines|
    ensures forall i :: 1 <= i < n ==> (i in ItemLines(lines, n) <==> Accepts(lines[i]))
  {
    if n > 1 {
      var prev, extra := ItemLines(lines, n - 1), if Accepts(lines[n - 1]) then [n - 1] else [];
      assert ItemLines(lines, n) == prev + extra;
      assert forall i :: 1 <= i < n - 1 ==> (i in prev <==> Accepts(lines[i])) by {
        ItemLinesMembers(lines, n - 1);
      }
      forall i | 1 <= i < n ensures i in prev + extra <==> Accepts(lines[i]) {
        assert i in prev + extra <==> i in prev || i in extra;
      }
    }
  }

  /** Item `k` is built from the `k`-th item line. */
  lemma {:induction false} ItemsBelowSpec(lines: seq<string>, n: nat)
    requires n <= |lines|
    ensures |ItemsBelow(lines, n)| == |ItemLines(lines, n)|
    ensures forall k :: 0 <= k < |ItemLines(lines, n)| ==>
      ItemsBelow(lines, n)[k] == ItemOfFields(ItemLines(lines, n)[k], LineFields(lines[ItemLines(lines, n)[k]]))
  {
    if n > 1 {
      ItemsBelowSpec(lines, n - 1);
      ItemsBelowStep(lines, n - 1);
    }
  }

  /** What `parseRubricCSV` returns: one item per accepted line after the
      header, in line order, with id `crit_<line index>` and the fields of
      that line. */
  lemma ParsedItems(csvText: string)
    ensures var lines, items, idx := Lines(csvText), ParseRubric(csvText), ItemLines(Lines(csvText), |Lines(csvText)|);
      && |items| == |idx| <= |lines| - 1
      && (forall k :: 0 <= k < |idx| ==>
            (1 <= idx[k] < |lines| && Accepts(lines[idx[k]]) &&
             items[k] == ItemOfFields(idx[k], LineFields(lines[idx[k]]))))
      && (forall j, k :: 0 <= j < k < |idx| ==> idx[j] < idx[k])
      && (forall i :: 1 <= i < |lines| ==> (i in idx <==> Accepts(lines[i])))
  {
    ItemsBelowSpec(Lines(csvText), |Lines(csvText)|);
    ItemLinesMembers(Lines(csvText), |Lines(csvText)|);
  }

  /** The id and maximum of each item read from `lines[1..n]`. */
  lemma ItemIds(lines: seq<string>, n: nat)
    requires n <= |lines|
    ensures var items, idx := ItemsBelow(lines, n), ItemLines(lines, n);
      && |items| == |idx|
      && (forall k :: 0 <= k < |idx| ==>
            (1 <= idx[k] && items[k].id == CritId(idx[k]) && items[k].maxPoints != 0))
  {
    ItemsBelowSpec(lines, n);
  }

  /** Ids are unique, none is the header's `crit_0`, and no item has a zero
      maximum. */
  lemma ParsedIds(csvText: string)
    ensures var items := ParseRubric(csvText);
      && DistinctIds(items)
      && (forall k :: 0 <= k < |items| ==> items[k].id != "crit_0" && items[k].maxPoints != 0)
  {
    var lines := Lines(csvText);
    var items, idx := ItemsBelow(lines, |lines|), ItemLines(lines, |lines|);
    ItemIds(lines, |lines|);
    forall j, k | 0 <= j < k < |items| ensures items[j].id != items[k].id {
      CritIdInjective(idx[j], idx[k]);
    }
    forall k | 0 <= k < |items| ensures items[k].id != "crit_0" {
      assert CritId(0) == "crit_0";
      CritIdInjective(idx[k], 0);
    }
  }

  /** Splitting a line at commas puts no new character into a part. */
  lemma {:induction false} SplitFieldsKeepOut(line: string, c: char)
    requires c != ',' && c !in line
    ensures forall k :: 0 <= k < |SplitFields(line)| ==> c !in SplitFields(line)[k]
  {
    if line != [] {
      assert forall d :: d in line[1..] ==> d in line;
      SplitFieldsKeepOut(line[1..], c);
      var rest := SplitFields(line[1..]);
      if !IsFieldSeparator(line, 0) {
        var parts := [[line[0]] + rest[0]] + rest[1..];
        assert line[0] in line;
        forall k | 0 <= k < |parts| ensures c !in parts[k] {
          if k > 0 {
            assert parts[k] == rest[k];
          }
        }
      }
    }
  }

  lemma {:induction false} CollapseKeepsOut(s: string, c: char)
    requires c != '"' && c !in s
    ensures c !in CollapseQuotes(s)
  {
    if |s| >= 2 && s[0] == '"' && s[1] == '"' {
      assert forall d :: d in s[2..] ==> d in s;
      CollapseKeepsOut(s[2..], c);
    } else if s != [] {
      assert s[0] in s && forall d :: d in s[1..] ==> d in s;
      CollapseKeepsOut(s[1..], c);
    }
  }

  /** Cleaning a field only removes characters: a character other than `"`
      that is not in the part is not in the field. */
  lemma CleanFieldKeepsOut(part: string, c: char)
    requires c != '"' && c !in part
    ensures c !in CleanField(part)
  {
    var t0 := TrimStart(part);
    assert c !in t0 by {
      assert forall d :: d in t0 ==> d in part;
    }
    var t := TrimEnd(t0);
    assert Trim(part) == t;
    assert c !in t by {
      assert forall d :: d in t ==> d in t0;
    }
    var u := StripQuotes(t);
    assert c !in u by {
      var v := if |t| > 0 && t[0] == '"' then t[1..] else t;
      assert forall d :: d in v ==> d in t;
      assert forall d :: d in u ==> d in v;
    }
    CollapseKeepsOut(u, c);
  }

  /** The item read from one accepted line has no line feed in its
      category or criterion when the line has none. */
  lemma ItemOfLineHasNoNewline(i: nat, line: string)
    requires '\n' !in line && Accepts(line)
    ensures '\n' !in ItemOfFields(i, LineFields(line)).category
    ensures '\n' !in ItemOfFields(i, LineFields(line)).criteria
  {
    var parts := SplitFields(line);
    assert '\n' !in parts[0] && '\n' !in parts[1] by {
      SplitFieldsKeepOut(line, '\n');
    }
    CleanFieldKeepsOut(parts[0], '\n');
    CleanFieldKeepsOut(parts[1], '\n');
  }

  /** No parsed category or criterion holds a line feed: each comes from
      one line of the text, and cleaning only removes characters. */
  lemma ParsedTextsHaveNoNewline(csvText: string)
    ensures forall k :: 0 <= k < |ParseRubric(csvText)| ==>
      '\n' !in ParseRubric(csvText)[k].category && '\n' !in ParseRubric(csvText)[k].criteria
  {
    var lines, items, idx := Lines(csvText), ParseRubric(csvText), ItemLines(Lines(csvText), |Lines(csvText)|);
    assert |items| == |idx| && forall k :: 0 <= k < |idx| ==>
        1 <= idx[k] < |lines| && Accepts(lines[idx[k]]) &&
        items[k] == ItemOfFields(idx[k], LineFields(lines[idx[k]])) by {
      ParsedItems(csvText);
    }
    forall k | 0 <= k < |items| ensures '\n' !in items[k].category && '\n' !in items[k].criteria {
      ItemOfLineHasNoNewline(idx[k], lines[idx[k]]);
    }
  }

  // ---------------------------------------------------------------------
  // generateResultCSV
  // ---------------------------------------------------------------------

  datatype Band = Insuffisant | Moyen | Excellent

  /** The `levelText` of an exported row, from the ratio score / maxPoints:
      "Excellent" above 0.66, "Moyen" above 0.33, otherwise "Insuffisant". */
  function BandFor(score: int, maxPoints: int): Band {
    if RatioAbove(score, maxPoints, 66) then Excellent
    else if RatioAbove(score, maxPoints, 33) then Moyen
    else Insuffisant
  }

  function BandText(b: Band): string {
    match b
    case Insuffisant => "Insuffisant"
    case Moyen => "Moyen"
    case Excellent => "Excellent"
  }

  /** For a positive maximum the bands cut at exactly 33/100 and 66/100,
      and a tie falls into the lower band. */
  lemma BandThresholds(score: int, maxPoints: int)
    requires maxPoints > 0
    ensures BandFor(score, maxPoints) == Excellent <==> 100 * score > 66 * maxPoints
    ensures BandFor(score, maxPoints) == Moyen <==> 33 * maxPoints < 100 * score <= 66 * maxPoints
    ensures BandFor(score, maxPoints) == Insuffisant <==> 100 * score <= 33 * maxPoints
  {
  }

  /** A score of 0 is "Insuffisant" whatever the maximum. */
  lemma ZeroIsInsuffisant(maxPoints: int)
    ensures BandFor(0, maxPoints) == Insuffisant
  {
  }

  const HeaderCells: seq<string> :=
    ["Groupe", "Categorie", "Critere", "Note_Attribuee", "Points_Max", "Niveau_Atteint"]

  /** The six cells of an item's row, before joining with commas. */
  function RowCells(groupName: string, item: RubricItem, scores: map<string, int>): seq<string> {
    var score := ScoreOf(scores, item.id);
    [Escape(groupName), Escape(item.category), Escape(item.criteria),
     IntToString(score), IntToString(item.maxPoints), BandText(BandFor(score, item.maxPoints))]
  }

  lemma RowCellsAt(groupName: string, item: RubricItem, scores: map<string, int>)
    ensures var cells, score := RowCells(groupName, item, scores), ScoreOf(scores, item.id);
      && |cells| == 6
      && cells[0] == Escape(groupName) && cells[1] == Escape(item.category) && cells[2] == Escape(item.criteria)
      && cells[3] == IntToString(score) && cells[4] == IntToString(item.maxPoints)
      && cells[5] == BandText(BandFor(score, item.maxPoints))
  {
  }

  function Rows(groupName: string, items: seq<RubricItem>, scores: map<string, int>): (rows: seq<string>)
    ensures |rows| == |items|
  {
    seq(|items|, k requires 0 <= k < |items| => Join(RowCells(groupName, items[k], scores), ','))
  }

  /** `generateResultCSV`: the header, then one row per item in order,
      joined with LF. */
  function GenerateResultCsv(groupName: string, items: seq<RubricItem>, scores: map<string, int>): string {
    Join([Join(HeaderCells, ',')] + Rows(groupName, items, scores), '\n')
  }

  lemma PlainBandText(b: Band)
    ensures Plain(BandText(b))
  {
  }

  lemma PlainIntToString(v: int)
    ensures Plain(IntToString(v))
  {
  }

  lemma EscapeKeepsNewlineOut(s: string)
    requires '\n' !in s
    ensures '\n' !in Escape(s)
  {
    DoubleQuotesKeepsChar(s, '\n');
  }

  lemma PlainHasNoNewline(s: string)
    requires Plain(s)
    ensures '\n' !in s
  {
  }

  lemma HeaderHasNoNewline()
    ensures '\n' !in Join(HeaderCells, ',')
  {
    forall c | 0 <= c < |HeaderCells| ensures '\n' !in HeaderCells[c] {
    }
    JoinChars(HeaderCells, ',', '\n');
  }

  lemma RowHasNoNewline(groupName: string, item: RubricItem, scores: map<string, int>)
    requires '\n' !in groupName && '\n' !in item.category && '\n' !in item.criteria
    ensures '\n' !in Join(RowCells(groupName, item, scores), ',')
  {
    var cells := RowCells(groupName, item, scores);
    forall k | 0 <= k < |cells| ensures '\n' !in cells[k] {
      RowCellHasNoNewline(groupName, item, scores, k);
    }
    JoinChars(cells, ',', '\n');
  }

  lemma RowCellHasNoNewline(groupName: string, item: RubricItem, scores: map<string, int>, k: nat)
    requires '\n' !in groupName && '\n' !in item.category && '\n' !in item.criteria
    requires k < 6
    ensures '\n' !in RowCells(groupName, item, scores)[k]
  {
    var cell := RowCells(groupName, item, scores)[k];
    var score := ScoreOf(scores, item.id);
    if k == 0 {
      assert cell == Escape(groupName);
      EscapeKeepsNewlineOut(groupName);
    } else if k == 1 {
      assert cell == Escape(item.category);
      EscapeKeepsNewlineOut(item.category);
    } else if k == 2 {
      assert cell == Escape(item.criteria);
      EscapeKeepsNewlineOut(item.criteria);
    } else if k == 3 {
      assert cell == IntToString(score);
      PlainIntToString(score);
      PlainHasNoNewline(cell);
    } else if k == 4 {
      assert cell == IntToString(item.maxPoints);
      PlainIntToString(item.maxPoints);
      PlainHasNoNewline(cell);
    } else {
      assert cell == BandText(BandFor(score, item.maxPoints));
      PlainBandText(BandFor(score, item.maxPoints));
      PlainHasNoNewline(cell);
    }
  }

  /** The header and the rows are exactly the lines of the output when no
      text field holds a line feed. */
  lemma GeneratedLines(groupName: string, items: seq<RubricItem>, scores: map<string, int>)
    requires '\n' !in groupName
    requires forall k :: 0 <= k < |items| ==> '\n' !in items[k].category && '\n' !in items[k].criteria
    ensures var lines := Split(GenerateResultCsv(groupName, items, scores), '\n');
      && |lines| == |items| + 1
      && lines[0] == Join(HeaderCells, ',')
      && forall k :: 0 <= k < |items| ==> lines[k + 1] == Join(RowCells(groupName, items[k], scores), ',')
  {
    var rows := Rows(groupName, items, scores);
    var all := [Join(HeaderCells, ',')] + rows;
    HeaderHasNoNewline();
    forall k | 0 <= k < |items| ensures '\n' !in rows[k] {
      RowHasNoNewline(groupName, items[k], scores);
    }
    SplitJoin(all, '\n');
  }

  /** Cells that are single fields, joined with commas, read back as the
      cleaned cells. */
  lemma LineFieldsOfJoin(cells: seq<string>)
    requires |cells| >= 1
    requires forall k :: 0 <= k < |cells| ==> OneField(cells[k])
    ensures var fields := LineFields(Join(cells, ','));
      |fields| == |cells| && forall k :: 0 <= k < |cells| ==> fields[k] == CleanField(cells[k])
  {
    SplitFieldsOfJoin(cells);
  }

  lemma EscapedOneField(s: string)
    ensures OneField(Escape(s))
  {
    SplitFieldsOfEscape(s);
  }

  lemma IntOneField(v: int)
    ensures OneField(IntToString(v))
  {
    PlainIntToString(v);
    PlainOneField(IntToString(v));
  }

  lemma BandOneField(b: Band)
    ensures OneField(BandText(b))
  {
    PlainBandText(b);
    PlainOneField(BandText(b));
  }

  /** Cell `k` of a row is a single field. */
  lemma RowCellIsField(groupName: string, item: RubricItem, scores: map<string, int>, k: nat)
    requires k < 6
    ensures OneField(RowCells(groupName, item, scores)[k])
  {
    var score := ScoreOf(scores, item.id);
    var cells := RowCells(groupName, item, scores);
    if k == 0 {
      EscapedOneField(groupName);
    } else if k == 1 {
      EscapedOneField(item.category);
    } else if k == 2 {
      EscapedOneField(item.criteria);
    } else if k == 3 {
      IntOneField(score);
    } else if k == 4 {
      IntOneField(item.maxPoints);
    } else {
      BandOneField(BandFor(score, item.maxPoints));
    }
  }

  /** Each cell of a row is a single field, so the row's fields are its
      cleaned cells. */
  lemma RowFieldsAreCells(groupName: string, item: RubricItem, scores: map<string, int>)
    ensures var cells, fields := RowCells(groupName, item, scores), LineFields(Join(RowCells(groupName, item, scores), ','));
      |fields| == 6 && forall k :: 0 <= k < 6 ==> fields[k] == CleanField(cells[k])
  {
    var cells := RowCells(groupName, item, scores);
    forall k | 0 <= k < |cells| ensures OneField(cells[k]) {
      RowCellIsField(groupName, item, scores, k);
    }
    LineFieldsOfJoin(cells);
  }

  /** Reading a generated row back with the parser's own split and field
      cleaning gives the group name, category, criterion, score, maximum
      and band of the item. */
  lemma RowReadsBack(groupName: string, item: RubricItem, scores: map<string, int>)
    ensures var score, fields := ScoreOf(scores, item.id), LineFields(Join(RowCells(groupName, item, scores), ','));
      && |fields| == 6
      && fields[0] == groupName && fields[1] == item.category && fields[2] == item.criteria
      && fields[3] == IntToString(score) && fields[4] == IntToString(item.maxPoints)
      && fields[5] == BandText(BandFor(score, item.maxPoints))
  {
    var score := ScoreOf(scores, item.id);
    var band := BandFor(score, item.maxPoints);
    var cells := RowCells(groupName, item, scores);
    var fields := LineFields(Join(cells, ','));
    assert |fields| == 6 && forall k :: 0 <= k < 6 ==> fields[k] == CleanField(cells[k]) by {
      RowFieldsAreCells(groupName, item, scores);
    }
    RowCellsAt(groupName, item, scores);
    assert fields[0] == groupName by {
      CleanEscape(groupName);
    }
    assert fields[1] == item.category by {
      CleanEscape(item.category);
    }
    assert fields[2] == item.criteria by {
      CleanEscape(item.criteria);
    }
    assert fields[3] == IntToString(score) by {
      PlainIntToString(score);
      PlainCleans(IntToString(score));
    }
    assert fields[4] == IntToString(item.maxPoints) by {
      PlainIntToString(item.maxPoints);
      PlainCleans(IntToString(item.maxPoints));
    }
    assert fields[5] == BandText(band) by {
      PlainBandText(band);
      PlainCleans(BandText(band));
    }
  }

  /** A generated row, read back, gives the group name, category and
      criterion as text, the score and maximum as numbers, and the band;
      with no score set for the item it reads "0" and "Insuffisant". */
  predicate DescribesItem(fields: seq<string>, groupName: string, item: RubricItem, scores: map<string, int>) {
    var score := ScoreOf(scores, item.id);
    && |fields| == 6
    && fields[0] == groupName && fields[1] == item.category && fields[2] == item.criteria
    && ParseInt(fields[3]) == Finite(score) && ParseInt(fields[4]) == Finite(item.maxPoints)
    && fields[5] == BandText(BandFor(score, item.maxPoints))
    && (score == 0 ==> fields[3] == "0" && fields[5] == "Insuffisant")
  }

  /** `parseInt` reads back a number written by `toString`. */
  lemma ReadsBackAsInt(v: int)
    ensures ParseInt(IntToString(v)) == Finite(v)
  {
    ParseIntOfIntToString(v, []);
    assert IntToString(v) + [] == IntToString(v);
  }

  lemma RowDescribesItem(groupName: string, item: RubricItem, scores: map<string, int>)
    ensures DescribesItem(LineFields(Join(RowCells(groupName, item, scores), ',')), groupName, item, scores)
  {
    var score := ScoreOf(scores, item.id);
    RowReadsBack(groupName, item, scores);
    ReadsBackAsInt(score);
    ReadsBackAsInt(item.maxPoints);
    if score == 0 {
      assert IntToString(0) == "0";
      ZeroIsInsuffisant(item.maxPoints);
    }
  }

  /** Line 0 of the export is the header and line k + 1 describes
      `items[k]`, as long as no text field holds a line feed. */
  lemma ExportDescribesItems(groupName: string, items: seq<RubricItem>, scores: map<string, int>)
    requires '\n' !in groupName
    requires forall k :: 0 <= k < |items| ==> '\n' !in items[k].category && '\n' !in items[k].criteria
    ensures var lines := Split(GenerateResultCsv(groupName, items, scores), '\n');
      && |lines| == |items| + 1
      && lines[0] == Join(HeaderCells, ',')
      && forall k :: 0 <= k < |items| ==> DescribesItem(LineFields(lines[k + 1]), groupName, items[k], scores)
  {
    GeneratedLines(groupName, items, scores);
    forall k | 0 <= k < |items|
      ensures DescribesItem(LineFields(Join(RowCells(groupName, items[k], scores), ',')), groupName, items[k], scores)
    {
      RowDescribesItem(groupName, items[k], scores);
    }
  }
}
