/** The JavaScript string primitives the grading app relies on: `trim`,
    `split` on one character, `join`, and the whitespace class shared by
    `trim()`, the regex `\s` and `parseInt`. Strings are `seq<char>`. */
module JsString {

  /** The whitespace characters of this model: space, tab, LF and CR. */
  predicate IsSpace(c: char) {
    c == ' ' || c == '\t' || c == '\n' || c == '\r'
  }

  predicate AllSpace(s: string) {
    forall i :: 0 <= i < |s| ==> IsSpace(s[i])
  }

  predicate NoSpace(s: string) {
    forall i :: 0 <= i < |s| ==> !IsSpace(s[i])
  }

  /** `s` without its leading whitespace run. */
  function TrimStart(s: string): (r: string)
    ensures |r| <= |s| && r == s[|s| - |r|..]
    ensures AllSpace(s[..|s| - |r|])
    ensures r == [] || !IsSpace(r[0])
  {
    if s != [] && IsSpace(s[0]) then TrimStart(s[1..]) else s
  }

  /** `s` without its trailing whitespace run. */
  function TrimEnd(s: string): (r: string)
    ensures |r| <= |s| && r == s[..|r|]
    ensures AllSpace(s[|r|..])
    ensures r == [] || !IsSpace(r[|r| - 1])
  {
    if s != [] && IsSpace(s[|s| - 1]) then TrimEnd(s[..|s| - 1]) else s
  }

  /** `String.prototype.trim`. The result is empty exactly when `s` is all
      whitespace, and otherwise starts and ends with a non-space. */
  function Trim(s: string): (r: string)
    ensures r == [] <==> AllSpace(s)
    ensures r == [] || (!IsSpace(r[0]) && !IsSpace(r[|r| - 1]))
  {
    var t := TrimStart(s);
    assert s == s[..|s| - |t|] + t;
    TrimEnd(t)
  }

  lemma TrimStartNoop(s: string)
    requires s == [] || !IsSpace(s[0])
    ensures TrimStart(s) == s
  {
  }

  /** Trimming a string that already starts and ends with a non-space
      changes nothing. */
  lemma TrimNoop(s: string)
    requires s == [] || (!IsSpace(s[0]) && !IsSpace(s[|s| - 1]))
    ensures Trim(s) == s
  {
  }

  /** Leading whitespace in front of a string that starts with a non-space
      is exactly what `TrimStart` removes. */
  lemma {:induction false} TrimStartOfSpaces(ws: string, s: string)
    requires AllSpace(ws)
    requires s == [] || !IsSpace(s[0])
    ensures TrimStart(ws + s) == s
  {
    if ws != [] {
      assert (ws + s)[1..] == ws[1..] + s;
      TrimStartOfSpaces(ws[1..], s);
    }
  }

  /** Trailing whitespace after a string that ends with a non-space is
      exactly what `TrimEnd` removes. */
  lemma {:induction false} TrimEndOfSpaces(s: string, ws: string)
    requires AllSpace(ws)
    requires s == [] || !IsSpace(s[|s| - 1])
    ensures TrimEnd(s + ws) == s
  {
    if ws != [] {
      assert (s + ws)[..|s + ws| - 1] == s + ws[..|ws| - 1];
      TrimEndOfSpaces(s, ws[..|ws| - 1]);
    }
  }

  /** `TrimStart` stops inside `x` when `x` holds a non-space. */
  lemma {:induction false} TrimStartConcat(x: string, y: string)
    requires !AllSpace(x)
    ensures TrimStart(x + y) == TrimStart(x) + y
  {
    assert x != [];
    if IsSpace(x[0]) {
      assert (x + y)[1..] == x[1..] + y;
      TrimStartConcat(x[1..], y);
    }
  }

  /** `s.split(sep)` for a one-character separator: every occurrence of
      `sep` ends a part, so there is always at least one part and no part
      holds `sep`. */
  function Split(s: string, sep: char): (parts: seq<string>)
    ensures |parts| >= 1
    ensures forall k :: 0 <= k < |parts| ==> sep !in parts[k]
  {
    if s == [] then [""]
    else
      var rest := Split(s[1..], sep);
      if s[0] == sep then [""] + rest
      else [[s[0]] + rest[0]] + rest[1..]
  }

  /** `parts.join(sep)`. */
  function Join(parts: seq<string>, sep: char): string
    requires |parts| >= 1
  {
    if |parts| == 1 then parts[0] else parts[0] + [sep] + Join(parts[1..], sep)
  }

  /** Splitting and joining again gives the original string back. */
  lemma {:induction false} JoinSplit(s: string, sep: char)
    ensures Join(Split(s, sep), sep) == s
  {
    if s != [] {
      JoinSplit(s[1..], sep);
      var rest := Split(s[1..], sep);
      if s[0] == sep {
        assert ([""] + rest)[1..] == rest;
      } else if |rest| > 1 {
        var parts := [[s[0]] + rest[0]] + rest[1..];
        assert parts[1..] == rest[1..];
        assert Join(rest, sep) == rest[0] + [sep] + Join(rest[1..], sep);
      }
    }
  }

  lemma {:induction false} SplitNoSep(s: string, sep: char)
    requires sep !in s
    ensures Split(s, sep) == [s]
  {
    if s != [] {
      assert s[0] in s && forall c :: c in s[1..] ==> c in s;
      SplitNoSep(s[1..], sep);
      assert [s[0]] + s[1..] == s;
    }
  }

  lemma {:induction false} SplitConcat(x: string, sep: char, y: string)
    ensures Split(x + [sep] + y, sep) == Split(x, sep) + Split(y, sep)
  {
    if x == [] {
      assert x + [sep] + y == [sep] + y;
      assert ([sep] + y)[1..] == y;
    } else {
      assert (x + [sep] + y)[1..] == x[1..] + [sep] + y;
      SplitConcat(x[1..], sep, y);
    }
  }

  /** Joining parts that do not contain the separator and splitting again
      gives the parts back. */
  lemma {:induction false} SplitJoin(parts: seq<string>, sep: char)
    requires |parts| >= 1
    requires forall k :: 0 <= k < |parts| ==> sep !in parts[k]
    ensures Split(Join(parts, sep), sep) == parts
  {
    SplitNoSep(parts[0], sep);
    if |parts| > 1 {
      SplitJoin(parts[1..], sep);
      SplitConcat(parts[0], sep, Join(parts[1..], sep));
      assert [parts[0]] + parts[1..] == parts;
    }
  }

  /** The joined string contains a character only if one of the parts or
      the separator does. */
  lemma {:induction false} JoinChars(parts: seq<string>, sep: char, c: char)
    requires |parts| >= 1
    requires c != sep
    requires forall k :: 0 <= k < |parts| ==> c !in parts[k]
    ensures c !in Join(parts, sep)
  {
    if |parts| > 1 {
      JoinChars(parts[1..], sep, c);
    }
  }
}
