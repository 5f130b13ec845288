/**
 * Turning the first column of a CSV of article titles into search terms
 * (`load_queries_from_csv`). Every substitution is the string function the
 * regular expression really computes, not the one its comment suggests.
 */
module QueryBuilder {
  import opened Strings

  /**
   * The pattern `\[\]\=\,\.0-9\>\<\:]` opens no character class (its `[` is
   * escaped), so it matches only this twelve-character literal; digits and
   * punctuation elsewhere in a title are left alone.
   */
  const NoiseLiteral: string := "[]=,.0-9><:]"

  /** First substitution: delete each occurrence of the literal above. */
  function StripNoise(title: string): string {
    ReplaceAll(title, NoiseLiteral, "")
  }

  /** A `)` occurs in `s` before any newline (`.` in `\(.*?\)` does not match '\n'). */
  predicate Closes(s: string) {
    s != [] && s[0] != '\n' && (s[0] == ')' || Closes(s[1..]))
  }

  /** The index of the first `)` in `s`, which no newline precedes. */
  function CloseIndex(s: string): (k: nat)
    requires Closes(s)
    ensures k < |s| && s[k] == ')'
    ensures forall i :: 0 <= i < k ==> s[i] != ')' && s[i] != '\n'
  {
    if s[0] == ')' then 0 else 1 + CloseIndex(s[1..])
  }

  /**
   * Second substitution, `re.sub('\(.*?\)', '', title)`: scanning left to
   * right, a `(` is deleted together with everything up to and including the
   * nearest following `)` on the same line; a `(` with no such `)` stays.
   */
  function StripGroups(s: string): (t: string)
    ensures |t| <= |s|
    decreases |s|
  {
    if s == [] then []
    else if s[0] == '(' && Closes(s[1..]) then StripGroups(s[CloseIndex(s[1..]) + 2..])
    else [s[0]] + StripGroups(s[1..])
  }

  /** Text before the first `(` is kept as it is. */
  lemma {:induction false} StripGroupsPlain(a: string, b: string)
    requires '(' !in a
    ensures StripGroups(a + b) == a + StripGroups(b)
    decreases |a|
  {
    if a == [] {
      assert a + b == b;
    } else {
      assert a[0] in a;
      assert a + b == [a[0]] + (a[1..] + b);
      StripGroupsHead(a[0], a[1..] + b);
      StripGroupsPlain(a[1..], b);
      assert [a[0]] + (a[1..] + StripGroups(b)) == a + StripGroups(b);
    }
  }

  /** A first character other than `(` is kept. */
  lemma StripGroupsHead(c: char, rest: string)
    requires c != '('
    ensures StripGroups([c] + rest) == [c] + StripGroups(rest)
  {
    assert ([c] + rest)[1..] == rest;
  }

  /** After a `(`, the first `)` of the line closes the group. */
  lemma {:induction false} ClosesGroup(g: string, rest: string)
    requires ')' !in g && '\n' !in g
    ensures Closes(g + ")" + rest) && CloseIndex(g + ")" + rest) == |g|
    decreases |g|
  {
    if g != [] {
      assert g[0] in g;
      assert (g + ")" + rest)[1..] == g[1..] + ")" + rest;
      ClosesGroup(g[1..], rest);
    }
  }

  /** A group `(...)` with no `)` or newline inside is deleted whole. */
  lemma StripGroupsGroup(g: string, b: string)
    requires ')' !in g && '\n' !in g
    ensures StripGroups("(" + g + ")" + b) == StripGroups(b)
  {
    var s := "(" + g + ")" + b;
    assert s[1..] == g + ")" + b;
    ClosesGroup(g, b);
    assert s[|g| + 2..] == b;
  }

  /** A `(` with no `)` after it on its line is kept. */
  lemma StripGroupsUnmatched(b: string)
    requires !Closes(b)
    ensures StripGroups("(" + b) == "(" + StripGroups(b)
  {
    assert ("(" + b)[1..] == b;
  }

  /** No `(` in `s` is followed by a `)` on the same line: nothing left to strip. */
  predicate Settled(s: string) {
    s == [] || ((s[0] == '(' ==> !Closes(s[1..])) && Settled(s[1..]))
  }

  /** Stripping never brings a `)` in front of the first newline. */
  lemma {:induction false} StripGroupsKeepsUnclosed(s: string)
    requires !Closes(s)
    ensures !Closes(StripGroups(s))
    decreases |s|
  {
    if s != [] && s[0] != '\n' {
      assert s[0] != ')' && !Closes(s[1..]);
      StripGroupsKeepsUnclosed(s[1..]);
    }
  }

  /** Every `(` that survives the second substitution is unmatched on its line. */
  lemma {:induction false} StripGroupsSettled(s: string)
    ensures Settled(StripGroups(s))
    decreases |s|
  {
    if s == [] {
    } else if s[0] == '(' && Closes(s[1..]) {
      StripGroupsSettled(s[CloseIndex(s[1..]) + 2..]);
    } else {
      StripGroupsSettled(s[1..]);
      var t := StripGroups(s);
      assert t[1..] == StripGroups(s[1..]);
      if s[0] == '(' {
        StripGroupsKeepsUnclosed(s[1..]);
      }
    }
  }

  /** A settled string is left as it is. */
  lemma {:induction false} SettledFixed(s: string)
    requires Settled(s)
    ensures StripGroups(s) == s
    decreases |s|
  {
    if s != [] {
      SettledFixed(s[1..]);
    }
  }

  /** The second substitution is idempotent, and a title without `(` passes unchanged. */
  lemma StripGroupsIdempotent(s: string)
    ensures StripGroups(StripGroups(s)) == StripGroups(s)
    ensures '(' !in s ==> StripGroups(s) == s
  {
    StripGroupsSettled(s);
    SettledFixed(StripGroups(s));
    if '(' !in s {
      NoOpenSettled(s);
      SettledFixed(s);
    }
  }

  lemma {:induction false} NoOpenSettled(s: string)
    requires '(' !in s
    ensures Settled(s)
  {
    if s != [] {
      assert s[0] != '(';
      NoOpenSettled(s[1..]);
    }
  }

  /** Every character of the stripped title comes from the title. */
  lemma {:induction false} StripGroupsChars(s: string)
    ensures forall c :: c in StripGroups(s) ==> c in s
    decreases |s|
  {
    if s == [] {
    } else if s[0] == '(' && Closes(s[1..]) {
      StripGroupsChars(s[CloseIndex(s[1..]) + 2..]);
    } else {
      StripGroupsChars(s[1..]);
    }
  }

  /**
   * Third substitution, `re.sub('\/', '\s', title)`: in Python 2 the
   * replacement `\s` is an unknown escape and is kept as is, so each `/`
   * becomes the two characters backslash and `s`.
   */
  function EscapeSlashes(s: string): string {
    ReplaceAll(s, "/", "\\s")
  }

  /** No `/` survives, and no whitespace is introduced: a slash never splits a word. */
  lemma {:induction false} EscapeSlashesChars(s: string)
    ensures '/' !in EscapeSlashes(s)
    ensures forall c :: c in EscapeSlashes(s) ==> c in s || c == '\\' || c == 's'
    decreases |s|
  {
    if s != [] {
      EscapeSlashesChars(s[1..]);
    }
  }

  /** `a/b` stays a single word after the third substitution and the split. */
  lemma SlashJoinsWords(s: string)
    requires s != []
    requires forall i :: 0 <= i < |s| ==> s[i] !in Whitespace
    ensures Words(EscapeSlashes(s)) == [EscapeSlashes(s)]
  {
    var t := EscapeSlashes(s);
    EscapeSlashesChars(s);
    forall i | 0 <= i < |t| ensures t[i] !in Whitespace {
      assert t[i] in t;
    }
    assert s[0] in s;
    assert t != [];
    OneWord(t);
  }

  /**
   * The third substitution works character by character: it distributes
   * over concatenation and turns a lone `/` into backslash and `s`.
   */
  lemma {:induction false} EscapeSlashesAppend(a: string, b: string)
    ensures EscapeSlashes(a + b) == EscapeSlashes(a) + EscapeSlashes(b)
    ensures EscapeSlashes("/") == "\\s"
    decreases |a|
  {
    if a == [] {
      assert a + b == b;
    } else {
      assert (a + b)[1..] == a[1..] + b;
      assert ("/" <= a + b) <==> ("/" <= a);
      EscapeSlashesAppend(a[1..], b);
    }
    assert "/"[1..] == [];
  }

  /** The word-length window of line 170: strictly between 3 and 15 characters. */
  predicate InWindow(w: string) {
    3 < |w| < 15
  }

  /** The list comprehension of line 170: the words in the window, in their order. */
  function KeepWords(ws: seq<string>): (kept: seq<string>)
    ensures forall k :: 0 <= k < |kept| ==> InWindow(kept[k])
    ensures forall w :: w in kept <==> w in ws && InWindow(w)
    ensures |kept| <= |ws|
  {
    if ws == [] then []
    else (if InWindow(ws[0]) then [ws[0]] else []) + KeepWords(ws[1..])
  }

  /**
   * The filter keeps the words' order: filtering a concatenation filters
   * each part, and a single word survives exactly when it is in the window.
   */
  lemma KeepWordsAppend(a: seq<string>, b: seq<string>)
    ensures KeepWords(a + b) == KeepWords(a) + KeepWords(b)
    ensures forall w :: KeepWords([w]) == if InWindow(w) then [w] else []
  {
    KeepWordsConcat(a, b);
    forall w ensures KeepWords([w]) == if InWindow(w) then [w] else [] {
      KeepWordsOne(w);
    }
  }

  /** The filter distributes over concatenation, by induction on `a`. */
  lemma {:induction false} KeepWordsConcat(a: seq<string>, b: seq<string>)
    ensures KeepWords(a + b) == KeepWords(a) + KeepWords(b)
    decreases |a|
  {
    if a == [] {
      assert a + b == b;
    } else {
      assert (a + b)[1..] == a[1..] + b;
      KeepWordsConcat(a[1..], b);
    }
  }

  /** A single word survives exactly when it is in the window. */
  lemma KeepWordsOne(w: string)
    ensures KeepWords([w]) == if InWindow(w) then [w] else []
  {
    assert [w][1..] == [];
  }

  /** The title after the three substitutions. */
  function CleanTitle(title: string): string {
    EscapeSlashes(StripGroups(StripNoise(title)))
  }

  /** The words of the cleaned title that the query keeps (lines 164-170). */
  function QueryWords(title: string): seq<string> {
    KeepWords(Words(CleanTitle(title)))
  }

  /** Line 171: the kept words joined with `+`. */
  function SearchTerms(title: string): string {
    Join("+", QueryWords(title))
  }

  /** Lines 175-176: `&count=<count>` unless `count` is 0. */
  function CountSuffix(count: int): string {
    if count == 0 then "" else "&count=" + IntToString(count)
  }

  /** The query appended for one CSV row (lines 164-176). */
  function BuildQuery(title: string, count: int): string {
    SearchTerms(title) + CountSuffix(count)
  }

  /**
   * The count suffix is present exactly when `count` is non-zero, and then
   * carries `count` itself: what follows `&count=` reads back as `count`.
   */
  lemma CountSuffixFaithful(count: int)
    ensures CountSuffix(count) == "" <==> count == 0
    ensures count != 0 ==> "&count=" <= CountSuffix(count)
    ensures count != 0 ==> ParseInt(CountSuffix(count)[7..]) == count
  {
    if count != 0 {
      var digits := IntToString(count);
      assert CountSuffix(count)[7..] == digits;
      IntToStringRoundTrip(count);
    }
  }

  /** Characters of the words come from the string that was split. */
  lemma {:induction false} WordsChars(s: string)
    ensures forall k, c :: 0 <= k < |Words(s)| && c in Words(s)[k] ==> c in s
    decreases |s|
  {
    if s == [] {
    } else if s[0] in Whitespace {
      WordsChars(s[1..]);
      assert s == [s[0]] + s[1..];
    } else {
      var w := Token(s);
      WordsChars(s[|w|..]);
      assert s == w + s[|w|..];
    }
  }

  /**
   * The first substitution deletes exactly the literal: the text before its
   * first occurrence is kept, and the rest is processed afresh.
   */
  lemma StripNoiseDeletes(s: string)
    requires Contains(s, NoiseLiteral)
    ensures 0 <= Find(s, NoiseLiteral) && Find(s, NoiseLiteral) + |NoiseLiteral| <= |s|
    ensures StripNoise(s) == s[..Find(s, NoiseLiteral)] + StripNoise(s[Find(s, NoiseLiteral) + |NoiseLiteral|..])
  {
    ReplaceAllAt(s, NoiseLiteral, "");
    assert s[..Find(s, NoiseLiteral)] + "" == s[..Find(s, NoiseLiteral)];
  }

  /** The first substitution only deletes characters. */
  lemma {:induction false} StripNoiseChars(s: string)
    ensures forall c :: c in StripNoise(s) ==> c in s
    decreases |s|
  {
    if |s| >= |NoiseLiteral| {
      if NoiseLiteral <= s {
        StripNoiseChars(s[|NoiseLiteral|..]);
        assert s == s[..|NoiseLiteral|] + s[|NoiseLiteral|..];
      } else {
        StripNoiseChars(s[1..]);
        assert s == [s[0]] + s[1..];
      }
    }
  }

  /** A title without `+` gives kept words without `+`. */
  lemma NoPlusInWords(title: string)
    requires '+' !in title
    ensures forall k :: 0 <= k < |QueryWords(title)| ==> '+' !in QueryWords(title)[k]
  {
    var a := StripNoise(title);
    var b := StripGroups(a);
    var c := EscapeSlashes(b);
    StripNoiseChars(title);
    StripGroupsChars(a);
    EscapeSlashesChars(b);
    WordsChars(c);
    var ws := Words(c);
    forall k | 0 <= k < |QueryWords(title)| ensures '+' !in QueryWords(title)[k] {
      var w := QueryWords(title)[k];
      assert w in ws;
    }
  }

  /**
   * The built terms are the `+`-join, in order, of exactly the words whose
   * length lies strictly between 3 and 15; so when the title holds no `+`,
   * splitting the terms on `+` gives back those words and no token is of
   * length 3 or less, or 15 or more. A title with no kept word gives empty
   * terms (which `split('+')` would read as one empty token).
   */
  lemma SearchTermsTokens(title: string)
    requires '+' !in title
    ensures QueryWords(title) == [] ==> SearchTerms(title) == ""
    ensures QueryWords(title) != [] ==> SplitOn(SearchTerms(title), '+') == QueryWords(title)
    ensures QueryWords(title) != [] ==>
              forall k :: 0 <= k < |SplitOn(SearchTerms(title), '+')| ==>
                3 < |SplitOn(SearchTerms(title), '+')[k]| < 15
  {
    if QueryWords(title) != [] {
      NoPlusInWords(title);
      SplitJoin(QueryWords(title), '+');
    }
  }

  /**
   * A kept word may itself hold `+`: the title `ab+cd` keeps the word
   * `ab+cd` (length 5), whose `+`-tokens `ab` and `cd` are 2 characters long.
   */
  lemma PlusInsideWord()
    ensures QueryWords("ab+cd") == ["ab+cd"]
    ensures SplitOn(SearchTerms("ab+cd"), '+') == ["ab", "cd"]
  {
    PlusTitleClean("ab+cd");
    PlusTitleWords("ab+cd");
    PlusSplit();
  }

  lemma PlusTitleClean(s: string)
    requires s == "ab+cd"
    ensures CleanTitle(s) == s
  {
    NotContainsShort(s, NoiseLiteral);
    CleanTitlePlain(s);
  }

  lemma PlusTitleWords(s: string)
    requires s == "ab+cd" && CleanTitle(s) == s
    ensures QueryWords(s) == [s] && SearchTerms(s) == s
  {
    OneWord(s);
    assert KeepWords([s]) == [s];
  }

  lemma PlusSplit()
    ensures SplitOn("ab+cd", '+') == ["ab", "cd"]
  {
    SplitOnNone("cd", '+');
    SplitOnFirst("ab", "cd", '+');
    assert "ab+cd" == "ab" + ['+'] + "cd";
  }

  /** A title with no noise literal, no `(` and no `/` passes all three substitutions unchanged. */
  lemma CleanTitlePlain(s: string)
    requires !Contains(s, NoiseLiteral) && '(' !in s && '/' !in s
    ensures CleanTitle(s) == s
  {
    StripGroupsIdempotent(s);
    EscapeSlashesNone(s);
  }

  /** A title without `/` passes the third substitution unchanged. */
  lemma {:induction false} EscapeSlashesNone(s: string)
    requires '/' !in s
    ensures EscapeSlashes(s) == s
  {
    if s != [] {
      assert s[0] in s;
      assert !("/" <= s);
      EscapeSlashesNone(s[1..]);
    }
  }

  /** The titles a CSV read selects, and whether `line[0]` raised IndexError. */
  datatype Selected = Selected(titles: seq<string>, indexError: bool)

  /**
   * Lines 155-167 as a fold over the rows read so far: rows past `limit`
   * stop the loop, rows before `start` are skipped, every other row
   * contributes its first column; an empty row raises IndexError and ends
   * the call.
   */
  function CsvTitles(rows: seq<seq<string>>, limit: int, start: int): Selected
    decreases |rows|
  {
    if rows == [] then Selected([], false)
    else
      var i := |rows| - 1;
      var prev := CsvTitles(rows[..i], limit, start);
      if prev.indexError || i > limit || i < start then prev
      else if rows[i] == [] then Selected(prev.titles, true)
      else Selected(prev.titles + [rows[i][0]], false)
  }

  /** One query per title, in order (the `append` of line 178). */
  function BuildQueries(titles: seq<string>, count: int): (qs: seq<string>)
    ensures |qs| == |titles|
    decreases |titles|
  {
    if titles == [] then []
    else BuildQueries(titles[..|titles| - 1], count) + [BuildQuery(titles[|titles| - 1], count)]
  }

  /** The queries `load_queries_from_csv` appends to `self.queries`. */
  function CsvQueries(rows: seq<seq<string>>, limit: int, start: int, count: int): seq<string> {
    BuildQueries(CsvTitles(rows, limit, start).titles, count)
  }

  /** The k-th query is built from the k-th title. */
  lemma {:induction false} BuildQueriesAt(titles: seq<string>, count: int, k: nat)
    requires k < |titles|
    ensures BuildQueries(titles, count)[k] == BuildQuery(titles[k], count)
    decreases |titles|
  {
    if k < |titles| - 1 {
      BuildQueriesAt(titles[..|titles| - 1], count, k);
    }
  }

  /** Adding a title adds its query at the end. */
  lemma BuildQueriesSnoc(titles: seq<string>, title: string, count: int)
    ensures BuildQueries(titles + [title], count) == BuildQueries(titles, count) + [BuildQuery(title, count)]
  {
    assert (titles + [title])[..|titles|] == titles;
  }

  /** One more row: how the selection read so far is extended by row `i`. */
  lemma CsvTitlesStep(rows: seq<seq<string>>, i: nat, limit: int, start: int)
    requires i < |rows|
    ensures var prev := CsvTitles(rows[..i], limit, start);
            var next := CsvTitles(rows[..i + 1], limit, start);
            (prev.indexError || i > limit || i < start ==> next == prev) &&
            (!prev.indexError && start <= i <= limit && rows[i] == [] ==> next == Selected(prev.titles, true)) &&
            (!prev.indexError && start <= i <= limit && rows[i] != [] ==> next == Selected(prev.titles + [rows[i][0]], false))
  {
    assert rows[..i + 1][..i] == rows[..i];
  }

  /** Once the loop breaks or raises, later rows change nothing. */
  lemma {:induction false} CsvTitlesStops(rows: seq<seq<string>>, i: nat, limit: int, start: int)
    requires i <= |rows|
    requires CsvTitles(rows[..i], limit, start).indexError || i > limit
    ensures CsvTitles(rows, limit, start) == CsvTitles(rows[..i], limit, start)
    decreases |rows|
  {
    if i < |rows| {
      var n := |rows| - 1;
      assert rows[..n][..i] == rows[..i];
      CsvTitlesStops(rows[..n], i, limit, start);
    } else {
      assert rows[..i] == rows;
    }
  }

  /**
   * The row loop of `load_queries_from_csv` (lines 155-178): the queries it
   * appends, in order, and whether it stopped on IndexError.
   */
  method ReadQueries(rows: seq<seq<string>>, limit: int, start: int, count: int) returns (added: seq<string>, raised: bool)
    ensures added == CsvQueries(rows, limit, start, count)
    ensures raised == CsvTitles(rows, limit, start).indexError
  {
    added, raised := [], false;
    var i := 0;
    ghost var titles: seq<string> := [];
    while i < |rows|
      invariant 0 <= i <= |rows|
      invariant CsvTitles(rows[..i], limit, start) == Selected(titles, raised)
      invariant !raised && added == BuildQueries(titles, count)
    {
      CsvTitlesStep(rows, i, limit, start);
      if i > limit {
        break;
      }
      if start <= i {
        var line := rows[i];
        if line == [] {
          raised := true;
          i := i + 1;
          break;
        }
        BuildQueriesSnoc(titles, line[0], count);
        added := added + [BuildQuery(line[0], count)];
        titles := titles + [line[0]];
      }
      i := i + 1;
    }
    if i < |rows| {
      CsvTitlesStops(rows, i, limit, start);
    } else {
      assert rows[..i] == rows;
    }
  }

  function Max(a: int, b: int): int { if a < b then b else a }
  function Min(a: int, b: int): int { if a < b then a else b }

  /** The number of rows of the window `start..limit` that `rows` reaches. */
  function WindowSize(n: int, limit: int, start: int): nat {
    Max(0, Min(limit, n - 1) - Max(start, 0) + 1)
  }

  /**
   * Without IndexError every row of the window gives a title; with it, the
   * titles stop just before an empty row of the window.
   */
  lemma {:induction false} CsvTitlesCount(rows: seq<seq<string>>, limit: int, start: int)
    ensures var r := CsvTitles(rows, limit, start);
            !r.indexError ==> |r.titles| == WindowSize(|rows|, limit, start)
    ensures var r := CsvTitles(rows, limit, start);
            var n := Max(start, 0) + |r.titles|;
            r.indexError <==> n <= limit && n < |rows| && rows[n] == []
    decreases |rows|
  {
    if rows != [] {
      var i := |rows| - 1;
      CsvTitlesCount(rows[..i], limit, start);
      var prev := CsvTitles(rows[..i], limit, start);
      var lo := Max(start, 0);
      if prev.indexError {
        var n := lo + |prev.titles|;
        assert rows[..i][n] == rows[n];
      } else if i > limit {
        assert Min(limit, i - 1) == limit && Min(limit, |rows| - 1) == limit;
      } else if i < start {
        assert lo == start && Min(limit, |rows| - 1) - lo + 1 <= 0;
      } else {
        assert lo <= i && Min(limit, i - 1) == i - 1 && Min(limit, |rows| - 1) == i;
      }
    }
  }

  /** Row `max(start, 0) + k` lies in the window `start..limit`, is not empty, and `title` is its first field. */
  predicate TitleOfRow(rows: seq<seq<string>>, limit: int, start: int, k: int, title: string) {
    var j := Max(start, 0) + k;
    0 <= j <= limit && j < |rows| && rows[j] != [] && title == rows[j][0]
  }

  /** The k-th title is the first field of row `max(start, 0) + k`. */
  lemma {:induction false} CsvTitlesElems(rows: seq<seq<string>>, limit: int, start: int)
    ensures forall k :: 0 <= k < |CsvTitles(rows, limit, start).titles| ==>
              TitleOfRow(rows, limit, start, k, CsvTitles(rows, limit, start).titles[k])
    decreases |rows|
  {
    if rows != [] {
      var i := |rows| - 1;
      CsvTitlesElems(rows[..i], limit, start);
      var prev := CsvTitles(rows[..i], limit, start);
      var r := CsvTitles(rows, limit, start);
      var lo := Max(start, 0);
      var grows := !prev.indexError && start <= i <= limit && rows[i] != [];
      if grows {
        CsvTitlesCount(rows[..i], limit, start);
        assert Min(limit, i - 1) == i - 1;
        assert |prev.titles| == i - lo;
        assert r.titles == prev.titles + [rows[i][0]];
      } else {
        assert r.titles == prev.titles;
      }
      forall k | 0 <= k < |r.titles|
        ensures TitleOfRow(rows, limit, start, k, r.titles[k])
      {
        if k < |prev.titles| {
          assert r.titles[k] == prev.titles[k];
          assert TitleOfRow(rows[..i], limit, start, k, prev.titles[k]);
          assert rows[..i][lo + k] == rows[lo + k];
        } else {
          assert grows && k == i - lo;
        }
      }
    } else {
      assert CsvTitles(rows, limit, start).titles == [];
    }
  }

  /**
   * The queries appended by one call: one per selected row, in row order,
   * each built from that row's first column with the same `count`.
   */
  lemma CsvQueriesWindow(rows: seq<seq<string>>, limit: int, start: int, count: int, k: nat)
    requires k < |CsvQueries(rows, limit, start, count)|
    ensures Max(start, 0) + k <= limit && Max(start, 0) + k < |rows| && rows[Max(start, 0) + k] != []
    ensures CsvQueries(rows, limit, start, count)[k] == BuildQuery(rows[Max(start, 0) + k][0], count)
  {
    CsvTitlesElems(rows, limit, start);
    assert TitleOfRow(rows, limit, start, k, CsvTitles(rows, limit, start).titles[k]);
    BuildQueriesAt(CsvTitles(rows, limit, start).titles, count, k);
  }
}
