/**
 * The Python 2 string operations the downloader is built from, stated over
 * `seq<char>`: `in`, `str.find`, `str.replace`, a character-class `re.sub`,
 * `str.split()`, `str.split(c)`, `str.join` and `str(int)`.
 */
module Strings {

  /** `p` occurs in `s` at index `i`. */
  ghost predicate OccursAt(s: string, p: string, i: int) {
    0 <= i && i + |p| <= |s| && s[i..i + |p|] == p
  }

  /** Python `p in s`. */
  predicate Contains(s: string, p: string)
    decreases |s|
  {
    p <= s || (s != [] && Contains(s[1..], p))
  }

  /** An occurrence in the tail of `s` is an occurrence in `s`, one index later. */
  lemma OccursInTail(s: string, p: string, i: int)
    requires s != [] && i >= 0
    ensures OccursAt(s[1..], p, i) <==> OccursAt(s, p, i + 1)
  {
    if 0 <= i && i + |p| <= |s| - 1 {
      assert s[1..][i..i + |p|] == s[i + 1..i + 1 + |p|];
    }
  }

  lemma ShiftAll(s: string, p: string)
    requires s != []
    ensures forall i :: i >= 0 ==> (OccursAt(s[1..], p, i) <==> OccursAt(s, p, i + 1))
    ensures forall i :: i >= 1 ==> (OccursAt(s, p, i) <==> OccursAt(s[1..], p, i - 1))
  {
    forall i | i >= 0 ensures OccursAt(s[1..], p, i) <==> OccursAt(s, p, i + 1) {
      OccursInTail(s, p, i);
    }
  }

  /** `Contains` is exactly "occurs at some index". */
  lemma {:induction false} ContainsIff(s: string, p: string)
    ensures Contains(s, p) <==> exists i :: OccursAt(s, p, i)
    decreases |s|
  {
    if p <= s {
      assert OccursAt(s, p, 0);
    } else if s == [] {
    } else {
      ContainsIff(s[1..], p);
      if Contains(s[1..], p) {
        var i :| OccursAt(s[1..], p, i);
        OccursInTail(s, p, i);
      } else {
        forall i ensures !OccursAt(s, p, i) {
          if i == 0 {
            assert !(p <= s);
          } else if i > 0 {
            OccursInTail(s, p, i - 1);
          }
        }
      }
    }
  }

  /** Python `s.find(p)`: the lowest index where `p` occurs, or -1. */
  function Find(s: string, p: string): (r: int)
    ensures -1 <= r <= |s|
    ensures r == -1 <==> !Contains(s, p)
    ensures r >= 0 ==> OccursAt(s, p, r)
    ensures r >= 0 ==> forall j :: 0 <= j < r ==> !OccursAt(s, p, j)
    decreases |s|
  {
    if p <= s then 0
    else if s == [] then -1
    else
      var r := Find(s[1..], p);
      assert !OccursAt(s, p, 0);
      if r < 0 then -1
      else
        ShiftAll(s, p);
        r + 1
  }

  /**
   * Python `s.replace(p, r)` (and `re.sub` with a pattern that is a plain
   * literal): every occurrence of `p`, found left to right and not
   * overlapping, is replaced by `r`.
   */
  function ReplaceAll(s: string, p: string, r: string): (t: string)
    requires p != []
    ensures !Contains(s, p) ==> t == s
    ensures Contains(s, p) && |r| < |p| ==> |t| < |s|
    ensures |r| <= |p| ==> |t| <= |s|
    decreases |s|
  {
    if |s| < |p| then
      assert !(p <= s);
      NotContainsShort(s, p);
      s
    else if p <= s then r + ReplaceAll(s[|p|..], p, r)
    else [s[0]] + ReplaceAll(s[1..], p, r)
  }

  /**
   * The replacement starts at the first occurrence: when `p` does not occur
   * in `a + p` before the copy of `p` that follows `a`, the text `a` is kept,
   * that copy becomes `r`, and `b` is processed afresh. Every string that
   * contains `p` splits this way, so with the "absent: unchanged" clause of
   * `ReplaceAll` this fixes the result.
   */
  lemma {:induction false} ReplaceAllFirst(a: string, p: string, b: string, r: string)
    requires p != []
    requires !Contains(a + p[..|p| - 1], p)
    ensures ReplaceAll(a + p + b, p, r) == a + r + ReplaceAll(b, p, r)
    decreases |a|
  {
    if a == [] {
      assert a + p + b == p + b;
      ReplaceAllHead(p, b, r);
    } else {
      PrefixOfLonger(a, p, b);
      ReplaceAllFirst(a[1..], p, b, r);
      ReplaceAllStep(a + p + b, p, r);
      ConsAppend(a, r, ReplaceAll(b, p, r));
    }
  }

  /**
   * With `a` non-empty, `a + p[..|p| - 1]` is a prefix of `a + p + b` long
   * enough to decide whether `p` starts it, and dropping the first element
   * of both keeps their shape.
   */
  lemma PrefixOfLonger<T>(a: seq<T>, p: seq<T>, b: seq<T>)
    requires a != [] && p != []
    ensures (p <= a + p[..|p| - 1]) <==> (p <= a + p + b)
    ensures (a + p[..|p| - 1])[1..] == a[1..] + p[..|p| - 1]
    ensures (a + p + b)[1..] == a[1..] + p + b
  {
    var x, s := a + p[..|p| - 1], a + p + b;
    assert s[..|x|] == x;
  }

  /** Putting back the first element in front of a concatenation. */
  lemma ConsAppend<T>(a: seq<T>, r: seq<T>, y: seq<T>)
    requires a != []
    ensures [a[0]] + (a[1..] + r + y) == a + r + y
  {
    assert a == [a[0]] + a[1..];
  }

  /** Where the pattern occurs, the replacement is fixed by its first occurrence. */
  lemma ReplaceAllAt(s: string, p: string, r: string)
    requires p != [] && Contains(s, p)
    ensures 0 <= Find(s, p) && Find(s, p) + |p| <= |s|
    ensures ReplaceAll(s, p, r) == s[..Find(s, p)] + r + ReplaceAll(s[Find(s, p) + |p|..], p, r)
  {
    FirstSplit(s, p);
    ReplaceAllFirst(s[..Find(s, p)], p, s[Find(s, p) + |p|..], r);
  }

  /**
   * `Find` splits a string that contains `p` as `a + p + b` with no
   * occurrence of `p` in `a + p` before the one at `|a|`.
   */
  lemma FirstSplit(s: string, p: string)
    requires p != [] && Contains(s, p)
    ensures 0 <= Find(s, p) && Find(s, p) + |p| <= |s|
    ensures s == s[..Find(s, p)] + p + s[Find(s, p) + |p|..]
    ensures !Contains(s[..Find(s, p)] + p[..|p| - 1], p)
  {
    SplitAround(s, p, Find(s, p));
    NoOccurrenceBefore(s, p, Find(s, p));
  }

  /** An occurrence at `i` splits `s` into the text before it, `p` and the text after it. */
  lemma SplitAround<T>(s: seq<T>, p: seq<T>, i: nat)
    requires i + |p| <= |s| && s[i..i + |p|] == p
    ensures s == s[..i] + p + s[i + |p|..]
  {
    assert s == s[..i] + s[i..i + |p|] + s[i + |p|..];
  }

  /** An occurrence at `i` with none before it is the first one in `s[..i] + p`. */
  lemma NoOccurrenceBefore(s: string, p: string, i: nat)
    requires p != [] && OccursAt(s, p, i)
    requires forall j :: 0 <= j < i ==> !OccursAt(s, p, j)
    ensures !Contains(s[..i] + p[..|p| - 1], p)
  {
    var x := s[..i + |p| - 1];
    PrefixThrough(s, p, i);
    ContainsIff(x, p);
    if Contains(x, p) {
      var j :| OccursAt(x, p, j);
      OccursInPrefix(s, x, p, j);
    }
  }

  /** Up to the end of an occurrence, less one element, `s` is its text before the occurrence and all of `p` but its last element. */
  lemma PrefixThrough<T>(s: seq<T>, p: seq<T>, i: nat)
    requires p != [] && i + |p| <= |s| && s[i..i + |p|] == p
    ensures s[..i] + p[..|p| - 1] == s[..i + |p| - 1]
  {
    assert s[..i + |p| - 1] == s[..i] + s[i..i + |p|][..|p| - 1];
  }

  /** An occurrence in a prefix of `s` is an occurrence in `s`, ending inside the prefix. */
  lemma OccursInPrefix(s: string, x: string, p: string, j: int)
    requires |x| <= |s| && x == s[..|x|] && OccursAt(x, p, j)
    ensures OccursAt(s, p, j) && j + |p| <= |x|
  {
    assert x[j..j + |p|] == s[j..j + |p|];
  }

  /** A leading occurrence is replaced. */
  lemma ReplaceAllHead(p: string, b: string, r: string)
    requires p != []
    ensures ReplaceAll(p + b, p, r) == r + ReplaceAll(b, p, r)
  {
    assert (p + b)[|p|..] == b;
  }

  /** A character that starts no occurrence is kept. */
  lemma ReplaceAllStep(s: string, p: string, r: string)
    requires p != [] && |s| >= |p| && !(p <= s)
    ensures ReplaceAll(s, p, r) == [s[0]] + ReplaceAll(s[1..], p, r)
  {
  }

  /** A pattern longer than the text does not occur in it. */
  lemma {:induction false} NotContainsShort(s: string, p: string)
    requires |s| < |p|
    ensures !Contains(s, p)
    decreases |s|
  {
    if s != [] { NotContainsShort(s[1..], p); }
  }

  /** Python `re.sub('[...]', '', s)`: drop every character of the class `del`. */
  function RemoveChars(s: string, del: set<char>): (t: string)
    ensures forall i :: 0 <= i < |t| ==> t[i] !in del
    ensures |t| <= |s|
  {
    if s == [] then [] else (if s[0] in del then [] else [s[0]]) + RemoveChars(s[1..], del)
  }

  /** Every character outside the class is kept, as many times as it occurs. */
  lemma {:induction false} RemoveCharsCounts(s: string, del: set<char>)
    ensures forall c :: c !in del ==> multiset(RemoveChars(s, del))[c] == multiset(s)[c]
    ensures forall c :: c in del ==> multiset(RemoveChars(s, del))[c] == 0
  {
    if s != [] {
      assert s == [s[0]] + s[1..];
      RemoveCharsCounts(s[1..], del);
    }
  }

  /** Removing characters commutes with concatenation, so order is kept. */
  lemma {:induction false} RemoveCharsAppend(a: string, b: string, del: set<char>)
    ensures RemoveChars(a + b, del) == RemoveChars(a, del) + RemoveChars(b, del)
    decreases |a|
  {
    if a != [] {
      assert (a + b)[1..] == a[1..] + b;
      RemoveCharsAppend(a[1..], b, del);
    } else {
      assert a + b == b;
    }
  }

  /** A string holding no character of the class is left as it is. */
  lemma {:induction false} RemoveCharsNone(s: string, del: set<char>)
    requires forall i :: 0 <= i < |s| ==> s[i] !in del
    ensures RemoveChars(s, del) == s
    decreases |s|
  {
    if s != [] { RemoveCharsNone(s[1..], del); }
  }

  /** Python 2 `str.isspace` on one byte: space, \t, \n, \r, \v and \f. */
  const Whitespace: set<char> := {' ', '\t', '\n', '\r', '\U{000B}', '\U{000C}'}

  /** The longest prefix of `s` holding no whitespace. */
  function Token(s: string): (w: string)
    ensures w <= s
    ensures forall i :: 0 <= i < |w| ==> w[i] !in Whitespace
    ensures |w| < |s| ==> s[|w|] in Whitespace
  {
    if s == [] || s[0] in Whitespace then [] else [s[0]] + Token(s[1..])
  }

  /**
   * Python `s.split()`: the maximal runs of non-whitespace characters, in
   * order; leading, trailing and repeated whitespace yield no empty word.
   */
  function Words(s: string): (ws: seq<string>)
    ensures forall k :: 0 <= k < |ws| ==> ws[k] != []
    ensures forall k, i :: 0 <= k < |ws| && 0 <= i < |ws[k]| ==> ws[k][i] !in Whitespace
    decreases |s|
  {
    if s == [] then []
    else if s[0] in Whitespace then Words(s[1..])
    else
      var w := Token(s);
      [w] + Words(s[|w|..])
  }

  /** Concatenation of a sequence of sequences. */
  function Concat<T>(xs: seq<seq<T>>): seq<T> {
    if xs == [] then [] else xs[0] + Concat(xs[1..])
  }

  lemma {:induction false} ConcatSnoc<T>(xs: seq<seq<T>>, x: seq<T>)
    ensures Concat(xs + [x]) == Concat(xs) + x
  {
    if xs == [] {
      assert xs + [x] == [x];
    } else {
      assert (xs + [x])[1..] == xs[1..] + [x];
      ConcatSnoc(xs[1..], x);
    }
  }

  /**
   * Splitting loses exactly the whitespace: the words, concatenated, are
   * the string with its whitespace removed.
   */
  lemma {:induction false} WordsConcat(s: string)
    ensures Concat(Words(s)) == RemoveChars(s, Whitespace)
    decreases |s|
  {
    if s == [] {
    } else if s[0] in Whitespace {
      WordsConcat(s[1..]);
    } else {
      var w := Token(s);
      assert s == w + s[|w|..];
      WordsConcat(s[|w|..]);
      RemoveCharsAppend(w, s[|w|..], Whitespace);
      RemoveCharsNone(w, Whitespace);
    }
  }

  /** A word ends at the first whitespace character. */
  lemma {:induction false} TokenStops(a: string, c: char, b: string)
    requires c in Whitespace
    ensures Token(a + [c] + b) == Token(a)
    decreases |a|
  {
    if a == [] {
      assert (a + [c] + b)[0] == c;
    } else {
      assert (a + [c] + b)[1..] == a[1..] + [c] + b;
      TokenStops(a[1..], c, b);
    }
  }

  /**
   * Every whitespace character separates words: splitting around it splits
   * the two sides independently. With `OneWord` this fixes `split()`.
   */
  lemma {:induction false} WordsSplit(a: string, c: char, b: string)
    requires c in Whitespace
    ensures Words(a + [c] + b) == Words(a) + Words(b)
    decreases |a|
  {
    if a == [] {
      assert (a + [c] + b)[1..] == b;
    } else if a[0] in Whitespace {
      assert (a + [c] + b)[1..] == a[1..] + [c] + b;
      WordsSplit(a[1..], c, b);
    } else {
      var w := WordsTokenStep(a, c, b);
      WordsSplit(a[|w|..], c, b);
      assert [w] + (Words(a[|w|..]) + Words(b)) == [w] + Words(a[|w|..]) + Words(b);
    }
  }

  /** A leading word of `a` is the leading word of `a + [c] + b`, with `c` whitespace. */
  lemma WordsTokenStep(a: string, c: char, b: string) returns (w: string)
    requires c in Whitespace && a != [] && a[0] !in Whitespace
    ensures 0 < |w| <= |a| && w == Token(a)
    ensures Words(a) == [w] + Words(a[|w|..])
    ensures Words(a + [c] + b) == [w] + Words(a[|w|..] + [c] + b)
  {
    TokenStops(a, c, b);
    w := Token(a);
    assert (a + [c] + b)[|w|..] == a[|w|..] + [c] + b;
  }


  /** A non-empty string without whitespace is one word. */
  lemma OneWord(s: string)
    requires s != []
    requires forall i :: 0 <= i < |s| ==> s[i] !in Whitespace
    ensures Words(s) == [s]
  {
    TokenAll(s);
    assert s[|s|..] == [];
  }

  lemma {:induction false} TokenAll(s: string)
    requires forall i :: 0 <= i < |s| ==> s[i] !in Whitespace
    ensures Token(s) == s
  {
    if s != [] { TokenAll(s[1..]); }
  }

  /** Python `sep.join(ws)`. */
  function Join(sep: string, ws: seq<string>): string {
    if ws == [] then [] else if |ws| == 1 then ws[0] else ws[0] + sep + Join(sep, ws[1..])
  }

  /** Python `s.split(sep)` for a one-character separator: always at least one part. */
  function SplitOn(s: string, sep: char): (parts: seq<string>)
    ensures |parts| >= 1
  {
    if s == [] then [[]]
    else
      var rest := SplitOn(s[1..], sep);
      if s[0] == sep then [[]] + rest else [[s[0]] + rest[0]] + rest[1..]
  }

  /** Splitting a separator-free string gives it back whole. */
  lemma {:induction false} SplitOnNone(s: string, sep: char)
    requires sep !in s
    ensures SplitOn(s, sep) == [s]
  {
    if s != [] {
      assert s == [s[0]] + s[1..];
      SplitOnNone(s[1..], sep);
    }
  }

  /** A word followed by the separator splits off as the first part. */
  lemma {:induction false} SplitOnFirst(w: string, t: string, sep: char)
    requires sep !in w
    ensures SplitOn(w + [sep] + t, sep) == [w] + SplitOn(t, sep)
  {
    if w == [] {
      assert w + [sep] + t == [sep] + t;
      assert ([sep] + t)[1..] == t;
    } else {
      assert (w + [sep] + t)[1..] == w[1..] + [sep] + t;
      SplitOnFirst(w[1..], t, sep);
      assert [w[0]] + w[1..] == w;
    }
  }

  /**
   * Join and split are inverse when no part holds the separator: splitting
   * `sep.join(ws)` on `sep` gives back `ws`, part for part.
   */
  lemma {:induction false} SplitJoin(ws: seq<string>, sep: char)
    requires ws != []
    requires forall k :: 0 <= k < |ws| ==> sep !in ws[k]
    ensures SplitOn(Join([sep], ws), sep) == ws
  {
    if |ws| == 1 {
      SplitOnNone(ws[0], sep);
    } else {
      SplitJoin(ws[1..], sep);
      SplitOnFirst(ws[0], Join([sep], ws[1..]), sep);
      assert ws == [ws[0]] + ws[1..];
    }
  }

  function DigitChar(d: nat): char
    requires d < 10
  {
    "0123456789"[d]
  }

  /** Python `str(n)` for `n >= 0`: decimal digits, most significant first. */
  function NatToString(n: nat): (s: string)
    ensures s != []
    ensures forall i :: 0 <= i < |s| ==> '0' <= s[i] <= '9'
    ensures s[0] == '0' <==> n == 0
  {
    if n < 10 then [DigitChar(n)] else NatToString(n / 10) + [DigitChar(n % 10)]
  }

  /** Python `str(n)`: a leading '-' for negative numbers. */
  function IntToString(n: int): (s: string)
    ensures s != []
    ensures s[0] == '-' <==> n < 0
    ensures s[0] == '-' || '0' <= s[0] <= '9'
    ensures forall i :: 0 < i < |s| ==> '0' <= s[i] <= '9'
    ensures var first := if n < 0 then 1 else 0; first < |s| && (s[first] == '0' <==> n == 0)
  {
    if n < 0 then
      var digits := NatToString(-n);
      assert forall i :: 0 < i < |"-" + digits| ==> ("-" + digits)[i] == digits[i - 1];
      "-" + digits
    else NatToString(n)
  }

  /** Reads back decimal digits (the inverse of `NatToString`). */
  function ParseNat(s: string): nat
    requires forall i :: 0 <= i < |s| ==> '0' <= s[i] <= '9'
  {
    if s == [] then 0 else ParseNat(s[..|s| - 1]) * 10 + (s[|s| - 1] as int - '0' as int)
  }

  /** Reads back an optionally signed decimal (the inverse of `IntToString`). */
  function ParseInt(s: string): int
    requires s != []
    requires forall i :: 0 < i < |s| ==> '0' <= s[i] <= '9'
    requires s[0] == '-' || '0' <= s[0] <= '9'
  {
    if s[0] == '-' then -(ParseNat(s[1..]) as int) else ParseNat(s)
  }

  lemma {:induction false} NatToStringRoundTrip(n: nat)
    ensures ParseNat(NatToString(n)) == n
  {
    if n >= 10 {
      NatToStringRoundTrip(n / 10);
      var s := NatToString(n);
      assert s[..|s| - 1] == NatToString(n / 10);
    }
  }

  /** A '-' followed by digits reads back as the negated digits. */
  lemma {:induction false} ParseIntNegative(digits: string)
    requires forall i :: 0 <= i < |digits| ==> '0' <= digits[i] <= '9'
    ensures var s := "-" + digits;
            (forall i :: 0 < i < |s| ==> '0' <= s[i] <= '9') && ParseInt(s) == -(ParseNat(digits) as int)
  {
    var s := "-" + digits;
    assert s[1..] == digits;
    assert forall i :: 0 < i < |s| ==> s[i] == digits[i - 1];
  }

  /** `str(n)` loses nothing: reading it back yields `n`. */
  lemma {:induction false} IntToStringRoundTrip(n: int)
    ensures ParseInt(IntToString(n)) == n
  {
    if n < 0 {
      NatToStringRoundTrip(-n);
      ParseIntNegative(NatToString(-n));
    } else {
      NatToStringRoundTrip(n);
    }
  }
}
