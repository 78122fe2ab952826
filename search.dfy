/**
 * The "Search Books" menu entry: the typed key is stripped of surrounding
 * whitespace and lower-cased, and a book is found when the key occurs in its
 * lower-cased author, title or category.
 */
module Search {
  import opened Tables

  /** Python's `str.isspace()` for one character: the characters `str.strip()` removes. */
  predicate IsSpace(c: char) {
    || ('\t' <= c <= '\r')
    || ('\U{1C}' <= c <= '\U{1F}')
    || c == ' ' || c == '\U{85}' || c == '\U{A0}' || c == '\U{1680}'
    || ('\U{2000}' <= c <= '\U{200A}')
    || c == '\U{2028}' || c == '\U{2029}' || c == '\U{202F}' || c == '\U{205F}' || c == '\U{3000}'
  }

  /** The number of leading whitespace characters: where `str.lstrip()` starts the result. */
  function LeadingSpaces(s: string): (n: nat)
    ensures n <= |s|
    ensures forall i :: 0 <= i < n ==> IsSpace(s[i])
    ensures n == |s| || !IsSpace(s[n])
  {
    if s != [] && IsSpace(s[0]) then
      var n := 1 + LeadingSpaces(s[1..]);
      assert forall i :: 1 <= i < |s| ==> s[i] == s[1..][i - 1];
      n
    else 0
  }

  /** The length of `s` without its trailing whitespace: where `str.rstrip()` ends the result. */
  function TextEnd(s: string): (n: nat)
    ensures n <= |s|
    ensures forall i :: n <= i < |s| ==> IsSpace(s[i])
    ensures n == 0 || !IsSpace(s[n - 1])
  {
    if s != [] && IsSpace(s[|s| - 1]) then
      var n := TextEnd(s[..|s| - 1]);
      assert forall i :: 0 <= i < |s| - 1 ==> s[i] == s[..|s| - 1][i];
      n
    else |s|
  }

  /** `r` is the infix of `s` at position `a`, and everything of `s` before and after it is whitespace. */
  predicate InfixBetweenSpaces(s: string, r: string, a: int) {
    && 0 <= a && a + |r| <= |s| && r == s[a..a + |r|]
    && (forall i :: 0 <= i < a ==> IsSpace(s[i]))
    && (forall i :: a + |r| <= i < |s| ==> IsSpace(s[i]))
  }

  /** Where `str.strip()` ends: the trailing whitespace of `s` starts at `b`, and `b` follows a non-space unless `b == a`. */
  lemma StripEnd(s: string, a: nat)
    requires a <= |s|
    ensures var b := a + TextEnd(s[a..]);
      && b <= |s|
      && (forall i :: b <= i < |s| ==> IsSpace(s[i]))
      && (b > a ==> !IsSpace(s[b - 1]))
  {
    var rest := s[a..];
    var b := a + TextEnd(rest);
    assert forall i :: b <= i < |s| ==> s[i] == rest[i - a];
    assert b > a ==> s[b - 1] == rest[b - 1 - a];
  }

  /** `str.strip()`: the longest infix of `s` that starts and ends with a non-space. */
  function Strip(s: string): (r: string)
    ensures exists a :: InfixBetweenSpaces(s, r, a)
    ensures r == [] || (!IsSpace(r[0]) && !IsSpace(r[|r| - 1]))
    ensures (forall i :: 0 <= i < |s| ==> IsSpace(s[i])) ==> r == []
  {
    var a := LeadingSpaces(s);
    var b := a + TextEnd(s[a..]);
    StripEnd(s, a);
    assert InfixBetweenSpaces(s, s[a..b], a);
    s[a..b]
  }

  /** `str.lower()` on one character, for the ASCII letters. */
  function LowerChar(c: char): (d: char)
    ensures !('A' <= d <= 'Z')
    ensures 'A' <= c <= 'Z' ==> d as int == c as int + 32
    ensures ('A' <= c <= 'Z') || d == c
  {
    if 'A' <= c <= 'Z' then (c as int + ('a' as int - 'A' as int)) as char else c
  }

  /** `str.lower()`, letter by letter. */
  function Lower(s: string): (r: string)
    ensures |r| == |s|
    ensures forall i :: 0 <= i < |s| ==> r[i] == LowerChar(s[i])
  {
    if s == [] then [] else [LowerChar(s[0])] + Lower(s[1..])
  }

  /** The key exactly as the menu builds it: `input(...).strip().lower()`. */
  function NormalizeKey(raw: string): (key: string)
    ensures |key| <= |raw|
    ensures forall i :: 0 <= i < |key| ==> !('A' <= key[i] <= 'Z')
    ensures key == [] || (!IsSpace(key[0]) && !IsSpace(key[|key| - 1]))
    ensures (forall i :: 0 <= i < |raw| ==> IsSpace(raw[i])) ==> key == []
  {
    Lower(Strip(raw))
  }

  /** `key` starts at position `i` of `s`. */
  predicate OccursAt(s: string, key: string, i: int) {
    0 <= i && i + |key| <= |s| && s[i..i + |key|] == key
  }

  /** `key` occurs somewhere in `s`. */
  ghost predicate OccursIn(s: string, key: string) {
    exists i :: OccursAt(s, key, i)
  }

  /** Python's `key in s` for two strings, scanning `s` from the left. */
  function Contains(s: string, key: string): (found: bool)
    ensures key == [] ==> found
  {
    key <= s || (s != [] && Contains(s[1..], key))
  }

  /** `key in s` holds exactly when `key` occurs at some position of `s`. */
  lemma {:induction false} ContainsIff(s: string, key: string)
    ensures Contains(s, key) <==> exists i :: OccursAt(s, key, i)
  {
    if key <= s {
      assert s[0..|key|] == key;
      assert OccursAt(s, key, 0);
    } else if s != [] {
      ContainsIff(s[1..], key);
      if exists i :: OccursAt(s, key, i) {
        var i :| OccursAt(s, key, i);
        assert s[..|key|] != key;
        if i > 0 {
          assert s[1..][i - 1..i - 1 + |key|] == s[i..i + |key|];
          assert OccursAt(s[1..], key, i - 1);
        }
      }
      if exists i :: OccursAt(s[1..], key, i) {
        var i :| OccursAt(s[1..], key, i);
        assert s[1..][i..i + |key|] == s[i + 1..i + 1 + |key|];
        assert OccursAt(s, key, i + 1);
      }
    }
  }

  /** Lower-casing twice is lower-casing once. */
  lemma LowerIdempotent(s: string)
    ensures Lower(Lower(s)) == Lower(s)
  {
  }

  /** The search condition for one row of `books`. */
  function Matches(b: Book, key: string): (m: bool)
    ensures m <==> OccursIn(Lower(b.author), key) || OccursIn(Lower(b.title), key) || OccursIn(Lower(b.category), key)
  {
    ContainsIff(Lower(b.author), key);
    ContainsIff(Lower(b.title), key);
    ContainsIff(Lower(b.category), key);
    Contains(Lower(b.author), key) || Contains(Lower(b.title), key) || Contains(Lower(b.category), key)
  }

  /** A key made only of whitespace becomes empty and so finds every book. */
  lemma BlankKeyMatchesAll(b: Book, raw: string)
    requires forall i :: 0 <= i < |raw| ==> IsSpace(raw[i])
    ensures Matches(b, NormalizeKey(raw))
  {
  }

  /** The match does not depend on the letter case of the book's fields. */
  lemma MatchesIgnoresFieldCase(b: Book, key: string)
    ensures Matches(b, key)
        <==> Matches(Book(Lower(b.title), Lower(b.author), Lower(b.category), b.stock), key)
  {
    LowerIdempotent(b.title);
    LowerIdempotent(b.author);
    LowerIdempotent(b.category);
  }

  /** The rows printed as "Found:", in table order. */
  function Hits(rows: seq<Book>, key: string): (found: seq<Book>)
    ensures |found| <= |rows|
    ensures forall b :: b in found ==> b in rows && Matches(b, key)
    ensures forall i :: 0 <= i < |rows| && Matches(rows[i], key) ==> rows[i] in found
  {
    if rows == [] then []
    else
      var last := rows[|rows| - 1];
      var front := Hits(rows[..|rows| - 1], key);
      assert forall i :: 0 <= i < |rows| - 1 ==> rows[i] == rows[..|rows| - 1][i];
      front + (if Matches(last, key) then [last] else [])
  }

  /** No row is found exactly when no row matches. */
  lemma {:induction false} HitsEmptyIff(rows: seq<Book>, key: string)
    ensures Hits(rows, key) == [] <==> forall i :: 0 <= i < |rows| ==> !Matches(rows[i], key)
  {
    if rows != [] {
      var front := rows[..|rows| - 1];
      assert forall i :: 0 <= i < |front| ==> front[i] == rows[i];
      HitsEmptyIff(front, key);
    }
  }

  /**
   * The search loop: walks the rows of `books`, collects each match and sets
   * the flag `f`; "Not found" is printed exactly when `f` stays false.
   */
  method SearchBooks(rows: seq<Book>, input: string) returns (found: seq<Book>, f: bool)
    ensures found == Hits(rows, NormalizeKey(input))
    ensures f <==> found != []
    ensures f <==> exists i :: 0 <= i < |rows| && Matches(rows[i], NormalizeKey(input))
  {
    var key := Lower(Strip(input));
    found, f := [], false;
    for i := 0 to |rows|
      invariant found == Hits(rows[..i], key)
      invariant f <==> found != []
    {
      assert rows[..i + 1][..i] == rows[..i];
      if Matches(rows[i], key) {
        found := found + [rows[i]];
        f := true;
      }
    }
    assert rows[..|rows|] == rows;
    HitsEmptyIff(rows, key);
  }
}
