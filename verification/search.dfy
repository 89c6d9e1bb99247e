/**
 The roster search: keep the rows whose name, group or status text contains
 the search term, ignoring case; an empty term keeps every row. The result
 keeps the rows' order and is a filter, never an edit.
 */
module Search {
  import opened Schedule

  /**
   Lower-case mapping of one character, as str.lower() maps the letters this
   roster uses: Latin A-Z, Cyrillic А-Я and the Cyrillic letters Ѐ-Џ (Ё among them).
   */
  function LowerChar(c: char): char {
    if 'A' <= c <= 'Z' then (c as int + 32) as char
    else if 'А' <= c <= 'Я' then (c as int + 32) as char
    else if 'Ѐ' <= c <= 'Џ' then (c as int + 80) as char
    else c
  }

  function Lower(s: string): (r: string)
    ensures |r| == |s|
    ensures forall i :: 0 <= i < |s| ==> r[i] == LowerChar(s[i])
  {
    if |s| == 0 then "" else [LowerChar(s[0])] + Lower(s[1..])
  }

  /** Python's `t in s` for strings, scanning start positions left to right. */
  function Contains(s: string, t: string): bool
    decreases |s|
  {
    |t| <= |s| && (s[..|t|] == t || (|s| > 0 && Contains(s[1..], t)))
  }

  /** Independent definition: `t` occurs in `s` at some position. */
  ghost predicate OccursAt(s: string, t: string, i: int) {
    0 <= i && i + |t| <= |s| && s[i..i + |t|] == t
  }

  /** The case-insensitive match on the three searched columns. */
  predicate Matches(row: Row, term: string) {
    var t := Lower(term);
    Contains(Lower(row.name), t) || Contains(Lower(row.group), t) || Contains(Lower(row.status), t)
  }

  /** `a` is `b` with some elements dropped, the rest kept in order. */
  ghost predicate IsSubsequence<T>(a: seq<T>, b: seq<T>)
    decreases |b|
  {
    |a| == 0 || (|b| > 0 && ((a[0] == b[0] && IsSubsequence(a[1..], b[1..])) || IsSubsequence(a, b[1..])))
  }

  /** The rows that match `term`, in their original order. */
  function Filter(rows: seq<Row>, term: string): (r: seq<Row>)
    ensures IsSubsequence(r, rows)
    ensures forall x :: multiset(r)[x] == if Matches(x, term) then multiset(rows)[x] else 0
  {
    if |rows| == 0 then []
    else
      var rest := Filter(rows[1..], term);
      assert rows == [rows[0]] + rows[1..];
      if Matches(rows[0], term) then [rows[0]] + rest else rest
  }

  /**
   The search: an empty term leaves the table as it is; otherwise the result
   holds every row that matches, as often as it occurs, and nothing else, in
   the original order.
   */
  function SearchRows(rows: seq<Row>, term: string): (r: seq<Row>)
    ensures term == "" ==> r == rows
    ensures term != "" ==> IsSubsequence(r, rows)
    ensures term != "" ==> forall x :: multiset(r)[x] == if Matches(x, term) then multiset(rows)[x] else 0
    ensures term != "" ==> forall x :: x in r <==> x in rows && Matches(x, term)
  {
    if term == "" then rows else Filter(rows, term)
  }

  // ---- lemmas ----

  lemma {:induction false} ContainsOccurs(s: string, t: string)
    ensures Contains(s, t) <==> exists i :: OccursAt(s, t, i)
    decreases |s|
  {
    if |t| > |s| {
      assert forall i :: !OccursAt(s, t, i);
    } else if s[..|t|] == t {
      assert OccursAt(s, t, 0);
    } else {
      ContainsOccurs(s[1..], t);
      if exists i :: OccursAt(s[1..], t, i) {
        var i :| OccursAt(s[1..], t, i);
        assert s[i + 1..i + 1 + |t|] == s[1..][i..i + |t|];
        assert OccursAt(s, t, i + 1);
      }
      if exists i :: OccursAt(s, t, i) {
        var i :| OccursAt(s, t, i);
        assert i != 0;
        assert s[1..][i - 1..i - 1 + |t|] == s[i..i + |t|];
        assert OccursAt(s[1..], t, i - 1);
      }
    }
  }

  lemma LowerIdempotent(s: string)
    ensures Lower(Lower(s)) == Lower(s)
  {
  }

  /** Lower-casing the term first changes nothing: the match ignores case. */
  lemma MatchesIgnoresTermCase(row: Row, term: string)
    ensures Matches(row, Lower(term)) == Matches(row, term)
  {
    LowerIdempotent(term);
  }

  lemma {:induction false} FilterSamePredicate(rows: seq<Row>, t1: string, t2: string)
    requires forall x :: Matches(x, t1) == Matches(x, t2)
    ensures Filter(rows, t1) == Filter(rows, t2)
  {
    if |rows| > 0 {
      FilterSamePredicate(rows[1..], t1, t2);
    }
  }

  /** The search is case-insensitive in its term too. */
  lemma SearchIgnoresTermCase(rows: seq<Row>, term: string)
    ensures SearchRows(rows, Lower(term)) == SearchRows(rows, term)
  {
    forall x ensures Matches(x, Lower(term)) == Matches(x, term) {
      MatchesIgnoresTermCase(x, term);
    }
    FilterSamePredicate(rows, Lower(term), term);
  }

  lemma {:induction false} FilterKeepsMatching(rows: seq<Row>, term: string)
    requires forall i :: 0 <= i < |rows| ==> Matches(rows[i], term)
    ensures Filter(rows, term) == rows
  {
    if |rows| > 0 {
      FilterKeepsMatching(rows[1..], term);
    }
  }

  /** Searching a search result again with the same term changes nothing. */
  lemma SearchIdempotent(rows: seq<Row>, term: string)
    ensures SearchRows(SearchRows(rows, term), term) == SearchRows(rows, term)
  {
    var r := SearchRows(rows, term);
    if term != "" {
      forall i | 0 <= i < |r| ensures Matches(r[i], term) {
        assert r[i] in r;
      }
      FilterKeepsMatching(r, term);
    }
  }

  /**
   A row matches exactly when the lower-cased term occurs somewhere in the
   lower-cased name, group or status text.
   */
  lemma MatchesOccurs(row: Row, term: string)
    ensures Matches(row, term) <==>
      || (exists i :: OccursAt(Lower(row.name), Lower(term), i))
      || (exists i :: OccursAt(Lower(row.group), Lower(term), i))
      || (exists i :: OccursAt(Lower(row.status), Lower(term), i))
  {
    ContainsOccurs(Lower(row.name), Lower(term));
    ContainsOccurs(Lower(row.group), Lower(term));
    ContainsOccurs(Lower(row.status), Lower(term));
    assert Matches(row, term) ==
      (Contains(Lower(row.name), Lower(term)) || Contains(Lower(row.group), Lower(term)) || Contains(Lower(row.status), Lower(term)));
  }
}
