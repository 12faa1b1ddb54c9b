/** `getFilteredSortedExams`: the cards the list shows, sorted by date, then
    narrowed to one exam type, then to a free-text search. The host's date
    parser is the parameter `parse`; sorting is modelled for collections
    whose dates all parse. */
module Projection {

  import opened Wrappers
  import opened Strings
  import opened Seqs
  import opened Exams

  /** The host's date parser (`new Date(s).getTime()`); `None` is NaN. */
  type Parser = string -> Option<int>

  const AllTypes := "all"

  predicate HasInstant(parse: Parser, e: Exam) {
    parse(e.datetime).Some?
  }

  /** Every record's date parses. */
  predicate AllParse(parse: Parser, s: seq<Exam>) {
    forall k :: 0 <= k < |s| ==> HasInstant(parse, s[k])
  }

  function InstantOf(parse: Parser, e: Exam): int
    requires HasInstant(parse, e)
  {
    parse(e.datetime).value
  }

  /** Non-decreasing by instant. */
  predicate Sorted(parse: Parser, s: seq<Exam>)
    requires AllParse(parse, s)
  {
    forall j, k :: 0 <= j < k < |s| ==> InstantOf(parse, s[j]) <= InstantOf(parse, s[k])
  }

  /** Places `e` in front of the first record that is not earlier. */
  function Insert(parse: Parser, e: Exam, s: seq<Exam>): (r: seq<Exam>)
    requires HasInstant(parse, e) && AllParse(parse, s)
    ensures AllParse(parse, r)
    ensures multiset(r) == multiset(s) + multiset{e}
    ensures forall x :: x in r <==> x == e || x in s
  {
    if s == [] then [e]
    else if InstantOf(parse, e) <= InstantOf(parse, s[0]) then [e] + s
    else
      var rest := Insert(parse, e, s[1..]);
      assert s == [s[0]] + s[1..];
      [s[0]] + rest
  }

  /** Inserting into a sorted sequence keeps it sorted. */
  lemma {:induction false} InsertSorted(parse: Parser, e: Exam, s: seq<Exam>)
    requires HasInstant(parse, e) && AllParse(parse, s) && Sorted(parse, s)
    ensures Sorted(parse, Insert(parse, e, s))
  {
    var r := Insert(parse, e, s);
    if s != [] && InstantOf(parse, e) > InstantOf(parse, s[0]) {
      var rest := Insert(parse, e, s[1..]);
      InsertSorted(parse, e, s[1..]);
      assert r == [s[0]] + rest;
      forall j, k | 0 <= j < k < |r|
        ensures InstantOf(parse, r[j]) <= InstantOf(parse, r[k])
      {
        if j == 0 {
          assert r[k] in rest;
          assert r[k] == e || r[k] in s[1..];
        } else {
          assert r[j] == rest[j - 1] && r[k] == rest[k - 1];
        }
      }
    }
  }

  /** `exams.sort((a, b) => new Date(a.datetime) - new Date(b.datetime))`,
      a stable sort by instant. */
  function Sort(parse: Parser, s: seq<Exam>): (r: seq<Exam>)
    requires AllParse(parse, s)
    ensures AllParse(parse, r) && Sorted(parse, r)
    ensures multiset(r) == multiset(s)
  {
    if s == [] then []
    else
      assert s == [s[0]] + s[1..];
      var rest := Sort(parse, s[1..]);
      InsertSorted(parse, s[0], rest);
      Insert(parse, s[0], rest)
  }

  /** The records of `s` at instant `t`, in their order. */
  function AtInstant(parse: Parser, s: seq<Exam>, t: int): seq<Exam> {
    if s == [] then []
    else if parse(s[0].datetime) == Some(t) then [s[0]] + AtInstant(parse, s[1..], t)
    else AtInstant(parse, s[1..], t)
  }

  lemma {:induction false} InsertAtInstant(parse: Parser, e: Exam, s: seq<Exam>, t: int)
    requires HasInstant(parse, e) && AllParse(parse, s)
    ensures AtInstant(parse, Insert(parse, e, s), t)
         == (if InstantOf(parse, e) == t then [e] else []) + AtInstant(parse, s, t)
  {
    if s != [] && InstantOf(parse, e) > InstantOf(parse, s[0]) {
      InsertAtInstant(parse, e, s[1..], t);
      assert Insert(parse, e, s) == [s[0]] + Insert(parse, e, s[1..]);
    }
  }

  /** The sort is stable: the records sharing an instant keep their relative
      order. */
  lemma {:induction false} SortStable(parse: Parser, s: seq<Exam>, t: int)
    requires AllParse(parse, s)
    ensures AtInstant(parse, Sort(parse, s), t) == AtInstant(parse, s, t)
  {
    if s != [] {
      SortStable(parse, s[1..], t);
      InsertAtInstant(parse, s[0], Sort(parse, s[1..]), t);
    }
  }

  /** The records at an instant are exactly the records with that instant. */
  lemma {:induction false} AtInstantMembers(parse: Parser, s: seq<Exam>, t: int)
    ensures forall x :: x in AtInstant(parse, s, t) <==> x in s && parse(x.datetime) == Some(t)
  {
    if s != [] {
      AtInstantMembers(parse, s[1..], t);
      assert forall x :: x in s <==> x == s[0] || x in s[1..];
    }
  }

  /** Sorted sequences with the same records at every instant start with
      the same record. */
  lemma SortedTiesSameHead(parse: Parser, a: seq<Exam>, b: seq<Exam>)
    requires AllParse(parse, a) && Sorted(parse, a) && a != []
    requires AllParse(parse, b) && Sorted(parse, b) && b != []
    requires forall t :: AtInstant(parse, a, t) == AtInstant(parse, b, t)
    ensures a[0] == b[0]
  {
    var ta, tb := InstantOf(parse, a[0]), InstantOf(parse, b[0]);
    AtInstantMembers(parse, a, tb);
    AtInstantMembers(parse, b, ta);
    assert a[0] in AtInstant(parse, a, ta);
    var m :| 0 <= m < |b| && b[m] == a[0];
    assert tb <= ta;
    assert b[0] in AtInstant(parse, b, tb);
    var n :| 0 <= n < |a| && a[n] == b[0];
    assert ta <= tb;
    assert a[0] == AtInstant(parse, a, ta)[0] == AtInstant(parse, b, ta)[0] == b[0];
  }

  /** The first record is among the records at its own instant. */
  lemma HeadAtItsInstant(parse: Parser, s: seq<Exam>)
    requires s != [] && HasInstant(parse, s[0])
    ensures AtInstant(parse, s, InstantOf(parse, s[0])) != []
  {
  }

  /** Two sorted sequences that hold the same records at every instant, in
      the same order, are equal. */
  lemma {:induction false} SortedTiesUnique(parse: Parser, a: seq<Exam>, b: seq<Exam>)
    requires AllParse(parse, a) && Sorted(parse, a)
    requires AllParse(parse, b) && Sorted(parse, b)
    requires forall t :: AtInstant(parse, a, t) == AtInstant(parse, b, t)
    ensures a == b
    decreases |a|
  {
    if a == [] {
      if b != [] {
        HeadAtItsInstant(parse, b);
      }
    } else if b == [] {
      HeadAtItsInstant(parse, a);
    } else {
      SortedTiesSameHead(parse, a, b);
      forall t ensures AtInstant(parse, a[1..], t) == AtInstant(parse, b[1..], t) {
        var x, y := AtInstant(parse, a[1..], t), AtInstant(parse, b[1..], t);
        if parse(a[0].datetime) == Some(t) {
          assert AtInstant(parse, a, t) == [a[0]] + x;
          assert AtInstant(parse, b, t) == [a[0]] + y;
          assert x == ([a[0]] + x)[1..] && y == ([a[0]] + y)[1..];
        } else {
          assert AtInstant(parse, a, t) == x && AtInstant(parse, b, t) == y;
        }
      }
      SortedTiesUnique(parse, a[1..], b[1..]);
      assert a == [a[0]] + a[1..] && b == [b[0]] + b[1..];
    }
  }

  /** `Sort` is the stable sort by instant: any arrangement of the records
      that is sorted and keeps the records sharing an instant in their input
      order is the one `Sort` returns. */
  lemma SortIsTheStableSort(parse: Parser, s: seq<Exam>, r: seq<Exam>)
    requires AllParse(parse, s)
    requires AllParse(parse, r) && Sorted(parse, r)
    requires forall t :: AtInstant(parse, r, t) == AtInstant(parse, s, t)
    ensures r == Sort(parse, s)
  {
    forall t ensures AtInstant(parse, r, t) == AtInstant(parse, Sort(parse, s), t) {
      SortStable(parse, s, t);
    }
    SortedTiesUnique(parse, r, Sort(parse, s));
  }

  /** Taking a subsequence keeps a subsequence at every instant. */
  lemma {:induction false} SubseqAtInstant(parse: Parser, a: seq<Exam>, b: seq<Exam>, t: int)
    requires IsSubseq(a, b)
    ensures IsSubseq(AtInstant(parse, a, t), AtInstant(parse, b, t))
    decreases |b|
  {
    if a == [] {
    } else if a[0] == b[0] {
      SubseqAtInstant(parse, a[1..], b[1..], t);
    } else {
      SubseqAtInstant(parse, a, b[1..], t);
      if parse(b[0].datetime) == Some(t) {
        SubseqSkip(AtInstant(parse, a, t), AtInstant(parse, b, t));
      }
    }
  }

  /** A subsequence of a sorted sequence is sorted. */
  lemma {:induction false} SubseqSorted(parse: Parser, a: seq<Exam>, b: seq<Exam>)
    requires IsSubseq(a, b) && AllParse(parse, b) && Sorted(parse, b)
    ensures AllParse(parse, a) && Sorted(parse, a)
    decreases |b|
  {
    SubseqMembers(a, b);
    assert AllParse(parse, a) by {
      forall k | 0 <= k < |a| ensures HasInstant(parse, a[k]) {
        assert a[k] in b;
      }
    }
    if a != [] {
      assert b != [];
      if a[0] == b[0] {
        SubseqSorted(parse, a[1..], b[1..]);
        SubseqMembers(a[1..], b[1..]);
        forall j, k | 0 <= j < k < |a|
          ensures InstantOf(parse, a[j]) <= InstantOf(parse, a[k])
        {
          if j == 0 {
            assert a[k] in a[1..];
            var m :| 0 <= m < |b[1..]| && b[1..][m] == a[k];
            assert b[m + 1] == a[k];
          } else {
            assert a[j] == a[1..][j - 1] && a[k] == a[1..][k - 1];
          }
        }
      } else {
        SubseqSorted(parse, a, b[1..]);
      }
    }
  }

  /** The type filter: "all" passes everything, any other value must equal
      the record's type exactly. */
  predicate TypeMatches(e: Exam, typeFilter: string) {
    typeFilter == AllTypes || e.examType == typeFilter
  }

  /** The search string as used: trimmed, then lower-cased. */
  function Needle(query: string): string {
    Lower(Trim(query))
  }

  /** The lower-cased course or notes contain the needle; an empty needle
      matches everything. */
  predicate SearchMatches(e: Exam, needle: string) {
    needle == [] || Contains(Lower(e.course), needle) || Contains(Lower(e.notes), needle)
  }

  /** The type filter, skipped for "all". */
  function ByType(s: seq<Exam>, typeFilter: string): (r: seq<Exam>)
    ensures IsSubseq(r, s)
    ensures forall e :: multiset(r)[e] == if TypeMatches(e, typeFilter) then multiset(s)[e] else 0
  {
    if typeFilter == AllTypes then
      SubseqRefl(s);
      s
    else Filter(s, (e: Exam) => e.examType == typeFilter)
  }

  /** The search filter, skipped for an empty needle. */
  function BySearch(s: seq<Exam>, query: string): (r: seq<Exam>)
    ensures IsSubseq(r, s)
    ensures forall e :: multiset(r)[e] == if SearchMatches(e, Needle(query)) then multiset(s)[e] else 0
  {
    var needle := Needle(query);
    if needle == [] then
      SubseqRefl(s);
      s
    else Filter(s, (e: Exam) => SearchMatches(e, needle))
  }

  /** The records the list shows: sorted by instant, those of the selected
      type, those matching the search. A record is shown exactly when it
      passes both filters; the shown records keep the sorted order; with no
      type filter and an empty search every record is shown. */
  function Project(parse: Parser, exams: seq<Exam>, typeFilter: string, query: string): (r: seq<Exam>)
    requires AllParse(parse, exams)
    ensures AllParse(parse, r) && Sorted(parse, r)
    ensures IsSubseq(r, Sort(parse, exams))
    ensures forall e :: e in r <==>
              e in exams && TypeMatches(e, typeFilter) && SearchMatches(e, Needle(query))
    ensures forall e :: multiset(r)[e] ==
              if TypeMatches(e, typeFilter) && SearchMatches(e, Needle(query)) then multiset(exams)[e] else 0
    ensures typeFilter == AllTypes && Needle(query) == [] ==> multiset(r) == multiset(exams)
  {
    var sorted := Sort(parse, exams);
    var typed := ByType(sorted, typeFilter);
    var r := BySearch(typed, query);
    SubseqTrans(r, typed, sorted);
    SubseqSorted(parse, r, sorted);
    assert forall e :: e in r <==> multiset(r)[e] > 0;
    assert forall e :: e in exams <==> multiset(exams)[e] > 0;
    r
  }

  /** Records sharing an instant are listed in the order they are stored. */
  lemma ProjectKeepsTieOrder(parse: Parser, exams: seq<Exam>, typeFilter: string, query: string, t: int)
    requires AllParse(parse, exams)
    ensures IsSubseq(AtInstant(parse, Project(parse, exams, typeFilter, query), t), AtInstant(parse, exams, t))
  {
    var r := Project(parse, exams, typeFilter, query);
    SubseqAtInstant(parse, r, Sort(parse, exams), t);
    SortStable(parse, exams, t);
  }

  /** After a confirmed clear the list shows no card whatever the filters;
      after a declined one it shows what it showed before. */
  lemma ClearEmptiesList(parse: Parser, exams: seq<Exam>, typeFilter: string, query: string)
    requires AllParse(parse, exams)
    ensures Project(parse, Clear(exams, true), typeFilter, query) == []
    ensures Project(parse, Clear(exams, false), typeFilter, query)
         == Project(parse, exams, typeFilter, query)
  {
  }
}
