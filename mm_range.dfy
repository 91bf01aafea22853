/** The Range class of the allocation-log checker: page ranges with their end
    excluded, the overlap test, the `%04x-%04x` rendering and the ordering by
    begin that `sort!` uses. */
module MmRange {
  import opened Text

  /** `Range.new(first, last, true)`: pages first, ..., last - 1. */
  datatype Range = Range(begin: nat, end: nat)

  predicate WellFormed(a: Range)
  {
    a.begin < a.end
  }

  /** The half-open overlap rule: the two ranges share a page. */
  predicate Overlap(a: Range, b: Range)
  {
    a.begin < b.end && b.begin < a.end
  }

  /** `a.intersect?(r)`, with the branch on which range starts first kept as
      written. It agrees with the half-open rule for non-empty ranges. */
  function Intersect(a: Range, r: Range): (b: bool)
    ensures WellFormed(a) && WellFormed(r) ==> (b <==> Overlap(a, r))
  {
    if r.begin <= a.begin then r.end > a.begin else r.begin < a.end
  }

  /** For an empty range the branch does not agree with the half-open rule:
      [1,1) and [1,2) share no page, yet the test answers true. */
  lemma IntersectEmptyRange()
    ensures Intersect(Range(1, 1), Range(1, 2))
    ensures !Overlap(Range(1, 1), Range(1, 2))
  {
  }

  /** `to_s`: both ends as zero-padded, lower-case, four-digit hex. */
  function ToS(a: Range): (s: string)
    ensures var k := |Hex4(a.begin)|;
      |s| >= 9 && k < |s| && s[k] == '-' &&
      AllHex(s[..k]) && ParseHex(s[..k]) == a.begin &&
      AllHex(s[k + 1..]) && ParseHex(s[k + 1..]) == a.end
    ensures a.begin < 0x1_0000 && a.end < 0x1_0000 ==> |s| == 9
  {
    var b, e := Hex4(a.begin), Hex4(a.end);
    var s := b + "-" + e;
    assert s[..|b|] == b && s[|b| + 1..] == e;
    s
  }

  /** `<=>` compares ranges by their begin only. */
  predicate SortedByBegin(s: seq<Range>)
  {
    forall i, j :: 0 <= i < j < |s| ==> s[i].begin <= s[j].begin
  }

  lemma SortedTail(s: seq<Range>)
    requires s != [] && SortedByBegin(s)
    ensures SortedByBegin(s[1..])
  {
  }

  /** A range that begins no later than the head of a sorted list can go
      in front of it. */
  lemma SortedCons(x: Range, s: seq<Range>)
    requires SortedByBegin(s) && (s == [] || x.begin <= s[0].begin)
    ensures SortedByBegin([x] + s)
  {
    var r := [x] + s;
    forall i, j | 0 <= i < j < |r| ensures r[i].begin <= r[j].begin {
      assert r[j] == s[j - 1];
      if i > 0 {
        assert r[i] == s[i - 1];
      } else {
        assert s[0].begin <= s[j - 1].begin;
      }
    }
  }

  /** Inserts x in front of the first element that does not begin before it. */
  function Insert(x: Range, s: seq<Range>): (r: seq<Range>)
    requires SortedByBegin(s)
    ensures SortedByBegin(r)
    ensures |r| == |s| + 1
    ensures r[0] == if s == [] || x.begin <= s[0].begin then x else s[0]
  {
    if s == [] then [x]
    else if x.begin <= s[0].begin then
      SortedCons(x, s);
      [x] + s
    else
      SortedTail(s);
      var t := Insert(x, s[1..]);
      SortedCons(s[0], t);
      [s[0]] + t
  }

  /** Insertion adds x and loses nothing. */
  lemma {:induction false} InsertPermutes(x: Range, s: seq<Range>)
    requires SortedByBegin(s)
    ensures multiset(Insert(x, s)) == multiset(s) + multiset{x}
  {
    if s != [] && x.begin > s[0].begin {
      SortedTail(s);
      InsertPermutes(x, s[1..]);
      assert s == [s[0]] + s[1..];
    }
  }

  /** A domain's list after `sort!`: sorted by begin and a permutation,
      which is all Ruby promises. Among ranges with equal begin this keeps
      the input order; Ruby's sort is not stable and may order them
      otherwise. */
  function SortByBegin(s: seq<Range>): (r: seq<Range>)
    ensures SortedByBegin(r)
    ensures multiset(r) == multiset(s)
    ensures |r| == |s|
  {
    if s == [] then []
    else
      var t := SortByBegin(s[1..]);
      InsertPermutes(s[0], t);
      assert s == [s[0]] + s[1..];
      Insert(s[0], t)
  }

  /** Sorting a sorted list changes nothing, so repeated dumps agree. */
  lemma {:induction false} SortSorted(s: seq<Range>)
    requires SortedByBegin(s)
    ensures SortByBegin(s) == s
  {
    if s != [] {
      assert SortedByBegin(s[1..]);
      SortSorted(s[1..]);
    }
  }
}
