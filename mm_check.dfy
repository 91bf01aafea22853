/** The allocation checker: it replays the allocator's log, keeps the live
    page ranges of every memory domain, and reports a new range that
    intersects a live one, or a freed range that is not live.

    The global table `$mm` is a Ruby hash, which iterates in insertion
    order; it is modelled as a list of entries, one per domain, in the
    order the domains were first seen, and looked up by name. A report of
    either kind is followed by a dump of every domain, which sorts each
    domain's list in place.

    Two statements of the script misbehave (see `ReportsAsWritten` and
    `AbortMessageAsWritten`). The replay itself (`AddSpec`, `RemoveSpec`,
    `Replay` and the class `Tracker`) is the corrected script: `add_range`
    reports over the list as it was when the call began, and the abort
    message names the domain. */
module MmCheck {
  import opened Util
  import opened MmRange
  import opened MmLog

  /** One domain of the table: its name and its live ranges. */
  datatype Entry = Entry(domain: string, ranges: seq<Range>)

  /** What the checker prints. */
  datatype Message =
    | Conflict(domain: string, prior: Range, added: Range)
    | NotInDomain(domain: string, range: Range)
    | Dump(entries: seq<Entry>)

  const DASHES: string := "---------------------------------------------"

  /** `ranges.join(",  ")`. */
  function JoinRanges(rs: seq<Range>): (s: string)
    ensures rs == [] <==> s == ""
    ensures |rs| == 1 ==> s == ToS(rs[0])
  {
    if rs == [] then ""
    else if |rs| == 1 then ToS(rs[0])
    else JoinRanges(rs[..|rs| - 1]) + ",  " + ToS(rs[|rs| - 1])
  }

  /** The three lines a dump prints per domain: a header, the ranges and
      an empty line. */
  function SectionLines(t: seq<Entry>): (ls: seq<string>)
    ensures |ls| == 3 * |t|
  {
    if t == [] then []
    else
      var e := t[|t| - 1];
      SectionLines(t[..|t| - 1]) + ["==== [" + e.domain + "] ====", JoinRanges(e.ranges), ""]
  }

  /** The section of the k-th domain: its header, its ranges and an empty
      line, in that order. */
  lemma {:induction false} SectionLinesAt(t: seq<Entry>, k: nat)
    requires k < |t|
    ensures var ls := SectionLines(t);
      ls[3 * k] == "==== [" + t[k].domain + "] ====" &&
      ls[3 * k + 1] == JoinRanges(t[k].ranges) && ls[3 * k + 2] == ""
  {
    var init := t[..|t| - 1];
    var ls := SectionLines(t);
    if k < |t| - 1 {
      SectionLinesAt(init, k);
      assert init[k] == t[k];
      assert ls[3 * k] == SectionLines(init)[3 * k];
      assert ls[3 * k + 1] == SectionLines(init)[3 * k + 1];
      assert ls[3 * k + 2] == SectionLines(init)[3 * k + 2];
    } else {
      assert 3 * k == |SectionLines(init)|;
    }
  }

  /** The lines `puts` writes for a message. */
  function MessageLines(m: Message): (ls: seq<string>)
    ensures m.Conflict? ==> |ls| == 2 && ls[1] == ""
    ensures m.NotInDomain? ==> |ls| == 1
    ensures m.Dump? ==> |ls| == 2 + 3 * |m.entries| && ls[0] == DASHES && ls[|ls| - 1] == DASHES
  {
    match m
    case Conflict(d, o, n) => ["[" + d + "] Range " + ToS(o) + " and " + ToS(n) + " intersect!", ""]
    case NotInDomain(d, r) => ["[" + d + "] Range " + ToS(r) + " is not in domain!"]
    case Dump(t) => [DASHES] + SectionLines(t) + [DASHES]
  }

  // ---------------------------------------------------------------------
  // The table as a value.
  // ---------------------------------------------------------------------

  /** `$mm[name]`: the position of the domain's entry, if it has one. */
  function IndexOf(t: seq<Entry>, name: string): (r: Option<nat>)
    ensures r.Some? ==> r.value < |t| && t[r.value].domain == name
    ensures r.Some? ==> forall k :: 0 <= k < r.value ==> t[k].domain != name
    ensures r.None? <==> forall k :: 0 <= k < |t| ==> t[k].domain != name
  {
    if t == [] then None
    else if t[0].domain == name then Some(0)
    else match IndexOf(t[1..], name)
      case None => None
      case Some(i) => Some(i + 1)
  }

  /** Two tables with the same domains in the same places. */
  predicate SameDomains(t: seq<Entry>, u: seq<Entry>)
  {
    |t| == |u| && forall k :: 0 <= k < |t| ==> t[k].domain == u[k].domain
  }

  /** Lookup depends on the domains only. */
  lemma IndexOfSame(t: seq<Entry>, u: seq<Entry>, name: string)
    requires SameDomains(t, u)
    ensures IndexOf(t, name) == IndexOf(u, name)
  {
    var a, b := IndexOf(t, name), IndexOf(u, name);
    if a.Some? {
      assert u[a.value].domain == name;
      assert b.Some? && b.value <= a.value;
      assert t[b.value].domain == name;
    } else {
      assert forall k :: 0 <= k < |u| ==> u[k].domain == t[k].domain;
    }
  }

  /** The live ranges of a domain; an unknown domain has none. */
  function Live(t: seq<Entry>, name: string): seq<Range>
  {
    match IndexOf(t, name)
    case None => []
    case Some(i) => t[i].ranges
  }

  /** Every domain has one entry. */
  predicate Distinct(t: seq<Entry>)
  {
    forall i, j :: 0 <= i < j < |t| ==> t[i].domain != t[j].domain
  }

  /** Every list sorted by begin, as `dump_mm` leaves it. */
  function SortAll(t: seq<Entry>): (u: seq<Entry>)
    ensures |u| == |t|
    ensures forall k :: 0 <= k < |t| ==> u[k] == Entry(t[k].domain, SortByBegin(t[k].ranges))
  {
    seq(|t|, k requires 0 <= k < |t| => Entry(t[k].domain, SortByBegin(t[k].ranges)))
  }

  /** Sorting keeps every domain in its place and every list's ranges. */
  lemma SortAllKeeps(t: seq<Entry>)
    ensures SameDomains(t, SortAll(t))
    ensures forall k :: 0 <= k < |t| ==>
      SortedByBegin(SortAll(t)[k].ranges) && multiset(SortAll(t)[k].ranges) == multiset(t[k].ranges)
  {
  }

  /** A second sort changes nothing. */
  lemma SortAllTwice(t: seq<Entry>)
    ensures SortAll(SortAll(t)) == SortAll(t)
  {
    forall k | 0 <= k < |t| ensures SortByBegin(SortByBegin(t[k].ranges)) == SortByBegin(t[k].ranges) {
      SortSorted(SortByBegin(t[k].ranges));
    }
  }

  /** The dump printed for table t. */
  function DumpOf(t: seq<Entry>): (m: Message)
  {
    Dump(SortAll(t))
  }

  /** A dump lists every domain once, in first-seen order, each with its
      live ranges sorted by begin. */
  lemma DumpShows(t: seq<Entry>)
    ensures var m := DumpOf(t);
      m.Dump? && SameDomains(t, m.entries) &&
      (forall k :: 0 <= k < |t| ==>
        SortedByBegin(m.entries[k].ranges) && multiset(m.entries[k].ranges) == multiset(t[k].ranges))
    ensures Distinct(t) ==> Distinct(DumpOf(t).entries)
  {
    SortAllKeeps(t);
  }

  /** The live ranges that the new range r intersects, in list order. */
  function Hits(live: seq<Range>, r: Range): (h: seq<Range>)
    ensures |h| <= |live|
  {
    if live == [] then []
    else
      var x := live[|live| - 1];
      Hits(live[..|live| - 1], r) + (if Intersect(r, x) then [x] else [])
  }

  lemma {:induction false} HitsMembers(live: seq<Range>, r: Range)
    ensures forall x :: x in Hits(live, r) <==> x in live && Intersect(r, x)
  {
    if live != [] {
      HitsMembers(live[..|live| - 1], r);
      assert live == live[..|live| - 1] + [live[|live| - 1]];
    }
  }

  /** For each hit, its report followed by a dump d. */
  function Reports(name: string, hits: seq<Range>, r: Range, d: Message): (ms: seq<Message>)
    ensures |ms| == 2 * |hits|
    ensures forall k :: 0 <= k < |hits| ==> ms[2 * k] == Conflict(name, hits[k], r) && ms[2 * k + 1] == d
  {
    if hits == [] then []
    else Reports(name, hits[..|hits| - 1], r, d) + [Conflict(name, hits[|hits| - 1], r), d]
  }

  /** Scanning one more live range extends the hits by that range when it
      intersects the new one. */
  lemma HitsStep(live: seq<Range>, r: Range, i: nat)
    requires i < |live|
    ensures Hits(live[..i + 1], r) == Hits(live[..i], r) + (if Intersect(r, live[i]) then [live[i]] else [])
  {
    var p := live[..i + 1];
    assert p[..|p| - 1] == live[..i] && p[|p| - 1] == live[i];
  }

  /** One more hit adds its report and a dump. */
  lemma ReportsSnoc(name: string, h: seq<Range>, x: Range, r: Range, d: Message)
    ensures Reports(name, h + [x], r, d) == Reports(name, h, r, d) + [Conflict(name, x, r), d]
  {
    var h1 := h + [x];
    assert h1[..|h1| - 1] == h && h1[|h1| - 1] == x;
  }

  /** The conflicting ranges named by a list of messages. */
  function ConflictsIn(ms: seq<Message>): seq<Range>
  {
    if ms == [] then []
    else ConflictsIn(ms[..|ms| - 1]) + (if ms[|ms| - 1].Conflict? then [ms[|ms| - 1].prior] else [])
  }

  /** `$mm[domain] = [] unless $mm[domain]`: a domain is created empty, at
      the end of the table, on first sight. */
  function Touch(t: seq<Entry>, name: string): (u: seq<Entry>)
    ensures IndexOf(u, name).Some?
    ensures IndexOf(t, name).Some? ==> u == t
    ensures IndexOf(t, name).None? ==> u == t + [Entry(name, [])] && IndexOf(u, name) == Some(|t|)
  {
    if IndexOf(t, name).Some? then t
    else
      var u := t + [Entry(name, [])];
      assert u[|t|].domain == name;
      u
  }

  /** What one entry point leaves behind: the new table, the messages it
      printed, and the abort message when it stopped the scan. */
  datatype Outcome = Outcome(st: seq<Entry>, out: seq<Message>, abort: Option<string>)

  /** `add_range`, with the reports taken over the list as it was when the
      call began: every live range the new one intersects is reported once,
      each report followed by a dump; then the new range is appended. */
  function AddSpec(t: seq<Entry>, name: string, r: Range): (o: Outcome)
    ensures o.abort.None?
    ensures |o.st| == |t| + (if IndexOf(t, name).None? then 1 else 0)
    ensures forall k :: 0 <= k < |t| ==> o.st[k].domain == t[k].domain
    ensures IndexOf(t, name).None? ==> o.st[|t|].domain == name
  {
    var t1 := Touch(t, name);
    var i := IndexOf(t1, name).value;
    var hits := Hits(t1[i].ranges, r);
    var t2 := if hits == [] then t1 else SortAll(t1);
    assert |t2| == |t1| && forall k :: 0 <= k < |t1| ==> t2[k].domain == t1[k].domain;
    Outcome(t2[i := Entry(name, t2[i].ranges + [r])], Reports(name, hits, r, DumpOf(t1)), None)
  }

  /** Ruby's `Array#delete`: every element equal to x is removed. */
  function Without(s: seq<Range>, x: Range): (t: seq<Range>)
    ensures |t| <= |s|
    ensures x in s <==> |t| < |s|
  {
    if s == [] then []
    else
      var last := s[|s| - 1];
      Without(s[..|s| - 1], x) + (if last == x then [] else [last])
  }

  /** Deleting an absent range changes nothing. */
  lemma {:induction false} WithoutAbsent(s: seq<Range>, x: Range)
    requires x !in s
    ensures Without(s, x) == s
  {
    if s != [] {
      WithoutAbsent(s[..|s| - 1], x);
      assert s == s[..|s| - 1] + [s[|s| - 1]];
    }
  }

  lemma {:induction false} WithoutCounts(s: seq<Range>, x: Range)
    ensures x !in Without(s, x)
    ensures forall y :: y != x ==> multiset(Without(s, x))[y] == multiset(s)[y]
  {
    if s != [] {
      var last := s[|s| - 1];
      WithoutCounts(s[..|s| - 1], x);
      assert s == s[..|s| - 1] + [last];
    }
  }

  /** `remove_range`, corrected: an unknown domain aborts the whole scan
      with a message naming it; a live range is dropped (every copy of it);
      any other range is reported, followed by a dump. */
  function RemoveSpec(t: seq<Entry>, name: string, r: Range): (o: Outcome)
    ensures o.abort.Some? <==> IndexOf(t, name).None?
    ensures SameDomains(t, o.st)
  {
    match IndexOf(t, name)
    case None => Outcome(t, [], Some(AbortMessage(name)))
    case Some(i) =>
      if r in t[i].ranges then Outcome(t[i := Entry(name, Without(t[i].ranges, r))], [], None)
      else Outcome(SortAll(t), [NotInDomain(name, r), DumpOf(t)], None)
  }

  /** The text `fail` raises for an unknown domain, naming that domain. */
  function AbortMessage(name: string): (s: string)
    ensures |s| == 20 + |name|
    ensures s[19..19 + |name|] == name
  {
    var s := "unknown mm domain \"" + name + "\"";
    assert s[19..19 + |name|] == name;
    s
  }

  /** One log line of `scan_for_errors`. */
  function Step(t: seq<Entry>, line: string): Outcome
  {
    match ParseLine(line)
    case None => Outcome(t, [], None)
    case Some(Alloc(d, a, b)) => AddSpec(t, d, Range(a, b))
    case Some(Free(d, a, b)) => RemoveSpec(t, d, Range(a, b))
  }

  /** The whole scan: every message printed, and the abort message if the
      scan stopped early. */
  function Replay(t: seq<Entry>, lines: seq<string>): Outcome
  {
    if lines == [] then Outcome(t, [], None)
    else
      var o1 := Replay(t, lines[..|lines| - 1]);
      if o1.abort.Some? then o1
      else
        var o2 := Step(o1.st, lines[|lines| - 1]);
        Outcome(o2.st, o1.out + o2.out, o2.abort)
  }

  // ---------------------------------------------------------------------
  // Properties of one entry point.
  // ---------------------------------------------------------------------

  lemma {:induction false} ConflictsOfReports(name: string, hits: seq<Range>, r: Range, d: Message)
    requires d.Dump?
    ensures ConflictsIn(Reports(name, hits, r, d)) == hits
  {
    if hits != [] {
      var ms := Reports(name, hits, r, d);
      var front := Reports(name, hits[..|hits| - 1], r, d);
      assert ms == front + [Conflict(name, hits[|hits| - 1], r), d];
      assert ms[..|ms| - 1] == front + [Conflict(name, hits[|hits| - 1], r)];
      assert ms[..|ms| - 1][..|ms| - 2] == front;
      ConflictsOfReports(name, hits[..|hits| - 1], r, d);
    }
  }

  /** The reports of an addition are exactly the live ranges of the domain
      that the new range intersects, each once and in list order, and a
      live range that shares a page with the new one is always among them. */
  lemma AddReports(t: seq<Entry>, name: string, r: Range)
    ensures var live := Live(t, name);
      var ms := AddSpec(t, name, r).out;
      ConflictsIn(ms) == Hits(live, r) &&
      (forall x :: x in live && WellFormed(x) && WellFormed(r) && Overlap(x, r) ==> Conflict(name, x, r) in ms)
  {
    var t1 := Touch(t, name);
    var live := t1[IndexOf(t1, name).value].ranges;
    assert live == Live(t, name);
    var hits := Hits(live, r);
    var ms := AddSpec(t, name, r).out;
    assert ms == Reports(name, hits, r, DumpOf(t1));
    ConflictsOfReports(name, hits, r, DumpOf(t1));
    HitsMembers(live, r);
    forall x | x in live && WellFormed(x) && WellFormed(r) && Overlap(x, r)
      ensures Conflict(name, x, r) in ms
    {
      assert x in hits;
      var k :| 0 <= k < |hits| && hits[k] == x;
      assert ms[2 * k] == Conflict(name, x, r);
    }
  }

  /** A range that intersects nothing live is appended silently, and the
      table is otherwise left as it was. */
  lemma AddQuiet(t: seq<Entry>, name: string, r: Range)
    requires forall x :: x in Live(t, name) ==> !Intersect(r, x)
    ensures var o := AddSpec(t, name, r);
      var t1 := Touch(t, name);
      var i := IndexOf(t1, name).value;
      o.out == [] && o.st == t1[i := Entry(name, Live(t, name) + [r])]
  {
    var t1 := Touch(t, name);
    var live := t1[IndexOf(t1, name).value].ranges;
    assert live == Live(t, name);
    HitsMembers(live, r);
    if Hits(live, r) != [] {
      assert Hits(live, r)[0] in Hits(live, r);
    }
  }

  /** After an addition the domain holds its old ranges plus the new one,
      and every other domain holds the same ranges as before. */
  lemma AddContents(t: seq<Entry>, name: string, r: Range)
    ensures var t2 := AddSpec(t, name, r).st;
      multiset(Live(t2, name)) == multiset(Live(t, name)) + multiset{r} &&
      (forall n :: n != name ==> multiset(Live(t2, n)) == multiset(Live(t, n)))
  {
    var t1 := Touch(t, name);
    var t3 := AddSpec(t, name, r).st;
    AddKeepsDomains(t, name, r);
    IndexOfSame(t1, t3, name);
    SortAllKeeps(t1);
    forall n | n != name
      ensures multiset(Live(t3, n)) == multiset(Live(t, n))
    {
      AddOther(t, name, r, n);
    }
  }

  /** An addition keeps the domains of the touched table in place. */
  lemma AddKeepsDomains(t: seq<Entry>, name: string, r: Range)
    ensures SameDomains(Touch(t, name), AddSpec(t, name, r).st)
  {
    SortAllKeeps(Touch(t, name));
  }

  /** An addition leaves the ranges of every other domain as they were. */
  lemma AddOther(t: seq<Entry>, name: string, r: Range, n: string)
    requires n != name
    ensures multiset(Live(AddSpec(t, name, r).st, n)) == multiset(Live(t, n))
  {
    var t1 := Touch(t, name);
    var t3 := AddSpec(t, name, r).st;
    AddKeepsDomains(t, name, r);
    IndexOfSame(t1, t3, n);
    SortAllKeeps(t1);
    TouchOther(t, name, n);
  }

  /** Creating a domain does not move the others. */
  lemma TouchOther(t: seq<Entry>, name: string, n: string)
    requires n != name
    ensures IndexOf(Touch(t, name), n) == IndexOf(t, n)
  {
    var u := Touch(t, name);
    if IndexOf(t, name).None? {
      assert forall k :: 0 <= k < |t| ==> u[k] == t[k];
      assert u[|t|].domain != n;
    }
  }

  /** Freeing a live range drops every copy of it and nothing else;
      freeing anything else keeps the ranges and reports it, followed by a
      dump. */
  lemma RemoveContents(t: seq<Entry>, name: string, r: Range)
    requires IndexOf(t, name).Some?
    ensures var o := RemoveSpec(t, name, r);
      o.abort.None? &&
      r !in Live(o.st, name) &&
      (forall y :: y != r ==> multiset(Live(o.st, name))[y] == multiset(Live(t, name))[y]) &&
      (forall n :: n != name ==> multiset(Live(o.st, n)) == multiset(Live(t, n))) &&
      (o.out == [] <==> r in Live(t, name)) &&
      (r !in Live(t, name) ==> o.out == [NotInDomain(name, r), DumpOf(t)])
  {
    var i := IndexOf(t, name).value;
    var o := RemoveSpec(t, name, r);
    WithoutCounts(t[i].ranges, r);
    SortAllKeeps(t);
    IndexOfSame(t, o.st, name);
    forall n | n != name
      ensures multiset(Live(o.st, n)) == multiset(Live(t, n))
    {
      IndexOfSame(t, o.st, n);
    }
    if r !in t[i].ranges {
      assert multiset(t[i].ranges)[r] == 0;
    }
  }

  /** Any range freed in an unknown domain stops the scan. */
  lemma RemoveUnknown(t: seq<Entry>, name: string, r: Range)
    requires IndexOf(t, name).None?
    ensures RemoveSpec(t, name, r) == Outcome(t, [], Some(AbortMessage(name)))
  {
  }

  /** Every step keeps one entry per domain. */
  lemma StepDistinct(t: seq<Entry>, line: string)
    requires Distinct(t)
    ensures Distinct(Step(t, line).st)
  {
    match ParseLine(line)
    case None =>
    case Some(Alloc(d, a, b)) =>
      var o := AddSpec(t, d, Range(a, b));
      if IndexOf(t, d).None? {
        forall i, j | 0 <= i < j < |o.st| ensures o.st[i].domain != o.st[j].domain {
          if j == |t| {
            assert t[i].domain != d;
          }
        }
      }
    case Some(Free(d, a, b)) =>
  }

  /** Once the scan has stopped, the remaining lines change nothing. */
  lemma {:induction false} ReplayStops(t: seq<Entry>, lines: seq<string>, i: nat)
    requires i <= |lines|
    requires i == |lines| || Replay(t, lines[..i]).abort.Some?
    ensures Replay(t, lines) == Replay(t, lines[..i])
    decreases |lines| - i
  {
    if i < |lines| {
      var front := lines[..|lines| - 1];
      assert front[..i] == lines[..i];
      ReplayStops(t, front, i);
    } else {
      assert lines[..i] == lines;
    }
  }

  /** A whole scan keeps one entry per domain. */
  lemma {:induction false} ReplayDistinct(t: seq<Entry>, lines: seq<string>)
    requires Distinct(t)
    ensures Distinct(Replay(t, lines).st)
  {
    if lines != [] {
      ReplayDistinct(t, lines[..|lines| - 1]);
      var o1 := Replay(t, lines[..|lines| - 1]);
      if o1.abort.None? {
        StepDistinct(o1.st, lines[|lines| - 1]);
      }
    }
  }

  // ---------------------------------------------------------------------
  // Whole scans over logs that pscnv writes.
  // ---------------------------------------------------------------------

  /** A scan of two lines is the first step followed by the second. */
  lemma ReplayTwo(t: seq<Entry>, a: string, b: string)
    requires Step(t, a).abort.None?
    ensures var o1 := Step(t, a); var o2 := Step(o1.st, b);
      Replay(t, [a, b]) == Outcome(o2.st, o1.out + o2.out, o2.abort)
  {
    var lines := [a, b];
    assert lines[..1] == [a] && lines[..1][..0] == [];
    assert Replay(t, [a]) == Outcome(Step(t, a).st, [] + Step(t, a).out, None);
    assert [] + Step(t, a).out == Step(t, a).out;
  }

  /** The first range of a fresh table is added silently. */
  lemma AddFirst(name: string, r: Range)
    ensures AddSpec([], name, r) == Outcome([Entry(name, [r])], [], None)
  {
    var t1 := [Entry(name, [])];
    assert Touch([], name) == t1;
    assert IndexOf(t1, name) == Some(0);
    assert Hits([], r) == [];
    assert [] + [r] == [r];
    assert t1[0 := Entry(name, [r])] == [Entry(name, [r])];
  }

  /** Freeing the only live range of the only domain empties it silently. */
  lemma RemoveOnly(name: string, r: Range)
    ensures RemoveSpec([Entry(name, [r])], name, r) == Outcome([Entry(name, [])], [], None)
  {
    assert Without([r], r) == [] by {
      assert [r][..0] == [];
    }
  }

  /** Adding a live, non-empty range again reports it once and keeps both. */
  lemma AddAgain(name: string, r: Range)
    requires WellFormed(r)
    ensures var t := [Entry(name, [r])]; var o := AddSpec(t, name, r);
      o.st == [Entry(name, [r, r])] && ConflictsIn(o.out) == [r]
  {
    var t := [Entry(name, [r])];
    assert Touch(t, name) == t;
    assert IndexOf(t, name) == Some(0);
    assert Hits([r], r) == [r] by {
      assert [r][..0] == [];
      assert Intersect(r, r);
    }
    SortSorted([r]);
    assert SortAll(t) == t;
    assert [r] + [r] == [r, r];
    assert t[0 := Entry(name, [r, r])] == [Entry(name, [r, r])];
    ConflictsOfReports(name, [r], r, DumpOf(t));
  }

  /** After a first line that prints nothing, a scan of two lines is the
      second step alone. */
  lemma ReplayQuietThen(t: seq<Entry>, a: string, b: string, t1: seq<Entry>)
    requires Step(t, a) == Outcome(t1, [], None)
    ensures Replay(t, [a, b]) == Step(t1, b)
  {
    ReplayTwo(t, a, b);
    var o2 := Step(t1, b);
    assert [] + o2.out == o2.out;
  }

  /** A logged allocation of pages [lo, hi) into a fresh table, then a
      logged free of the same pages: nothing is printed and the domain is
      left empty. */
  lemma AllocThenFree(a: string, f: string, domain: string, lo: nat, hi: nat)
    requires ParseLine(a) == Some(Alloc(domain, lo, hi)) && ParseLine(f) == Some(Free(domain, lo, hi))
    ensures var o := Replay([], [a, f]);
      o.out == [] && o.abort.None? && o.st == [Entry(domain, [])]
  {
    var r := Range(lo, hi);
    AddFirst(domain, r);
    ReplayQuietThen([], a, f, [Entry(domain, [r])]);
    RemoveOnly(domain, r);
  }

  /** A second logged allocation of a live, non-empty page range is
      reported exactly once, against the first, and both copies stay
      live. */
  lemma DoubleAlloc(a: string, domain: string, lo: nat, hi: nat)
    requires ParseLine(a) == Some(Alloc(domain, lo, hi)) && lo < hi
    ensures var o := Replay([], [a, a]);
      o.abort.None? && ConflictsIn(o.out) == [Range(lo, hi)] && o.st == [Entry(domain, [Range(lo, hi), Range(lo, hi)])]
  {
    var r := Range(lo, hi);
    AddFirst(domain, r);
    ReplayQuietThen([], a, a, [Entry(domain, [r])]);
    AddAgain(domain, r);
  }

  /** A node of at least one page covers at least one page number, so
      the lines of its allocation and of a second one are a double
      allocation as above. */
  lemma PagesOfNode(start: nat, size: nat)
    requires size >= 4096
    ensures start / 4096 < (start + size) / 4096
  {
    assert (start + size) / 4096 >= (start + 4096) / 4096 == start / 4096 + 1;
  }

  // ---------------------------------------------------------------------
  // The code as written, where it differs from the model above.
  // ---------------------------------------------------------------------

  /** The ranges `add_range` reports as written: it walks the domain's
      array by index while each report's dump sorts that same array in
      place, so the positions after a report are read from the sorted
      array. */
  function ReportsAsWritten(cur: seq<Range>, r: Range, j: nat): (reported: seq<Range>)
    requires j <= |cur|
    ensures |reported| <= |cur| - j
    decreases |cur| - j
  {
    if j >= |cur| then []
    else if Intersect(r, cur[j]) then
      var sorted := SortByBegin(cur);
      assert |sorted| == |cur|;
      [cur[j]] + ReportsAsWritten(sorted, r, j + 1)
    else ReportsAsWritten(cur, r, j + 1)
  }

  /** With live ranges [3,4), [5,6), [1,2) and the new range [1,4), the
      code as written reports [3,4) twice and never reports [1,2), although
      [1,2) shares page 1 with the new range. */
  lemma ReportsAsWrittenCounterexample()
    ensures var live := [Range(3, 4), Range(5, 6), Range(1, 2)];
      ReportsAsWritten(live, Range(1, 4), 0) == [Range(3, 4), Range(3, 4)] &&
      Hits(live, Range(1, 4)) == [Range(3, 4), Range(1, 2)] &&
      Overlap(Range(1, 2), Range(1, 4))
  {
    ReportsExample();
    HitsExample();
  }

  lemma ReportsExample()
    ensures ReportsAsWritten([Range(3, 4), Range(5, 6), Range(1, 2)], Range(1, 4), 0) == [Range(3, 4), Range(3, 4)]
  {
    SortExample();
    ReportsAfterSort();
    ReportedTwice([Range(3, 4), Range(5, 6), Range(1, 2)], Range(1, 4));
  }

  /** The first range is reported, and the walk over the sorted array
      reports it once more. */
  lemma ReportedTwice(cur: seq<Range>, r: Range)
    requires cur != [] && Intersect(r, cur[0])
    requires ReportsAsWritten(SortByBegin(cur), r, 1) == [cur[0]]
    ensures ReportsAsWritten(cur, r, 0) == [cur[0], cur[0]]
  {
    ReportsAsWrittenHit(cur, r, 0);
  }

  /** A report re-reads the rest of the array after sorting it. */
  lemma ReportsAsWrittenHit(cur: seq<Range>, r: Range, j: nat)
    requires j < |cur| && Intersect(r, cur[j])
    ensures ReportsAsWritten(cur, r, j) == [cur[j]] + ReportsAsWritten(SortByBegin(cur), r, j + 1)
  {
  }

  /** Once the array is sorted, the walk from position 1 meets [3,4) again. */
  lemma ReportsAfterSort()
    ensures ReportsAsWritten([Range(1, 2), Range(3, 4), Range(5, 6)], Range(1, 4), 1) == [Range(3, 4)]
  {
    var sorted := [Range(1, 2), Range(3, 4), Range(5, 6)];
    SortSorted(sorted);
    assert ReportsAsWritten(sorted, Range(1, 4), 3) == [];
    assert !Intersect(Range(1, 4), sorted[2]);
    assert ReportsAsWritten(sorted, Range(1, 4), 2) == [];
  }

  lemma SortExample()
    ensures SortByBegin([Range(3, 4), Range(5, 6), Range(1, 2)]) == [Range(1, 2), Range(3, 4), Range(5, 6)]
  {
    var live := [Range(3, 4), Range(5, 6), Range(1, 2)];
    assert live[1..][1..] == [Range(1, 2)];
    assert SortByBegin([Range(1, 2)]) == [Range(1, 2)] by {
      assert [Range(1, 2)][1..] == [];
    }
    assert live[1..] == [Range(5, 6), Range(1, 2)];
    assert Insert(Range(5, 6), [Range(1, 2)]) == [Range(1, 2), Range(5, 6)] by {
      assert [Range(1, 2)][1..] == [];
    }
    assert Insert(Range(3, 4), [Range(1, 2), Range(5, 6)]) == [Range(1, 2), Range(3, 4), Range(5, 6)] by {
      assert [Range(1, 2), Range(5, 6)][1..] == [Range(5, 6)];
    }
  }

  lemma HitsExample()
    ensures Hits([Range(3, 4), Range(5, 6), Range(1, 2)], Range(1, 4)) == [Range(3, 4), Range(1, 2)]
  {
    var live := [Range(3, 4), Range(5, 6), Range(1, 2)];
    assert live[..2] == [Range(3, 4), Range(5, 6)];
    assert live[..2][..1] == [Range(3, 4)] && live[..2][..1][..0] == [];
  }

  /** The text `fail` raises as written: it interpolates `$1`, which in
      `remove_range` belongs to no match, so the domain name is lost. */
  function AbortMessageAsWritten(name: string): (s: string)
    ensures |s| == 20
  {
    "unknown mm domain \"" + "" + "\""
  }

  /** As written, the message cannot tell two domains apart; the corrected
      message names the domain, so different domains give different
      messages. */
  lemma AbortMessageNamesDomain(a: string, b: string)
    ensures AbortMessageAsWritten(a) == AbortMessageAsWritten(b)
    ensures a != b ==> AbortMessage(a) != AbortMessage(b)
  {
    if |a| == |b| && AbortMessage(a) == AbortMessage(b) {
      assert a == AbortMessage(a)[19..19 + |a|];
    }
  }

  // ---------------------------------------------------------------------
  // The corrected checker, run the way the script runs: one global table
  // updated in place.
  // ---------------------------------------------------------------------

  class Tracker {
    /** `$mm`. */
    var table: seq<Entry>

    constructor()
      ensures table == []
    {
      table := [];
    }

    /** `dump_mm`: sorts every list in place and prints every domain. */
    method DumpMm() returns (m: Message)
      modifies this
      ensures table == SortAll(old(table))
      ensures m == DumpOf(old(table))
    {
      var i := 0;
      while i < |table|
        invariant 0 <= i <= |table| == |old(table)|
        invariant forall k :: 0 <= k < i ==> table[k] == Entry(old(table)[k].domain, SortByBegin(old(table)[k].ranges))
        invariant forall k :: i <= k < |table| ==> table[k] == old(table)[k]
      {
        table := table[i := Entry(table[i].domain, SortByBegin(table[i].ranges))];
        i := i + 1;
      }
      m := Dump(table);
    }

    /** `add_range`, reporting over the list as it was when the call began. */
    method AddRange(name: string, r: Range) returns (out: seq<Message>)
      modifies this
      ensures Outcome(table, out, None) == AddSpec(old(table), name, r)
    {
      if IndexOf(table, name).None? {
        table := table + [Entry(name, [])];
      }
      ghost var t1 := table;
      assert t1 == Touch(old(table), name);
      var i := IndexOf(table, name).value;
      var live := table[i].ranges;
      SortAllTwice(t1);
      out := [];
      var j := 0;
      assert live[..0] == [];
      while j < |live|
        invariant 0 <= j <= |live|
        invariant out == Reports(name, Hits(live[..j], r), r, DumpOf(t1))
        invariant table == if Hits(live[..j], r) == [] then t1 else SortAll(t1)
      {
        HitsStep(live, r, j);
        ghost var h := Hits(live[..j], r);
        if Intersect(r, live[j]) {
          ReportsSnoc(name, h, live[j], r, DumpOf(t1));
          var d := DumpMm();
          assert d == DumpOf(t1) && table == SortAll(t1);
          out := out + [Conflict(name, live[j], r), d];
          assert Hits(live[..j + 1], r) == h + [live[j]];
          assert out == Reports(name, Hits(live[..j + 1], r), r, DumpOf(t1));
        } else {
          assert h + [] == h;
        }
        j := j + 1;
      }
      assert live[..j] == live;
      table := table[i := Entry(name, table[i].ranges + [r])];
    }

    /** `Array#delete` on the list at position i. */
    method Delete(i: nat, r: Range) returns (found: bool)
      requires i < |table|
      modifies this
      ensures found == (r in old(table)[i].ranges)
      ensures table == old(table)[i := Entry(old(table)[i].domain, Without(old(table)[i].ranges, r))]
    {
      var live := table[i].ranges;
      var kept: seq<Range> := [];
      var j := 0;
      while j < |live|
        invariant 0 <= j <= |live|
        invariant kept == Without(live[..j], r)
      {
        assert live[..j + 1][..j] == live[..j];
        if live[j] != r {
          kept := kept + [live[j]];
        }
        j := j + 1;
      }
      assert live[..j] == live;
      found := |kept| < |live|;
      table := table[i := Entry(table[i].domain, kept)];
    }

    /** `remove_range`, aborting with the corrected message. */
    method RemoveRange(name: string, r: Range) returns (out: seq<Message>, abort: Option<string>)
      modifies this
      ensures Outcome(table, out, abort) == RemoveSpec(old(table), name, r)
    {
      out := [];
      var idx := IndexOf(table, name);
      if idx.None? {
        abort := Some(AbortMessage(name));
        return;
      }
      abort := None;
      var found := Delete(idx.value, r);
      if !found {
        WithoutAbsent(old(table)[idx.value].ranges, r);
        assert table == old(table);
        var d := DumpMm();
        out := [NotInDomain(name, r), d];
      }
    }

    /** `scan_for_errors` over the lines of the log. */
    method ScanForErrors(lines: seq<string>) returns (out: seq<Message>, abort: Option<string>)
      modifies this
      ensures Outcome(table, out, abort) == Replay(old(table), lines)
    {
      out := [];
      abort := None;
      var i := 0;
      assert lines[..0] == [];
      while i < |lines| && abort.None?
        invariant 0 <= i <= |lines|
        invariant Outcome(table, out, abort) == Replay(old(table), lines[..i])
      {
        ghost var prev := table;
        ghost var before := out;
        var more: seq<Message> := [];
        match ParseLine(lines[i]) {
          case None =>
          case Some(Alloc(d, a, b)) =>
            more := AddRange(d, Range(a, b));
          case Some(Free(d, a, b)) =>
            more, abort := RemoveRange(d, Range(a, b));
        }
        assert Outcome(table, more, abort) == Step(prev, lines[i]);
        out := out + more;
        ghost var p := lines[..i + 1];
        assert p[..|p| - 1] == lines[..i] && p[|p| - 1] == lines[i];
        assert Replay(old(table), lines[..i]) == Outcome(prev, before, None);
        assert Replay(old(table), p) == Outcome(table, before + more, abort);
        i := i + 1;
        assert lines[..i] == p;
        assert Outcome(table, out, abort) == Replay(old(table), lines[..i]);
      }
      ReplayStops(old(table), lines, i);
    }
  }
}
