/** The log lines the allocation checker reads: the two patterns it scans
    for, a matcher for them, and the round trip from the lines pscnv's
    allocator writes to the events the checker sees.

    The matcher is greedy and never backtracks. For the two patterns used
    here that gives the same match as a backtracking regex engine: every
    `\w+` or `\h+` is followed by literal text whose first character lies
    outside its class, or ends the pattern. */
module MmLog {
  import opened Util
  import opened Text

  /** Ruby's `\w`. */
  predicate IsWordChar(c: char)
  {
    ('a' <= c <= 'z') || ('A' <= c <= 'Z') || ('0' <= c <= '9') || c == '_'
  }

  predicate IsWord(w: string)
  {
    |w| > 0 && forall k :: 0 <= k < |w| ==> IsWordChar(w[k])
  }

  /** One element of a pattern: literal text, `\w+` or `\h+`. Every `\w+`
      and `\h+` yields a capture. */
  datatype Tok = Lit(text: string) | Word | Hex

  predicate InClass(c: Tok, ch: char)
    requires !c.Lit?
  {
    if c.Word? then IsWordChar(ch) else IsHexChar(ch)
  }

  /** The non-literal elements of a pattern, in order. */
  function Classes(pat: seq<Tok>): (r: seq<Tok>)
    ensures |r| <= |pat|
    ensures forall k :: 0 <= k < |r| ==> !r[k].Lit?
  {
    if pat == [] then []
    else if pat[0].Lit? then Classes(pat[1..])
    else [pat[0]] + Classes(pat[1..])
  }

  /** w is a non-empty run of characters of class c. */
  predicate Fits(c: Tok, w: string)
  {
    !c.Lit? && |w| > 0 && forall k :: 0 <= k < |w| ==> InClass(c, w[k])
  }

  /** One capture per class element of pat, each fitting its class. */
  predicate Captures(pat: seq<Tok>, caps: seq<string>)
  {
    var cl := Classes(pat);
    |caps| == |cl| && forall k :: 0 <= k < |caps| ==> Fits(cl[k], caps[k])
  }

  /** The length of the longest prefix of t made of class-c characters. */
  function Run(c: Tok, t: string): (n: nat)
    requires !c.Lit?
    ensures n <= |t|
    ensures forall k :: 0 <= k < n ==> InClass(c, t[k])
    ensures n == |t| || !InClass(c, t[n])
  {
    if t != [] && InClass(c, t[0]) then 1 + Run(c, t[1..]) else 0
  }

  /** Matches pat against a prefix of t; the result is the captures. */
  function MatchPrefix(pat: seq<Tok>, t: string): (r: Option<seq<string>>)
    ensures r.Some? ==> Captures(pat, r.value)
    decreases |pat|
  {
    if pat == [] then Some([])
    else if pat[0].Lit? then
      var lit := pat[0].text;
      if lit <= t then MatchPrefix(pat[1..], t[|lit|..]) else None
    else
      var n := Run(pat[0], t);
      if n == 0 then None
      else match MatchPrefix(pat[1..], t[n..])
        case None => None
        case Some(c) => Some([t[..n]] + c)
  }

  /** The pattern matches at no position from i up to k. */
  predicate NoMatchIn(pat: seq<Tok>, s: string, i: nat, k: nat)
    requires k <= |s|
  {
    forall j {:trigger MatchPrefix(pat, s[j..])} :: i <= j < k ==> MatchPrefix(pat, s[j..]).None?
  }

  /** The leftmost position from i on where the pattern matches, or
      |s| + 1 when there is none. */
  function FirstMatch(pat: seq<Tok>, s: string, i: nat): (k: nat)
    requires i <= |s|
    ensures i <= k <= |s| + 1
    ensures k <= |s| ==> MatchPrefix(pat, s[k..]).Some?
    ensures forall j {:trigger MatchPrefix(pat, s[j..])} :: i <= j < k && j <= |s| ==> MatchPrefix(pat, s[j..]).None?
    decreases |s| - i
  {
    if MatchPrefix(pat, s[i..]).Some? then i
    else if i == |s| then |s| + 1
    else FirstMatch(pat, s, i + 1)
  }

  /** `=~`: the match at the leftmost position from i on. */
  function Find(pat: seq<Tok>, s: string, i: nat): (r: Option<seq<string>>)
    requires i <= |s|
    ensures r.Some? ==> Captures(pat, r.value)
    ensures r.None? ==> forall k {:trigger MatchPrefix(pat, s[k..])} :: i <= k <= |s| ==> MatchPrefix(pat, s[k..]).None?
    decreases |s| - i
  {
    match MatchPrefix(pat, s[i..])
    case Some(c) => Some(c)
    case None => if i == |s| then None else Find(pat, s, i + 1)
  }

  /** `=~` gives the match at the leftmost position where the pattern
      matches, and nothing when it matches nowhere. */
  lemma {:induction false} FindLeftmost(pat: seq<Tok>, s: string, i: nat)
    requires i <= |s|
    ensures var k := FirstMatch(pat, s, i);
      Find(pat, s, i) == if k <= |s| then MatchPrefix(pat, s[k..]) else None
    decreases |s| - i
  {
    if MatchPrefix(pat, s[i..]).None? && i < |s| {
      FindLeftmost(pat, s, i + 1);
    }
  }

  /** Positions where the pattern does not match are passed over. */
  lemma {:induction false} FindSkip(pat: seq<Tok>, s: string, i: nat, k: nat)
    requires i <= k <= |s|
    requires NoMatchIn(pat, s, i, k)
    ensures Find(pat, s, i) == Find(pat, s, k)
    decreases k - i
  {
    if i < k {
      FindSkip(pat, s, i + 1, k);
    }
  }

  /** Searching s from where its suffix t begins is searching t. */
  lemma {:induction false} FindSuffix(pat: seq<Tok>, s: string, t: string, d: nat, i: nat)
    requires d + |t| == |s| && s[d..] == t && i <= |t|
    ensures Find(pat, s, d + i) == Find(pat, t, i)
    decreases |t| - i
  {
    assert s[d + i..] == t[i..];
    if MatchPrefix(pat, t[i..]).None? && i < |t| {
      FindSuffix(pat, s, t, d, i + 1);
    }
  }

  /** Searching p + t from the end of p is searching t. */
  lemma FindShift(pat: seq<Tok>, p: string, t: string, i: nat)
    requires i <= |t|
    ensures Find(pat, p + t, |p| + i) == Find(pat, t, i)
  {
    assert (p + t)[|p|..] == t;
    FindSuffix(pat, p + t, t, |p|, i);
  }

  /** `MM: \[(\w+)\] Allocated size \h+ at (\h+)-(\h+)` */
  const ALLOC_PAT: seq<Tok> :=
    [Lit("MM: ["), Word, Lit("] Allocated size "), Hex, Lit(" at "), Hex, Lit("-"), Hex]

  /** `MM: \[(\w+)\] Freeing node (\h+)\.\.(\h+)` */
  const FREE_PAT: seq<Tok> :=
    [Lit("MM: ["), Word, Lit("] Freeing node "), Hex, Lit(".."), Hex]

  lemma ClassesOfPatterns()
    ensures Classes(ALLOC_PAT) == [Word, Hex, Hex, Hex]
    ensures Classes(FREE_PAT) == [Word, Hex, Hex]
  {
    assert ALLOC_PAT[1..][1..][1..][1..][1..][1..][1..][1..] == [];
    assert FREE_PAT[1..][1..][1..][1..][1..][1..] == [];
  }

  /** What the checker learns from a line: a domain and a page range. */
  datatype Event =
    | Alloc(domain: string, first: nat, last: nat)
    | Free(domain: string, first: nat, last: nat)

  /** One line of the scan: the allocation pattern is tried first; the
      addresses become page numbers (`to_i(16) >> 12`). The size field is
      matched but not used. */
  function ParseLine(s: string): (r: Option<Event>)
    ensures r.Some? ==> IsWord(r.value.domain)
    ensures r.Some? && r.value.Free? ==> Find(ALLOC_PAT, s, 0).None?
    ensures r.None? <==> Find(ALLOC_PAT, s, 0).None? && Find(FREE_PAT, s, 0).None?
  {
    match Find(ALLOC_PAT, s, 0)
    case Some(c) =>
      AllocFields(c);
      Some(Alloc(c[0], ParseHex(c[2]) / 4096, ParseHex(c[3]) / 4096))
    case None =>
      match Find(FREE_PAT, s, 0)
      case Some(c) =>
        FreeFields(c);
        Some(Free(c[0], ParseHex(c[1]) / 4096, ParseHex(c[2]) / 4096))
      case None => None
  }

  /** The captures of the allocation pattern: a domain name, then three
      hex numbers (size, start, end). */
  lemma AllocFields(c: seq<string>)
    requires Captures(ALLOC_PAT, c)
    ensures |c| == 4 && IsWord(c[0]) && AllHex(c[1]) && AllHex(c[2]) && AllHex(c[3])
  {
    ClassesOfPatterns();
    assert Fits(Word, c[0]) && Fits(Hex, c[1]) && Fits(Hex, c[2]) && Fits(Hex, c[3]);
  }

  /** The captures of the free pattern: a domain name, then two hex
      numbers (start, end). */
  lemma FreeFields(c: seq<string>)
    requires Captures(FREE_PAT, c)
    ensures |c| == 3 && IsWord(c[0]) && AllHex(c[1]) && AllHex(c[2])
  {
    ClassesOfPatterns();
    assert Fits(Word, c[0]) && Fits(Hex, c[1]) && Fits(Hex, c[2]);
  }

  // ---------------------------------------------------------------------
  // Reading back a rendered pattern.
  // ---------------------------------------------------------------------

  /** The text a pattern matches when its captures are caps. */
  function Render(pat: seq<Tok>, caps: seq<string>): string
  {
    if pat == [] then ""
    else if pat[0].Lit? then pat[0].text + Render(pat[1..], caps)
    else if caps == [] then Render(pat[1..], caps)
    else caps[0] + Render(pat[1..], caps[1..])
  }

  /** Every class element is followed by text that stops its run: a
      non-empty literal starting outside the class, or (at the end of the
      pattern) the rest of the line. */
  predicate Separated(pat: seq<Tok>, rest: string)
  {
    pat == [] ||
    ((pat[0].Lit? ||
      (if |pat| == 1 then rest == [] || !InClass(pat[0], rest[0])
       else pat[1].Lit? && pat[1].text != [] && !InClass(pat[0], pat[1].text[0])))
     && Separated(pat[1..], rest))
  }

  /** The captures after a leading class element belong to the rest of
      the pattern. */
  lemma CapturesTail(pat: seq<Tok>, caps: seq<string>)
    requires pat != [] && !pat[0].Lit? && Captures(pat, caps)
    ensures caps != [] && Fits(pat[0], caps[0]) && Captures(pat[1..], caps[1..])
  {
    assert Classes(pat) == [pat[0]] + Classes(pat[1..]);
    forall k | 0 <= k < |caps[1..]|
      ensures Fits(Classes(pat[1..])[k], caps[1..][k])
    {
      assert Classes(pat)[k + 1] == Classes(pat[1..])[k];
    }
  }

  /** A run of class characters followed by something outside the class
      is exactly what Run measures. */
  lemma {:induction false} RunOfWord(c: Tok, w: string, u: string)
    requires !c.Lit? && forall k :: 0 <= k < |w| ==> InClass(c, w[k])
    requires u == [] || !InClass(c, u[0])
    ensures Run(c, w + u) == |w|
  {
    if w != [] {
      assert (w + u)[0] == w[0];
      assert (w + u)[1..] == w[1..] + u;
      RunOfWord(c, w[1..], u);
    } else {
      assert w + u == u;
    }
  }

  /** After a class element's capture, the next character of the rendered
      text is outside that class. */
  lemma StopAfterCapture(pat: seq<Tok>, caps: seq<string>, rest: string)
    requires pat != [] && !pat[0].Lit? && Separated(pat, rest)
    ensures var u := Render(pat[1..], caps) + rest; u == [] || !InClass(pat[0], u[0])
  {
    if |pat| > 1 {
      assert pat[1..][0] == pat[1];
    }
  }

  /** One step of the round trip: a literal at the head of the pattern. */
  lemma MatchLitStep(pat: seq<Tok>, caps: seq<string>, rest: string)
    requires pat != [] && pat[0].Lit?
    requires Captures(pat, caps) && Separated(pat, rest)
    ensures Captures(pat[1..], caps) && Separated(pat[1..], rest)
    ensures MatchPrefix(pat, Render(pat, caps) + rest) == MatchPrefix(pat[1..], Render(pat[1..], caps) + rest)
  {
    assert Classes(pat) == Classes(pat[1..]);
    var lit := pat[0].text;
    var u := Render(pat[1..], caps) + rest;
    assert Render(pat, caps) + rest == lit + u;
    assert (lit + u)[..|lit|] == lit;
    assert (lit + u)[|lit|..] == u;
  }

  /** One step of the round trip: a capture at the head of the pattern. */
  lemma MatchClassStep(pat: seq<Tok>, caps: seq<string>, rest: string)
    requires pat != [] && !pat[0].Lit?
    requires Captures(pat, caps) && Separated(pat, rest)
    ensures caps != [] && Captures(pat[1..], caps[1..]) && Separated(pat[1..], rest)
    ensures MatchPrefix(pat[1..], Render(pat[1..], caps[1..]) + rest) == Some(caps[1..]) ==>
      MatchPrefix(pat, Render(pat, caps) + rest) == Some(caps)
  {
    CapturesTail(pat, caps);
    var w := caps[0];
    var u := Render(pat[1..], caps[1..]) + rest;
    assert Render(pat, caps) + rest == w + u;
    StopAfterCapture(pat, caps[1..], rest);
    RunOfWord(pat[0], w, u);
    assert (w + u)[..|w|] == w;
    assert (w + u)[|w|..] == u;
    assert caps == [w] + caps[1..];
    if MatchPrefix(pat[1..], u) == Some(caps[1..]) {
      assert MatchPrefix(pat, w + u) == Some([w] + caps[1..]);
    }
  }

  /** A rendered pattern is matched back with exactly its captures. */
  lemma {:induction false} MatchRendered(pat: seq<Tok>, caps: seq<string>, rest: string)
    requires Captures(pat, caps) && Separated(pat, rest)
    ensures MatchPrefix(pat, Render(pat, caps) + rest) == Some(caps)
    decreases |pat|
  {
    if pat == [] {
      assert Classes(pat) == [];
    } else if pat[0].Lit? {
      MatchLitStep(pat, caps, rest);
      MatchRendered(pat[1..], caps, rest);
    } else {
      MatchClassStep(pat, caps, rest);
      MatchRendered(pat[1..], caps[1..], rest);
    }
  }

  // ---------------------------------------------------------------------
  // The lines pscnv's allocator writes.
  // ---------------------------------------------------------------------

  /** The line pscnv_mm_alloc logs for a node of the given size spanning
      start..end (end excluded). */
  function AllocLine(domain: string, size: nat, start: nat, end: nat): string
  {
    AllocText(domain, HexOf(size), HexOf(start), HexOf(end)) + "\n"
  }

  /** The allocation line without its newline, from its printed fields. */
  function AllocText(domain: string, size: string, start: string, end: string): string
  {
    "MM: [" + (domain + ("] Allocated size " + (size + (" at " + (start + ("-" + end))))))
  }

  /** The line pscnv_mm_free_node logs for each node it frees. */
  function FreeLine(domain: string, start: nat, end: nat, ty: nat): string
  {
    FreeText(domain, HexOf(start), HexOf(end)) + FreeTail(ty)
  }

  /** The free line up to the node's end address, from its printed fields. */
  function FreeText(domain: string, start: string, end: string): string
  {
    "MM: [" + (domain + ("] Freeing node " + (start + (".." + end))))
  }

  function FreeTail(ty: nat): string
  {
    " of type " + DecOf(ty) + "\n"
  }

  lemma AllocRendered(c: seq<string>)
    requires |c| == 4
    ensures Render(ALLOC_PAT, c) == AllocText(c[0], c[1], c[2], c[3])
  {
    var p := ALLOC_PAT;
    assert p[1..][1..][1..][1..][1..][1..][1..][1..] == [];
    assert Render(p[7..], c[3..]) == c[3];
    assert Render(p[6..], c[3..]) == "-" + c[3];
    assert Render(p[5..], c[2..]) == c[2] + ("-" + c[3]);
    assert Render(p[4..], c[2..]) == " at " + (c[2] + ("-" + c[3]));
    assert Render(p[3..], c[1..]) == c[1] + (" at " + (c[2] + ("-" + c[3])));
    assert Render(p[2..], c[1..]) == "] Allocated size " + (c[1] + (" at " + (c[2] + ("-" + c[3]))));
  }

  lemma AllocSeparated(rest: string)
    requires rest != [] && !IsHexChar(rest[0])
    ensures Separated(ALLOC_PAT, rest)
  {
    var p := ALLOC_PAT;
    assert p[1..][1..][1..][1..][1..][1..][1..][1..] == [];
    assert Separated(p[7..], rest);
    assert Separated(p[6..], rest);
    assert Separated(p[5..], rest);
    assert Separated(p[4..], rest);
    assert Separated(p[3..], rest);
    assert Separated(p[2..], rest);
    assert Separated(p[1..], rest);
  }

  lemma FreeRendered(c: seq<string>)
    requires |c| == 3
    ensures Render(FREE_PAT, c) == FreeText(c[0], c[1], c[2])
  {
    var p := FREE_PAT;
    assert p[1..][1..][1..][1..][1..][1..] == [];
    assert Render(p[5..], c[2..]) == c[2];
    assert Render(p[4..], c[2..]) == ".." + c[2];
    assert Render(p[3..], c[1..]) == c[1] + (".." + c[2]);
    assert Render(p[2..], c[1..]) == "] Freeing node " + (c[1] + (".." + c[2]));
  }

  lemma FreeSeparated(rest: string)
    requires rest != [] && !IsHexChar(rest[0])
    ensures Separated(FREE_PAT, rest)
  {
    var p := FREE_PAT;
    assert p[1..][1..][1..][1..][1..][1..] == [];
    assert Separated(p[5..], rest);
    assert Separated(p[4..], rest);
    assert Separated(p[3..], rest);
    assert Separated(p[2..], rest);
    assert Separated(p[1..], rest);
  }

  /** The allocation pattern matches an allocation line at its start. */
  lemma AllocLineMatches(domain: string, size: nat, start: nat, end: nat)
    requires IsWord(domain)
    ensures MatchPrefix(ALLOC_PAT, AllocLine(domain, size, start, end)) ==
      Some([domain, HexOf(size), HexOf(start), HexOf(end)])
  {
    var caps := [domain, HexOf(size), HexOf(start), HexOf(end)];
    ClassesOfPatterns();
    assert Captures(ALLOC_PAT, caps);
    AllocSeparated("\n");
    AllocRendered(caps);
    MatchRendered(ALLOC_PAT, caps, "\n");
  }

  /** An allocation line is read back as the allocation of its pages,
      whatever prefix the kernel log puts before the message, as long as
      no "MM: [" starts inside that prefix. */
  lemma ParseAllocLine(p: string, domain: string, size: nat, start: nat, end: nat)
    requires IsWord(domain) && NoMarker(p)
    ensures ParseLine(p + AllocLine(domain, size, start, end)) == Some(Alloc(domain, start / 4096, end / 4096))
  {
    var t := AllocLine(domain, size, start, end);
    AllocLineMatches(domain, size, start, end);
    assert t[0..] == t;
    assert "MM: [" <= t;
    MarkerSkip(ALLOC_PAT, p, t);
    ParseHexOf(start);
    ParseHexOf(end);
  }

  predicate NoOpenBracket(t: string)
  {
    forall k :: 0 <= k < |t| ==> t[k] != '['
  }

  lemma NoOpenBracketAppend(a: string, b: string)
    requires NoOpenBracket(a) && NoOpenBracket(b)
    ensures NoOpenBracket(a + b)
  {
    forall k | 0 <= k < |a + b| ensures (a + b)[k] != '[' {
      if k >= |a| {
        assert (a + b)[k] == b[k - |a|];
      }
    }
  }

  /** The allocation pattern matches nowhere from i on when the only '['
      of the line sits at index 4 and the pattern fails at 0. */
  lemma {:induction false} NoAllocFrom(s: string, i: nat)
    requires i <= |s|
    requires forall k :: 0 <= k < |s| && k != 4 ==> s[k] != '['
    requires MatchPrefix(ALLOC_PAT, s).None?
    ensures Find(ALLOC_PAT, s, i).None?
    decreases |s| - i
  {
    if i == 0 {
      assert s[0..] == s;
    } else {
      assert !("MM: [" <= s[i..]) by {
        if |s| - i >= 5 {
          assert s[i..][4] == s[i + 4];
        }
      }
    }
    if i < |s| {
      NoAllocFrom(s, i + 1);
    }
  }

  /** In "MM: [" + domain + after, the only '[' is the one at index 4. */
  lemma OnlyBracketAtFour(domain: string, after: string)
    requires IsWord(domain) && NoOpenBracket(after)
    ensures var s := "MM: [" + domain + after;
      forall k :: 0 <= k < |s| && k != 4 ==> s[k] != '['
  {
    var s := "MM: [" + domain + after;
    forall k | 0 <= k < |s| && k != 4 ensures s[k] != '[' {
      if 5 <= k < 5 + |domain| {
        assert s[k] == domain[k - 5];
      } else if k >= 5 + |domain| {
        assert s[k] == after[k - 5 - |domain|];
      }
    }
  }

  /** A pattern whose leading literal is not a prefix of t does not match. */
  lemma LitMismatch(pat: seq<Tok>, t: string)
    requires pat != [] && pat[0].Lit? && !(pat[0].text <= t)
    ensures MatchPrefix(pat, t).None?
  {
  }

  /** A leading literal that matches hands the rest of the text on. */
  lemma LitThen(pat: seq<Tok>, u: string)
    requires pat != [] && pat[0].Lit?
    ensures MatchPrefix(pat, pat[0].text + u) == MatchPrefix(pat[1..], u)
  {
    var t := pat[0].text + u;
    assert t[..|pat[0].text|] == pat[0].text && t[|pat[0].text|..] == u;
  }

  /** A leading class element that consumes exactly w hands u on. */
  lemma ClassThen(pat: seq<Tok>, w: string, u: string)
    requires pat != [] && !pat[0].Lit? && Run(pat[0], w + u) == |w|
    requires MatchPrefix(pat[1..], u).None?
    ensures MatchPrefix(pat, w + u).None?
  {
    assert (w + u)[|w|..] == u;
  }

  /** After the domain, a free line carries "] F", not "] Allocated size ". */
  lemma NoAllocAtStart(domain: string, after: string)
    requires IsWord(domain) && |after| >= 3 && after[..3] == "] F"
    ensures MatchPrefix(ALLOC_PAT, "MM: [" + domain + after).None?
  {
    var p := ALLOC_PAT;
    assert p[1..][1..][0] == Lit("] Allocated size ");
    assert !("] Allocated size " <= after) by {
      assert after[2] == 'F';
    }
    LitMismatch(p[1..][1..], after);
    RunOfWord(Word, domain, after);
    ClassThen(p[1..], domain, after);
    LitThen(p, domain + after);
    assert "MM: [" + domain + after == "MM: [" + (domain + after);
  }

  /** The free pattern matches a free line at its start. */
  lemma FreeLineMatches(domain: string, start: nat, end: nat, ty: nat)
    requires IsWord(domain)
    ensures MatchPrefix(FREE_PAT, FreeLine(domain, start, end, ty)) == Some([domain, HexOf(start), HexOf(end)])
  {
    var caps := [domain, HexOf(start), HexOf(end)];
    ClassesOfPatterns();
    assert Captures(FREE_PAT, caps);
    FreeSeparated(FreeTail(ty));
    FreeRendered(caps);
    MatchRendered(FREE_PAT, caps, FreeTail(ty));
  }

  /** The allocation pattern matches nowhere in a free line. */
  lemma FreeLineNoAlloc(domain: string, start: nat, end: nat, ty: nat)
    requires IsWord(domain)
    ensures Find(ALLOC_PAT, FreeLine(domain, start, end, ty), 0).None?
  {
    var s := FreeLine(domain, start, end, ty);
    var after := FreeAfter(HexOf(start), HexOf(end), DecOf(ty));
    FreeAfterNoBracket(HexOf(start), HexOf(end), DecOf(ty));
    assert s == "MM: [" + domain + after;
    OnlyBracketAtFour(domain, after);
    NoAllocAtStart(domain, after);
    NoAllocFrom(s, 0);
  }

  /** What follows the domain in a free line, from its printed fields. */
  function FreeAfter(start: string, end: string, ty: string): (r: string)
    ensures |r| >= 3 && r[..3] == "] F"
  {
    "] Freeing node " + (start + (".." + end)) + (" of type " + ty + "\n")
  }

  /** Printed fields without '[' leave none after the domain. */
  lemma FreeAfterNoBracket(start: string, end: string, ty: string)
    requires NoOpenBracket(start) && NoOpenBracket(end) && NoOpenBracket(ty)
    ensures NoOpenBracket(FreeAfter(start, end, ty))
  {
    NoOpenBracketAppend("..", end);
    NoOpenBracketAppend(start, ".." + end);
    NoOpenBracketAppend("] Freeing node ", start + (".." + end));
    NoOpenBracketAppend(" of type ", ty);
    NoOpenBracketAppend(" of type " + ty, "\n");
    NoOpenBracketAppend("] Freeing node " + (start + (".." + end)), " of type " + ty + "\n");
  }

  /** A line of a freed node is read back as the release of its pages,
      after any log prefix in which no "MM: [" starts. */
  lemma ParseFreeLine(p: string, domain: string, start: nat, end: nat, ty: nat)
    requires IsWord(domain) && NoMarker(p)
    ensures ParseLine(p + FreeLine(domain, start, end, ty)) == Some(Free(domain, start / 4096, end / 4096))
  {
    var t := FreeLine(domain, start, end, ty);
    FreeLineMatches(domain, start, end, ty);
    FreeLineNoAlloc(domain, start, end, ty);
    assert t[0..] == t;
    assert "MM: [" <= t;
    MarkerSkip(ALLOC_PAT, p, t);
    MarkerSkip(FREE_PAT, p, t);
    ParseHexOf(start);
    ParseHexOf(end);
  }

  // ---------------------------------------------------------------------
  // The kernel log prefix.
  // ---------------------------------------------------------------------

  /** No "MM: [" starts inside p, not even one running on into the
      "MM: [" of the message that follows p. */
  predicate NoMarker(p: string)
  {
    forall j :: 0 <= j < |p| ==> !("MM: [" <= (p + "MM: [")[j..])
  }

  /** Both patterns start with "MM: [", so before a message that starts
      with it, a prefix without a marker is skipped by the search. */
  lemma MarkerSkip(pat: seq<Tok>, p: string, t: string)
    requires pat != [] && pat[0] == Lit("MM: [") && "MM: [" <= t && NoMarker(p)
    ensures Find(pat, p + t, 0) == Find(pat, t, 0)
  {
    var s := p + t;
    forall j | 0 <= j < |p|
      ensures MatchPrefix(pat, s[j..]).None?
    {
      var m := p + "MM: [";
      assert m[j..][..5] == s[j..][..5] by {
        forall d | 0 <= d < 5 ensures m[j..][d] == s[j..][d] {
          assert m[j + d] == s[j + d];
        }
      }
      LitMismatch(pat, s[j..]);
    }
    FindSkip(pat, s, 0, |p|);
    FindShift(pat, p, t, 0);
  }

  /** The prefix the kernel log gives a pscnv message: dmesg's timestamp,
      then `NV_PRINTK`'s "[drm] pscnv <pci name>: ". */
  lemma DmesgPrefix()
    ensures NoMarker("[   12.345678] [drm] pscnv 0000:01:00.0: ")
  {
    NoMarkerWithoutM("[   12.345678] [drm] pscnv 0000:01:00.0: ");
  }

  /** A prefix without the letter M holds no marker. */
  lemma NoMarkerWithoutM(p: string)
    requires forall k :: 0 <= k < |p| ==> p[k] != 'M'
    ensures NoMarker(p)
  {
    forall j | 0 <= j < |p| ensures !("MM: [" <= (p + "MM: [")[j..]) {
      assert (p + "MM: [")[j..][0] == p[j];
    }
  }
}
