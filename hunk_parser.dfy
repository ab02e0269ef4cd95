/**
 * Hunk parser: reads unified-diff hunk headers `@@ -l[,s] +l[,s] @@` into
 * half-open line ranges `[old_start, old_start + old_count)` of the file
 * before the change (`parse_patch_hunks`).
 *
 * The source recognises a header with
 * `re.search(r'@@ -(\d+),?(\d*) \+(\d+),?(\d*) @@', line)`. For this
 * pattern a match attempt at a fixed position is deterministic: the greedy
 * choice (all digits, the comma if present, all digits) succeeds exactly when
 * some choice does, with the same groups. `MatchAt` is that attempt and
 * `Search` tries positions left to right, as `re.search` does.
 */
module HunkParser {
  import opened Lines
  import opened Records

  /** A line range `[start, end)` of the before-file. */
  datatype Hunk = Hunk(start: int, end: int)

  /** Groups 1 and 2 of a header match: old start and (possibly empty) old count. */
  datatype HeaderMatch = HeaderMatch(oldStart: string, oldCount: string)

  predicate IsDigit(c: char)
  {
    '0' <= c <= '9'
  }

  predicate AllDigits(s: string)
  {
    forall k :: 0 <= k < |s| ==> IsDigit(s[k])
  }

  predicate StartsWith(s: string, prefix: string)
  {
    |prefix| <= |s| && s[..|prefix|] == prefix
  }

  /** Length of the run of digits `t` starts with (what a greedy `\d*` takes). */
  function DigitPrefix(t: string): (n: nat)
    ensures n <= |t|
  {
    if t != [] && IsDigit(t[0]) then 1 + DigitPrefix(t[1..]) else 0
  }

  function Pow10(n: nat): (p: nat)
    ensures p >= 1
  {
    if n == 0 then 1 else 10 * Pow10(n - 1)
  }

  /**
   * Python's `int(ds)` for a string of ASCII digits: a number below
   * `10^|ds|`, and at least `10^(|ds|-1)` when there is no leading zero.
   */
  function DigitValue(ds: string): (v: nat)
    requires AllDigits(ds)
    ensures v < Pow10(|ds|)
    ensures |ds| >= 1 && ds[0] != '0' ==> Pow10(|ds| - 1) <= v
  {
    if ds == [] then 0
    else 10 * DigitValue(ds[..|ds| - 1]) + (ds[|ds| - 1] as int - '0' as int)
  }

  /** Groups scanned by `(\d+),?(\d*)` at the start of a text, and the text after them. */
  datatype RangeScan = RangeScan(start: string, count: string, rest: string)

  function ScanRange(t: string): RangeScan
  {
    var n1 := DigitPrefix(t);
    var u := t[n1..];
    var v := if u != [] && u[0] == ',' then u[1..] else u;
    var n2 := DigitPrefix(v);
    RangeScan(t[..n1], v[..n2], v[n2..])
  }

  /** A range `start[,count]` as it is written in a header. */
  function RangeText(start: string, count: Option<string>): string
  {
    start + (if count.Some? then [','] + count.value else [])
  }

  /** Group strings a header range can be written with: a non-empty start and an optional count, all digits. */
  predicate RangeGroups(start: string, count: Option<string>)
  {
    |start| >= 1 && AllDigits(start) && (count.Some? ==> AllDigits(count.value))
  }

  /** The count group a match reports for an optional count: empty when it was omitted. */
  function CountGroup(count: Option<string>): string
  {
    if count.Some? then count.value else []
  }

  /** A line laid out as `@@ -range1 +range2 @@` followed by `rest`. */
  function HeaderText(s1: string, c1: Option<string>, s2: string, c2: Option<string>, rest: string): string
  {
    "@@ -" + (RangeText(s1, c1) + (" +" + (RangeText(s2, c2) + (" @@" + rest))))
  }

  /**
   * The match of the header pattern at the very start of `t`, if any. Only
   * header-shaped text matches: `t` is a laid-out header whose first range
   * has the reported groups.
   */
  function MatchPrefix(t: string): (m: Option<HeaderMatch>)
    ensures m.Some? ==> exists c1, s2, c2, rest ::
      && RangeGroups(m.value.oldStart, c1) && RangeGroups(s2, c2)
      && m.value.oldCount == CountGroup(c1)
      && t == HeaderText(m.value.oldStart, c1, s2, c2, rest)
  {
    if !StartsWith(t, "@@ -") then None
    else
      var r1 := ScanRange(t[4..]);
      if r1.start == [] || !StartsWith(r1.rest, " +") then None
      else
        var r2 := ScanRange(r1.rest[2..]);
        if r2.start == [] || !StartsWith(r2.rest, " @@") then None
        else
          MatchPrefixShape(t, r1, r2);
          Some(HeaderMatch(r1.start, r1.count))
  }

  /** No position in `lo..hi` (and inside `l`) holds a header match. */
  predicate NoMatchBetween(l: string, lo: nat, hi: nat)
  {
    forall j :: lo <= j < hi && j <= |l| ==> MatchPrefix(l[j..]).None?
  }

  /**
   * `re.search` from position `p`: the match at the leftmost position
   * `>= p` that holds one, or None when no such position does.
   */
  function Search(l: string, p: nat): (m: Option<HeaderMatch>)
    requires p <= |l|
    ensures m.Some? ==> exists k :: p <= k <= |l| && MatchPrefix(l[k..]) == m && NoMatchBetween(l, p, k)
    ensures m.None? ==> NoMatchBetween(l, p, |l| + 1)
    decreases |l| - p
  {
    var m := MatchPrefix(l[p..]);
    if m.Some? then m
    else if p == |l| then None
    else
      var r := Search(l, p + 1);
      NoMatchBefore(l, p, |l| + 1);
      if r.Some? then SearchStep(l, p, r.value); r else r
  }

  /** A position without a match extends a stretch without matches that follows it. */
  lemma NoMatchBefore(l: string, p: nat, k: nat)
    requires p <= |l| && MatchPrefix(l[p..]).None?
    ensures NoMatchBetween(l, p + 1, k) ==> NoMatchBetween(l, p, k)
  {
  }

  lemma SearchStep(l: string, p: nat, m: HeaderMatch)
    requires p < |l| && MatchPrefix(l[p..]).None?
    requires exists k :: p + 1 <= k <= |l| && MatchPrefix(l[k..]) == Some(m) && NoMatchBetween(l, p + 1, k)
    ensures exists k :: p <= k <= |l| && MatchPrefix(l[k..]) == Some(m) && NoMatchBetween(l, p, k)
  {
    var k :| p + 1 <= k <= |l| && MatchPrefix(l[k..]) == Some(m) && NoMatchBetween(l, p + 1, k);
    NoMatchBefore(l, p, k);
  }

  /** A greedy `\d*` stops at a non-digit or at the end of the text. */
  lemma {:induction false} DigitPrefixStops(t: string)
    ensures var n := DigitPrefix(t); n == |t| || !IsDigit(t[n])
  {
    if t != [] && IsDigit(t[0]) {
      DigitPrefixStops(t[1..]);
    }
  }

  /** The optional count as it was written in the range `ScanRange` read: present iff a comma followed the start. */
  function ScanCount(t: string): Option<string>
  {
    var u := t[DigitPrefix(t)..];
    if u != [] && u[0] == ',' then Some(ScanRange(t).count) else None
  }

  /** A text is the range `ScanRange` read, written back, followed by what it left over. */
  lemma ScanRangeText(t: string)
    ensures var r, c := ScanRange(t), ScanCount(t);
      && AllDigits(r.start) && (c.Some? ==> AllDigits(c.value))
      && r.count == CountGroup(c)
      && t == RangeText(r.start, c) + r.rest
  {
    var n1 := DigitPrefix(t);
    var u := t[n1..];
    var v := if u != [] && u[0] == ',' then u[1..] else u;
    var n2 := DigitPrefix(v);
    assert ScanRange(t) == RangeScan(t[..n1], v[..n2], v[n2..]);
    DigitPrefixDigits(t);
    DigitPrefixDigits(v);
    TakeDrop(t, n1);
    TakeDrop(v, n2);
    if u != [] && u[0] == ',' {
      assert u == [','] + v;
      assert ScanCount(t) == Some(v[..n2]);
      CommaRangeText(t, t[..n1], u, v, v[..n2], v[n2..]);
    } else {
      assert n2 == 0 by {
        DigitPrefixStops(t);
      }
      assert ScanCount(t) == None;
      assert v[..n2] == [] && v[n2..] == u;
      assert RangeText(t[..n1], None) == t[..n1];
    }
  }

  lemma TakeDrop(s: string, n: nat)
    requires n <= |s|
    ensures s == s[..n] + s[n..]
  {
  }

  lemma CommaRangeText(t: string, start: string, u: string, v: string, count: string, rest: string)
    requires t == start + u && u == [','] + v && v == count + rest
    ensures t == RangeText(start, Some(count)) + rest
  {
  }

  /** A prefix match is a laid-out header whose first range has the scanned groups. */
  lemma MatchPrefixShape(t: string, r1: RangeScan, r2: RangeScan)
    requires StartsWith(t, "@@ -") && ScanRange(t[4..]) == r1
    requires r1.start != [] && StartsWith(r1.rest, " +") && ScanRange(r1.rest[2..]) == r2
    requires r2.start != [] && StartsWith(r2.rest, " @@")
    ensures exists c1, s2, c2, rest ::
      && RangeGroups(r1.start, c1) && RangeGroups(s2, c2)
      && r1.count == CountGroup(c1)
      && t == HeaderText(r1.start, c1, s2, c2, rest)
  {
    var tail1, tail2, rest := t[4..], r1.rest[2..], r2.rest[3..];
    var c1, c2 := ScanCount(tail1), ScanCount(tail2);
    assert RangeGroups(r1.start, c1) && r1.count == CountGroup(c1) && tail1 == RangeText(r1.start, c1) + r1.rest by {
      ScanRangeText(tail1);
    }
    assert RangeGroups(r2.start, c2) && tail2 == RangeText(r2.start, c2) + r2.rest by {
      ScanRangeText(tail2);
    }
    StartsWithRest(t, "@@ -");
    StartsWithRest(r1.rest, " +");
    StartsWithRest(r2.rest, " @@");
    HeaderTextOf(t, tail1, r1.rest, tail2, r2.rest, r1.start, c1, r2.start, c2, rest);
  }

  /** A text starting with `prefix` is `prefix` followed by the rest. */
  lemma StartsWithRest(s: string, prefix: string)
    requires StartsWith(s, prefix)
    ensures s == prefix + s[|prefix|..]
  {
    assert s == s[..|prefix|] + s[|prefix|..];
  }

  /** Substituting the parts of a header into each other gives its layout. */
  lemma HeaderTextOf(t: string, tail1: string, rest1: string, tail2: string, rest2: string,
                     s1: string, c1: Option<string>, s2: string, c2: Option<string>, rest: string)
    requires t == "@@ -" + tail1 && tail1 == RangeText(s1, c1) + rest1
    requires rest1 == " +" + tail2 && tail2 == RangeText(s2, c2) + rest2
    requires rest2 == " @@" + rest
    ensures t == HeaderText(s1, c1, s2, c2, rest)
  {
  }

  /** The groups of every match are digit strings, so `int` applies to them. */
  lemma {:induction false} DigitPrefixDigits(t: string)
    ensures AllDigits(t[..DigitPrefix(t)])
  {
    if t != [] && IsDigit(t[0]) {
      DigitPrefixDigits(t[1..]);
      assert t[..DigitPrefix(t)] == [t[0]] + t[1..][..DigitPrefix(t[1..])];
    }
  }

  lemma SearchDigits(l: string, p: nat)
    requires p <= |l|
    ensures var m := Search(l, p);
      m.Some? ==> AllDigits(m.value.oldStart) && AllDigits(m.value.oldCount)
    decreases |l| - p
  {
    var t := l[p..];
    if MatchPrefix(t).Some? {
      DigitPrefixDigits(t[4..]);
      var u := t[4..][DigitPrefix(t[4..])..];
      DigitPrefixDigits(if u != [] && u[0] == ',' then u[1..] else u);
    } else if p < |l| {
      SearchDigits(l, p + 1);
    }
  }

  /** Groups one and two of the header match in `line`, if any. */
  function HeaderOf(line: string): (m: Option<HeaderMatch>)
    ensures m.Some? ==> AllDigits(m.value.oldStart) && AllDigits(m.value.oldCount)
  {
    SearchDigits(line, 0);
    Search(line, 0)
  }

  /** The hunk a header match denotes: `[old_start, old_start + old_count)`, the count 1 when omitted. */
  function HunkOf(m: HeaderMatch): Hunk
    requires AllDigits(m.oldStart) && AllDigits(m.oldCount)
  {
    var oldStart := DigitValue(m.oldStart);
    var oldCount := if m.oldCount != [] then DigitValue(m.oldCount) else 1;
    Hunk(oldStart, oldStart + oldCount)
  }

  /**
   * The hunk one patch line contributes: a line contributes one exactly
   * when it starts with `@@` and holds a header at some position, and the
   * hunk is a well-formed range.
   */
  function HunkOfLine(line: string): (h: Option<Hunk>)
    ensures h.Some? <==> StartsWith(line, "@@") && exists k :: 0 <= k <= |line| && MatchPrefix(line[k..]).Some?
    ensures h.Some? ==> 0 <= h.value.start <= h.value.end
  {
    if !StartsWith(line, "@@") then None
    else match HeaderOf(line)
      case None => None
      case Some(m) => Some(HunkOf(m))
  }

  /** The hunks of a list of patch lines, in line order. */
  function HunksOfLines(lines: seq<string>): (hunks: seq<Hunk>)
    ensures |hunks| <= |lines|
  {
    if lines == [] then []
    else
      var h := HunkOfLine(Last(lines));
      HunksOfLines(lines[..|lines| - 1]) + (if h.Some? then [h.value] else [])
  }

  /**
   * `parse_patch_hunks(patch)`: no hunks for a missing or empty patch, at
   * most one per patch line, and every hunk a range `0 <= start <= end`.
   */
  function ParseHunks(patch: Option<string>): (hunks: seq<Hunk>)
    ensures !Truthy(patch) ==> hunks == []
    ensures Truthy(patch) ==> |hunks| <= |Split(patch.value, '\n')|
    ensures forall h :: h in hunks ==> 0 <= h.start <= h.end
  {
    if !Truthy(patch) then []
    else
      ParsedHunksWellFormed(Split(patch.value, '\n'));
      HunksOfLines(Split(patch.value, '\n'))
  }

  /** The source's loop: split the patch into lines and append one hunk per header line. */
  method ParsePatchHunks(patch: Option<string>) returns (hunks: seq<Hunk>)
    ensures hunks == ParseHunks(patch)
  {
    if !Truthy(patch) {
      return [];
    }
    hunks := [];
    var lines := Split(patch.value, '\n');
    var i := 0;
    while i < |lines|
      invariant 0 <= i <= |lines|
      invariant hunks == HunksOfLines(lines[..i])
    {
      HunksOfLinesStep(lines, i);
      var line := lines[i];
      if StartsWith(line, "@@") {
        var found := HeaderOf(line);
        if found.Some? {
          hunks := hunks + [HunkOf(found.value)];
        }
      }
      i := i + 1;
    }
    WholePrefix(lines);
  }

  /** One more line adds that line's hunk, if it has one. */
  lemma HunksOfLinesStep(lines: seq<string>, i: nat)
    requires i < |lines|
    ensures HunksOfLines(lines[..i + 1])
         == HunksOfLines(lines[..i]) + (var h := HunkOfLine(lines[i]); if h.Some? then [h.value] else [])
  {
    assert lines[..i + 1][..i] == lines[..i];
  }

  // ----- Rendering headers, for the round trip -----

  function DigitChar(d: nat): char
    requires d < 10
  {
    ('0' as int + d) as char
  }

  /** The decimal digits of `n`, as the diff tool writes them. */
  function Decimal(n: nat): (ds: string)
    ensures |ds| >= 1 && AllDigits(ds)
  {
    if n < 10 then [DigitChar(n)] else Decimal(n / 10) + [DigitChar(n % 10)]
  }

  // ----- Properties -----

  /** `int` reads back what `Decimal` writes. */
  lemma {:induction false} DigitValueOfDecimal(n: nat)
    ensures DigitValue(Decimal(n)) == n
  {
    if n >= 10 {
      DigitValueOfDecimal(n / 10);
      var ds := Decimal(n);
      assert ds[..|ds| - 1] == Decimal(n / 10);
    }
  }

  /** A digit run followed by a non-digit (or nothing) is scanned whole. */
  lemma {:induction false} DigitPrefixOf(ds: string, t: string)
    requires AllDigits(ds)
    requires t == [] || !IsDigit(t[0])
    ensures DigitPrefix(ds + t) == |ds|
  {
    if ds != [] {
      assert (ds + t)[1..] == ds[1..] + t;
      DigitPrefixOf(ds[1..], t);
    }
  }

  /**
   * A written range followed by a space scans back into its groups:
   * `start`, and `count` or the empty string when it was omitted.
   */
  lemma ScanRangeOf(start: string, count: Option<string>, rest: string)
    requires AllDigits(start) && (count.Some? ==> AllDigits(count.value))
    requires rest != [] && rest[0] == ' '
    ensures ScanRange(RangeText(start, count) + rest)
         == RangeScan(start, if count.Some? then count.value else [], rest)
  {
    var t := RangeText(start, count) + rest;
    var tail := (if count.Some? then [','] + count.value else []) + rest;
    assert t == start + tail;
    DigitPrefixOf(start, tail);
    assert t[..|start|] == start && t[|start|..] == tail;
    var g := if count.Some? then count.value else [];
    var v := g + rest;
    if count.Some? {
      assert tail[1..] == v;
    }
    DigitPrefixOf(g, rest);
    assert v[..|g|] == g && v[|g|..] == rest;
  }

  /** `Decimal` as an optional group string. */
  function CountDigits(count: Option<nat>): Option<string>
  {
    if count.Some? then Some(Decimal(count.value)) else None
  }

  /**
   * A unified-diff hunk header line `@@ -oldStart[,oldCount] +newStart[,newCount] @@`
   * followed by its optional trailer (the section heading some diff tools add).
   */
  function HeaderLine(oldStart: nat, oldCount: Option<nat>, newStart: nat, newCount: Option<nat>, trailer: string): string
  {
    HeaderText(Decimal(oldStart), CountDigits(oldCount), Decimal(newStart), CountDigits(newCount), trailer)
  }

  /** A text starts with any prefix it was built from, and what follows is the rest. */
  lemma PrefixOf(p: string, s: string)
    ensures StartsWith(p + s, p) && (p + s)[|p|..] == s
  {
    assert (p + s)[..|p|] == p;
  }

  /** When the three parts of the header pattern are found in turn, the match is range one's groups. */
  lemma MatchPrefixFound(t: string, r1: RangeScan, r2: RangeScan)
    requires StartsWith(t, "@@ -") && ScanRange(t[4..]) == r1
    requires r1.start != [] && StartsWith(r1.rest, " +") && ScanRange(r1.rest[2..]) == r2
    requires r2.start != [] && StartsWith(r2.rest, " @@")
    ensures MatchPrefix(t) == Some(HeaderMatch(r1.start, r1.count))
  {
  }

  /** A line laid out as `@@ -range1 +range2 @@...` matches at its start with range one's groups. */
  lemma MatchOfLayout(s1: string, c1: Option<string>, s2: string, c2: Option<string>, rest: string)
    requires RangeGroups(s1, c1) && RangeGroups(s2, c2)
    ensures MatchPrefix(HeaderText(s1, c1, s2, c2, rest)) == Some(HeaderMatch(s1, CountGroup(c1)))
  {
    var r1, r2 := RangeText(s1, c1), RangeText(s2, c2);
    var after2 := " @@" + rest;
    var after1 := " +" + (r2 + after2);
    PrefixOf("@@ -", r1 + after1);
    ScanRangeOf(s1, c1, after1);
    PrefixOf(" +", r2 + after2);
    ScanRangeOf(s2, c2, after2);
    PrefixOf(" @@", rest);
    MatchPrefixFound("@@ -" + (r1 + after1),
      RangeScan(s1, CountGroup(c1), after1),
      RangeScan(s2, CountGroup(c2), after2));
  }

  /** A line laid out as `@@ -range1 +range2 @@...` gives the hunk of range one's groups. */
  lemma HunkOfLayout(s1: string, c1: Option<string>, s2: string, c2: Option<string>, rest: string)
    requires RangeGroups(s1, c1) && RangeGroups(s2, c2)
    ensures HunkOfLine(HeaderText(s1, c1, s2, c2, rest)) == Some(HunkOf(HeaderMatch(s1, CountGroup(c1))))
  {
    var l := HeaderText(s1, c1, s2, c2, rest);
    MatchOfLayout(s1, c1, s2, c2, rest);
    PrefixOf("@@ -", RangeText(s1, c1) + (" +" + (RangeText(s2, c2) + (" @@" + rest))));
    HunkOfMatch(l, HeaderMatch(s1, CountGroup(c1)));
  }

  /**
   * The header `re.search` finds need not start the line (`@@@ -1 +1 @@`
   * starts with `@@` and holds a header at column 1): a line starting with
   * `@@` gives the hunk of its leftmost header, wherever that lies.
   */
  lemma HunkOfLeftmost(line: string, p: nat, m: HeaderMatch)
    requires StartsWith(line, "@@") && p <= |line|
    requires MatchPrefix(line[p..]) == Some(m) && NoMatchBetween(line, 0, p)
    ensures AllDigits(m.oldStart) && AllDigits(m.oldCount)
    ensures HunkOfLine(line) == Some(HunkOf(m))
  {
    SearchLeftmost(line, p, m);
    HunkOfHeader(line, m);
  }

  /** `re.search` finds the match at the leftmost position holding one. */
  lemma SearchLeftmost(l: string, p: nat, m: HeaderMatch)
    requires p <= |l| && MatchPrefix(l[p..]) == Some(m) && NoMatchBetween(l, 0, p)
    ensures Search(l, 0) == Some(m)
  {
    var found := Search(l, 0);
    assert found.Some?;
    var k :| 0 <= k <= |l| && MatchPrefix(l[k..]) == found && NoMatchBetween(l, 0, k);
    assert k == p;
  }

  /** A line whose header matches at its start gives the hunk of that match. */
  lemma HunkOfMatch(line: string, m: HeaderMatch)
    ensures StartsWith(line, "@@ -") && MatchPrefix(line) == Some(m) ==>
      AllDigits(m.oldStart) && AllDigits(m.oldCount) && HunkOfLine(line) == Some(HunkOf(m))
  {
    HeaderStartsWithAt(line);
    HeaderAtStart(line, m);
    HunkOfHeader(line, m);
  }

  lemma HeaderStartsWithAt(s: string)
    ensures StartsWith(s, "@@ -") ==> StartsWith(s, "@@")
  {
    if StartsWith(s, "@@ -") {
      assert s[..2] == s[..4][..2];
    }
  }

  /** A header matching at the start of a line is the one `re.search` finds. */
  lemma HeaderAtStart(line: string, m: HeaderMatch)
    ensures MatchPrefix(line) == Some(m) ==> HeaderOf(line) == Some(m)
  {
    assert line[0..] == line;
  }

  /** A line starting with `@@` holding a header gives the hunk of that header. */
  lemma HunkOfHeader(line: string, m: HeaderMatch)
    ensures StartsWith(line, "@@") && HeaderOf(line) == Some(m) ==>
      AllDigits(m.oldStart) && AllDigits(m.oldCount) && HunkOfLine(line) == Some(HunkOf(m))
  {
  }

  /** The hunk of a header whose numbers were written by `Decimal`. */
  lemma HunkOfDecimal(oldStart: nat, oldCount: Option<nat>)
    ensures HunkOf(HeaderMatch(Decimal(oldStart), if oldCount.Some? then Decimal(oldCount.value) else []))
         == Hunk(oldStart, oldStart + (if oldCount.Some? then oldCount.value else 1))
  {
    DigitValueOfDecimal(oldStart);
    if oldCount.Some? {
      DigitValueOfDecimal(oldCount.value);
    }
  }

  /**
   * Round trip: a rendered header line, whatever trails it, parses to the
   * hunk `[oldStart, oldStart + oldCount)`, with the count 1 when omitted
   * (so an explicit `,0` gives an empty range).
   */
  lemma HeaderRoundTrip(oldStart: nat, oldCount: Option<nat>, newStart: nat, newCount: Option<nat>, trailer: string)
    ensures HunkOfLine(HeaderLine(oldStart, oldCount, newStart, newCount, trailer))
         == Some(Hunk(oldStart, oldStart + (if oldCount.Some? then oldCount.value else 1)))
  {
    HunkOfLayout(Decimal(oldStart), CountDigits(oldCount), Decimal(newStart), CountDigits(newCount), trailer);
    HunkOfDecimal(oldStart, oldCount);
  }

  /** Every parsed hunk is a well-formed range of line numbers: `0 <= start <= end`. */
  lemma {:induction false} ParsedHunksWellFormed(lines: seq<string>)
    ensures forall h :: h in HunksOfLines(lines) ==> 0 <= h.start <= h.end
  {
    if lines != [] {
      ParsedHunksWellFormed(lines[..|lines| - 1]);
    }
  }

  /** Patch order: the hunks of consecutive stretches of lines are concatenated. */
  lemma {:induction false} HunksOfLinesAppend(a: seq<string>, b: seq<string>)
    ensures HunksOfLines(a + b) == HunksOfLines(a) + HunksOfLines(b)
  {
    if b == [] {
      assert a + b == a;
    } else {
      var init := b[..|b| - 1];
      HunksOfLinesAppend(a, init);
      assert (a + b)[..|a + b| - 1] == a + init;
      assert Last(a + b) == Last(b);
    }
  }

  /**
   * A patch assembled from lines parses to the hunks of those lines, in
   * order: each header line gives one hunk and other lines give nothing.
   */
  lemma ParseJoinedLines(lines: seq<string>)
    requires forall k :: 0 <= k < |lines| ==> '\n' !in lines[k]
    ensures ParseHunks(Some(Join(lines, '\n'))) == HunksOfLines(lines)
  {
    var patch := Join(lines, '\n');
    if patch == [] {
      JoinEmpty(lines, '\n');
      if |lines| == 1 {
        assert lines[..0] == [];
        assert !StartsWith(lines[0], "@@");
      }
    } else {
      if lines == [] {
        assert false;
      }
      SplitJoin(lines, '\n');
    }
  }
}
