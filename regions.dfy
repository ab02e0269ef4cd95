/**
 * One editable region of a file (the body of the per-region loop of
 * `add_editable_region_markers`): the region is padded with context lines
 * and clamped to the file; the two marker lines are inserted into the
 * before-lines, and the target is the same line range of the after-lines.
 */
module Regions {
  import opened Lines
  import opened Records

  const StartMarker: string := "<|editable_region_start|>"
  const EndMarker: string := "<|editable_region_end|>"

  /** `max(1, hunk_start - context_before)` */
  function RegionStart(hunkStart: int, contextBefore: int): (rs: int)
    ensures rs >= 1 && rs >= hunkStart - contextBefore
    ensures rs == 1 || rs == hunkStart - contextBefore
  {
    if 1 >= hunkStart - contextBefore then 1 else hunkStart - contextBefore
  }

  /** `min(len(before_lines), hunk_end + context_after)` */
  function RegionEnd(hunkEnd: int, contextAfter: int, lineCount: nat): (re: int)
    ensures re <= lineCount && re <= hunkEnd + contextAfter
    ensures re == lineCount || re == hunkEnd + contextAfter
  {
    if lineCount <= hunkEnd + contextAfter then lineCount else hunkEnd + contextAfter
  }

  // ----- Marking the before-lines -----

  /**
   * `marked_lines` after the loop over `enumerate(lines, start=1)`: the
   * start marker goes before line `rs`, the end marker after line `re`.
   */
  function Marked(lines: seq<string>, rs: int, re: int): (marked: seq<string>)
    ensures |marked| == |lines| + (if 1 <= rs <= |lines| then 1 else 0) + (if 1 <= re <= |lines| then 1 else 0)
  {
    if lines == [] then []
    else
      var i := |lines|;
      Marked(lines[..i - 1], rs, re)
        + (if i == rs then [StartMarker] else [])
        + [lines[i - 1]]
        + (if i == re then [EndMarker] else [])
  }

  /** The source's marking loop. */
  method MarkLines(lines: seq<string>, rs: int, re: int) returns (marked: seq<string>)
    ensures marked == Marked(lines, rs, re)
  {
    marked := [];
    var i := 1;
    while i <= |lines|
      invariant 1 <= i <= |lines| + 1
      invariant marked == Marked(lines[..i - 1], rs, re)
    {
      if i == rs {
        marked := marked + [StartMarker];
      }
      marked := marked + [lines[i - 1]];
      if i == re {
        marked := marked + [EndMarker];
      }
      assert lines[..i][..i - 1] == lines[..i - 1];
      i := i + 1;
    }
    assert lines[..i - 1] == lines;
  }

  /**
   * Where the markers end up, stated without the loop: a marker appears
   * exactly when its line number is a line of the file, the start marker
   * right before line `rs`, the end marker right after line `re`.
   */
  function Layout(lines: seq<string>, rs: int, re: int): seq<string>
  {
    var hasStart := 1 <= rs <= |lines|;
    var hasEnd := 1 <= re <= |lines|;
    if hasStart && hasEnd && rs <= re then
      lines[..rs - 1] + [StartMarker] + lines[rs - 1..re] + [EndMarker] + lines[re..]
    else if hasStart && hasEnd then
      lines[..re] + [EndMarker] + lines[re..rs - 1] + [StartMarker] + lines[rs - 1..]
    else if hasStart then
      lines[..rs - 1] + [StartMarker] + lines[rs - 1..]
    else if hasEnd then
      lines[..re] + [EndMarker] + lines[re..]
    else
      lines
  }

  /** What line `n` of the file contributes to the marked lines. */
  function Piece(n: int, line: string, rs: int, re: int): seq<string>
  {
    (if n == rs then [StartMarker] else []) + [line] + (if n == re then [EndMarker] else [])
  }

  lemma LayoutSnocNeither(init: seq<string>, x: string, rs: int, re: int)
    requires rs != |init| + 1 && re != |init| + 1
    ensures Layout(init + [x], rs, re) == Layout(init, rs, re) + [x]
  {
    var lines := init + [x];
    assert forall a :: 0 <= a <= |init| ==> init[a..] + [x] == lines[a..];
    assert forall a :: 0 <= a <= |init| ==> init[..a] == lines[..a];
    assert forall a, b :: 0 <= a <= b <= |init| ==> init[a..b] == lines[a..b];
  }

  lemma LayoutSnocStart(init: seq<string>, x: string, rs: int, re: int)
    requires rs == |init| + 1 && re != |init| + 1
    ensures Layout(init + [x], rs, re) == Layout(init, rs, re) + [StartMarker, x]
  {
    var lines := init + [x];
    var n := |lines|;
    assert lines[..n - 1] == init && lines[n - 1..] == [x];
    if 1 <= re < n {
      assert lines[..re] == init[..re];
      assert lines[re..n - 1] == init[re..];
    }
  }

  lemma LayoutSnocEnd(init: seq<string>, x: string, rs: int, re: int)
    requires rs != |init| + 1 && re == |init| + 1
    ensures Layout(init + [x], rs, re) == Layout(init, rs, re) + [x, EndMarker]
  {
    var lines := init + [x];
    var n := |lines|;
    assert lines[..n] == lines && lines[n..] == [];
    if 1 <= rs < n {
      assert lines[..rs - 1] == init[..rs - 1];
      assert lines[rs - 1..n] == init[rs - 1..] + [x];
    }
  }

  lemma LayoutSnocBoth(init: seq<string>, x: string, rs: int, re: int)
    requires rs == |init| + 1 && re == |init| + 1
    ensures Layout(init + [x], rs, re) == Layout(init, rs, re) + [StartMarker, x, EndMarker]
  {
    var lines := init + [x];
    var n := |lines|;
    assert lines[..n - 1] == init && lines[n - 1..n] == [x] && lines[n..] == [];
  }

  /** Adding a line to the file adds that line's piece to the layout. */
  lemma LayoutSnoc(init: seq<string>, x: string, rs: int, re: int)
    ensures Layout(init + [x], rs, re) == Layout(init, rs, re) + Piece(|init| + 1, x, rs, re)
  {
    var n := |init| + 1;
    if rs != n && re != n {
      LayoutSnocNeither(init, x, rs, re);
    } else if rs == n && re != n {
      LayoutSnocStart(init, x, rs, re);
    } else if rs != n {
      LayoutSnocEnd(init, x, rs, re);
    } else {
      LayoutSnocBoth(init, x, rs, re);
    }
  }

  /** Marking a file is marking all but its last line, then that line's piece. */
  lemma MarkedSnoc(lines: seq<string>, rs: int, re: int)
    requires lines != []
    ensures Marked(lines, rs, re) == Marked(lines[..|lines| - 1], rs, re) + Piece(|lines|, lines[|lines| - 1], rs, re)
  {
  }

  /** The marking loop produces exactly the layout above. */
  lemma {:induction false} MarkedIsLayout(lines: seq<string>, rs: int, re: int)
    ensures Marked(lines, rs, re) == Layout(lines, rs, re)
  {
    if lines != [] {
      var n := |lines|;
      var init := lines[..n - 1];
      MarkedIsLayout(init, rs, re);
      LayoutSnoc(init, lines[n - 1], rs, re);
      InitLast(lines);
      MarkedSnoc(lines, rs, re);
    }
  }

  /** Each marker is a single line. */
  lemma MarkersOneLine()
    ensures '\n' !in StartMarker && '\n' !in EndMarker
  {
  }

  /** Marking adds no occurrence of a character absent from the lines and the markers. */
  lemma {:induction false} MarkedWithout(lines: seq<string>, rs: int, re: int, c: char)
    requires c !in StartMarker && c !in EndMarker
    requires forall k :: 0 <= k < |lines| ==> c !in lines[k]
    ensures forall k :: 0 <= k < |Marked(lines, rs, re)| ==> c !in Marked(lines, rs, re)[k]
  {
    if lines != [] {
      var n := |lines|;
      MarkedWithout(lines[..n - 1], rs, re, c);
      MarkedSnoc(lines, rs, re);
    }
  }

  /** Marking never removes lines, and adds none when neither marker line exists. */
  lemma MarkedNonEmpty(lines: seq<string>, rs: int, re: int)
    requires |lines| >= 1
    ensures |Marked(lines, rs, re)| >= |lines|
    ensures |Marked(lines, rs, re)| == |lines| ==> Marked(lines, rs, re) == lines
  {
    MarkedIsLayout(lines, rs, re);
  }

  /**
   * The model input text (the marked lines joined with newlines) splits back
   * into the layout, when the lines hold no newline.
   */
  lemma InputLines(lines: seq<string>, rs: int, re: int)
    requires |lines| >= 1
    requires forall k :: 0 <= k < |lines| ==> '\n' !in lines[k]
    ensures Split(Join(Marked(lines, rs, re), '\n'), '\n') == Layout(lines, rs, re)
  {
    MarkedIsLayout(lines, rs, re);
    MarkersOneLine();
    MarkedWithout(lines, rs, re, '\n');
    MarkedNonEmpty(lines, rs, re);
    SplitJoin(Marked(lines, rs, re), '\n');
  }

  predicate IsMarker(line: string)
  {
    line == StartMarker || line == EndMarker
  }

  /** The lines with every marker line removed. */
  function Unmarked(lines: seq<string>): (r: seq<string>)
    ensures forall k :: 0 <= k < |r| ==> !IsMarker(r[k])
  {
    if lines == [] then []
    else Unmarked(lines[..|lines| - 1]) + (if IsMarker(Last(lines)) then [] else [Last(lines)])
  }

  lemma {:induction false} UnmarkedAppend(a: seq<string>, b: seq<string>)
    ensures Unmarked(a + b) == Unmarked(a) + Unmarked(b)
  {
    if b == [] {
      assert a + b == a;
    } else {
      var b' := b[..|b| - 1];
      UnmarkedAppend(a, b');
      assert (a + b)[..|a + b| - 1] == a + b';
    }
  }

  lemma UnmarkedPiece(n: int, line: string, rs: int, re: int)
    requires !IsMarker(line)
    ensures Unmarked(Piece(n, line, rs, re)) == [line]
  {
    var s := if n == rs then [StartMarker] else [];
    var e := if n == re then [EndMarker] else [];
    UnmarkedAppend(s + [line], e);
    UnmarkedAppend(s, [line]);
    assert Unmarked(s) == [] && Unmarked(e) == [];
    assert Unmarked([line]) == [line] by {
      assert [line][..0] == [];
    }
  }

  /**
   * The markers are the only lines added: removing them from the marked
   * lines gives back the before-lines, when no before-line is itself a marker.
   */
  lemma {:induction false} MarkersOnlyInsertions(lines: seq<string>, rs: int, re: int)
    requires forall k :: 0 <= k < |lines| ==> !IsMarker(lines[k])
    ensures Unmarked(Marked(lines, rs, re)) == lines
  {
    if lines != [] {
      var n := |lines|;
      var init, x := lines[..n - 1], lines[n - 1];
      var before := Marked(init, rs, re);
      assert Unmarked(before) == init by {
        MarkersOnlyInsertions(init, rs, re);
      }
      var piece := Piece(n, x, rs, re);
      MarkedSnoc(lines, rs, re);
      assert Unmarked(piece) == [x] by {
        UnmarkedPiece(n, x, rs, re);
      }
      UnmarkedAppend(before, piece);
      InitLast(lines);
    }
  }

  // ----- The target text -----

  /** A Python slice bound: negative counts from the end, then clamped to `0..n`. */
  function SliceBound(i: int, n: nat): (j: nat)
    ensures j <= n
    ensures 0 <= i <= n ==> j == i
    ensures i < 0 <= i + n ==> j == i + n
  {
    if i < 0 then (if i + n < 0 then 0 else i + n)
    else if i > n then n
    else i
  }

  /** Python's `s[lo:hi]`. */
  function PySlice<T>(s: seq<T>, lo: int, hi: int): (r: seq<T>)
    ensures 0 <= lo <= hi <= |s| ==> r == s[lo..hi]
    ensures 0 <= hi <= lo ==> r == []
    ensures hi < 0 <= lo <= hi + |s| ==> r == s[lo..hi + |s|]
  {
    var a := SliceBound(lo, |s|);
    var b := SliceBound(hi, |s|);
    if a <= b then s[a..b] else []
  }

  /**
   * `model_target_text`: the after-lines of the region joined with newlines,
   * or None when either bound lies past the end of the after-lines.
   */
  function TargetText(afterLines: seq<string>, rs: int, re: int): (t: Option<string>)
    ensures t.Some? <==> rs <= |afterLines| && re <= |afterLines|
  {
    if rs <= |afterLines| && re <= |afterLines| then Some(Join(PySlice(afterLines, rs - 1, re), '\n'))
    else None
  }

  /**
   * For a non-empty region inside the after-lines, the target text splits
   * back into exactly the after-lines `rs..re` (1-based, inclusive).
   */
  lemma TargetLines(afterLines: seq<string>, rs: int, re: int)
    requires forall k :: 0 <= k < |afterLines| ==> '\n' !in afterLines[k]
    requires 1 <= rs <= re <= |afterLines|
    ensures TargetText(afterLines, rs, re).Some?
    ensures Split(TargetText(afterLines, rs, re).value, '\n') == afterLines[rs - 1..re]
  {
    var region := afterLines[rs - 1..re];
    assert PySlice(afterLines, rs - 1, re) == region;
    SplitJoin(region, '\n');
  }
}
