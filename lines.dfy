/**
 * Python's `str.split(sep)` and `sep.join(pieces)` for a one-character
 * separator, as used for line handling (`'\n'`) and for file extensions
 * (`'.'`). `Split` never returns an empty sequence: `"".split(sep) == [""]`.
 */
module Lines {

  /** `s.split(sep)` */
  function Split(s: string, sep: char): (pieces: seq<string>)
    ensures |pieces| >= 1
    ensures forall k :: 0 <= k < |pieces| ==> sep !in pieces[k]
  {
    if s == [] then [[]]
    else
      var rest := Split(s[1..], sep);
      if s[0] == sep then [[]] + rest
      else [[s[0]] + rest[0]] + rest[1..]
  }

  /** `sep.join(pieces)` */
  function Join(pieces: seq<string>, sep: char): string
  {
    if |pieces| == 0 then []
    else if |pieces| == 1 then pieces[0]
    else pieces[0] + [sep] + Join(pieces[1..], sep)
  }

  function Last<T>(s: seq<T>): T
    requires |s| > 0
  {
    s[|s| - 1]
  }

  lemma TakeSnoc<T>(s: seq<T>, i: nat)
    requires i < |s|
    ensures s[..i + 1] == s[..i] + [s[i]]
  {
  }

  lemma WholePrefix<T>(s: seq<T>)
    ensures s[..|s|] == s
  {
  }

  lemma InitLast<T>(s: seq<T>)
    requires s != []
    ensures s[..|s| - 1] + [s[|s| - 1]] == s
  {
  }

  /** Joining the pieces of a split gives back the original text. */
  lemma {:induction false} JoinSplit(s: string, sep: char)
    ensures Join(Split(s, sep), sep) == s
  {
    if s != [] {
      var rest := Split(s[1..], sep);
      JoinSplit(s[1..], sep);
      if s[0] == sep {
        assert Split(s, sep) == [[]] + rest;
        assert ([[]] + rest)[1..] == rest;
      } else {
        var r := [[s[0]] + rest[0]] + rest[1..];
        assert Split(s, sep) == r;
        if |rest| > 1 {
          assert r[1..] == rest[1..];
          assert Join(rest, sep) == rest[0] + [sep] + Join(rest[1..], sep);
        }
      }
    }
  }

  /** A text without the separator splits into itself alone. */
  lemma {:induction false} SplitWithoutSeparator(s: string, sep: char)
    requires sep !in s
    ensures Split(s, sep) == [s]
  {
    if s != [] {
      assert s[0] in s;
      SplitWithoutSeparator(s[1..], sep);
      assert [s[0]] + s[1..] == s;
    }
  }

  /** Splitting `a + sep + b`, where `a` has no separator, peels off `a`. */
  lemma {:induction false} SplitAfterPiece(a: string, b: string, sep: char)
    requires sep !in a
    ensures Split(a + [sep] + b, sep) == [a] + Split(b, sep)
  {
    if a == [] {
      assert [sep] + b == a + [sep] + b;
      assert ([sep] + b)[1..] == b;
    } else {
      var s := a + [sep] + b;
      assert s[1..] == a[1..] + [sep] + b;
      SplitAfterPiece(a[1..], b, sep);
      assert [a[0]] + a[1..] == a;
    }
  }

  /**
   * Splitting the join of separator-free pieces gives back the pieces
   * (for a non-empty list: `"".split(sep)` is `[""]`, never `[]`).
   */
  lemma {:induction false} SplitJoin(pieces: seq<string>, sep: char)
    requires |pieces| >= 1
    requires forall k :: 0 <= k < |pieces| ==> sep !in pieces[k]
    ensures Split(Join(pieces, sep), sep) == pieces
  {
    if |pieces| == 1 {
      SplitWithoutSeparator(pieces[0], sep);
    } else {
      SplitJoin(pieces[1..], sep);
      SplitAfterPiece(pieces[0], Join(pieces[1..], sep), sep);
    }
  }

  /** Join of a list extended at the end. */
  lemma {:induction false} JoinSnoc(pieces: seq<string>, sep: char)
    requires |pieces| >= 2
    ensures Join(pieces, sep) == Join(pieces[..|pieces| - 1], sep) + [sep] + Last(pieces)
  {
    if |pieces| > 2 {
      var init := pieces[..|pieces| - 1];
      JoinSnoc(pieces[1..], sep);
      assert pieces[1..][..|pieces| - 2] == init[1..];
      assert Join(init, sep) == init[0] + [sep] + Join(init[1..], sep);
    } else {
      assert pieces[..1] == [pieces[0]];
    }
  }

  /** A join is empty only when it joins at most one empty piece. */
  lemma {:induction false} JoinEmpty(pieces: seq<string>, sep: char)
    requires Join(pieces, sep) == []
    ensures |pieces| <= 1
    ensures forall k :: 0 <= k < |pieces| ==> pieces[k] == []
  {
  }

  /**
   * The last piece of a split is the text after the last separator:
   * a text holding the separator is `prefix + sep + Last(Split(...))`.
   */
  lemma SplitLastIsSuffix(s: string, sep: char)
    requires sep in s
    ensures var tail := Last(Split(s, sep));
      sep !in tail && |tail| < |s| && s == s[..|s| - |tail| - 1] + [sep] + tail
  {
    var pieces := Split(s, sep);
    JoinSplit(s, sep);
    JoinSnoc(pieces, sep);
    var tail := Last(pieces);
    var head := Join(pieces[..|pieces| - 1], sep);
    assert s == head + [sep] + tail;
    assert s[..|s| - |tail| - 1] == head;
  }
}
