/**
 * The string helpers of the C++ source dumper (main.cpp:397-424) and the
 * ordering `std::string` keys follow in a `std::map`.
 */
module CppText {
  import opened Collections

  /** `std::isspace` in the C locale: space, tab, newline, vertical tab, form feed, carriage return. */
  predicate IsSpace(c: char) {
    c == ' ' || c == '\t' || c == '\n' || c == '\U{B}' || c == '\U{C}' || c == '\r'
  }

  predicate AllSpace(s: string) {
    forall k :: 0 <= k < |s| ==> IsSpace(s[k])
  }

  /** Neither starts nor ends with whitespace. */
  predicate Trimmed(s: string) {
    |s| == 0 || (!IsSpace(s[0]) && !IsSpace(s[|s| - 1]))
  }

  /** `ltrim`: drop the leading whitespace. */
  function LTrim(s: string): (r: string)
    ensures |r| <= |s| && r == s[|s| - |r|..]
    ensures AllSpace(s[..|s| - |r|])
    ensures |r| == 0 || !IsSpace(r[0])
  {
    if |s| > 0 && IsSpace(s[0]) then LTrim(s[1..]) else s
  }

  /** `rtrim`: drop the trailing whitespace. */
  function RTrim(s: string): (r: string)
    ensures |r| <= |s| && r == s[..|r|]
    ensures AllSpace(s[|r|..])
    ensures |r| == 0 || !IsSpace(r[|r| - 1])
  {
    if |s| > 0 && IsSpace(s[|s| - 1]) then RTrim(s[..|s| - 1]) else s
  }

  /** `ltrim` then `rtrim`: the middle of `s` between its leading and trailing whitespace. */
  function Trim(s: string): (r: string)
    ensures Trimmed(r)
    ensures exists i, j :: 0 <= i <= j <= |s| && r == s[i..j] && AllSpace(s[..i]) && AllSpace(s[j..])
  {
    var left := LTrim(s);
    var r := RTrim(left);
    TrimBounds(s, left, r, |s| - |left|);
    r
  }

  /**
   * Where the trimmed middle of `s` lies: `r` is a prefix of the suffix
   * `left` of `s` that starts at `i`, and the whitespace after `r` in `left`
   * is the whitespace after it in `s`.
   */
  lemma TrimBounds(s: string, left: string, r: string, i: nat)
    requires i <= |s| && left == s[i..]
    requires |r| <= |left| && r == left[..|r|] && AllSpace(left[|r|..])
    ensures i + |r| <= |s| && r == s[i..i + |r|] && AllSpace(s[i + |r|..])
  {
    assert s[i + |r|..] == left[|r|..];
  }

  /** A trimmed string is its own trim. */
  lemma TrimTrimmed(s: string)
    requires Trimmed(s)
    ensures Trim(s) == s
  {
  }

  /** Index of the first `d` in `s`, or `|s|` if there is none. */
  function FirstIndex(s: string, d: char): (i: nat)
    ensures i <= |s|
    ensures forall k :: 0 <= k < i ==> s[k] != d
    ensures i < |s| ==> s[i] == d
  {
    if |s| == 0 || s[0] == d then 0 else 1 + FirstIndex(s[1..], d)
  }

  /**
   * The pieces `std::getline(ss, item, d)` yields one after another: the text
   * up to each `d`, then what follows the last `d` if it is not empty. So a
   * trailing delimiter does not start an empty piece and "" yields none.
   */
  function Lines(s: string, d: char): (r: seq<string>)
    ensures |r| == 0 <==> |s| == 0
    decreases |s|
  {
    if |s| == 0 then []
    else
      var i := FirstIndex(s, d);
      if i == |s| then [s] else [s[..i]] + Lines(s[i + 1..], d)
  }

  /** No piece contains the delimiter. */
  lemma {:induction false} LinesFree(s: string, d: char)
    ensures forall k :: 0 <= k < |Lines(s, d)| ==> d !in Lines(s, d)[k]
    decreases |s|
  {
    if |s| > 0 {
      var i := FirstIndex(s, d);
      assert d !in s[..i] by {
        assert forall k :: 0 <= k < i ==> s[..i][k] == s[k];
      }
      if i < |s| {
        LinesFree(s[i + 1..], d);
      }
    }
  }

  /** What a final delimiter leaves off the join of the pieces. */
  function FinalDelimiter(s: string, d: char): string {
    if |s| > 0 && s[|s| - 1] == d then [d] else []
  }

  /** Joining the pieces with `d` gives back `s`, up to a final delimiter: `Lines` loses nothing else. */
  lemma {:induction false} LinesJoinBack(s: string, d: char)
    ensures s == JoinWith(Lines(s, d), d) + FinalDelimiter(s, d)
    decreases |s|
  {
    if |s| > 0 {
      var i := FirstIndex(s, d);
      if i == |s| {
        JoinBackLast(s, d);
      } else {
        LinesJoinBack(s[i + 1..], d);
        JoinBackStep(s, d, i);
      }
    }
  }

  lemma JoinBackLast(s: string, d: char)
    requires |s| > 0 && FirstIndex(s, d) == |s|
    ensures s == JoinWith(Lines(s, d), d) + FinalDelimiter(s, d)
  {
    assert Lines(s, d) == [s];
    assert JoinWith([s], d) == s;
  }

  lemma JoinBackStep(s: string, d: char, i: nat)
    requires i < |s| && FirstIndex(s, d) == i
    requires s[i + 1..] == JoinWith(Lines(s[i + 1..], d), d) + FinalDelimiter(s[i + 1..], d)
    ensures s == JoinWith(Lines(s, d), d) + FinalDelimiter(s, d)
  {
    assert Lines(s, d) == [s[..i]] + Lines(s[i + 1..], d);
    if i + 1 == |s| {
      JoinBackEnd(s, d, i);
    } else {
      JoinBackMiddle(s, d, i);
    }
  }

  lemma JoinBackEnd(s: string, d: char, i: nat)
    requires i + 1 == |s| && s[i] == d
    requires Lines(s, d) == [s[..i]] + Lines(s[i + 1..], d)
    ensures s == JoinWith(Lines(s, d), d) + FinalDelimiter(s, d)
  {
    assert Lines(s, d) == [s[..i]];
    assert s == s[..i] + [d];
  }

  lemma JoinBackMiddle(s: string, d: char, i: nat)
    requires i + 1 < |s| && s[i] == d
    requires Lines(s, d) == [s[..i]] + Lines(s[i + 1..], d)
    requires s[i + 1..] == JoinWith(Lines(s[i + 1..], d), d) + FinalDelimiter(s[i + 1..], d)
    ensures s == JoinWith(Lines(s, d), d) + FinalDelimiter(s, d)
  {
    var t := s[i + 1..];
    assert FinalDelimiter(s, d) == FinalDelimiter(t, d);
    JoinAfterDelimiter(s, d, i, Lines(t, d), FinalDelimiter(t, d));
  }

  lemma JoinAfterDelimiter(s: string, d: char, i: nat, rest: seq<string>, tail: string)
    requires i < |s| && s[i] == d && |rest| > 0
    requires s[i + 1..] == JoinWith(rest, d) + tail
    ensures s == JoinWith([s[..i]] + rest, d) + tail
  {
    JoinCons(s[..i], rest, d);
    assert s == s[..i] + [d] + s[i + 1..];
  }

  /** The pieces joined back with `d` between them. */
  function JoinWith(ws: seq<string>, d: char): string {
    if |ws| == 0 then "" else if |ws| == 1 then ws[0] else ws[0] + [d] + JoinWith(ws[1..], d)
  }

  lemma JoinCons(w: string, ws: seq<string>, d: char)
    ensures |ws| > 0 ==> JoinWith([w] + ws, d) == w + [d] + JoinWith(ws, d)
  {
    assert ([w] + ws)[1..] == ws;
  }

  lemma FirstIndexIs(t: string, d: char, n: nat)
    requires n <= |t|
    requires forall k :: 0 <= k < n ==> t[k] != d
    requires n < |t| ==> t[n] == d
    ensures FirstIndex(t, d) == n
  {
  }

  /** The first piece ends at the first delimiter, and getline carries on after it. */
  lemma LinesAtDelimiter(t: string, i: nat, d: char)
    requires i < |t| && t[i] == d
    requires forall k :: 0 <= k < i ==> t[k] != d
    ensures Lines(t, d) == [t[..i]] + Lines(t[i + 1..], d)
  {
    FirstIndexIs(t, d, i);
  }

  /** Text without a delimiter is one piece. */
  lemma LinesAtEnd(t: string, d: char)
    requires |t| > 0
    requires forall k :: 0 <= k < |t| ==> t[k] != d
    ensures Lines(t, d) == [t]
  {
    FirstIndexIs(t, d, |t|);
  }

  /** Applies `Trim` to every piece. */
  function TrimAll(ws: seq<string>): (r: seq<string>)
    ensures |r| == |ws|
    ensures forall k :: 0 <= k < |r| ==> r[k] == Trim(ws[k])
  {
    if |ws| == 0 then [] else [Trim(ws[0])] + TrimAll(ws[1..])
  }

  lemma TrimAllSnoc(ws: seq<string>, w: string)
    ensures TrimAll(ws + [w]) == TrimAll(ws) + [Trim(w)]
  {
  }

  /** `split(s, d)`: the getline pieces, each trimmed of surrounding whitespace. */
  function Split(s: string, d: char): (r: seq<string>)
    ensures |r| == |Lines(s, d)|
    ensures forall k :: 0 <= k < |r| ==> Trimmed(r[k]) && r[k] == Trim(Lines(s, d)[k])
  {
    TrimAll(Lines(s, d))
  }

  /**
   * `split` as written: a getline loop that scans each piece up to the next
   * delimiter, trims it and appends it.
   */
  method SplitScan(s: string, d: char) returns (elems: seq<string>)
    ensures elems == Split(s, d)
  {
    elems := [];
    ghost var pieces: seq<string> := [];
    var pos := 0;
    assert s[0..] == s;
    while pos < |s|
      invariant 0 <= pos <= |s|
      invariant Lines(s, d) == pieces + Lines(s[pos..], d)
      invariant elems == TrimAll(pieces)
      decreases |s| - pos
    {
      var end := PieceEnd(s, pos, d);
      TrimAllSnoc(pieces, s[pos..end]);
      if end < |s| {
        LinesAdvance(s, d, pos, end, pieces);
        pieces := pieces + [s[pos..end]];
        elems := elems + [Trim(s[pos..end])];
        pos := end + 1;
      } else {
        LinesFinish(s, d, pos, end, pieces);
        pieces := pieces + [s[pos..end]];
        elems := elems + [Trim(s[pos..end])];
        pos := end;
      }
    }
    assert s[pos..] == [];
  }

  /** One `getline` read: the end of the piece that starts at `pos`. */
  method PieceEnd(s: string, pos: nat, d: char) returns (end: nat)
    requires pos <= |s|
    ensures pos <= end <= |s|
    ensures forall k :: pos <= k < end ==> s[k] != d
    ensures end < |s| ==> s[end] == d
  {
    end := pos;
    while end < |s| && s[end] != d
      invariant pos <= end <= |s|
      invariant forall k :: pos <= k < end ==> s[k] != d
    {
      end := end + 1;
    }
  }

  /** The pieces read so far, then a piece ended by a delimiter, then the pieces after it. */
  lemma LinesAdvance(s: string, d: char, pos: nat, end: nat, pieces: seq<string>)
    requires pos <= end < |s|
    requires forall k :: pos <= k < end ==> s[k] != d
    requires s[end] == d
    requires Lines(s, d) == pieces + Lines(s[pos..], d)
    ensures Lines(s, d) == (pieces + [s[pos..end]]) + Lines(s[end + 1..], d)
  {
    SuffixAtDelimiter(s, d, pos, end);
    Assoc(pieces, [s[pos..end]], Lines(s[end + 1..], d));
  }

  /** Read from `pos`, getline yields the piece up to the delimiter at `end`, then carries on after it. */
  lemma SuffixAtDelimiter(s: string, d: char, pos: nat, end: nat)
    requires pos <= end < |s|
    requires forall k :: pos <= k < end ==> s[k] != d
    requires s[end] == d
    ensures Lines(s[pos..], d) == [s[pos..end]] + Lines(s[end + 1..], d)
  {
    var t := s[pos..];
    SuffixSlices(s, pos, end);
    LinesAtDelimiter(t, end - pos, d);
  }

  lemma SuffixSlices(s: string, pos: nat, end: nat)
    requires pos <= end < |s|
    ensures forall k :: 0 <= k <= end - pos ==> s[pos..][k] == s[pos + k]
    ensures s[pos..][end - pos + 1..] == s[end + 1..] && s[pos..][..end - pos] == s[pos..end]
  {
  }

  /** The pieces read so far, then the last piece, which runs to the end of `s`; nothing follows it. */
  lemma LinesFinish(s: string, d: char, pos: nat, end: nat, pieces: seq<string>)
    requires pos < end == |s|
    requires forall k :: pos <= k < end ==> s[k] != d
    requires Lines(s, d) == pieces + Lines(s[pos..], d)
    ensures Lines(s, d) == (pieces + [s[pos..end]]) + Lines(s[end..], d)
  {
    var t := s[pos..];
    assert forall k :: 0 <= k < |t| ==> t[k] == s[pos + k];
    LinesAtEnd(t, d);
    assert t == s[pos..end];
    assert Lines(s[end..], d) == [];
  }

  /** A piece free of `d` followed by `d` is the first piece getline yields. */
  lemma LinesCons(w: string, r: string, d: char)
    requires d !in w
    ensures Lines(w + [d] + r, d) == [w] + Lines(r, d)
  {
    var s := w + [d] + r;
    assert forall k :: 0 <= k < |w| ==> s[k] == w[k];
    LinesAtDelimiter(s, |w|, d);
    assert s[..|w|] == w && s[|w| + 1..] == r;
  }

  /** A non-empty piece free of `d` is the only piece getline yields. */
  lemma LinesSingle(w: string, d: char)
    requires d !in w && |w| > 0
    ensures Lines(w, d) == [w]
  {
    LinesAtEnd(w, d);
  }

  /** Pieces free of `d`, the last one non-empty, are exactly what getline yields from their join. */
  lemma {:induction false} LinesJoin(ws: seq<string>, d: char)
    requires forall k :: 0 <= k < |ws| ==> d !in ws[k]
    requires |ws| == 0 || ws[|ws| - 1] != ""
    ensures Lines(JoinWith(ws, d), d) == ws
    decreases |ws|
  {
    if |ws| == 1 {
      LinesSingle(ws[0], d);
    } else if |ws| > 1 {
      assert forall k :: 0 <= k < |ws| - 1 ==> ws[1..][k] == ws[k + 1];
      LinesJoin(ws[1..], d);
      assert JoinWith(ws, d) == ws[0] + [d] + JoinWith(ws[1..], d);
      LinesCons(ws[0], JoinWith(ws[1..], d), d);
      assert ws == [ws[0]] + ws[1..];
    }
  }

  /** Trimmed pieces free of `d`, the last one non-empty, survive joining and splitting unchanged. */
  lemma SplitJoin(ws: seq<string>, d: char)
    requires forall k :: 0 <= k < |ws| ==> Trimmed(ws[k]) && d !in ws[k]
    requires |ws| == 0 || ws[|ws| - 1] != ""
    ensures Split(JoinWith(ws, d), d) == ws
  {
    LinesJoin(ws, d);
    TrimAllTrimmed(ws);
  }

  lemma TrimAllTrimmed(ws: seq<string>)
    requires forall k :: 0 <= k < |ws| ==> Trimmed(ws[k])
    ensures TrimAll(ws) == ws
  {
    forall k | 0 <= k < |ws| ensures TrimAll(ws)[k] == ws[k] {
      TrimTrimmed(ws[k]);
    }
  }

  /** `std::string`'s `operator<`: lexicographic by character, a proper prefix first. */
  predicate LexLess(a: string, b: string) {
    if |a| == 0 then |b| > 0
    else if |b| == 0 then false
    else if a[0] != b[0] then a[0] < b[0]
    else LexLess(a[1..], b[1..])
  }

  lemma {:induction false} LexIrreflexive(a: string)
    ensures !LexLess(a, a)
    decreases |a|
  {
    if |a| > 0 {
      LexIrreflexive(a[1..]);
    }
  }

  lemma {:induction false} LexTransitive(a: string, b: string, c: string)
    requires LexLess(a, b) && LexLess(b, c)
    ensures LexLess(a, c)
    decreases |a|
  {
    if |a| > 0 && |c| > 0 && a[0] == b[0] && b[0] == c[0] {
      LexTransitive(a[1..], b[1..], c[1..]);
    }
  }

  lemma {:induction false} LexTotal(a: string, b: string)
    requires a != b
    ensures LexLess(a, b) || LexLess(b, a)
    decreases |a|
  {
    if |a| > 0 && |b| > 0 && a[0] == b[0] {
      assert a == [a[0]] + a[1..] && b == [b[0]] + b[1..];
      LexTotal(a[1..], b[1..]);
    }
  }

  lemma {:induction false} LexAsymmetric(a: string, b: string)
    requires LexLess(a, b)
    ensures !LexLess(b, a)
    decreases |a|
  {
    if |a| > 0 && |b| > 0 && a[0] == b[0] {
      LexAsymmetric(a[1..], b[1..]);
    }
  }
}
