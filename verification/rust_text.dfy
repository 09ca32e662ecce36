/**
 * Rust's `str::split_whitespace`, used to split the Architecture field into
 * tokens (src/parse/types.rs:316, src/parse/pkg.rs:146).
 */
module RustText {

  /** `char::is_whitespace`: the Unicode White_Space property. */
  predicate IsWhitespace(c: char) {
    var n := c as int;
    (0x09 <= n <= 0x0D) || n == 0x20 || n == 0x85 || n == 0xA0 || n == 0x1680
    || (0x2000 <= n <= 0x200A) || n == 0x2028 || n == 0x2029 || n == 0x202F
    || n == 0x205F || n == 0x3000
  }

  predicate IsWord(w: string) {
    |w| > 0 && forall i :: 0 <= i < |w| ==> !IsWhitespace(w[i])
  }

  /** The characters of `s` that are not whitespace, in order. */
  function Squeeze(s: string): string {
    if |s| == 0 then ""
    else if IsWhitespace(s[0]) then Squeeze(s[1..])
    else [s[0]] + Squeeze(s[1..])
  }

  function Concat(ws: seq<string>): string {
    if |ws| == 0 then "" else ws[0] + Concat(ws[1..])
  }

  /** Length of the maximal whitespace-free prefix of `s`. */
  function WordLength(s: string): (n: nat)
    ensures n <= |s|
    ensures forall i :: 0 <= i < n ==> !IsWhitespace(s[i])
    ensures n < |s| ==> IsWhitespace(s[n])
  {
    if |s| == 0 || IsWhitespace(s[0]) then 0 else 1 + WordLength(s[1..])
  }

  lemma {:induction false} SqueezeAppend(a: string, b: string)
    ensures Squeeze(a + b) == Squeeze(a) + Squeeze(b)
    decreases |a|
  {
    if |a| == 0 {
      assert a + b == b;
    } else {
      assert (a + b)[1..] == a[1..] + b;
      SqueezeAppend(a[1..], b);
    }
  }

  lemma {:induction false} SqueezeWord(w: string)
    requires forall i :: 0 <= i < |w| ==> !IsWhitespace(w[i])
    ensures Squeeze(w) == w
    decreases |w|
  {
    if |w| > 0 {
      SqueezeWord(w[1..]);
    }
  }

  /**
   * The maximal runs of non-whitespace characters of `s`, in order: every
   * token is a non-empty word, and together they hold exactly the
   * non-whitespace characters of `s`.
   */
  function SplitWhitespace(s: string): (r: seq<string>)
    ensures forall k :: 0 <= k < |r| ==> IsWord(r[k])
    ensures Concat(r) == Squeeze(s)
    decreases |s|
  {
    if |s| == 0 then []
    else if IsWhitespace(s[0]) then SplitWhitespace(s[1..])
    else
      var n := WordLength(s);
      assert s == s[..n] + s[n..];
      SqueezeAppend(s[..n], s[n..]);
      SqueezeWord(s[..n]);
      [s[..n]] + SplitWhitespace(s[n..])
  }

  /** Made of whitespace only (possibly empty). */
  predicate AllWhitespace(g: string) {
    forall i :: 0 <= i < |g| ==> IsWhitespace(g[i])
  }

  /**
   * `gaps` can separate `words` into maximal runs: one more gap than words,
   * every gap whitespace, and every gap between two words non-empty (the
   * leading and trailing gaps may be empty).
   */
  predicate Spacing(gaps: seq<string>, words: seq<string>) {
    && |gaps| == |words| + 1
    && (forall k :: 0 <= k < |gaps| ==> AllWhitespace(gaps[k]))
    && (forall k :: 0 < k < |words| ==> |gaps[k]| > 0)
    && (forall k :: 0 <= k < |words| ==> IsWord(words[k]))
  }

  /** `gaps[0] + words[0] + gaps[1] + ... + words[n-1] + gaps[n]`. */
  function Interleave(gaps: seq<string>, words: seq<string>): string
    requires |gaps| == |words| + 1
  {
    if |words| == 0 then gaps[0]
    else gaps[0] + words[0] + Interleave(gaps[1..], words[1..])
  }

  /**
   * The pieces are the maximal runs of `s`: `s` is the pieces with runs of
   * whitespace between them, and some whitespace between each two.
   */
  lemma {:induction false} SplitWhitespaceMaximal(s: string)
    ensures exists gaps :: Spacing(gaps, SplitWhitespace(s)) && Interleave(gaps, SplitWhitespace(s)) == s
    decreases |s|
  {
    var r := SplitWhitespace(s);
    if |s| == 0 {
      assert Spacing([""], r) && Interleave([""], r) == s;
    } else if IsWhitespace(s[0]) {
      SplitWhitespaceMaximal(s[1..]);
      var g :| Spacing(g, r) && Interleave(g, r) == s[1..];
      GapCons(s[0], g, r, s[1..]);
      assert [s[0]] + s[1..] == s;
    } else {
      var n := WordLength(s);
      var tail := SplitWhitespace(s[n..]);
      assert r == [s[..n]] + tail;
      SplitWhitespaceMaximal(s[n..]);
      var g :| Spacing(g, tail) && Interleave(g, tail) == s[n..];
      WordCons(s[..n], g, tail, s[n..]);
      assert s[..n] + s[n..] == s;
    }
  }

  /** A whitespace character in front joins the leading gap. */
  lemma GapCons(c: char, gaps: seq<string>, words: seq<string>, t: string)
    requires IsWhitespace(c) && Spacing(gaps, words) && Interleave(gaps, words) == t
    ensures Spacing([[c] + gaps[0]] + gaps[1..], words)
    ensures Interleave([[c] + gaps[0]] + gaps[1..], words) == [c] + t
  {
    var g' := [[c] + gaps[0]] + gaps[1..];
    assert forall k :: 0 < k < |g'| ==> g'[k] == gaps[k];
    assert AllWhitespace(g'[0]);
    if |words| > 0 {
      assert g'[1..] == gaps[1..];
      assert Interleave(g', words) == ([c] + gaps[0]) + words[0] + Interleave(gaps[1..], words[1..]);
    }
  }

  /** A word in front of text that is empty or starts with whitespace becomes the first word. */
  lemma WordCons(w: string, gaps: seq<string>, words: seq<string>, t: string)
    requires IsWord(w) && Spacing(gaps, words) && Interleave(gaps, words) == t
    requires |t| == 0 || IsWhitespace(t[0])
    ensures Spacing([""] + gaps, [w] + words)
    ensures Interleave([""] + gaps, [w] + words) == w + t
  {
    var g' := [""] + gaps;
    var r := [w] + words;
    assert g'[1..] == gaps && r[1..] == words && r[0] == w;
    if |words| > 0 {
      InterleaveLeadingGap(gaps, words, t);
    }
    assert forall k :: 0 < k < |g'| ==> g'[k] == gaps[k - 1];
    assert forall k :: 0 < k < |r| ==> r[k] == words[k - 1];
  }

  /** Text that starts with whitespace and holds a word starts with a non-empty gap. */
  lemma InterleaveLeadingGap(gaps: seq<string>, words: seq<string>, s: string)
    requires Spacing(gaps, words) && |words| > 0 && Interleave(gaps, words) == s
    requires |s| > 0 && IsWhitespace(s[0])
    ensures |gaps[0]| > 0
  {
  }

  /**
   * The maximal runs are the only way to read `s` as words separated by
   * whitespace: any such reading is what `SplitWhitespace` returns.
   */
  lemma {:induction false} SplitWhitespaceUnique(s: string, gaps: seq<string>, words: seq<string>)
    requires Spacing(gaps, words) && Interleave(gaps, words) == s
    ensures SplitWhitespace(s) == words
    decreases |s|
  {
    if |gaps[0]| > 0 {
      var g' := [gaps[0][1..]] + gaps[1..];
      assert forall k :: 0 < k < |g'| ==> g'[k] == gaps[k];
      assert AllWhitespace(g'[0]);
      assert Spacing(g', words);
      if |words| == 0 {
        assert s == gaps[0];
      } else {
        assert g'[1..] == gaps[1..];
        assert s == gaps[0] + words[0] + Interleave(gaps[1..], words[1..]);
      }
      assert Interleave(g', words) == s[1..];
      SplitWhitespaceUnique(s[1..], g', words);
    } else if |words| == 0 {
      assert s == "";
    } else {
      var w := words[0];
      var tail := Interleave(gaps[1..], words[1..]);
      assert s == w + tail;
      assert Spacing(gaps[1..], words[1..]) by {
        assert forall k :: 0 <= k < |gaps| - 1 ==> gaps[1..][k] == gaps[k + 1];
        assert forall k :: 0 <= k < |words| - 1 ==> words[1..][k] == words[k + 1];
      }
      TailStartsWithGap(gaps, words);
      WordLengthOfWord(w, tail);
      assert s[..|w|] == w && s[|w|..] == tail;
      SplitWhitespaceUnique(tail, gaps[1..], words[1..]);
      assert words == [w] + words[1..];
    }
  }

  /** After the first word, the text is empty or starts with whitespace. */
  lemma TailStartsWithGap(gaps: seq<string>, words: seq<string>)
    requires Spacing(gaps, words) && |words| > 0
    ensures var tail := Interleave(gaps[1..], words[1..]);
            |tail| == 0 || IsWhitespace(tail[0])
  {
    var tail := Interleave(gaps[1..], words[1..]);
    if |words| == 1 {
      assert tail == gaps[1];
    } else {
      assert |gaps[1]| > 0;
      assert tail == gaps[1] + words[1] + Interleave(gaps[2..], words[2..]) by {
        assert gaps[1..][0] == gaps[1] && words[1..][0] == words[1];
        assert gaps[1..][1..] == gaps[2..] && words[1..][1..] == words[2..];
      }
      assert tail[0] == gaps[1][0];
    }
  }

  /** Words separated by a single space, as a record's field value writes them. */
  function JoinSpaced(ws: seq<string>): string {
    if |ws| == 0 then ""
    else if |ws| == 1 then ws[0]
    else ws[0] + " " + JoinSpaced(ws[1..])
  }

  /** Splitting words written with single spaces between them gives the words back. */
  lemma {:induction false} SplitJoinSpaced(ws: seq<string>)
    requires forall k :: 0 <= k < |ws| ==> IsWord(ws[k])
    ensures SplitWhitespace(JoinSpaced(ws)) == ws
    decreases |ws|
  {
    if |ws| == 1 {
      var w := ws[0];
      WordLengthOfWord(w, "");
      assert w + "" == w;
      assert w[..|w|] == w;
    } else if |ws| > 1 {
      var w := ws[0];
      var rest := JoinSpaced(ws[1..]);
      var s := w + " " + rest;
      assert s == w + (" " + rest);
      WordLengthOfWord(w, " " + rest);
      assert s[..|w|] == w;
      assert s[|w|..] == " " + rest;
      assert (" " + rest)[1..] == rest;
      SplitJoinSpaced(ws[1..]);
    }
  }

  lemma {:induction false} WordLengthOfWord(w: string, tail: string)
    requires IsWord(w)
    requires |tail| == 0 || IsWhitespace(tail[0])
    ensures WordLength(w + tail) == |w|
    decreases |w|
  {
    if |w| > 1 {
      assert (w + tail)[1..] == w[1..] + tail;
      WordLengthOfWord(w[1..], tail);
    } else {
      assert (w + tail)[1..] == tail;
    }
  }

  /** A single word splits to itself. */
  lemma SplitWord(w: string)
    requires IsWord(w)
    ensures SplitWhitespace(w) == [w]
  {
    SplitJoinSpaced([w]);
  }
}
