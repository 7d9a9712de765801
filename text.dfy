/** Python's view of whitespace in a line of text: `str.strip()` and `str.split()` with no argument. */
module Text {

  /** The characters for which Python's `str.isspace()` holds; both `strip()` and `split()` use this set. */
  predicate IsSpace(c: char) {
    var n := c as int;
    (0x09 <= n <= 0x0D) || (0x1C <= n <= 0x20) || n == 0x85 || n == 0xA0 || n == 0x1680 ||
    (0x2000 <= n <= 0x200A) || n == 0x2028 || n == 0x2029 || n == 0x202F || n == 0x205F || n == 0x3000
  }

  /** `len(s.strip()) == 0`: the line holds whitespace only (or nothing at all). */
  predicate IsBlank(s: string) {
    forall i :: 0 <= i < |s| ==> IsSpace(s[i])
  }

  /** A field as `split()` returns it: non-empty, without whitespace. */
  predicate IsWord(w: string) {
    |w| > 0 && forall i :: 0 <= i < |w| ==> !IsSpace(w[i])
  }

  /** The characters of `s` that are not whitespace, in order. */
  function Ink(s: string): string {
    if s == [] then [] else (if IsSpace(s[0]) then [] else [s[0]]) + Ink(s[1..])
  }

  /** The fields concatenated without separator. */
  function Concat(fields: seq<string>): string {
    if fields == [] then [] else fields[0] + Concat(fields[1..])
  }

  /** Length of the run of non-whitespace that opens `s`. */
  function WordLength(s: string): (n: nat)
    requires s != [] && !IsSpace(s[0])
    ensures 0 < n <= |s|
  {
    if |s| == 1 || IsSpace(s[1]) then 1 else 1 + WordLength(s[1..])
  }

  /** The opening run is a word, and it ends at whitespace or at the end of `s`. */
  lemma {:induction false} WordLengthIsMaximal(s: string)
    requires s != [] && !IsSpace(s[0])
    ensures IsWord(s[..WordLength(s)])
    ensures WordLength(s) == |s| || IsSpace(s[WordLength(s)])
  {
    if !(|s| == 1 || IsSpace(s[1])) {
      WordLengthIsMaximal(s[1..]);
      var n := WordLength(s);
      assert s[..n] == [s[0]] + s[1..][..n - 1];
    }
  }

  /** `s.split()`: the maximal runs of non-whitespace of `s`, in order. */
  function Split(s: string): (fields: seq<string>)
    decreases |s|
  {
    if s == [] then []
    else if IsSpace(s[0]) then Split(s[1..])
    else
      var n := WordLength(s);
      [s[..n]] + Split(s[n..])
  }

  /** Every field `split()` returns is a word. */
  lemma {:induction false} SplitGivesWords(s: string)
    ensures forall i :: 0 <= i < |Split(s)| ==> IsWord(Split(s)[i])
    decreases |s|
  {
    if s != [] {
      if IsSpace(s[0]) {
        SplitGivesWords(s[1..]);
      } else {
        var n := WordLength(s);
        WordLengthIsMaximal(s);
        SplitGivesWords(s[n..]);
        assert Split(s) == [s[..n]] + Split(s[n..]);
      }
    }
  }

  /** Splitting loses only whitespace: the fields, put back together, are the non-whitespace characters of `s`. */
  lemma {:induction false} SplitKeepsInk(s: string)
    ensures Concat(Split(s)) == Ink(s)
    decreases |s|
  {
    if s != [] {
      if IsSpace(s[0]) {
        SplitKeepsInk(s[1..]);
      } else {
        var n := WordLength(s);
        WordLengthIsMaximal(s);
        SplitKeepsInk(s[n..]);
        InkOfWord(s[..n], s[n..]);
        assert s == s[..n] + s[n..];
        assert ([s[..n]] + Split(s[n..]))[1..] == Split(s[n..]);
      }
    }
  }

  /** Words joined with single spaces, the way a report generator writes a row. */
  function JoinSpaced(words: seq<string>): string {
    if words == [] then []
    else if |words| == 1 then words[0]
    else words[0] + " " + JoinSpaced(words[1..])
  }

  lemma {:induction false} InkAppend(a: string, b: string)
    ensures Ink(a + b) == Ink(a) + Ink(b)
  {
    if a == [] {
      assert a + b == b;
    } else {
      assert (a + b)[1..] == a[1..] + b;
      InkAppend(a[1..], b);
    }
  }

  lemma {:induction false} InkOfWordOnly(w: string)
    requires forall i :: 0 <= i < |w| ==> !IsSpace(w[i])
    ensures Ink(w) == w
  {
    if w != [] {
      InkOfWordOnly(w[1..]);
      assert w == [w[0]] + w[1..];
    }
  }

  lemma InkOfWord(w: string, s: string)
    requires IsWord(w)
    ensures Ink(w + s) == w + Ink(s)
  {
    InkAppend(w, s);
    InkOfWordOnly(w);
  }

  /** A line is blank exactly when `split()` finds no field in it. */
  lemma {:induction false} BlankIffNoFields(s: string)
    ensures IsBlank(s) <==> Split(s) == []
    decreases |s|
  {
    if s != [] {
      BlankIffNoFields(s[1..]);
      if IsSpace(s[0]) {
        assert IsBlank(s) <==> IsBlank(s[1..]) by {
          if IsBlank(s[1..]) {
            forall i | 0 <= i < |s| ensures IsSpace(s[i]) {
              if i > 0 { assert s[i] == s[1..][i - 1]; }
            }
          }
        }
      }
    }
  }

  /** A word followed by whitespace or the end of the line is the first field. */
  lemma SplitAfterWord(w: string, s: string)
    requires IsWord(w)
    requires s == [] || IsSpace(s[0])
    ensures Split(w + s) == [w] + Split(s)
  {
    var t := w + s;
    assert t[0] == w[0];
    WordLengthAfterWord(w, s);
    assert t[..|w|] == w;
    assert t[|w|..] == s;
  }

  lemma {:induction false} WordLengthAfterWord(w: string, s: string)
    requires IsWord(w)
    requires s == [] || IsSpace(s[0])
    ensures (w + s)[0] == w[0] && WordLength(w + s) == |w|
  {
    var t := w + s;
    if |w| > 1 {
      assert t[1] == w[1];
      assert t[1..] == w[1..] + s;
      WordLengthAfterWord(w[1..], s);
    }
  }

  /** Joining words with spaces and splitting again gives the words back. */
  lemma {:induction false} SplitJoinSpaced(words: seq<string>)
    requires forall i :: 0 <= i < |words| ==> IsWord(words[i])
    ensures Split(JoinSpaced(words)) == words
  {
    if |words| == 1 {
      SplitAfterWord(words[0], []);
      assert words[0] + [] == words[0];
    } else if |words| > 1 {
      var rest := JoinSpaced(words[1..]);
      SplitAfterWord(words[0], " " + rest);
      assert words[0] + " " + rest == words[0] + (" " + rest);
      assert (" " + rest)[1..] == rest;
      SplitJoinSpaced(words[1..]);
      assert words == [words[0]] + words[1..];
    }
  }

  /** `n` copies of `c`. */
  function Repeat(c: char, n: nat): (s: string)
    ensures |s| == n
    ensures forall i :: 0 <= i < n ==> s[i] == c
  {
    if n == 0 then [] else [c] + Repeat(c, n - 1)
  }

  /** Gaps that can surround `n` fields: whitespace only, and at least one character between two fields. */
  predicate Separators(gaps: seq<string>, n: nat) {
    |gaps| == n + 1 &&
    (forall i :: 0 <= i < |gaps| ==> IsBlank(gaps[i])) &&
    (forall i :: 0 < i < n ==> gaps[i] != [])
  }

  /** A line laid out as `gaps[0] words[0] gaps[1] ... words[n-1] gaps[n]`. */
  function Layout(gaps: seq<string>, words: seq<string>): string
    requires |gaps| == |words| + 1
  {
    if words == [] then gaps[0] else gaps[0] + words[0] + Layout(gaps[1..], words[1..])
  }

  /** Leading whitespace is skipped by `split()`. */
  lemma {:induction false} SplitAfterBlank(ws: string, s: string)
    requires IsBlank(ws)
    ensures Split(ws + s) == Split(s)
    decreases |ws|
  {
    if ws == [] {
      assert ws + s == s;
    } else {
      assert (ws + s)[0] == ws[0];
      assert (ws + s)[1..] == ws[1..] + s;
      SplitAfterBlank(ws[1..], s);
    }
  }

  /**
   * `split()` recovers the words of any layout: whatever whitespace leads, trails or separates them,
   * as long as two words are never adjacent.
   */
  lemma {:induction false} SplitLayout(gaps: seq<string>, words: seq<string>)
    requires Separators(gaps, |words|)
    requires forall i :: 0 <= i < |words| ==> IsWord(words[i])
    ensures Split(Layout(gaps, words)) == words
    decreases |words|
  {
    if words == [] {
      BlankIffNoFields(gaps[0]);
    } else {
      var tail := gaps[1..];
      var rest := Layout(tail, words[1..]);
      assert Separators(tail, |words| - 1) by {
        forall i | 0 <= i < |tail| ensures IsBlank(tail[i]) {
          assert tail[i] == gaps[i + 1];
        }
        forall i | 0 < i < |words| - 1 ensures tail[i] != [] {
          assert tail[i] == gaps[i + 1];
        }
      }
      assert rest == [] || IsSpace(rest[0]) by {
        if |words| == 1 {
          assert rest == gaps[1];
        } else {
          assert gaps[1] != [] && IsBlank(gaps[1]);
          assert rest == gaps[1] + words[1] + Layout(tail[1..], words[2..]);
          assert rest[0] == gaps[1][0];
        }
      }
      assert gaps[0] + words[0] + rest == gaps[0] + (words[0] + rest);
      SplitAfterBlank(gaps[0], words[0] + rest);
      SplitAfterWord(words[0], rest);
      SplitLayout(tail, words[1..]);
      assert words == [words[0]] + words[1..];
    }
  }
}
