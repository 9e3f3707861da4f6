/**
 * Tokenization shared by indexing and querying: the text is lowercased and
 * then split, as Java's `String.split("\\P{IsAlphabetic}+")` does, at every
 * maximal run of non-alphabetic characters.
 */
module Text {

  /** The alphabetic characters: ASCII Latin letters and the Russian alphabet. */
  predicate IsAlpha(c: char) {
    ('a' <= c <= 'z') || ('A' <= c <= 'Z') || ('А' <= c <= 'я') || c == 'Ё' || c == 'ё'
  }

  /** Character lowercasing (the per-character part of `String.toLowerCase`). */
  function Lower(c: char): char {
    if 'A' <= c <= 'Z' || 'А' <= c <= 'Я' then (c as int + 32) as char
    else if c == 'Ё' then 'ё'
    else c
  }

  lemma LowerIdempotent(c: char)
    ensures Lower(Lower(c)) == Lower(c)
  {
  }

  /** A word: a non-empty run of alphabetic characters. */
  predicate IsWord(w: string) {
    w != [] && forall j :: 0 <= j < |w| ==> IsAlpha(w[j])
  }

  /** A string that lowercasing leaves unchanged. */
  predicate IsLowerCase(w: string) {
    forall j :: 0 <= j < |w| ==> Lower(w[j]) == w[j]
  }

  function LowerString(s: string): (r: string)
    ensures |r| == |s|
    ensures forall i :: 0 <= i < |s| ==> r[i] == Lower(s[i])
  {
    if s == [] then [] else [Lower(s[0])] + LowerString(s[1..])
  }

  lemma {:induction false} LowerStringIdempotent(s: string)
    ensures LowerString(LowerString(s)) == LowerString(s)
  {
    var l := LowerString(s);
    forall i | 0 <= i < |s| ensures LowerString(l)[i] == l[i] {
      LowerIdempotent(s[i]);
    }
  }

  lemma {:induction false} LowerStringConcat(a: string, b: string)
    ensures LowerString(a + b) == LowerString(a) + LowerString(b)
  {
    assert forall i :: 0 <= i < |a + b| ==> LowerString(a + b)[i] == (LowerString(a) + LowerString(b))[i];
  }

  /** Lowercasing two strings joined by a space lowercases each of them. */
  lemma LowerStringJoin(a: string, b: string)
    ensures LowerString(a + " " + b) == LowerString(a) + [' '] + LowerString(b)
  {
    var sp: string := [' '];
    assert a + " " + b == a + (sp + b);
    LowerStringConcat(a, sp + b);
    LowerStringConcat(sp, b);
    assert LowerString(sp) == sp by {
      assert LowerString(sp) == [Lower(' ')] + LowerString([]);
    }
  }

  /** Length of the run of alphabetic characters that starts `s`. */
  function RunLength(s: string): (n: nat)
    ensures n <= |s|
    ensures forall i :: 0 <= i < n ==> IsAlpha(s[i])
    ensures n == |s| || !IsAlpha(s[n])
  {
    if s == [] || !IsAlpha(s[0]) then 0 else 1 + RunLength(s[1..])
  }

  /** The maximal runs of alphabetic characters of `s`, in order. */
  function Words(s: string): (r: seq<string>)
    ensures forall i :: 0 <= i < |r| ==> IsWord(r[i])
    decreases |s|
  {
    if s == [] then []
    else if !IsAlpha(s[0]) then Words(s[1..])
    else
      var n := RunLength(s);
      [s[..n]] + Words(s[n..])
  }

  /** Every character of a word of `s` is a character of `s`. */
  lemma {:induction false} WordsCharsIn(s: string)
    ensures forall w, c :: w in Words(s) && c in w ==> c in s
    decreases |s|
  {
    if s != [] {
      if !IsAlpha(s[0]) {
        WordsCharsIn(s[1..]);
        assert forall c :: c in s[1..] ==> c in s;
      } else {
        var n := RunLength(s);
        WordsCharsIn(s[n..]);
        assert forall c :: c in s[n..] ==> c in s;
        assert forall c :: c in s[..n] ==> c in s;
      }
    }
  }

  /**
   * Java's split around maximal separator runs: the fields between separators,
   * with a leading empty field when `s` starts with a separator and with the
   * trailing empty fields removed; splitting "" gives [""].
   */
  function Split(s: string): (r: seq<string>)
    ensures forall i :: 0 <= i < |r| ==> r[i] == "" || IsWord(r[i])
    ensures r == Words(s) || r == [""] + Words(s)
  {
    if s == [] then [""]
    else
      var ws := Words(s);
      if ws == [] then []
      else if IsAlpha(s[0]) then ws
      else [""] + ws
  }

  /** `text.toLowerCase().split("\\P{IsAlphabetic}+")`. */
  function Tokenize(text: string): (r: seq<string>)
    ensures forall i :: 0 <= i < |r| ==> r[i] == "" || (IsWord(r[i]) && IsLowerCase(r[i]))
    ensures r == Words(LowerString(text)) || r == [""] + Words(LowerString(text))
  {
    var l := LowerString(text);
    var r := Split(l);
    WordsCharsIn(l);
    forall i, j | 0 <= i < |r| && 0 <= j < |r[i]| ensures Lower(r[i][j]) == r[i][j] {
      if r[i] != "" {
        assert r[i] in Words(l);
        assert r[i][j] in r[i];
        assert r[i][j] in l;
        var m :| 0 <= m < |l| && l[m] == r[i][j];
        LowerIdempotent(text[m]);
      }
    }
    r
  }

  /** Lowercasing a request first does not change its tokens. */
  lemma TokenizeIgnoresCase(text: string)
    ensures Tokenize(LowerString(text)) == Tokenize(text)
  {
    LowerStringIdempotent(text);
  }

  lemma {:induction false} RunLengthAtSeparator(a: string, c: char, b: string)
    requires !IsAlpha(c)
    ensures RunLength(a + [c] + b) == RunLength(a)
    decreases |a|
  {
    if a != [] && IsAlpha(a[0]) {
      assert (a + [c] + b)[1..] == a[1..] + [c] + b;
      RunLengthAtSeparator(a[1..], c, b);
    }
  }

  /** Splitting at a separator character splits the word list there. */
  lemma {:induction false} WordsAtSeparator(a: string, c: char, b: string)
    requires !IsAlpha(c)
    ensures Words(a + [c] + b) == Words(a) + Words(b)
    decreases |a|
  {
    var s := a + [c] + b;
    if a == [] {
      assert s[1..] == b;
    } else if !IsAlpha(a[0]) {
      assert s[1..] == a[1..] + [c] + b;
      WordsAtSeparator(a[1..], c, b);
    } else {
      var n := RunLength(a);
      assert RunLength(s) == n by {
        RunLengthAtSeparator(a, c, b);
      }
      assert s[..n] == a[..n];
      assert s[n..] == a[n..] + [c] + b;
      WordsAtSeparator(a[n..], c, b);
    }
  }

  /** Words separated by single spaces (a trailing space included). */
  function Join(ws: seq<string>): string {
    if ws == [] then [] else ws[0] + [' '] + Join(ws[1..])
  }

  /** Round trip: the words of words joined with separators are those words. */
  lemma {:induction false} WordsOfJoin(ws: seq<string>)
    requires forall i :: 0 <= i < |ws| ==> IsWord(ws[i])
    ensures Words(Join(ws)) == ws
  {
    if ws != [] {
      var w := ws[0];
      WordsAtSeparator(w, ' ', Join(ws[1..]));
      assert Words(w) == [w] by {
        assert RunLength(w) == |w| by { RunLengthOfWord(w); }
        assert w[..|w|] == w;
        assert w[|w|..] == [];
      }
      WordsOfJoin(ws[1..]);
    }
  }

  lemma {:induction false} RunLengthOfWord(w: string)
    requires forall j :: 0 <= j < |w| ==> IsAlpha(w[j])
    ensures RunLength(w) == |w|
    decreases |w|
  {
    if w != [] {
      RunLengthOfWord(w[1..]);
    }
  }
}
