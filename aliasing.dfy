/**
 * The merge step of `search` as the Java code is written. The entries that
 * the query streams over are the very objects stored in the index, and the
 * merge function of `Collectors.toMap` adds the count of a later entry to
 * the first entry seen for the same page with `setCount`. That first entry
 * lives in the index, so the index itself is changed.
 *
 * The terms are distinct (`distinct()`), so every object of the index is
 * streamed at most once: the heap of the merge is the sequence of streamed
 * objects, addressed by stream position, and after the merge each term's
 * list in the index is the corresponding slice of that heap.
 */
module AliasedSearch {
  import opened Wrappers
  import opened Text
  import opened PageEntries
  import opened Index
  import opened Search

  predicate AllBelow(reps: seq<nat>, n: nat) {
    forall i :: 0 <= i < |reps| ==> reps[i] < n
  }

  predicate Increasing(reps: seq<nat>) {
    forall i, j :: 0 <= i < j < |reps| ==> reps[i] < reps[j]
  }

  /** The position in `reps` of the first object holding an entry for page `k`. */
  function FindRep(h: seq<PageEntry>, reps: seq<nat>, k: (string, int)): (r: Option<nat>)
    requires AllBelow(reps, |h|)
    ensures r.Some? ==> r.value < |reps| && h[reps[r.value]].Key() == k
    ensures r.None? ==> forall i :: 0 <= i < |reps| ==> h[reps[i]].Key() != k
  {
    if reps == [] then None
    else if h[reps[0]].Key() == k then Some(0)
    else
      match FindRep(h, reps[1..], k)
      case None => None
      case Some(i) => Some(i + 1)
  }

  /**
   * The merge function of `Collectors.toMap` applied to the object at
   * position `k`: `reps` holds, per page, the position of the first object
   * seen; an entry for a page seen before adds its count to that first
   * object, in place.
   */
  function Step(h: seq<PageEntry>, k: nat, reps: seq<nat>): (r: (seq<PageEntry>, seq<nat>))
    requires k < |h| && AllBelow(reps, k)
    ensures |r.0| == |h| && AllBelow(r.1, k + 1)
  {
    var e := h[k];
    match FindRep(h, reps, e.Key())
    case None => (h, reps + [k])
    case Some(i) =>
      var pe1 := h[reps[i]];
      (h[reps[i] := pe1.SetCount(pe1.count + e.count)], reps)
  }

  /** `Collectors.toMap` over the objects from position `k` on, in stream order. */
  function Merge(h: seq<PageEntry>, k: nat, reps: seq<nat>): (r: (seq<PageEntry>, seq<nat>))
    requires k <= |h| && AllBelow(reps, k)
    ensures |r.0| == |h| && AllBelow(r.1, |h|)
    decreases |h| - k
  {
    if k == |h| then (h, reps)
    else
      var s := Step(h, k, reps);
      Merge(s.0, k + 1, s.1)
  }

  /** The objects at the representative positions: the values of the map. */
  function Values(h: seq<PageEntry>, reps: seq<nat>): (r: seq<PageEntry>)
    requires AllBelow(reps, |h|)
    ensures |r| == |reps| && forall i :: 0 <= i < |reps| ==> r[i] == h[reps[i]]
  {
    if reps == [] then [] else [h[reps[0]]] + Values(h, reps[1..])
  }

  /** The index after the merge: each term's list is its slice of the heap. */
  function WriteBack(m: map<string, seq<PageEntry>>, terms: seq<string>, h: seq<PageEntry>): map<string, seq<PageEntry>> {
    if terms == [] then m
    else
      var n := |Get(m, terms[0])|;
      if n <= |h| then
        var m' := if terms[0] in m then m[terms[0] := h[..n]] else m;
        WriteBack(m', terms[1..], h[n..])
      else m
  }

  /** `search` as written, on distinct terms: the answer, and the index as the merge leaves it. */
  function AliasedRank(m: map<string, seq<PageEntry>>, terms: seq<string>): (seq<PageEntry>, map<string, seq<PageEntry>>)
    requires forall i, j :: 0 <= i < j < |terms| ==> terms[i] != terms[j]
  {
    var merged := Merge(Collect(m, terms), 0, []);
    (SortEntries(Values(merged.0, merged.1)), WriteBack(m, terms, merged.0))
  }

  /* ---------- the first answer is right ---------- */

  /** When the keys are distinct, the first object found is the only one. */
  lemma FindRepIsUnique(h: seq<PageEntry>, reps: seq<nat>, k: (string, int), i: nat)
    requires AllBelow(reps, |h|) && DistinctKeys(Values(h, reps))
    requires FindRep(h, reps, k) == Some(i)
    ensures forall j :: 0 <= j < |reps| && j != i ==> h[reps[j]].Key() != k
  {
    var vs := Values(h, reps);
    forall j | 0 <= j < |reps| && j != i ensures h[reps[j]].Key() != k {
      if j < i {
        assert vs[j].Key() != vs[i].Key();
      } else {
        assert vs[i].Key() != vs[j].Key();
      }
    }
  }

  /** A new page: appending its position is `Accumulate` on the values. */
  lemma StepNew(h: seq<PageEntry>, k: nat, reps: seq<nat>)
    requires k < |h| && AllBelow(reps, k) && DistinctKeys(Values(h, reps))
    requires FindRep(h, reps, h[k].Key()) == None
    ensures Values(h, reps + [k]) == Accumulate(Values(h, reps), h[k])
  {
    var e := h[k];
    var vs := Values(h, reps);
    assert e.Key() !in KeysOf(vs) by {
      forall x | x in vs ensures x.Key() != e.Key() {
        var j :| 0 <= j < |vs| && vs[j] == x;
      }
    }
    AccumulateSpec(vs, e);
    var acc := Accumulate(vs, e);
    var vs' := Values(h, reps + [k]);
    assert |vs'| == |acc|;
    forall j | 0 <= j < |acc| ensures vs'[j] == acc[j] {
      if j < |reps| {
        assert (reps + [k])[j] == reps[j];
      }
    }
  }

  /** A page seen before: the in-place `setCount` is `Accumulate` on the values. */
  lemma StepExisting(h: seq<PageEntry>, k: nat, reps: seq<nat>, i: nat, h': seq<PageEntry>)
    requires k < |h| && AllBelow(reps, k) && Increasing(reps) && DistinctKeys(Values(h, reps))
    requires FindRep(h, reps, h[k].Key()) == Some(i)
    requires h' == h[reps[i] := h[reps[i]].SetCount(h[reps[i]].count + h[k].count)]
    ensures Values(h', reps) == Accumulate(Values(h, reps), h[k])
  {
    var e := h[k];
    var vs := Values(h, reps);
    AccumulateSpec(vs, e);
    var acc := Accumulate(vs, e);
    FindRepIsUnique(h, reps, e.Key(), i);
    assert vs[i] in vs;
    var vs' := Values(h', reps);
    assert |vs'| == |acc|;
    forall j | 0 <= j < |reps| ensures vs'[j] == acc[j] {
      if j != i {
        assert reps[j] != reps[i];
        assert vs[j].Key() != e.Key();
      }
    }
    assert vs' == acc;
  }

  lemma IncreasingSnoc(reps: seq<nat>, k: nat)
    requires AllBelow(reps, k) && Increasing(reps)
    ensures Increasing(reps + [k])
  {
    var r := reps + [k];
    forall i, j | 0 <= i < j < |r| ensures r[i] < r[j] {
      assert r[i] == reps[i];
    }
  }

  /**
   * Read as values, one step is `Accumulate`, and the objects not yet
   * streamed are left alone.
   */
  lemma StepSpec(h: seq<PageEntry>, k: nat, reps: seq<nat>)
    requires k < |h| && AllBelow(reps, k) && Increasing(reps) && DistinctKeys(Values(h, reps))
    ensures var s := Step(h, k, reps);
      && Values(s.0, s.1) == Accumulate(Values(h, reps), h[k])
      && Increasing(s.1)
      && s.0[k + 1..] == h[k + 1..]
  {
    var e := h[k];
    var found := FindRep(h, reps, e.Key());
    if found == None {
      assert Step(h, k, reps) == (h, reps + [k]);
      StepNew(h, k, reps);
      IncreasingSnoc(reps, k);
    } else {
      var i := found.value;
      var pe1 := h[reps[i]];
      var h' := h[reps[i] := pe1.SetCount(pe1.count + e.count)];
      assert Step(h, k, reps) == (h', reps);
      StepExisting(h, k, reps, i, h');
      assert h'[k + 1..] == h[k + 1..];
    }
  }

  /**
   * Read as values, the in-place merge from position `k` on computes `Group`
   * of all the entries as they were before the merge.
   */
  lemma {:induction false} MergeComputesGroup(h0: seq<PageEntry>, h: seq<PageEntry>, k: nat, reps: seq<nat>)
    requires |h| == |h0| && k <= |h| && AllBelow(reps, k) && Increasing(reps)
    requires h[k..] == h0[k..]
    requires Values(h, reps) == Group(h0[..k])
    ensures var r := Merge(h, k, reps);
      Values(r.0, r.1) == Group(h0)
    decreases |h| - k
  {
    if k == |h| {
      assert h0[..k] == h0;
    } else {
      GroupSpec(h0[..k]);
      assert h[k] == h0[k] by {
        assert h[k..][0] == h0[k..][0];
      }
      StepSpec(h, k, reps);
      var s := Step(h, k, reps);
      assert h0[..k + 1] == h0[..k] + [h0[k]];
      assert Group(h0[..k + 1]) == Accumulate(Group(h0[..k]), h0[k]) by {
        assert h0[..k + 1][..k] == h0[..k];
      }
      assert s.0[k + 1..] == h0[k + 1..] by {
        assert h[k + 1..] == h[k..][1..];
        assert h0[k + 1..] == h0[k..][1..];
      }
      MergeComputesGroup(h0, s.0, k + 1, s.1);
    }
  }

  /**
   * The first time a query runs, the in-place merge gives the same answer as
   * the merge into fresh entries.
   */
  lemma FirstAnswerCorrect(m: map<string, seq<PageEntry>>, terms: seq<string>)
    requires forall i, j :: 0 <= i < j < |terms| ==> terms[i] != terms[j]
    ensures AliasedRank(m, terms).0 == Rank(m, terms)
  {
    var h := Collect(m, terms);
    assert h[..0] == [];
    assert h[0..] == h;
    MergeComputesGroup(h, h, 0, []);
  }

  /* ---------- the index is corrupted ---------- */

  /** A stream of one object: the merge keeps it, as the map's only value. */
  lemma MergeSingle(e: PageEntry)
    ensures Merge([e], 0, []) == ([e], [0])
  {
    var none: seq<nat> := [];
    assert FindRep([e], none, e.Key()) == None;
    assert none + [0] == [0];
    assert Step([e], 0, none) == ([e], [0]);
    assert Merge([e], 0, []) == Merge([e], 1, [0]);
  }

  /** Two objects for the same page: the count of the second is added to the first. */
  lemma MergeSamePage(a: PageEntry, b: PageEntry)
    requires a.Key() == b.Key()
    ensures Merge([a, b], 0, []) == ([a.SetCount(a.count + b.count), b], [0])
  {
    var none: seq<nat> := [];
    var s := a.SetCount(a.count + b.count);
    assert Step([a, b], 0, none) == ([a, b], [0]) by {
      assert FindRep([a, b], none, a.Key()) == None;
      assert none + [0] == [0];
    }
    assert Step([a, b], 1, [0]) == ([s, b], [0]) by {
      assert FindRep([a, b], [0], b.Key()) == Some(0);
      assert [a, b][0 := s] == [s, b];
    }
    assert Merge([a, b], 0, []) == Merge([a, b], 1, [0]);
    assert Merge([a, b], 1, [0]) == Merge([s, b], 2, [0]);
  }

  /** Writing the merged objects of two one-entry terms back into the index. */
  lemma WriteBackTwo(m: map<string, seq<PageEntry>>, t: string, u: string, x: PageEntry, y: PageEntry)
    requires t in m && u in m && t != u && |m[t]| == 1 && |m[u]| == 1
    ensures WriteBack(m, [t, u], [x, y]) == m[t := [x]][u := [y]]
  {
    assert [x, y][..1] == [x] && [x, y][1..] == [y];
    assert [t, u][1..] == [u];
    assert WriteBack(m, [t, u], [x, y]) == WriteBack(m[t := [x]], [u], [y]);
    assert [y][..1] == [y] && [y][1..] == [];
    assert WriteBack(m[t := [x]], [u], [y]) == WriteBack(m[t := [x]][u := [y]], [], []);
  }

  /** The words of a text that holds one word. */
  lemma WordsOfOneWord(w: string)
    requires IsWord(w)
    ensures Words(w) == [w]
  {
    RunLengthOfWord(w);
    assert w[..|w|] == w && w[|w|..] == [];
  }

  /** Three words separated by spaces split back into those words. */
  lemma WordsOfThree(a: string, b: string, c: string)
    requires IsWord(a) && IsWord(b) && IsWord(c)
    ensures Words(a + [' '] + b + [' '] + c) == [a, b, c]
  {
    assert a + [' '] + b + [' '] + c == a + [' '] + (b + [' '] + c);
    WordsAtSeparator(a, ' ', b + [' '] + c);
    WordsAtSeparator(b, ' ', c);
    WordsOfOneWord(a);
    WordsOfOneWord(b);
    WordsOfOneWord(c);
  }

  /** The words of the page text "cat dog cat". */
  lemma ExampleWords()
    ensures Words("cat dog cat") == ["cat", "dog", "cat"]
  {
    assert "cat dog cat" == "cat" + [' '] + "dog" + [' '] + "cat";
    WordsOfThree("cat", "dog", "cat");
  }

  /** A lowercase text that starts with a letter tokenizes into its words. */
  lemma TokenizeLowerCase(text: string)
    requires IsLowerCase(text) && text != [] && IsAlpha(text[0])
    ensures Tokenize(text) == Words(text)
  {
    assert LowerString(text) == text;
  }

  /** The tokens of the page text "cat dog cat". */
  lemma ExampleTokens()
    ensures Tokenize("cat dog cat") == ["cat", "dog", "cat"]
  {
    assert IsLowerCase("cat dog cat");
    TokenizeLowerCase("cat dog cat");
    ExampleWords();
  }

  /** The frequency map of those tokens, without stop words. */
  lemma ExampleFrequencies()
    ensures Frequencies(["cat", "dog", "cat"], {}) == map["cat" := 2, "dog" := 1]
  {
    var tokens := ["cat", "dog", "cat"];
    var f := Frequencies(tokens, {});
    FrequenciesCount(tokens, {});
    assert multiset(tokens)["cat"] == 2 && multiset(tokens)["dog"] == 1;
    assert f.Keys == {"cat", "dog"};
  }

  /** The index of one page. */
  lemma IndexOfOnePage(p: PageText, stop: set<string>)
    ensures IndexOf([p], stop) == AddPage(map[], p.pdfName, p.page, Frequencies(Tokenize(p.text), stop))
  {
    assert [p][..0] == [];
  }

  /** A page with two distinct words, added to the empty index. */
  lemma AddPageTwoWords(name: string, page: int, u: string, v: string, x: int, y: int)
    requires u != v
    ensures AddPage(map[], name, page, map[u := x, v := y]) ==
      map[u := [PageEntry(name, page, x)], v := [PageEntry(name, page, y)]]
  {
    var m := AddPage(map[], name, page, map[u := x, v := y]);
    var t := map[u := [PageEntry(name, page, x)], v := [PageEntry(name, page, y)]];
    assert m.Keys == t.Keys;
    forall w | w in m ensures m[w] == t[w] {
      if w == u {
        assert m[u] == [] + [PageEntry(name, page, x)];
      } else {
        assert m[v] == [] + [PageEntry(name, page, y)];
      }
    }
  }

  /** The index built from the single page "cat dog cat" of a.pdf. */
  lemma ExampleIndex()
    ensures IndexOf([PageText("a.pdf", 1, "cat dog cat")], {}) ==
      map["cat" := [PageEntry("a.pdf", 1, 2)], "dog" := [PageEntry("a.pdf", 1, 1)]]
  {
    IndexOfOnePage(PageText("a.pdf", 1, "cat dog cat"), {});
    ExampleTokens();
    ExampleFrequencies();
    AddPageTwoWords("a.pdf", 1, "cat", "dog", 2, 1);
  }

  /**
   * A page that holds "cat" twice and "dog" once (`m0` is its index, by
   * ExampleIndex). The query "cat dog" answers 3, correctly, but leaves 3 as
   * the count of "cat" in the index, so a later query "cat" answers 3 where
   * the page holds "cat" twice.
   */
  lemma AliasingCorruptsIndex()
    ensures var m0 := map["cat" := [PageEntry("a.pdf", 1, 2)], "dog" := [PageEntry("a.pdf", 1, 1)]];
      var first := AliasedRank(m0, ["cat", "dog"]);
      && first.0 == [PageEntry("a.pdf", 1, 3)]
      && Get(first.1, "cat") == [PageEntry("a.pdf", 1, 3)]
      && AliasedRank(first.1, ["cat"]).0 == [PageEntry("a.pdf", 1, 3)]
      && Rank(m0, ["cat"]) == [PageEntry("a.pdf", 1, 2)]
  {
    var cat, dog, sum := PageEntry("a.pdf", 1, 2), PageEntry("a.pdf", 1, 1), PageEntry("a.pdf", 1, 3);
    var m0 := map["cat" := [cat], "dog" := [dog]];
    assert Collect(m0, ["dog"]) == [dog];
    assert Collect(m0, ["cat", "dog"]) == [cat, dog];
    MergeSamePage(cat, dog);
    assert Values([sum, dog], [0]) == [sum];
    WriteBackTwo(m0, "cat", "dog", sum, dog);
    var m1 := m0["cat" := [sum]]["dog" := [dog]];
    assert AliasedRank(m0, ["cat", "dog"]) == (SortEntries([sum]), m1);
    assert Collect(m1, ["cat"]) == [sum];
    MergeSingle(sum);
    assert Values([sum], [0]) == [sum];
    assert Collect(m0, ["cat"]) == [cat];
    assert Group([cat]) == [cat];
  }
}
