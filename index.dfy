/**
 * Index construction (the `BooleanSearchEngine` constructor): every page of
 * every PDF file is tokenized, its words other than stop words are counted,
 * and one posting per distinct word is appended to that word's list.
 */
module Index {
  import opened Wrappers
  import opened Text
  import opened PageEntries

  /** A PDF file: its name and the extracted text of its pages 1, 2, .... */
  datatype Pdf = Pdf(name: string, pages: seq<string>)

  /** The text of one page, with the file name and page number it came from. */
  datatype PageText = PageText(pdfName: string, page: int, text: string)

  /** The word -> postings map and the stop words of a built engine. */
  datatype Engine = Engine(wordsMap: map<string, seq<PageEntry>>, stopList: set<string>)

  /** The IOException raised when nothing was indexed. */
  datatype BuildError = EmptyIndex

  /** Pages 1..n of `d`, in order. */
  function DocPages(d: Pdf, n: nat): (r: seq<PageText>)
    requires n <= |d.pages|
    ensures |r| == n
  {
    if n == 0 then [] else DocPages(d, n - 1) + [PageText(d.name, n, d.pages[n - 1])]
  }

  /** Page i + 1 of a file holds its i-th text. */
  lemma {:induction false} DocPagesAt(d: Pdf, n: nat)
    requires n <= |d.pages|
    ensures forall i :: 0 <= i < n ==> DocPages(d, n)[i] == PageText(d.name, i + 1, d.pages[i])
  {
    if n > 0 {
      DocPagesAt(d, n - 1);
    }
  }

  /** All pages of all files, in the order the directory lists them. */
  function CorpusPages(docs: seq<Pdf>): seq<PageText> {
    if docs == [] then []
    else
      var last := docs[|docs| - 1];
      CorpusPages(docs[..|docs| - 1]) + DocPages(last, |last.pages|)
  }

  /** A token that is indexed and looked up: neither empty nor a stop word. */
  predicate Indexable(w: string, stop: set<string>) {
    w != "" && w !in stop
  }

  /** The per-page frequency map, built by merging 1 per indexable token. */
  function Frequencies(words: seq<string>, stop: set<string>): map<string, int> {
    if words == [] then map[]
    else
      var f := Frequencies(words[..|words| - 1], stop);
      var w := words[|words| - 1];
      if !Indexable(w, stop) then f else f[w := (if w in f then f[w] else 0) + 1]
  }

  /**
   * The frequency map holds exactly the page's indexable tokens, each with
   * the number of its occurrences among the page's tokens.
   */
  lemma {:induction false} FrequenciesCount(words: seq<string>, stop: set<string>)
    ensures var f := Frequencies(words, stop);
      (forall w :: w in f <==> Indexable(w, stop) && w in words) &&
      (forall w :: w in f ==> f[w] == multiset(words)[w] && f[w] >= 1)
  {
    if words != [] {
      var prefix := words[..|words| - 1];
      var w := words[|words| - 1];
      FrequenciesCount(prefix, stop);
      assert words == prefix + [w];
      assert multiset(words) == multiset(prefix) + multiset{w};
    }
  }

  function Get(m: map<string, seq<PageEntry>>, w: string): seq<PageEntry> {
    if w in m then m[w] else []
  }

  /** The index after one page: each counted word gets one more posting. */
  function AddPage(m: map<string, seq<PageEntry>>, name: string, page: int, freq: map<string, int>)
    : map<string, seq<PageEntry>>
  {
    map w | w in m.Keys + freq.Keys ::
      Get(m, w) + (if w in freq then [PageEntry(name, page, freq[w])] else [])
  }

  /** The index built from `pages`, processed in order. */
  function IndexOf(pages: seq<PageText>, stop: set<string>): map<string, seq<PageEntry>> {
    if pages == [] then map[]
    else
      var p := pages[|pages| - 1];
      AddPage(IndexOf(pages[..|pages| - 1], stop), p.pdfName, p.page, Frequencies(Tokenize(p.text), stop))
  }

  lemma FrequenciesSnoc(prefix: seq<string>, w: string, stop: set<string>)
    ensures var f := Frequencies(prefix, stop);
      Frequencies(prefix + [w], stop) ==
        if !Indexable(w, stop) then f else f[w := (if w in f then f[w] else 0) + 1]
  {
    assert (prefix + [w])[..|prefix|] == prefix;
  }

  lemma AddPageNothing(m: map<string, seq<PageEntry>>, name: string, page: int)
    ensures AddPage(m, name, page, map[]) == m
  {
    var a := AddPage(m, name, page, map[]);
    assert a.Keys == m.Keys;
    forall x | x in m ensures a[x] == m[x] {
      assert a[x] == m[x] + [];
    }
  }

  lemma AddPageOneMore(m: map<string, seq<PageEntry>>, name: string, page: int,
                       freq: map<string, int>, done: set<string>, w: string)
    requires done <= freq.Keys && w in freq && w !in done
    ensures var before := AddPage(m, name, page, freq - (freq.Keys - done));
      AddPage(m, name, page, freq - (freq.Keys - done - {w})) ==
        before[w := Get(m, w) + [PageEntry(name, page, freq[w])]]
  {
    var before := AddPage(m, name, page, freq - (freq.Keys - done));
    var after := AddPage(m, name, page, freq - (freq.Keys - done - {w}));
    var expected := before[w := Get(m, w) + [PageEntry(name, page, freq[w])]];
    assert after.Keys == expected.Keys;
    forall x | x in after.Keys ensures after[x] == expected[x] {
    }
  }

  /** The frequency loop over the tokens of one page. */
  method CountWords(words: seq<string>, stopList: set<string>) returns (frequencyMap: map<string, int>)
    ensures frequencyMap == Frequencies(words, stopList)
  {
    frequencyMap := map[];
    for i := 0 to |words|
      invariant frequencyMap == Frequencies(words[..i], stopList)
    {
      var word := words[i];
      FrequenciesSnoc(words[..i], word, stopList);
      assert words[..i + 1] == words[..i] + [word];
      if word == "" || word in stopList {
        continue;
      }
      frequencyMap := frequencyMap[word := (if word in frequencyMap then frequencyMap[word] else 0) + 1];
    }
    assert words[..|words|] == words;
  }

  /** The loop over the entries of a page's frequency map, in any order. */
  method AddPostings(wordsMap: map<string, seq<PageEntry>>, name: string, page: int, frequencyMap: map<string, int>)
    returns (m: map<string, seq<PageEntry>>)
    ensures m == AddPage(wordsMap, name, page, frequencyMap)
  {
    m := wordsMap;
    var rest := frequencyMap.Keys;
    assert frequencyMap - rest == map[];
    AddPageNothing(wordsMap, name, page);
    while rest != {}
      invariant rest <= frequencyMap.Keys
      invariant m == AddPage(wordsMap, name, page, frequencyMap - rest)
      decreases rest
    {
      var word :| word in rest;
      var pageEntry := PageEntry(name, page, frequencyMap[word]);
      ghost var done := frequencyMap.Keys - rest;
      assert rest == frequencyMap.Keys - done;
      AddPageOneMore(wordsMap, name, page, frequencyMap, done, word);
      assert Get(m, word) == Get(wordsMap, word);
      if word !in m {
        assert Get(wordsMap, word) + [pageEntry] == [pageEntry];
        m := m[word := [pageEntry]];
      } else {
        m := m[word := m[word] + [pageEntry]];
      }
      rest := rest - {word};
      assert rest == frequencyMap.Keys - done - {word};
    }
    assert frequencyMap - {} == frequencyMap;
  }

  lemma IndexOfSnoc(pages: seq<PageText>, p: PageText, stop: set<string>)
    ensures IndexOf(pages + [p], stop) ==
      AddPage(IndexOf(pages, stop), p.pdfName, p.page, Frequencies(Tokenize(p.text), stop))
  {
    assert (pages + [p])[..|pages|] == pages;
  }

  lemma CorpusPagesSnoc(docs: seq<Pdf>, d: Pdf)
    ensures CorpusPages(docs + [d]) == CorpusPages(docs) + DocPages(d, |d.pages|)
  {
    assert (docs + [d])[..|docs|] == docs;
  }

  lemma DocPagesSnoc(seen: seq<PageText>, d: Pdf, n: nat)
    requires n < |d.pages|
    ensures seen + DocPages(d, n) + [PageText(d.name, n + 1, d.pages[n])] == seen + DocPages(d, n + 1)
  {
  }

  /** The body of the constructor's page loop: count the words of one page and post them. */
  method IndexPage(wordsMap: map<string, seq<PageEntry>>, name: string, pageNum: int, text: string,
                   stopList: set<string>, ghost done: seq<PageText>)
    returns (m: map<string, seq<PageEntry>>)
    requires wordsMap == IndexOf(done, stopList)
    ensures m == IndexOf(done + [PageText(name, pageNum, text)], stopList)
  {
    var words := Tokenize(text);
    var frequencyMap := CountWords(words, stopList);
    m := AddPostings(wordsMap, name, pageNum, frequencyMap);
    IndexOfSnoc(done, PageText(name, pageNum, text), stopList);
  }

  /** The constructor's loop over the pages of one file, numbered from 1. */
  method IndexFile(wordsMap: map<string, seq<PageEntry>>, doc: Pdf, stopList: set<string>, ghost seen: seq<PageText>)
    returns (m: map<string, seq<PageEntry>>)
    requires wordsMap == IndexOf(seen, stopList)
    ensures m == IndexOf(seen + DocPages(doc, |doc.pages|), stopList)
  {
    m := wordsMap;
    ghost var done := seen;
    assert seen + DocPages(doc, 0) == seen;
    for pageNum := 1 to |doc.pages| + 1
      invariant done == seen + DocPages(doc, pageNum - 1)
      invariant m == IndexOf(done, stopList)
    {
      var text := doc.pages[pageNum - 1];
      ghost var p := PageText(doc.name, pageNum, text);
      m := IndexPage(m, doc.name, pageNum, text, stopList, done);
      assert done + [p] == seen + DocPages(doc, pageNum) by {
        DocPagesSnoc(seen, doc, pageNum - 1);
      }
      done := done + [p];
    }
  }

  lemma PrefixSnoc<T>(s: seq<T>, i: nat)
    requires i < |s|
    ensures s[..i + 1] == s[..i] + [s[i]]
  {
  }

  /**
   * The constructor: index every page of every file; fail when the index
   * ends up empty.
   */
  method Build(docs: seq<Pdf>, stopList: set<string>) returns (r: Result<Engine, BuildError>)
    ensures var index := IndexOf(CorpusPages(docs), stopList);
      r == if index == map[] then Failure(EmptyIndex) else Success(Engine(index, stopList))
  {
    var wordsMap: map<string, seq<PageEntry>> := map[];
    for i := 0 to |docs|
      invariant wordsMap == IndexOf(CorpusPages(docs[..i]), stopList)
    {
      var doc := docs[i];
      wordsMap := IndexFile(wordsMap, doc, stopList, CorpusPages(docs[..i]));
      PrefixSnoc(docs, i);
      CorpusPagesSnoc(docs[..i], doc);
    }
    assert docs[..|docs|] == docs;
    if wordsMap == map[] {
      return Failure(EmptyIndex);
    }
    return Success(Engine(wordsMap, stopList));
  }

  /** The identity of a page: (file name, page number). */
  function PageKey(p: PageText): (string, int) {
    (p.pdfName, p.page)
  }

  /** No two pages share a file name and page number. */
  predicate DistinctPageKeys(pages: seq<PageText>) {
    forall i, j :: 0 <= i < j < |pages| ==> PageKey(pages[i]) != PageKey(pages[j])
  }

  /**
   * Reference definition of one word's postings: in page order, one entry per
   * page on which the word is an indexable token, counting its occurrences.
   */
  function Postings(pages: seq<PageText>, stop: set<string>, w: string): seq<PageEntry> {
    if pages == [] then []
    else
      var p := pages[|pages| - 1];
      var tokens := Tokenize(p.text);
      Postings(pages[..|pages| - 1], stop, w) +
        (if Indexable(w, stop) && w in tokens then [PageEntry(p.pdfName, p.page, multiset(tokens)[w])] else [])
  }

  /** The built index maps each word to exactly its reference postings. */
  lemma {:induction false} IndexMatchesPostings(pages: seq<PageText>, stop: set<string>, w: string)
    ensures Get(IndexOf(pages, stop), w) == Postings(pages, stop, w)
    ensures w in IndexOf(pages, stop) <==> Postings(pages, stop, w) != []
  {
    if pages != [] {
      var prefix := pages[..|pages| - 1];
      var p := pages[|pages| - 1];
      IndexMatchesPostings(prefix, stop, w);
      FrequenciesCount(Tokenize(p.text), stop);
    }
  }

  /** `e` is a posting of `w` for one of `pages`, counting w's occurrences there. */
  predicate PostingOf(pages: seq<PageText>, stop: set<string>, w: string, e: PageEntry) {
    Indexable(w, stop) && e.count >= 1 &&
    exists j :: 0 <= j < |pages| && PageKey(pages[j]) == e.Key() &&
      e.count == multiset(Tokenize(pages[j].text))[w]
  }

  lemma PostingOfPrefix(pages: seq<PageText>, n: nat, stop: set<string>, w: string, e: PageEntry)
    requires n <= |pages| && PostingOf(pages[..n], stop, w, e)
    ensures PostingOf(pages, stop, w, e)
  {
    var j :| 0 <= j < n && PageKey(pages[..n][j]) == e.Key() &&
      e.count == multiset(Tokenize(pages[..n][j].text))[w];
    assert pages[j] == pages[..n][j];
  }

  /**
   * Every posting of a word names a page on which the word occurs, with
   * count = its occurrences there (at least 1).
   */
  lemma {:induction false} PostingsAreOccurrences(pages: seq<PageText>, stop: set<string>, w: string)
    ensures forall e :: e in Postings(pages, stop, w) ==> PostingOf(pages, stop, w, e)
  {
    if pages != [] {
      var n := |pages| - 1;
      var prefix := pages[..n];
      PostingsAreOccurrences(prefix, stop, w);
      var ps := Postings(pages, stop, w);
      var ps' := Postings(prefix, stop, w);
      forall e | e in ps ensures PostingOf(pages, stop, w, e) {
        if e in ps' {
          PostingOfPrefix(pages, n, stop, w, e);
        } else {
          var tokens := Tokenize(pages[n].text);
          assert w in tokens;
          assert multiset(tokens)[w] >= 1;
          assert PageKey(pages[n]) == e.Key();
        }
      }
    }
  }

  /** The postings of the pages before the last are postings of all pages. */
  lemma PostingsGrow(pages: seq<PageText>, stop: set<string>, w: string, e: PageEntry)
    requires pages != [] && e in Postings(pages[..|pages| - 1], stop, w)
    ensures e in Postings(pages, stop, w)
  {
  }

  /** The last page has a posting for each of its indexable tokens. */
  lemma PostingsLast(pages: seq<PageText>, stop: set<string>, w: string)
    requires pages != [] && Indexable(w, stop) && w in Tokenize(pages[|pages| - 1].text)
    ensures exists e :: e in Postings(pages, stop, w) && e.Key() == PageKey(pages[|pages| - 1])
  {
    var p := pages[|pages| - 1];
    var last := PageEntry(p.pdfName, p.page, multiset(Tokenize(p.text))[w]);
    assert Postings(pages, stop, w) == Postings(pages[..|pages| - 1], stop, w) + [last];
    assert last in Postings(pages, stop, w);
  }

  /** Every page on which a word is an indexable token has a posting for it. */
  lemma {:induction false} PostingsComplete(pages: seq<PageText>, stop: set<string>, w: string, j: nat)
    requires j < |pages| && Indexable(w, stop) && w in Tokenize(pages[j].text)
    ensures exists e :: e in Postings(pages, stop, w) && e.Key() == PageKey(pages[j])
  {
    var n := |pages| - 1;
    if j < n {
      var prefix := pages[..n];
      assert pages[j] == prefix[j];
      PostingsComplete(prefix, stop, w, j);
      var e :| e in Postings(prefix, stop, w) && e.Key() == PageKey(prefix[j]);
      PostingsGrow(pages, stop, w, e);
    } else {
      PostingsLast(pages, stop, w);
    }
  }

  /** Within one word's postings each (file, page) appears at most once. */
  lemma {:induction false} PostingsUnique(pages: seq<PageText>, stop: set<string>, w: string)
    requires DistinctPageKeys(pages)
    ensures forall i, j :: 0 <= i < j < |Postings(pages, stop, w)| ==>
      Postings(pages, stop, w)[i].Key() != Postings(pages, stop, w)[j].Key()
  {
    if pages != [] {
      var prefix := pages[..|pages| - 1];
      var p := pages[|pages| - 1];
      PostingsUnique(prefix, stop, w);
      PostingsAreOccurrences(prefix, stop, w);
      var ps := Postings(pages, stop, w);
      var ps' := Postings(prefix, stop, w);
      forall i, j | 0 <= i < j < |ps| ensures ps[i].Key() != ps[j].Key() {
        if j >= |ps'| {
          assert ps'[i] in ps';
          assert PostingOf(prefix, stop, w, ps'[i]);
          var k :| 0 <= k < |prefix| && PageKey(prefix[k]) == ps'[i].Key() &&
            ps'[i].count == multiset(Tokenize(prefix[k].text))[w];
          assert pages[k] == prefix[k];
          assert ps[j].Key() == PageKey(p);
        } else {
          assert ps[i] == ps'[i] && ps[j] == ps'[j];
        }
      }
    }
  }

  /**
   * Every key of the index is a non-empty lowercase run of alphabetic
   * characters that is not a stop word, and the keys are exactly the
   * indexable tokens of the pages.
   */
  lemma IndexKeys(pages: seq<PageText>, stop: set<string>, w: string)
    ensures w in IndexOf(pages, stop) <==>
      Indexable(w, stop) && exists j :: 0 <= j < |pages| && w in Tokenize(pages[j].text)
    ensures w in IndexOf(pages, stop) ==> IsWord(w) && IsLowerCase(w) && w !in stop
  {
    if w in IndexOf(pages, stop) {
      var j := KeyOccurs(pages, stop, w);
      TokenIsWord(pages[j].text, w);
    } else if Indexable(w, stop) && exists j :: 0 <= j < |pages| && w in Tokenize(pages[j].text) {
      var j :| 0 <= j < |pages| && w in Tokenize(pages[j].text);
      IndexMatchesPostings(pages, stop, w);
      PostingsComplete(pages, stop, w, j);
    }
  }

  /** A key of the index is an indexable token of some page. */
  lemma KeyOccurs(pages: seq<PageText>, stop: set<string>, w: string) returns (j: nat)
    requires w in IndexOf(pages, stop)
    ensures j < |pages| && Indexable(w, stop) && w in Tokenize(pages[j].text)
  {
    IndexMatchesPostings(pages, stop, w);
    var ps := Postings(pages, stop, w);
    PostingsAreOccurrences(pages, stop, w);
    assert ps[0] in ps;
    assert PostingOf(pages, stop, w, ps[0]);
    j :| 0 <= j < |pages| && PageKey(pages[j]) == ps[0].Key() &&
      ps[0].count == multiset(Tokenize(pages[j].text))[w];
  }

  lemma TokenIsWord(text: string, w: string)
    requires w in Tokenize(text) && w != ""
    ensures IsWord(w) && IsLowerCase(w)
  {
    var tokens := Tokenize(text);
    var k :| 0 <= k < |tokens| && tokens[k] == w;
  }

  /** Building fails exactly when no page has an indexable token. */
  lemma IndexEmptyIff(pages: seq<PageText>, stop: set<string>)
    ensures IndexOf(pages, stop) == map[] <==>
      forall j, t :: 0 <= j < |pages| && t in Tokenize(pages[j].text) ==> !Indexable(t, stop)
  {
    if IndexOf(pages, stop) != map[] {
      var w :| w in IndexOf(pages, stop);
      IndexKeys(pages, stop, w);
    } else {
      forall j, t | 0 <= j < |pages| && t in Tokenize(pages[j].text) ensures !Indexable(t, stop) {
        IndexKeys(pages, stop, t);
      }
    }
  }

  /**
   * The pages of files with distinct names are distinct (file, page) pairs,
   * numbered from 1.
   */
  lemma {:induction false} CorpusPagesDistinct(docs: seq<Pdf>)
    requires forall i, j :: 0 <= i < j < |docs| ==> docs[i].name != docs[j].name
    ensures DistinctPageKeys(CorpusPages(docs))
    ensures forall k :: 0 <= k < |CorpusPages(docs)| ==>
      CorpusPages(docs)[k].page >= 1 && exists i :: 0 <= i < |docs| && CorpusPages(docs)[k].pdfName == docs[i].name
  {
    if docs != [] {
      var prefix := docs[..|docs| - 1];
      var d := docs[|docs| - 1];
      CorpusPagesDistinct(prefix);
      var before := CorpusPages(prefix);
      var mine := DocPages(d, |d.pages|);
      DocPagesAt(d, |d.pages|);
      var all := CorpusPages(docs);
      assert all == before + mine;
      forall k | 0 <= k < |all|
        ensures all[k].page >= 1 && exists i :: 0 <= i < |docs| && all[k].pdfName == docs[i].name
      {
        if k < |before| {
          var i :| 0 <= i < |prefix| && before[k].pdfName == prefix[i].name;
          assert docs[i] == prefix[i];
        } else {
          assert all[k].pdfName == docs[|docs| - 1].name;
        }
      }
      forall a, b | 0 <= a < b < |all| ensures PageKey(all[a]) != PageKey(all[b]) {
        if a < |before| && b >= |before| {
          var i :| 0 <= i < |prefix| && before[a].pdfName == prefix[i].name;
          assert docs[i] == prefix[i];
          assert all[b].pdfName == d.name;
        }
      }
    }
  }

  /**
   * The constructor's index for files with distinct names: unique (file,
   * page) pairs within every word's postings.
   */
  lemma BuiltPostingsUnique(docs: seq<Pdf>, stop: set<string>, w: string)
    requires forall i, j :: 0 <= i < j < |docs| ==> docs[i].name != docs[j].name
    ensures var ps := Get(IndexOf(CorpusPages(docs), stop), w);
      forall i, j :: 0 <= i < j < |ps| ==> ps[i].Key() != ps[j].Key()
  {
    CorpusPagesDistinct(docs);
    IndexMatchesPostings(CorpusPages(docs), stop, w);
    PostingsUnique(CorpusPages(docs), stop, w);
  }
}
