/**
 * The query (`BooleanSearchEngine.search`): the request is tokenized like a
 * page, stop words are dropped and the remaining terms de-duplicated; the
 * postings of every indexed term are concatenated, merged by (file, page)
 * with their counts summed, and sorted by `PageEntry.compareTo`.
 *
 * The merge builds fresh entries and leaves the index unchanged, so every
 * count stays the number of occurrences of its word on its page; the Java
 * merge function writes the sum into the first entry of the index itself
 * (see AliasedSearch).
 */
module Search {
  import opened Text
  import opened PageEntries
  import opened Index

  /* ---------- term extraction ---------- */

  /** `Stream.filter`: the elements satisfying `p`, in order. */
  function Filter(s: seq<string>, p: string -> bool): (r: seq<string>)
    ensures forall x :: x in r <==> x in s && p(x)
  {
    if s == [] then [] else (if p(s[0]) then [s[0]] else []) + Filter(s[1..], p)
  }

  lemma {:induction false} FilterConcat(a: seq<string>, b: seq<string>, p: string -> bool)
    ensures Filter(a + b, p) == Filter(a, p) + Filter(b, p)
  {
    if a != [] {
      assert (a + b)[0] == a[0];
      assert (a + b)[1..] == a[1..] + b;
      FilterConcat(a[1..], b, p);
    } else {
      assert a + b == b;
    }
  }

  function NotStop(stop: set<string>): string -> bool {
    w => w !in stop
  }

  function InIndex(m: map<string, seq<PageEntry>>): string -> bool {
    w => w in m
  }

  /** `Stream.distinct`: the first occurrence of every element, in order. */
  function Distinct(s: seq<string>): (r: seq<string>)
    ensures forall x :: x in r <==> x in s
    ensures forall i, j :: 0 <= i < j < |r| ==> r[i] != r[j]
  {
    if s == [] then []
    else
      var d := Distinct(s[..|s| - 1]);
      var x := s[|s| - 1];
      assert s == s[..|s| - 1] + [x];
      if x in d then d else d + [x]
  }

  lemma DistinctSnoc(s: seq<string>, x: string)
    ensures Distinct(s + [x]) == if x in Distinct(s) then Distinct(s) else Distinct(s) + [x]
  {
    assert (s + [x])[..|s|] == s;
  }

  /** The query terms: distinct tokens of the request that are not stop words. */
  function Terms(request: string, stop: set<string>): (r: seq<string>)
    ensures forall t :: t in r <==> t in Tokenize(request) && t !in stop
    ensures forall i, j :: 0 <= i < j < |r| ==> r[i] != r[j]
  {
    Distinct(Filter(Tokenize(request), NotStop(stop)))
  }

  /* ---------- union of postings ---------- */

  /** The postings of the terms, concatenated; unknown terms add nothing. */
  function Collect(m: map<string, seq<PageEntry>>, terms: seq<string>): seq<PageEntry> {
    if terms == [] then [] else Get(m, terms[0]) + Collect(m, terms[1..])
  }

  /** The sum of the counts of the entries of `s` for the page `k`. */
  function SumFor(s: seq<PageEntry>, k: (string, int)): int {
    if s == [] then 0 else (if s[0].Key() == k then s[0].count else 0) + SumFor(s[1..], k)
  }

  function KeysOf(s: seq<PageEntry>): set<(string, int)> {
    set e | e in s :: e.Key()
  }

  predicate DistinctKeys(s: seq<PageEntry>) {
    forall i, j :: 0 <= i < j < |s| ==> s[i].Key() != s[j].Key()
  }

  lemma {:induction false} SumForConcat(a: seq<PageEntry>, b: seq<PageEntry>, k: (string, int))
    ensures SumFor(a + b, k) == SumFor(a, k) + SumFor(b, k)
  {
    if a != [] {
      assert (a + b)[0] == a[0];
      assert (a + b)[1..] == a[1..] + b;
      SumForConcat(a[1..], b, k);
    } else {
      assert a + b == b;
    }
  }

  /** Reference sum: over the terms, each term's posting count for page `k`. */
  function TermsSum(m: map<string, seq<PageEntry>>, terms: seq<string>, k: (string, int)): int {
    if terms == [] then 0 else SumFor(Get(m, terms[0]), k) + TermsSum(m, terms[1..], k)
  }

  /**
   * The union of the postings counts, for every page, the sum over the terms
   * of the term's posting count, and holds exactly the pages of the terms'
   * postings.
   */
  lemma {:induction false} CollectSpec(m: map<string, seq<PageEntry>>, terms: seq<string>, k: (string, int))
    ensures SumFor(Collect(m, terms), k) == TermsSum(m, terms, k)
    ensures k in KeysOf(Collect(m, terms)) <==> exists t :: t in terms && k in KeysOf(Get(m, t))
  {
    if terms != [] {
      CollectSpec(m, terms[1..], k);
      SumForConcat(Get(m, terms[0]), Collect(m, terms[1..]), k);
      var c := Collect(m, terms);
      assert c == Get(m, terms[0]) + Collect(m, terms[1..]);
      if k in KeysOf(c) {
        var e :| e in c && e.Key() == k;
        if e in Get(m, terms[0]) {
          assert terms[0] in terms;
        } else {
          var t :| t in terms[1..] && k in KeysOf(Get(m, t));
          assert t in terms;
        }
      }
      if exists t :: t in terms && k in KeysOf(Get(m, t)) {
        var t :| t in terms && k in KeysOf(Get(m, t));
        var e :| e in Get(m, t) && e.Key() == k;
        if t == terms[0] {
          assert e in c;
        } else {
          assert t in terms[1..];
          assert k in KeysOf(Collect(m, terms[1..]));
          var e' :| e' in Collect(m, terms[1..]) && e'.Key() == k;
          assert e' in c;
        }
      }
    }
  }

  /** Within postings whose pages are distinct, the sum for a page is its count. */
  lemma {:induction false} SumForDistinct(s: seq<PageEntry>, i: nat)
    requires i < |s| && DistinctKeys(s)
    ensures SumFor(s, s[i].Key()) == s[i].count
  {
    if i == 0 {
      SumForAbsent(s[1..], s[0].Key());
    } else {
      SumForDistinct(s[1..], i - 1);
    }
  }

  lemma {:induction false} SumForAbsent(s: seq<PageEntry>, k: (string, int))
    requires k !in KeysOf(s)
    ensures SumFor(s, k) == 0
  {
    if s != [] {
      assert s[0] in s;
      SumForAbsent(s[1..], k);
    }
  }

  /* ---------- merge by (file, page) ---------- */

  /**
   * One step of `Collectors.toMap` with a summing merge function: an entry
   * for a new page is added; an entry for a known page adds its count to a
   * fresh copy of the earlier one.
   */
  function Accumulate(acc: seq<PageEntry>, e: PageEntry): seq<PageEntry> {
    if acc == [] then [e]
    else if acc[0].Key() == e.Key() then [acc[0].SetCount(acc[0].count + e.count)] + acc[1..]
    else [acc[0]] + Accumulate(acc[1..], e)
  }

  /** The merged entries of `s`, processed in order. */
  function Group(s: seq<PageEntry>): seq<PageEntry> {
    if s == [] then [] else Accumulate(Group(s[..|s| - 1]), s[|s| - 1])
  }

  /**
   * Merging `e` adds its count to the entry of its page, or appends `e` if
   * there is none; every other entry is unchanged.
   */
  lemma {:induction false} AccumulateSpec(acc: seq<PageEntry>, e: PageEntry)
    requires DistinctKeys(acc)
    ensures var r := Accumulate(acc, e);
      && |r| == |acc| + (if e.Key() in KeysOf(acc) then 0 else 1)
      && (forall j :: 0 <= j < |acc| ==>
            r[j] == if acc[j].Key() == e.Key() then acc[j].SetCount(acc[j].count + e.count) else acc[j])
      && (e.Key() !in KeysOf(acc) ==> r[|acc|] == e)
  {
    if acc != [] {
      assert acc[0] in acc;
      if acc[0].Key() != e.Key() {
        AccumulateSpec(acc[1..], e);
        assert e.Key() in KeysOf(acc) <==> e.Key() in KeysOf(acc[1..]) by {
          if e.Key() in KeysOf(acc) {
            var x :| x in acc && x.Key() == e.Key();
            assert x in acc[1..];
          }
        }
      } else {
        forall j | 0 < j < |acc| ensures acc[j].Key() != e.Key() {
        }
      }
    }
  }

  /** The pages of the merge, position by position. */
  lemma AccumulatePages(g: seq<PageEntry>, e: PageEntry)
    requires DistinctKeys(g)
    ensures var r := Accumulate(g, e);
      && |r| == |g| + (if e.Key() in KeysOf(g) then 0 else 1)
      && forall j :: 0 <= j < |r| ==> r[j].Key() == if j < |g| then g[j].Key() else e.Key()
  {
    AccumulateSpec(g, e);
  }

  /** Merging one more entry keeps the pages distinct and adds the entry's page. */
  lemma AccumulateKeys(g: seq<PageEntry>, e: PageEntry)
    requires DistinctKeys(g)
    ensures DistinctKeys(Accumulate(g, e))
    ensures KeysOf(Accumulate(g, e)) == KeysOf(g) + {e.Key()}
  {
    AccumulatePages(g, e);
    var r := Accumulate(g, e);
    assert DistinctKeys(r) by {
      forall i, j | 0 <= i < j < |r| ensures r[i].Key() != r[j].Key() {
        if |g| <= j {
          assert g[i] in g;
        }
      }
    }
    forall k | k in KeysOf(r) ensures k in KeysOf(g) + {e.Key()} {
      var x :| x in r && x.Key() == k;
      var j :| 0 <= j < |r| && r[j] == x;
      if j < |g| {
        assert g[j] in g;
      }
    }
    forall k | k in KeysOf(g) ensures k in KeysOf(r) {
      var x :| x in g && x.Key() == k;
      var j :| 0 <= j < |g| && g[j] == x;
      assert r[j] in r;
    }
    if e.Key() !in KeysOf(g) {
      assert r[|g|] in r;
    }
  }

  lemma SumForSnoc(prefix: seq<PageEntry>, e: PageEntry, k: (string, int))
    ensures SumFor(prefix + [e], k) == SumFor(prefix, k) + (if e.Key() == k then e.count else 0)
  {
    SumForConcat(prefix, [e], k);
    assert SumFor([e], k) == (if e.Key() == k then e.count else 0) + SumFor([], k);
  }

  /** The count at one position of the merge is the sum over the entries seen. */
  lemma AccumulateCountAt(g: seq<PageEntry>, prefix: seq<PageEntry>, e: PageEntry, j: nat)
    requires DistinctKeys(g) && KeysOf(g) == KeysOf(prefix)
    requires forall x :: x in g ==> x.count == SumFor(prefix, x.Key())
    requires j < |Accumulate(g, e)|
    ensures Accumulate(g, e)[j].count == SumFor(prefix + [e], Accumulate(g, e)[j].Key())
  {
    AccumulateSpec(g, e);
    var r := Accumulate(g, e);
    SumForSnoc(prefix, e, r[j].Key());
    if j < |g| {
      assert g[j] in g;
    } else {
      SumForAbsent(prefix, e.Key());
    }
  }

  /** Merging one more entry keeps every count the sum over the entries seen. */
  lemma AccumulateCounts(g: seq<PageEntry>, prefix: seq<PageEntry>, e: PageEntry)
    requires DistinctKeys(g) && KeysOf(g) == KeysOf(prefix)
    requires forall x :: x in g ==> x.count == SumFor(prefix, x.Key())
    ensures forall x :: x in Accumulate(g, e) ==> x.count == SumFor(prefix + [e], x.Key())
  {
    var r := Accumulate(g, e);
    forall x | x in r ensures x.count == SumFor(prefix + [e], x.Key()) {
      var j :| 0 <= j < |r| && r[j] == x;
      AccumulateCountAt(g, prefix, e, j);
    }
  }

  /** What merging one more entry does to the keys and the counts. */
  lemma GroupStep(g: seq<PageEntry>, prefix: seq<PageEntry>, e: PageEntry)
    requires DistinctKeys(g) && KeysOf(g) == KeysOf(prefix)
    requires forall x :: x in g ==> x.count == SumFor(prefix, x.Key())
    ensures var r := Accumulate(g, e);
      && DistinctKeys(r)
      && KeysOf(r) == KeysOf(prefix + [e])
      && forall x :: x in r ==> x.count == SumFor(prefix + [e], x.Key())
  {
    AccumulateKeys(g, e);
    AccumulateCounts(g, prefix, e);
    assert KeysOf(prefix + [e]) == KeysOf(prefix) + {e.Key()};
  }

  /**
   * The merge holds one entry per page of `s`, whose count is the sum of the
   * counts of the entries of `s` for that page.
   */
  lemma {:induction false} GroupSpec(s: seq<PageEntry>)
    ensures DistinctKeys(Group(s))
    ensures KeysOf(Group(s)) == KeysOf(s)
    ensures forall x :: x in Group(s) ==> x.count == SumFor(s, x.Key())
  {
    if s != [] {
      var prefix := s[..|s| - 1];
      var e := s[|s| - 1];
      assert s == prefix + [e];
      GroupSpec(prefix);
      GroupStep(Group(prefix), prefix, e);
    }
  }

  /* ---------- the merge key ---------- */

  function Digit(d: int): char
    requires 0 <= d < 10
  {
    ('0' as int + d) as char
  }

  /** Decimal digits of `n`, most significant first. */
  function NatToString(n: nat): (r: string)
    ensures r != [] && forall j :: 0 <= j < |r| ==> '0' <= r[j] <= '9'
    ensures n >= 10 ==> |r| >= 2
  {
    if n < 10 then [Digit(n)] else NatToString(n / 10) + [Digit(n % 10)]
  }

  /** `Integer.toString`. */
  function IntToString(n: int): (r: string)
    ensures forall j :: 0 <= j < |r| ==> r[j] != ':'
    ensures r != [] && (r[0] == '-' <==> n < 0)
  {
    if n < 0 then "-" + NatToString(-n) else NatToString(n)
  }

  lemma {:induction false} NatToStringInjective(a: nat, b: nat)
    requires NatToString(a) == NatToString(b)
    ensures a == b
  {
    if a >= 10 && b >= 10 {
      var sa, sb := NatToString(a), NatToString(b);
      assert sa[|sa| - 1] == sb[|sb| - 1];
      assert NatToString(a / 10) == sa[..|sa| - 1] == sb[..|sb| - 1] == NatToString(b / 10);
      NatToStringInjective(a / 10, b / 10);
    }
  }

  lemma IntToStringInjective(a: int, b: int)
    requires IntToString(a) == IntToString(b)
    ensures a == b
  {
    var sa, sb := IntToString(a), IntToString(b);
    if a < 0 && b < 0 {
      assert NatToString(-a) == sa[1..] == sb[1..] == NatToString(-b);
      NatToStringInjective(-a, -b);
    } else if a >= 0 && b >= 0 {
      NatToStringInjective(a, b);
    }
  }

  /** The key `toMap` groups by: the file name, a colon and the page number. */
  function MergeKey(e: PageEntry): string {
    e.pdfName + ":" + IntToString(e.page)
  }

  /** The position of the last colon of `k`, or -1. */
  function LastColon(k: string): int {
    if k == [] then -1
    else if k[|k| - 1] == ':' then |k| - 1
    else LastColon(k[..|k| - 1])
  }

  lemma {:induction false} LastColonOfKey(name: string, s: string)
    requires forall j :: 0 <= j < |s| ==> s[j] != ':'
    ensures LastColon(name + ":" + s) == |name|
  {
    var k := name + ":" + s;
    if s != [] {
      var s' := s[..|s| - 1];
      assert k[..|k| - 1] == name + ":" + s';
      LastColonOfKey(name, s');
    }
  }

  /**
   * Grouping by the string key is grouping by (file name, page): the page
   * number never holds a colon, so the last colon splits the key.
   */
  lemma MergeKeyIdentifiesPage(a: PageEntry, b: PageEntry)
    ensures MergeKey(a) == MergeKey(b) <==> a.Key() == b.Key()
  {
    if MergeKey(a) == MergeKey(b) {
      var k, sa, sb := MergeKey(a), IntToString(a.page), IntToString(b.page);
      LastColonOfKey(a.pdfName, sa);
      LastColonOfKey(b.pdfName, sb);
      assert |a.pdfName| == |b.pdfName|;
      assert a.pdfName == k[..|a.pdfName|] == b.pdfName;
      assert sa == k[|a.pdfName| + 1..] == sb;
      IntToStringInjective(a.page, b.page);
    }
  }

  /* ---------- sorting ---------- */

  /** Ordered by `compareTo`: count descending, then file name, then page. */
  predicate Sorted(s: seq<PageEntry>) {
    forall i, j :: 0 <= i < j < |s| ==> Compare(s[i], s[j]) <= 0
  }

  function Insert(x: PageEntry, s: seq<PageEntry>): (r: seq<PageEntry>)
    ensures multiset(r) == multiset(s) + multiset{x}
  {
    if s == [] then [x]
    else if Compare(x, s[0]) <= 0 then [x] + s
    else
      assert s == [s[0]] + s[1..];
      [s[0]] + Insert(x, s[1..])
  }

  /** The list that `sorted()` returns: a sorted permutation of `s`. */
  function SortEntries(s: seq<PageEntry>): (r: seq<PageEntry>)
    ensures multiset(r) == multiset(s)
  {
    if s == [] then []
    else
      assert s == [s[0]] + s[1..];
      Insert(s[0], SortEntries(s[1..]))
  }

  lemma SortedCons(h: PageEntry, t: seq<PageEntry>)
    requires Sorted(t) && forall y :: y in t ==> Compare(h, y) <= 0
    ensures Sorted([h] + t)
  {
    var s := [h] + t;
    forall i, j | 0 <= i < j < |s| ensures Compare(s[i], s[j]) <= 0 {
      if i > 0 {
        assert s[i] == t[i - 1] && s[j] == t[j - 1];
      } else {
        assert s[j] in t;
      }
    }
  }

  lemma {:induction false} InsertSorted(x: PageEntry, s: seq<PageEntry>)
    requires Sorted(s)
    ensures Sorted(Insert(x, s))
  {
    if s == [] {
    } else if Compare(x, s[0]) <= 0 {
      forall y | y in s ensures Compare(x, y) <= 0 {
        var j :| 0 <= j < |s| && s[j] == y;
        if j > 0 {
          CompareTransitive(x, s[0], y);
        }
      }
      SortedCons(x, s);
    } else {
      CompareAntisymmetric(x, s[0]);
      var t := s[1..];
      assert Sorted(t) by {
        forall i, j | 0 <= i < j < |t| ensures Compare(t[i], t[j]) <= 0 {
          assert t[i] == s[i + 1] && t[j] == s[j + 1];
        }
      }
      InsertSorted(x, t);
      var r := Insert(x, t);
      forall y | y in r ensures Compare(s[0], y) <= 0 {
        assert y in multiset(r);
        if y != x {
          assert y in t;
          var j :| 0 <= j < |t| && t[j] == y;
          assert s[j + 1] == y;
        }
      }
      SortedCons(s[0], r);
    }
  }

  /** `sorted()` orders the entries by `compareTo`. */
  lemma {:induction false} SortEntriesSorted(s: seq<PageEntry>)
    ensures Sorted(SortEntries(s))
  {
    if s != [] {
      SortEntriesSorted(s[1..]);
      InsertSorted(s[0], SortEntries(s[1..]));
    }
  }

  lemma SortedHeadFirst(s: seq<PageEntry>, y: PageEntry)
    requires Sorted(s) && y in s
    ensures Compare(s[0], y) <= 0
  {
    var j :| 0 <= j < |s| && s[j] == y;
    if j == 0 {
      CompareMatchesTripleOrder(y, y);
    }
  }

  lemma SortedTail(s: seq<PageEntry>)
    requires Sorted(s) && s != []
    ensures Sorted(s[1..])
  {
    var t := s[1..];
    forall i, j | 0 <= i < j < |t| ensures Compare(t[i], t[j]) <= 0 {
      assert t[i] == s[i + 1] && t[j] == s[j + 1];
    }
  }

  /** Two sorted permutations of the same entries start with the same entry. */
  lemma SortedSameHead(a: seq<PageEntry>, b: seq<PageEntry>)
    requires Sorted(a) && Sorted(b) && multiset(a) == multiset(b) && a != []
    ensures b != [] && a[0] == b[0]
  {
    assert |b| == |multiset(b)| == |multiset(a)| == |a|;
    assert a[0] in multiset(b) && b[0] in multiset(a);
    SortedHeadFirst(a, b[0]);
    SortedHeadFirst(b, a[0]);
    CompareMatchesTripleOrder(a[0], b[0]);
    CompareAntisymmetric(a[0], b[0]);
  }

  lemma MultisetTails(a: seq<PageEntry>, b: seq<PageEntry>)
    requires a != [] && b != [] && a[0] == b[0] && multiset(a) == multiset(b)
    ensures multiset(a[1..]) == multiset(b[1..])
  {
    assert a == [a[0]] + a[1..] && b == [b[0]] + b[1..];
    assert multiset(a) == multiset{a[0]} + multiset(a[1..]);
    assert multiset(b) == multiset{b[0]} + multiset(b[1..]);
    assert multiset(a[1..]) == multiset(a) - multiset{a[0]};
    assert multiset(b[1..]) == multiset(b) - multiset{b[0]};
  }

  /**
   * Two sorted permutations of the same entries are equal: since `compareTo`
   * is 0 only on equal entries, any correct sort (Java's included) gives the
   * same list.
   */
  lemma {:induction false} SortedPermutationUnique(a: seq<PageEntry>, b: seq<PageEntry>)
    requires Sorted(a) && Sorted(b) && multiset(a) == multiset(b)
    ensures a == b
  {
    if a == [] {
      assert |b| == |multiset(b)| == 0;
    } else {
      SortedSameHead(a, b);
      MultisetTails(a, b);
      SortedTail(a);
      SortedTail(b);
      SortedPermutationUnique(a[1..], b[1..]);
      assert a == [a[0]] + a[1..] && b == [b[0]] + b[1..];
    }
  }

  /* ---------- the query ---------- */

  /** The answer for a list of terms: their postings merged per page, then sorted. */
  function Rank(m: map<string, seq<PageEntry>>, terms: seq<string>): seq<PageEntry> {
    SortEntries(Group(Collect(m, terms)))
  }

  /** `search`: tokenize the request, then rank its terms over the index. */
  function SearchRequest(e: Engine, request: string): seq<PageEntry> {
    Rank(e.wordsMap, Terms(request, e.stopList))
  }

  lemma TwiceIsTwice(r: seq<PageEntry>, i: nat, j: nat)
    requires i < j < |r| && r[i] == r[j]
    ensures multiset(r)[r[i]] >= 2
  {
    assert r == r[..j] + r[j..];
    assert r[..j][i] == r[i];
    assert r[j..][0] == r[i];
    assert multiset(r) == multiset(r[..j]) + multiset(r[j..]);
  }

  lemma {:induction false} DistinctKeysOnce(s: seq<PageEntry>, a: nat)
    requires a < |s| && DistinctKeys(s)
    ensures multiset(s)[s[a]] == 1
  {
    assert s == [s[0]] + s[1..];
    if a == 0 {
      assert s[0] !in s[1..];
    } else {
      DistinctKeysOnce(s[1..], a - 1);
      assert s[0] != s[a];
    }
  }

  /** A permutation of entries with distinct pages has distinct pages. */
  lemma DistinctKeysPermutation(g: seq<PageEntry>, r: seq<PageEntry>)
    requires DistinctKeys(g) && multiset(g) == multiset(r)
    ensures DistinctKeys(r)
  {
    forall i, j | 0 <= i < j < |r| ensures r[i].Key() != r[j].Key() {
      var x, y := r[i], r[j];
      assert x in multiset(g) && y in multiset(g);
      var a :| 0 <= a < |g| && g[a] == x;
      var b :| 0 <= b < |g| && g[b] == y;
      if x == y {
        TwiceIsTwice(r, i, j);
        DistinctKeysOnce(g, a);
      } else {
        assert a != b;
      }
    }
  }

  /**
   * The result lists each page found at most once, with the sum over the
   * distinct query terms of their posting counts for it; it holds exactly
   * the pages in the postings of some query term; it is a permutation of the
   * merged entries, ordered strictly by `compareTo`.
   */
  lemma SearchResult(e: Engine, request: string)
    ensures var ts := Terms(request, e.stopList);
      var r := SearchRequest(e, request);
      && DistinctKeys(r)
      && (forall x :: x in r ==> x.count == TermsSum(e.wordsMap, ts, x.Key()))
      && (forall k :: k in KeysOf(r) <==> exists t :: t in ts && k in KeysOf(Get(e.wordsMap, t)))
      && multiset(r) == multiset(Group(Collect(e.wordsMap, ts)))
      && (forall i, j :: 0 <= i < j < |r| ==> Compare(r[i], r[j]) < 0)
  {
    var ts := Terms(request, e.stopList);
    var c := Collect(e.wordsMap, ts);
    var g := Group(c);
    var r := SearchRequest(e, request);
    assert r == SortEntries(g);
    GroupSpec(c);
    SortEntriesSorted(g);
    DistinctKeysPermutation(g, r);
    assert forall x :: x in r <==> x in g by {
      forall x ensures x in r <==> x in g {
        assert x in r <==> x in multiset(r);
      }
    }
    forall k ensures k in KeysOf(r) <==> exists t :: t in ts && k in KeysOf(Get(e.wordsMap, t)) {
      CollectSpec(e.wordsMap, ts, k);
      assert k in KeysOf(r) <==> k in KeysOf(g);
    }
    forall x | x in r ensures x.count == TermsSum(e.wordsMap, ts, x.Key()) {
      CollectSpec(e.wordsMap, ts, x.Key());
    }
    forall i, j | 0 <= i < j < |r| ensures Compare(r[i], r[j]) < 0 {
      CompareMatchesTripleOrder(r[i], r[j]);
    }
  }

  /* ---------- properties of the query ---------- */

  /** Search is case-insensitive: a request and its lowercase form agree. */
  lemma SearchIgnoresCase(e: Engine, request: string)
    ensures SearchRequest(e, LowerString(request)) == SearchRequest(e, request)
  {
    TokenizeIgnoresCase(request);
  }

  lemma KeysOfEmpty(s: seq<PageEntry>)
    ensures KeysOf(s) == {} <==> s == []
  {
    if s != [] {
      assert s[0].Key() in KeysOf(s);
    }
  }

  /** A request with no term that has postings finds nothing, and conversely. */
  lemma SearchEmptyIff(e: Engine, request: string)
    ensures SearchRequest(e, request) == [] <==>
      forall t :: t in Terms(request, e.stopList) ==> Get(e.wordsMap, t) == []
  {
    var ts := Terms(request, e.stopList);
    var r := SearchRequest(e, request);
    SearchResult(e, request);
    KeysOfEmpty(r);
    forall t | t in ts ensures Get(e.wordsMap, t) == [] <==> KeysOf(Get(e.wordsMap, t)) == {} {
      KeysOfEmpty(Get(e.wordsMap, t));
    }
  }

  lemma {:induction false} CollectKnown(m: map<string, seq<PageEntry>>, ts: seq<string>)
    ensures Collect(m, ts) == Collect(m, Filter(ts, InIndex(m)))
  {
    if ts != [] {
      CollectKnown(m, ts[1..]);
      var f := Filter(ts, InIndex(m));
      if ts[0] in m {
        assert f == [ts[0]] + Filter(ts[1..], InIndex(m));
        assert f[0] == ts[0] && f[1..] == Filter(ts[1..], InIndex(m));
      } else {
        assert f == Filter(ts[1..], InIndex(m));
      }
    }
  }

  lemma FilterSnoc(s: seq<string>, x: string, p: string -> bool)
    ensures Filter(s + [x], p) == Filter(s, p) + (if p(x) then [x] else [])
  {
    FilterConcat(s, [x], p);
    assert Filter([x], p) == (if p(x) then [x] else []) + Filter([], p);
  }

  /** Filtering after `distinct` is `distinct` after filtering. */
  lemma {:induction false} FilterDistinct(s: seq<string>, p: string -> bool)
    ensures Filter(Distinct(s), p) == Distinct(Filter(s, p))
  {
    if s != [] {
      var prefix := s[..|s| - 1];
      var x := s[|s| - 1];
      assert s == prefix + [x];
      FilterDistinct(prefix, p);
      DistinctSnoc(prefix, x);
      FilterSnoc(prefix, x, p);
      var d, f := Distinct(prefix), Filter(prefix, p);
      var tail: seq<string> := if p(x) then [x] else [];
      assert Filter(s, p) == f + tail;
      if x in d {
        assert Distinct(s) == d;
        if p(x) {
          DistinctSnoc(f, x);
          assert x in f;
        } else {
          assert f + tail == f;
        }
      } else {
        assert Distinct(s) == d + [x];
        FilterSnoc(d, x, p);
        if p(x) {
          DistinctSnoc(f, x);
          assert x !in Distinct(f);
        } else {
          assert f + tail == f;
        }
      }
    }
  }

  /** Appending elements already present does not change `distinct`. */
  lemma {:induction false} DistinctAbsorbs(a: seq<string>, b: seq<string>)
    requires forall x :: x in b ==> x in a
    ensures Distinct(a + b) == Distinct(a)
  {
    if b != [] {
      var b' := b[..|b| - 1];
      var x := b[|b| - 1];
      assert a + b == (a + b') + [x];
      DistinctAbsorbs(a, b');
      DistinctSnoc(a + b', x);
    } else {
      assert a + b == a;
    }
  }

  /**
   * The leading "" that `split` may produce is never a key of an index
   * whose keys are not empty, so it contributes nothing.
   */
  lemma FilterSplit(x: string, p: string -> bool, q: string -> bool)
    requires !(p("") && q(""))
    ensures Filter(Filter(Split(x), p), q) == Filter(Filter(Words(x), p), q)
  {
    if x != [] && Words(x) != [] && !IsAlpha(x[0]) {
      FilterConcat([""], Words(x), p);
      FilterConcat(Filter([""], p), Filter(Words(x), p), q);
      assert Filter([""], p) == (if p("") then [""] else []) + Filter([], p);
      if p("") {
        assert Filter([""], q) == (if q("") then [""] else []) + Filter([], q);
      }
    }
  }

  /** The query terms that have postings, from the request's words. */
  function EffectiveTerms(e: Engine, request: string): seq<string> {
    Distinct(Filter(Filter(Words(LowerString(request)), NotStop(e.stopList)), InIndex(e.wordsMap)))
  }

  lemma CollectEffective(e: Engine, request: string)
    requires "" !in e.wordsMap
    ensures Collect(e.wordsMap, Terms(request, e.stopList)) == Collect(e.wordsMap, EffectiveTerms(e, request))
  {
    var m, stop := e.wordsMap, e.stopList;
    var l := LowerString(request);
    CollectKnown(m, Terms(request, stop));
    FilterDistinct(Filter(Tokenize(request), NotStop(stop)), InIndex(m));
    FilterSplit(l, NotStop(stop), InIndex(m));
  }

  /** The extra words bring no new effective term. */
  lemma EffectiveTermsExtension(e: Engine, q: string, q2: string)
    requires forall t :: t in Tokenize(q2) && t !in e.stopList && t in e.wordsMap ==> t in Tokenize(q)
    ensures EffectiveTerms(e, q + " " + q2) == EffectiveTerms(e, q)
  {
    var m, stop := e.wordsMap, e.stopList;
    var l1, l2 := LowerString(q), LowerString(q2);
    LowerStringJoin(q, q2);
    WordsAtSeparator(l1, ' ', l2);
    var w1, w2 := Words(l1), Words(l2);
    var ns, ii := NotStop(stop), InIndex(m);
    FilterConcat(w1, w2, ns);
    FilterConcat(Filter(w1, ns), Filter(w2, ns), ii);
    var a, b := Filter(Filter(w1, ns), ii), Filter(Filter(w2, ns), ii);
    forall x | x in b ensures x in a {
      assert x in w2 && x !in stop && x in m;
      assert x in Tokenize(q2);
      assert x in Tokenize(q);
      assert x in w1;
    }
    DistinctAbsorbs(a, b);
  }

  /**
   * Adding words to a request changes nothing when each of them is a stop
   * word, has no postings, or is already a term of the request. In
   * particular a repeated term counts once.
   */
  lemma QueryExtension(e: Engine, q: string, q2: string)
    requires "" !in e.wordsMap
    requires forall t :: t in Tokenize(q2) && t !in e.stopList && t in e.wordsMap ==> t in Tokenize(q)
    ensures SearchRequest(e, q + " " + q2) == SearchRequest(e, q)
  {
    EffectiveTermsExtension(e, q, q2);
    CollectEffective(e, q + " " + q2);
    CollectEffective(e, q);
  }

  /** Repeating the request's terms does not change the result. */
  lemma RepeatedTermsIgnored(e: Engine, q: string)
    requires "" !in e.wordsMap
    ensures SearchRequest(e, q + " " + q) == SearchRequest(e, q)
  {
    QueryExtension(e, q, q);
  }

  /* ---------- end to end: queries over a built index ---------- */

  /** Occurrences on a page's tokens, summed over the indexable terms. */
  function OccurrenceSum(tokens: seq<string>, terms: seq<string>, stop: set<string>): int {
    if terms == [] then 0
    else (if Indexable(terms[0], stop) then multiset(tokens)[terms[0]] else 0) + OccurrenceSum(tokens, terms[1..], stop)
  }

  /** A page that is not among `pages` has no posting. */
  lemma PostingsOfOtherPage(pages: seq<PageText>, stop: set<string>, w: string, k: (string, int))
    requires forall i :: 0 <= i < |pages| ==> PageKey(pages[i]) != k
    ensures SumFor(Postings(pages, stop, w), k) == 0
  {
    PostingsAreOccurrences(pages, stop, w);
    forall x | x in Postings(pages, stop, w) ensures x.Key() != k {
      assert PostingOf(pages, stop, w, x);
    }
    SumForAbsent(Postings(pages, stop, w), k);
  }

  /** In reference postings, the sum for a page is the word's occurrences on it. */
  lemma {:induction false} PostingsSumFor(pages: seq<PageText>, stop: set<string>, w: string, j: nat)
    requires DistinctPageKeys(pages) && j < |pages|
    ensures SumFor(Postings(pages, stop, w), PageKey(pages[j])) ==
      if Indexable(w, stop) then multiset(Tokenize(pages[j].text))[w] else 0
  {
    var n := |pages| - 1;
    var prefix := pages[..n];
    var p := pages[n];
    var k := PageKey(pages[j]);
    var tokens := Tokenize(p.text);
    var last: seq<PageEntry> := if Indexable(w, stop) && w in tokens then [PageEntry(p.pdfName, p.page, multiset(tokens)[w])] else [];
    assert Postings(pages, stop, w) == Postings(prefix, stop, w) + last;
    SumForConcat(Postings(prefix, stop, w), last, k);
    if j < n {
      assert pages[j] == prefix[j];
      assert DistinctPageKeys(prefix) by {
        forall a, b | 0 <= a < b < |prefix| ensures PageKey(prefix[a]) != PageKey(prefix[b]) {
          assert prefix[a] == pages[a] && prefix[b] == pages[b];
        }
      }
      PostingsSumFor(prefix, stop, w, j);
      assert PageKey(p) != k;
      assert SumFor(last, k) == 0;
    } else {
      assert forall i :: 0 <= i < |prefix| ==> PageKey(prefix[i]) != k by {
        forall i | 0 <= i < |prefix| ensures PageKey(prefix[i]) != k {
          assert prefix[i] == pages[i];
        }
      }
      PostingsOfOtherPage(prefix, stop, w, k);
      if !(w in tokens) {
        assert multiset(tokens)[w] == 0;
      }
    }
  }

  lemma {:induction false} TermsSumOfIndex(pages: seq<PageText>, stop: set<string>, ts: seq<string>, j: nat)
    requires DistinctPageKeys(pages) && j < |pages|
    ensures TermsSum(IndexOf(pages, stop), ts, PageKey(pages[j])) == OccurrenceSum(Tokenize(pages[j].text), ts, stop)
  {
    if ts != [] {
      TermsSumOfIndex(pages, stop, ts[1..], j);
      IndexMatchesPostings(pages, stop, ts[0]);
      PostingsSumFor(pages, stop, ts[0], j);
    }
  }

  /**
   * Over the index of files with distinct names, every hit names a page of
   * the corpus, and its count is the total number of occurrences on that
   * page of the distinct query terms (multi-term additivity).
   */
  lemma SearchCountsOccurrences(docs: seq<Pdf>, stop: set<string>, request: string)
    requires forall i, j :: 0 <= i < j < |docs| ==> docs[i].name != docs[j].name
    ensures var pages := CorpusPages(docs);
      var e := Engine(IndexOf(pages, stop), stop);
      forall x :: x in SearchRequest(e, request) ==>
        x.count >= 1 &&
        exists j :: (0 <= j < |pages| && PageKey(pages[j]) == x.Key() &&
          x.count == OccurrenceSum(Tokenize(pages[j].text), Terms(request, stop), stop))
  {
    var pages := CorpusPages(docs);
    var e := Engine(IndexOf(pages, stop), stop);
    var ts := Terms(request, stop);
    CorpusPagesDistinct(docs);
    SearchResult(e, request);
    forall x | x in SearchRequest(e, request)
      ensures x.count >= 1
      ensures exists j :: (0 <= j < |pages| && PageKey(pages[j]) == x.Key() &&
        x.count == OccurrenceSum(Tokenize(pages[j].text), ts, stop))
    {
      assert x.Key() in KeysOf(SearchRequest(e, request));
      var t :| t in ts && x.Key() in KeysOf(Get(e.wordsMap, t));
      IndexMatchesPostings(pages, stop, t);
      PostingsAreOccurrences(pages, stop, t);
      var y :| y in Postings(pages, stop, t) && y.Key() == x.Key();
      assert PostingOf(pages, stop, t, y);
      var j :| 0 <= j < |pages| && PageKey(pages[j]) == y.Key() &&
        y.count == multiset(Tokenize(pages[j].text))[t];
      TermsSumOfIndex(pages, stop, ts, j);
      OccurrenceSumPositive(Tokenize(pages[j].text), ts, stop, t);
    }
  }

  lemma {:induction false} OccurrenceSumPositive(tokens: seq<string>, ts: seq<string>, stop: set<string>, t: string)
    requires t in ts && Indexable(t, stop) && multiset(tokens)[t] >= 1
    ensures OccurrenceSum(tokens, ts, stop) >= 1
  {
    if ts[0] != t {
      OccurrenceSumPositive(tokens, ts[1..], stop, t);
    }
    OccurrenceSumNonNegative(tokens, ts[1..], stop);
  }

  lemma {:induction false} OccurrenceSumNonNegative(tokens: seq<string>, ts: seq<string>, stop: set<string>)
    ensures OccurrenceSum(tokens, ts, stop) >= 0
  {
    if ts != [] {
      OccurrenceSumNonNegative(tokens, ts[1..], stop);
    }
  }

  /**
   * Two files: "cat" twice and "dog" once on page 1 of a.pdf, "dog" once on
   * page 1 of b.pdf. The terms "cat" and "dog" rank a.pdf first with 3, then
   * b.pdf with 1.
   */
  lemma RankExample()
    ensures var m := map["cat" := [PageEntry("a.pdf", 1, 2)],
                         "dog" := [PageEntry("a.pdf", 1, 1), PageEntry("b.pdf", 1, 1)]];
      Rank(m, ["cat", "dog"]) == [PageEntry("a.pdf", 1, 3), PageEntry("b.pdf", 1, 1)]
  {
    var a2, a1, b1 := PageEntry("a.pdf", 1, 2), PageEntry("a.pdf", 1, 1), PageEntry("b.pdf", 1, 1);
    var m := map["cat" := [a2], "dog" := [a1, b1]];
    assert Collect(m, ["dog"]) == [a1, b1];
    assert Collect(m, ["cat", "dog"]) == [a2, a1, b1];
    assert [a2, a1, b1][..2] == [a2, a1] && [a2, a1][..1] == [a2];
    assert Group([a2]) == [a2];
    assert Group([a2, a1]) == [PageEntry("a.pdf", 1, 3)];
    assert Accumulate([PageEntry("a.pdf", 1, 3)], b1) == [PageEntry("a.pdf", 1, 3), b1];
    assert Group([a2, a1, b1]) == [PageEntry("a.pdf", 1, 3), b1];
    assert StringCompare("a.pdf", "b.pdf") < 0;
    assert SortEntries([b1]) == [b1];
  }
}
