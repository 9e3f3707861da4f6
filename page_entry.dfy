/**
 * One search hit: a page of a PDF file with the number of matching words on
 * it, and the order in which hits are ranked.
 */
module PageEntries {
  import opened Wrappers

  datatype PageEntry = PageEntry(pdfName: string, page: int, count: int)
  {
    /** The identity of a hit when results are merged: (file name, page). */
    function Key(): (string, int) {
      (pdfName, page)
    }

    /** `setCount`: a new count; the file name and page are final. */
    function SetCount(c: int): (r: PageEntry)
      ensures r.count == c
      ensures r.pdfName == pdfName && r.page == page && r.Key() == Key()
    {
      this.(count := c)
    }

    /** `compareTo`, whose argument may be null. */
    function CompareTo(o: Option<PageEntry>): (r: int)
      ensures o == None ==> r == -1
      ensures o != None ==> (r < 0 <==> TripleLess(this, o.value))
    {
      match o
      case None => -1
      case Some(e) =>
        CompareMatchesTripleOrder(this, e);
        Compare(this, e)
    }
  }

  /** `Integer.compare`. */
  function IntCompare(x: int, y: int): (r: int)
    ensures r == -1 || r == 0 || r == 1
    ensures r < 0 <==> x < y
    ensures r == 0 <==> x == y
  {
    if x < y then -1 else if x == y then 0 else 1
  }

  /**
   * `String.compareTo`: the difference of the first differing characters, or
   * else the difference of the lengths.
   */
  function StringCompare(a: string, b: string): (r: int)
    ensures r == 0 <==> a == b
  {
    if a == [] || b == [] then |a| - |b|
    else if a[0] != b[0] then a[0] as int - b[0] as int
    else
      assert a == [a[0]] + a[1..] && b == [b[0]] + b[1..];
      StringCompare(a[1..], b[1..])
  }

  /** Swapping the arguments of `String.compareTo` negates its result. */
  lemma {:induction false} StringCompareAntisymmetric(a: string, b: string)
    ensures StringCompare(b, a) == -StringCompare(a, b)
    decreases |a|
  {
    if a != [] && b != [] && a[0] == b[0] {
      StringCompareAntisymmetric(a[1..], b[1..]);
    }
  }

  /** Lexicographic order: a proper prefix, or smaller at the first difference. */
  predicate LexLess(a: string, b: string) {
    exists k :: 0 <= k <= |a| && k <= |b| && a[..k] == b[..k] &&
      ((k == |a| && k < |b|) || (k < |a| && k < |b| && a[k] < b[k]))
  }

  lemma LexLessDropHead(a: string, b: string)
    requires a != [] && b != [] && a[0] == b[0] && LexLess(a, b)
    ensures LexLess(a[1..], b[1..])
  {
    var a', b' := a[1..], b[1..];
    var k :| 0 <= k <= |a| && k <= |b| && a[..k] == b[..k] &&
      ((k == |a| && k < |b|) || (k < |a| && k < |b| && a[k] < b[k]));
    assert k > 0;
    assert a'[..k - 1] == a[..k][1..] == b[..k][1..] == b'[..k - 1];
  }

  lemma LexLessAddHead(a: string, b: string)
    requires a != [] && b != [] && a[0] == b[0] && LexLess(a[1..], b[1..])
    ensures LexLess(a, b)
  {
    var a', b' := a[1..], b[1..];
    var k :| 0 <= k <= |a'| && k <= |b'| && a'[..k] == b'[..k] &&
      ((k == |a'| && k < |b'|) || (k < |a'| && k < |b'| && a'[k] < b'[k]));
    assert a[..k + 1] == [a[0]] + a'[..k] && b[..k + 1] == [b[0]] + b'[..k];
    assert a[k + 1..] == a'[k..] && b[k + 1..] == b'[k..];
  }

  /** With equal first characters, the order is decided by the rests. */
  lemma LexLessTail(a: string, b: string)
    requires a != [] && b != [] && a[0] == b[0]
    ensures LexLess(a, b) <==> LexLess(a[1..], b[1..])
  {
    if LexLess(a, b) {
      LexLessDropHead(a, b);
    }
    if LexLess(a[1..], b[1..]) {
      LexLessAddHead(a, b);
    }
  }

  lemma {:induction false} StringCompareIsLexicographic(a: string, b: string)
    ensures StringCompare(a, b) < 0 <==> LexLess(a, b)
    decreases |a|
  {
    if a == [] {
      if b != [] {
        assert a[..0] == b[..0];
      }
    } else if b == [] {
    } else if a[0] != b[0] {
      if a[0] < b[0] {
        assert a[..0] == b[..0];
      }
    } else {
      StringCompareIsLexicographic(a[1..], b[1..]);
      LexLessTail(a, b);
    }
  }

  lemma {:induction false} StringCompareTransitive(a: string, b: string, c: string)
    requires StringCompare(a, b) < 0 && StringCompare(b, c) < 0
    ensures StringCompare(a, c) < 0
    decreases |a|
  {
    if a != [] && b != [] && c != [] && a[0] == b[0] && b[0] == c[0] {
      StringCompareTransitive(a[1..], b[1..], c[1..]);
    }
  }

  /** The three-key comparison of two non-null entries. */
  function Compare(a: PageEntry, o: PageEntry): int {
    if a.count == o.count then
      if a.pdfName == o.pdfName then IntCompare(a.page, o.page)
      else StringCompare(a.pdfName, o.pdfName)
    else IntCompare(o.count, a.count)
  }

  /** Lexicographic order on (-count, pdfName, page). */
  predicate TripleLess(a: PageEntry, b: PageEntry) {
    a.count > b.count ||
    (a.count == b.count &&
      (LexLess(a.pdfName, b.pdfName) || (a.pdfName == b.pdfName && a.page < b.page)))
  }

  /**
   * `compareTo` ranks a larger count first, then the file name in
   * lexicographic order, then the smaller page; it is 0 only for equal entries.
   */
  lemma CompareMatchesTripleOrder(a: PageEntry, b: PageEntry)
    ensures Compare(a, b) < 0 <==> TripleLess(a, b)
    ensures Compare(a, b) == 0 <==> a == b
    ensures Compare(a, b) > 0 <==> TripleLess(b, a)
  {
    StringCompareIsLexicographic(a.pdfName, b.pdfName);
    StringCompareIsLexicographic(b.pdfName, a.pdfName);
    StringCompareAntisymmetric(a.pdfName, b.pdfName);
  }

  /** Swapping the arguments negates the result, so the signs are opposite. */
  lemma CompareAntisymmetric(a: PageEntry, b: PageEntry)
    ensures Compare(b, a) == -Compare(a, b)
  {
    StringCompareAntisymmetric(a.pdfName, b.pdfName);
  }

  lemma CompareTransitive(a: PageEntry, b: PageEntry, c: PageEntry)
    requires Compare(a, b) <= 0 && Compare(b, c) <= 0
    ensures Compare(a, c) <= 0
    ensures Compare(a, b) < 0 || Compare(b, c) < 0 ==> Compare(a, c) < 0
  {
    CompareMatchesTripleOrder(a, b);
    CompareMatchesTripleOrder(b, c);
    CompareMatchesTripleOrder(a, c);
    if a.count == b.count == c.count && a.pdfName != b.pdfName && b.pdfName != c.pdfName {
      StringCompareTransitive(a.pdfName, b.pdfName, c.pdfName);
    }
  }
}
