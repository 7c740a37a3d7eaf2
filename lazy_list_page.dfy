/** LazyListPage: one page fetched from the backend, immutable once built. The content is a
    Dafny sequence, a value, so nothing can change it after construction (the source wraps
    it as an unmodifiable list). */
module LazyListPages {
  import opened Common

  datatype Page<T> = Page(pageNumber: int, content: seq<T>)

  /** get(indexOnPage): the element at that position, None where List.get would throw
      IndexOutOfBoundsException. */
  function PageGet<T>(p: Page<T>, indexOnPage: int): (r: Option<T>)
    ensures r.Some? <==> 0 <= indexOnPage < |p.content|
    ensures r.Some? ==> r.value == p.content[indexOnPage]
  {
    if 0 <= indexOnPage < |p.content| then Some(p.content[indexOnPage]) else None
  }

  /** compareTo: Integer.compare on the page numbers. */
  function PageCompareTo<T, U>(p: Page<T>, o: Page<U>): (r: int)
    ensures r == -1 || r == 0 || r == 1
    ensures r == 0 <==> p.pageNumber == o.pageNumber
    ensures r < 0 <==> p.pageNumber < o.pageNumber
  {
    if p.pageNumber < o.pageNumber then -1
    else if p.pageNumber == o.pageNumber then 0
    else 1
  }

  /** Pages order like their numbers: compareTo is antisymmetric and transitive. */
  lemma PageCompareToIsOrder<T>(p: Page<T>, q: Page<T>, s: Page<T>)
    ensures PageCompareTo(p, q) == -PageCompareTo(q, p)
    ensures PageCompareTo(p, q) < 0 && PageCompareTo(q, s) < 0 ==> PageCompareTo(p, s) < 0
  {
  }
}
