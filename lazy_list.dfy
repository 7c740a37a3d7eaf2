/** LazyList: a read-only virtual list over a paged backend. Pages are fetched on demand,
    at most maxPages of them are kept, the backend count is memoised, and an entity that
    shows up again in a freshly fetched page is taken as a sign that the backend has drifted.

    The providers are not called here: each method that would call one takes the provider's
    reply as a parameter (countReply, fetched) and records the call in a log field. Listener
    callbacks are recorded as a log of the listener ids notified. */
module LazyLists {
  import opened Common
  import opened LazyListPages

  /** Sort direction handed to the ordered provider. */
  datatype Order = Ascending | Descending

  /** An exception escaping from a LazyList method. */
  datatype Failure = IndexOutOfBounds | NullPointer

  datatype Outcome<R> = Ok(value: R) | Thrown(failure: Failure)

  /** A getEntities call made to the backend. */
  datatype FetchCall =
    | Fetch(firstRow: int, total: int)
    | OrderedFetch(firstRow: int, total: int, propertyNames: Option<seq<string>>, order: Option<seq<Order>>)

  ghost function SeqSet<T(!new)>(s: seq<T>): set<T>
  {
    set x | x in s
  }

  /** Every entity held by some page of the list. */
  ghost function Elements<T(!new)>(pages: seq<Page<T>>): set<T>
  {
    set p, x | p in pages && x in p.content :: x
  }

  /** No entity is held by two different pages. */
  ghost predicate PagesDisjoint<T>(pages: seq<Page<T>>)
  {
    forall i, j, x :: 0 <= i < j < |pages| && x in pages[i].content ==> x !in pages[j].content
  }

  lemma ElementsAppend<T(!new)>(pages: seq<Page<T>>, p: Page<T>)
    ensures Elements(pages + [p]) == Elements(pages) + SeqSet(p.content)
  {
    var all := pages + [p];
    forall x | x in Elements(all) ensures x in Elements(pages) + SeqSet(p.content) {
      var q :| q in all && x in q.content;
      if q != p {
        assert q in pages;
      }
    }
    forall x | x in Elements(pages) + SeqSet(p.content) ensures x in Elements(all) {
      if x in Elements(pages) {
        var q :| q in pages && x in q.content;
        assert q in all;
      } else {
        assert p in all;
      }
    }
  }

  lemma DisjointAppend<T(!new)>(pages: seq<Page<T>>, p: Page<T>)
    requires PagesDisjoint(pages)
    requires forall x :: x in p.content ==> x !in Elements(pages)
    ensures PagesDisjoint(pages + [p])
  {
    var all := pages + [p];
    forall i, j, x | 0 <= i < j < |all| && x in all[i].content ensures x !in all[j].content {
      if j == |pages| {
        assert all[i] in pages;
      }
    }
  }

  lemma ElementsDropFirst<T(!new)>(pages: seq<Page<T>>)
    requires PagesDisjoint(pages) && |pages| > 0
    ensures PagesDisjoint(pages[1..])
    ensures Elements(pages[1..]) == Elements(pages) - SeqSet(pages[0].content)
  {
    var rest := pages[1..];
    forall x | x in Elements(rest) ensures x in Elements(pages) - SeqSet(pages[0].content) {
      var q :| q in rest && x in q.content;
      var j :| 0 <= j < |rest| && rest[j] == q;
      assert pages[j + 1] == q;
    }
    forall x | x in Elements(pages) - SeqSet(pages[0].content) ensures x in Elements(rest) {
      var q :| q in pages && x in q.content;
      var j :| 0 <= j < |pages| && pages[j] == q;
      assert j != 0;
      assert rest[j - 1] == q;
    }
  }

  /** A freshly fetched page that holds an entity already known shows that the backend drifted. */
  ghost predicate Drifts<T>(fetched: seq<T>, known: set<T>)
  {
    exists k :: 0 <= k < |fetched| && fetched[k] in known
  }

  /** The known-entities invariant over plain values: the set is exactly the entities of the
      pages, no entity sits in two pages, and the page count is within bound. */
  ghost predicate CacheConsistent<T(!new)>(pages: seq<Page<T>>, known: set<T>, maxPages: int)
  {
    && known == Elements(pages)
    && PagesDisjoint(pages)
    && |pages| <= PageBound(maxPages)
  }

  /** Loading a page keeps the cache consistent when the eviction it triggers completes. */
  lemma LoadKeepsConsistent<T(!new)>(pages: seq<Page<T>>, known: set<T>, maxPages: int, page: Page<T>)
    requires CacheConsistent(pages, known, maxPages)
    ensures
      var drift := Drifts(page.content, known);
      var appended := (if drift then [] else pages) + [page];
      var known' := (if drift then {} else known) + SeqSet(page.content);
      && (|appended| < maxPages ==> CacheConsistent(appended, known', maxPages))
      && (|appended| >= maxPages ==> CacheConsistent(appended[1..], known' - SeqSet(appended[0].content), maxPages))
  {
    var drift := Drifts(page.content, known);
    var base := if drift then [] else pages;
    var appended := base + [page];
    var baseKnown := if drift then {} else known;
    assert baseKnown == Elements(base);
    ElementsAppend(base, page);
    DisjointAppend(base, page);
    if |appended| >= maxPages {
      ElementsDropFirst(appended);
    }
  }

  /** getEntities(firstRow, total) on a backend holding `rows`: the rows from firstRow on, at most total of them. */
  function Window<T>(rows: seq<T>, firstRow: nat, total: nat): (w: seq<T>)
    ensures |w| <= total
    ensures firstRow < |rows| && total > 0 ==> |w| > 0
    ensures forall k :: 0 <= k < |w| ==> firstRow + k < |rows| && w[k] == rows[firstRow + k]
  {
    if firstRow >= |rows| then []
    else if firstRow + total <= |rows| then rows[firstRow..firstRow + total]
    else rows[firstRow..]
  }

  function NonNegativeProduct(a: int, b: int): (r: nat)
    requires a >= 0 && b >= 0
    ensures r == a * b
  {
    a * b
  }

  /** The first row of the page holding index. */
  function FirstRowOf(index: int, pageSize: int): (r: nat)
    requires index >= 0 && pageSize > 0
    ensures r == index / pageSize * pageSize && r <= index < r + pageSize
  {
    assert index == index / pageSize * pageSize + index % pageSize;
    index / pageSize * pageSize
  }

  lemma WindowAt<T>(rows: seq<T>, firstRow: nat, total: nat, k: int)
    requires 0 <= k < |Window(rows, firstRow, total)|
    ensures firstRow + k < |rows| && Window(rows, firstRow, total)[k] == rows[firstRow + k]
  {
  }

  /** index splits into its page number and its offset in that page. */
  lemma PageSplit(index: int, pageSize: int)
    requires index >= 0 && pageSize > 0
    ensures index / pageSize >= 0 && 0 <= index % pageSize < pageSize
    ensures index == index / pageSize * pageSize + index % pageSize
  {
  }

  /** Page n, fetched as a window of the backend, holds at offset j the backend row
      n * pageSize + j: paging adds no artefacts. */
  lemma WindowPageAt<T>(rows: seq<T>, pageSize: int, n: nat, j: nat)
    requires pageSize > 0 && j < pageSize && n * pageSize + j < |rows|
    ensures PageGet(Page(n, Window(rows, n * pageSize, pageSize)), j) == Some(rows[n * pageSize + j])
  {
    var first := n * pageSize;
    var w := Window(rows, first, pageSize);
    if first + pageSize <= |rows| {
      assert |w| == pageSize;
    } else {
      assert |w| == |rows| - first;
    }
    WindowAt(rows, first, pageSize, j);
  }

  /** A page with number n found in a cache of backend windows, or fetched as one, holds at
      offset j the backend row n * pageSize + j; and a cache grown only by that fetched page
      still holds backend windows. */
  lemma GetAgreesWithBackend<T>(rows: seq<T>, before: seq<Page<T>>, after: seq<Page<T>>, pageSize: int, n: nat, j: nat,
                                page: Page<T>, loaded: Page<T>)
    requires pageSize > 0 && j < pageSize && n * pageSize + j < |rows|
    requires PagesMatch(rows, before, pageSize)
    requires loaded == Page(n, Window(rows, n * pageSize, pageSize))
    requires page.pageNumber == n && (page in before || page == loaded)
      && (forall p :: p in after ==> p in before || p == loaded)
    ensures PageGet(page, j) == Some(rows[n * pageSize + j])
    ensures PagesMatch(rows, after, pageSize)
  {
    SameNumberSameWindow(rows, before, pageSize, n, page, loaded);
    WindowPageAt(rows, pageSize, n, j);
    LoadedKeepsWindows(rows, before, after, pageSize, n, loaded);
  }

  /** In a cache of backend windows, a page with number n is the window for n. */
  lemma SameNumberSameWindow<T>(rows: seq<T>, before: seq<Page<T>>, pageSize: int, n: nat, page: Page<T>, loaded: Page<T>)
    requires pageSize > 0 && PagesMatch(rows, before, pageSize)
    requires loaded == Page(n, Window(rows, n * pageSize, pageSize))
    requires page.pageNumber == n && (page in before || page == loaded)
    ensures page == loaded
  {
  }

  /** Adding the window for page n to a cache of backend windows keeps it one. */
  lemma LoadedKeepsWindows<T>(rows: seq<T>, before: seq<Page<T>>, after: seq<Page<T>>, pageSize: int, n: nat, loaded: Page<T>)
    requires pageSize > 0 && PagesMatch(rows, before, pageSize)
    requires loaded == Page(n, Window(rows, n * pageSize, pageSize))
    requires forall p :: p in after ==> p in before || p == loaded
    ensures PagesMatch(rows, after, pageSize)
  {
  }

  /** The first cached page with the given number (what a working getPage finds). */
  function PageNumbered<T>(pages: seq<Page<T>>, pageNumber: int): (r: Option<Page<T>>)
    ensures r.None? <==> forall p :: p in pages ==> p.pageNumber != pageNumber
    ensures r.Some? ==> r.value in pages && r.value.pageNumber == pageNumber
  {
    if |pages| == 0 then None
    else if pages[0].pageNumber == pageNumber then Some(pages[0])
    else PageNumbered(pages[1..], pageNumber)
  }

  /** Where indexOf finds o among the cached pages: pageNumber * pageSize plus its position in
      the first page (in cache order) holding it. */
  function CachedPosition<T(==)>(pages: seq<Page<T>>, pageSize: int, o: T): (r: Option<int>)
    ensures r.None? <==> forall p :: p in pages ==> o !in p.content
    ensures r.Some? ==> exists k :: (0 <= k < |pages| && o in pages[k].content &&
      r.value == pages[k].pageNumber * pageSize + IndexOf(pages[k].content, o))
  {
    if |pages| == 0 then None
    else if IndexOf(pages[0].content, o) != -1 then
      Some(pages[0].pageNumber * pageSize + IndexOf(pages[0].content, o))
    else
      var r := CachedPosition(pages[1..], pageSize, o);
      if r.Some? then
        var k :| (0 <= k < |pages[1..]| && o in pages[1..][k].content &&
          r.value == pages[1..][k].pageNumber * pageSize + IndexOf(pages[1..][k].content, o));
        assert pages[1..][k] == pages[k + 1];
        r
      else r
  }

  /** Every page holds exactly the backend rows its number stands for. */
  ghost predicate PagesMatch<T>(rows: seq<T>, pages: seq<Page<T>>, pageSize: int)
  {
    forall p :: p in pages ==> p.pageNumber >= 0 && pageSize >= 0 && p.content == Window(rows, p.pageNumber * pageSize, pageSize)
  }

  /** The element List.get hands back, or the exception it throws. */
  function AsOutcome<T>(r: Option<T>): (out: Outcome<T>)
    ensures out.Ok? <==> r.Some?
    ensures r.Some? ==> out.value == r.value
    ensures r.None? ==> out.failure == IndexOutOfBounds
  {
    match r
    case Some(x) => Ok(x)
    case None => Thrown(IndexOutOfBounds)
  }

  /** An entity found in a backend window sits, in the backend, at the window's first row plus
      its position in the window. */
  lemma WindowHit<T>(rows: seq<T>, first: nat, total: nat, o: T)
    requires o in Window(rows, first, total)
    ensures var pos := IndexOf(Window(rows, first, total), o); first + pos < |rows| && rows[first + pos] == o
  {
    WindowAt(rows, first, total, IndexOf(Window(rows, first, total), o));
  }

  /** When every cached page is the backend window for its number, the position indexOf reports
      from the cache is a true backend index of o. */
  lemma {:induction false} CachedPositionIsBackendIndex<T>(rows: seq<T>, pages: seq<Page<T>>, pageSize: int, o: T)
    requires pageSize > 0
    requires PagesMatch(rows, pages, pageSize)
    requires CachedPosition(pages, pageSize, o).Some?
    ensures var v := CachedPosition(pages, pageSize, o).value; 0 <= v < |rows| && rows[v] == o
  {
    var p := pages[0];
    assert p in pages;
    if IndexOf(p.content, o) != -1 {
      var first := NonNegativeProduct(p.pageNumber, pageSize);
      WindowHit(rows, first, pageSize, o);
    } else {
      assert forall q :: q in pages[1..] ==> q in pages;
      CachedPositionIsBackendIndex(rows, pages[1..], pageSize, o);
    }
  }

  /** Java's int division (truncating towards zero). */
  function JavaDiv(a: int, b: int): (q: int)
    requires b > 0
    ensures a >= 0 ==> q == a / b
    ensures a < 0 ==> q <= 0 && q * b - b < a <= q * b
  {
    if a >= 0 then a / b else -((-a) / b)
  }

  /** The largest number of pages the cache can hold after a successful load. */
  function PageBound(maxPages: int): nat
  {
    if maxPages > 0 then maxPages - 1 else 0
  }

  /** The page appended last always sits in the second half of the cache, so balancing never
      takes the "remove last page" branch: the oldest page is evicted. */
  lemma EvictionRemovesOldest(maxPages: int, size: nat)
    requires size >= 1 && size >= maxPages
    ensures !(size - 1 < JavaDiv(maxPages, 2))
  {
  }

  class LazyList<T(==,!new)> {
    const pageSize: int
    const maxPages: int
    /** pageOrderedProvider != null */
    const ordered: bool

    /** Declared -1 and never assigned. */
    var pageIndex: int
    var cachedPages: seq<Page<T>>
    var cachedElements: set<T>
    var cachedSize: Option<int>
    /** The WeakHashMap reverse index; None while it has not been created. */
    var indexCache: Option<map<T, int>>
    var propertyNames: Option<seq<string>>
    var order: Option<seq<Order>>
    var listeners: seq<nat>

    /** Log of listener notifications and of provider calls. */
    var notified: seq<nat>
    var fetches: seq<FetchCall>
    var countCalls: nat

    ghost predicate Valid()
      reads this
    {
      && pageSize > 0
      && pageIndex == -1
      && (forall p :: p in cachedPages ==> p.pageNumber >= 0)
      && countCalls == (if cachedSize.Some? then 1 else 0)
      && (cachedSize.Some? ==> cachedSize.value >= 0)
    }

    /** The known-entities set is exactly the entities of the cached pages, no entity sits in
        two pages, and the page count is within bound. */
    ghost predicate Consistent()
      reads this
    {
      CacheConsistent(cachedPages, cachedElements, maxPages)
    }

    constructor (pageSize: int, maxPages: int, ordered: bool)
      requires pageSize > 0
      ensures Valid() && Consistent()
      ensures this.pageSize == pageSize && this.maxPages == maxPages && this.ordered == ordered
      ensures cachedPages == [] && cachedElements == {} && cachedSize == None && indexCache == None
      ensures propertyNames == None && order == None && listeners == []
      ensures notified == [] && fetches == [] && countCalls == 0
    {
      this.pageSize := pageSize;
      this.maxPages := maxPages;
      this.ordered := ordered;
      pageIndex := -1;
      cachedPages := [];
      cachedElements := {};
      cachedSize := None;
      indexCache := None;
      propertyNames := None;
      order := None;
      listeners := [];
      notified := [];
      fetches := [];
      countCalls := 0;
    }

    /** The call findEntities makes for a page starting at firstRow. */
    function FetchFor(firstRow: int): FetchCall
      reads this
    {
      if ordered then OrderedFetch(firstRow, pageSize, propertyNames, order) else Fetch(firstRow, pageSize)
    }

    /** size(): the count provider is asked only while no count is memoised. */
    method Size(countReply: nat) returns (n: int)
      requires Valid()
      modifies this`cachedSize, this`countCalls
      ensures Valid()
      ensures old(cachedSize).Some? ==> n == old(cachedSize).value && countCalls == old(countCalls)
      ensures old(cachedSize).None? ==> n == countReply && countCalls == old(countCalls) + 1
      ensures cachedSize == Some(n) && countCalls <= 1
    {
      if cachedSize.None? {
        cachedSize := Some(countReply);
        countCalls := countCalls + 1;
      }
      n := cachedSize.value;
    }

    /** clearCache: pages, known entities and reverse index are emptied; the memoised size is kept. */
    method ClearCache()
      requires Valid()
      modifies this`cachedPages, this`cachedElements, this`indexCache
      ensures Valid() && Consistent()
      ensures cachedPages == [] && cachedElements == {}
      ensures indexCache == if old(indexCache).Some? then Some(map[]) else None
    {
      cachedPages := [];
      cachedElements := {};
      if indexCache.Some? {
        indexCache := Some(map[]);
      }
    }

    method AddListener(listener: nat)
      modifies this`listeners
      ensures listeners == old(listeners) + [listener]
    {
      listeners := listeners + [listener];
    }

    /** List.remove(Object): the first registration of the listener goes. */
    method RemoveListener(listener: nat)
      modifies this`listeners
      ensures listeners == RemoveFirst(old(listeners), listener)
    {
      listeners := RemoveFirst(listeners, listener);
    }

    /** fireLazyListChangedListeners: every registered listener is called, in order. */
    method FireChanged()
      modifies this`notified
      ensures notified == old(notified) + listeners
    {
      var delivered := notified;
      for k := 0 to |listeners|
        invariant delivered == notified + listeners[..k]
      {
        delivered := delivered + [listeners[k]];
      }
      notified := delivered;
    }

    /** findEntities: fetch the page, check it against the known entities (any overlap means the
        backend drifted: clear the cache and notify once), then register the fetched entities. */
    method FindEntities(firstRow: int, fetched: seq<T>) returns (page: seq<T>)
      requires Valid()
      modifies this`fetches, this`cachedPages, this`cachedElements, this`indexCache, this`notified
      ensures Valid() && page == fetched
      ensures fetches == old(fetches) + [old(FetchFor(firstRow))]
      ensures
        var drift := Drifts(fetched, old(cachedElements));
        && (drift ==> cachedPages == [] && cachedElements == SeqSet(fetched)
                      && indexCache == (if old(indexCache).Some? then Some(map[]) else None)
                      && notified == old(notified) + listeners)
        && (!drift ==> cachedPages == old(cachedPages) && cachedElements == old(cachedElements) + SeqSet(fetched)
                       && indexCache == old(indexCache) && notified == old(notified))
    {
      fetches := fetches + [FetchFor(firstRow)];
      page := fetched;
      CheckDrift(page);
      RegisterEntities(page);
    }

    /** The drift check of findEntities: an entity of the page that is already known means the
        backend has changed, so the cache is cleared and the listeners told. Once the cache is
        cleared nothing is known, so this happens at most once per page. */
    method CheckDrift(page: seq<T>)
      requires Valid()
      modifies this`cachedPages, this`cachedElements, this`indexCache, this`notified
      ensures Valid()
      ensures
        var drift := Drifts(page, old(cachedElements));
        && (drift ==> cachedPages == [] && cachedElements == {}
                      && indexCache == (if old(indexCache).Some? then Some(map[]) else None)
                      && notified == old(notified) + listeners)
        && (!drift ==> cachedPages == old(cachedPages) && cachedElements == old(cachedElements)
                       && indexCache == old(indexCache) && notified == old(notified))
    {
      ghost var known := cachedElements;
      for k := 0 to |page|
        invariant Valid()
        invariant
          var hit := exists j :: 0 <= j < k && page[j] in known;
          && (hit ==> cachedPages == [] && cachedElements == {}
                      && indexCache == (if old(indexCache).Some? then Some(map[]) else None)
                      && notified == old(notified) + listeners)
          && (!hit ==> cachedPages == old(cachedPages) && cachedElements == known
                       && indexCache == old(indexCache) && notified == old(notified))
      {
        if page[k] in cachedElements {
          ClearCache();
          FireChanged();
        }
      }
    }

    /** The registration loop of findEntities: every entity of the page becomes known. */
    method RegisterEntities(page: seq<T>)
      modifies this`cachedElements
      ensures cachedElements == old(cachedElements) + SeqSet(page)
    {
      var known := cachedElements;
      for k := 0 to |page|
        invariant known == cachedElements + SeqSet(page[..k])
      {
        known := known + {page[k]};
        assert page[..k + 1] == page[..k] + [page[k]];
      }
      assert page[..|page|] == page;
      cachedElements := known;
    }

    /** removeCachedElements: each entity of the page leaves the known entities and then the
        reverse index. While the reverse index has not been created (indexOf never called) the
        second step dereferences null: the first entity has already left the known set and the
        call ends with a NullPointerException. ok is false exactly then. */
    method RemoveCachedElements(page: Page<T>) returns (ok: bool)
      modifies this`cachedElements, this`indexCache
      ensures ok <==> old(indexCache).Some? || |page.content| == 0
      ensures old(indexCache).Some? ==>
        cachedElements == old(cachedElements) - SeqSet(page.content)
        && indexCache == Some(old(indexCache).value - SeqSet(page.content))
      ensures old(indexCache).None? ==>
        && indexCache == None
        && cachedElements == if |page.content| == 0 then old(cachedElements) else old(cachedElements) - {page.content[0]}
    {
      if indexCache.Some? {
        assert SeqSet(page.content[..0]) == {};
        assert indexCache.value - {} == indexCache.value;
      }
      for k := 0 to |page.content|
        invariant old(indexCache).None? ==> indexCache == None && k == 0 && cachedElements == old(cachedElements)
        invariant old(indexCache).Some? ==>
          cachedElements == old(cachedElements) - SeqSet(page.content[..k])
          && indexCache == Some(old(indexCache).value - SeqSet(page.content[..k]))
      {
        var element := page.content[k];
        cachedElements := cachedElements - {element};
        if indexCache.None? {
          return false;
        }
        ghost var removedSoFar := SeqSet(page.content[..k]);
        assert page.content[..k + 1] == page.content[..k] + [element];
        assert SeqSet(page.content[..k + 1]) == removedSoFar + {element};
        assert (old(indexCache).value - removedSoFar) - {element} == old(indexCache).value - (removedSoFar + {element});
        indexCache := Some(indexCache.value - {element});
      }
      assert page.content[..|page.content|] == page.content;
      ok := true;
    }

    /** balanceCachePages: evict the last page when the new page sits in the first half of the
        cache, otherwise the first page. ok is false when removeCachedElements failed, in which
        case the page stays although its first entity is no longer known. */
    method BalanceCachePages(index: int) returns (ok: bool)
      requires |cachedPages| > 0
      modifies this`cachedPages, this`cachedElements, this`indexCache
      ensures ok <==> old(indexCache).Some? || |old(EvictedPage(index)).content| == 0
      ensures ok ==> cachedPages == old(PagesAfterEviction(index))
      ensures !ok ==> cachedPages == old(cachedPages)
      ensures
        var victim := old(EvictedPage(index)).content;
        && (old(indexCache).Some? ==>
              cachedElements == old(cachedElements) - SeqSet(victim)
              && indexCache == Some(old(indexCache).value - SeqSet(victim)))
        && (old(indexCache).None? ==>
              && indexCache == None
              && cachedElements == if |victim| == 0 then old(cachedElements) else old(cachedElements) - {victim[0]})
    {
      var victim := EvictedPage(index);
      ok := RemoveCachedElements(victim);
      if ok {
        cachedPages := PagesAfterEviction(index);
      }
    }

    /** The page balanceCachePages picks for the new page's position in the cache. */
    function EvictedPage(index: int): Page<T>
      requires |cachedPages| > 0
      reads this
    {
      if index < JavaDiv(maxPages, 2) then cachedPages[|cachedPages| - 1] else cachedPages[0]
    }

    function PagesAfterEviction(index: int): seq<Page<T>>
      requires |cachedPages| > 0
      reads this
    {
      if index < JavaDiv(maxPages, 2) then cachedPages[..|cachedPages| - 1] else cachedPages[1..]
    }

    /** The first half of loadPage: the page is fetched (with the drift check) and appended. */
    method AppendFetchedPage(pageNumber: int, fetched: seq<T>)
      requires Valid() && pageNumber >= 0
      modifies this`fetches, this`cachedPages, this`cachedElements, this`indexCache, this`notified
      ensures Valid()
      ensures fetches == old(fetches) + [old(FetchFor(pageNumber * pageSize))]
      ensures
        var drift := Drifts(fetched, old(cachedElements));
        && cachedPages == (if drift then [] else old(cachedPages)) + [Page(pageNumber, fetched)]
        && cachedElements == (if drift then {} else old(cachedElements)) + SeqSet(fetched)
        && indexCache == (if drift && old(indexCache).Some? then Some(map[]) else old(indexCache))
        && notified == old(notified) + (if drift then listeners else [])
    {
      var content := FindEntities(pageNumber * pageSize, fetched);
      cachedPages := cachedPages + [Page(pageNumber, content)];
    }

    /** loadPage: fetch the page, append it, and balance the cache when it has reached maxPages.
        It returns null. A NullPointerException escapes from the eviction while the reverse index
        does not exist. */
    method LoadPage(pageNumber: int, fetched: seq<T>) returns (out: Outcome<Option<Page<T>>>)
      requires Valid() && pageNumber >= 0
      modifies this`fetches, this`cachedPages, this`cachedElements, this`indexCache, this`notified
      ensures Valid()
      ensures fetches == old(fetches) + [old(FetchFor(pageNumber * pageSize))]
      ensures out == Ok(None) || out == Thrown(NullPointer)
      ensures
        var drift := Drifts(fetched, old(cachedElements));
        var appended := (if drift then [] else old(cachedPages)) + [Page(pageNumber, fetched)];
        && notified == old(notified) + (if drift then listeners else [])
        && (|appended| < maxPages ==> out.Ok? && cachedPages == appended)
        && (|appended| >= maxPages && out.Ok? ==> cachedPages == appended[1..])
        && (out.Thrown? <==> |appended| >= maxPages && old(indexCache).None? && appended[0].content != [])
        && (out.Thrown? ==> cachedPages == appended)
      ensures
        var drift := Drifts(fetched, old(cachedElements));
        var appended := (if drift then [] else old(cachedPages)) + [Page(pageNumber, fetched)];
        var known := (if drift then {} else old(cachedElements)) + SeqSet(fetched);
        var reverse := if drift && old(indexCache).Some? then Some(map[]) else old(indexCache);
        var victim := appended[0].content;
        && (|appended| < maxPages ==> cachedElements == known && indexCache == reverse)
        && (|appended| >= maxPages && reverse.Some? ==>
              cachedElements == known - SeqSet(victim) && indexCache == Some(reverse.value - SeqSet(victim)))
        && (|appended| >= maxPages && reverse.None? ==>
              && indexCache == None
              && cachedElements == if |victim| == 0 then known else known - {victim[0]})
      ensures old(Consistent()) && out.Ok? ==> Consistent()
      ensures indexCache.Some? <==> old(indexCache).Some?
    {
      if Consistent() {
        LoadKeepsConsistent(cachedPages, cachedElements, maxPages, Page(pageNumber, fetched));
      }
      AppendFetchedPage(pageNumber, fetched);
      out := Ok(None);
      if |cachedPages| >= maxPages {
        // cachedPages.indexOf(newPage) finds the page object just appended: pages compare by reference.
        var index := |cachedPages| - 1;
        EvictionRemovesOldest(maxPages, |cachedPages|);
        var ok := BalanceCachePages(index);
        if !ok {
          out := Thrown(NullPointer);
        }
      }
    }

    /** getPage: looks for a cached page whose number equals the field pageIndex, not the
        requested number; as pageIndex stays -1 and page numbers are never negative, it never
        finds one. */
    method GetPage(pageNumberForRequest: int) returns (r: Option<Page<T>>)
      ensures r.Some? ==> r.value in cachedPages && r.value.pageNumber == pageIndex
      ensures r.None? <==> forall p :: p in cachedPages ==> p.pageNumber != pageIndex
      ensures Valid() ==> r == None
    {
      for k := 0 to |cachedPages|
        invariant forall j :: 0 <= j < k ==> cachedPages[j].pageNumber != pageIndex
      {
        if cachedPages[k].pageNumber == pageIndex {
          return Some(cachedPages[k]);
        }
      }
      return None;
    }

    /** get(index): out of range is IndexOutOfBoundsException; in range the page lookup never
        hits, loadPage fetches, appends and balances, and the null it returns is dereferenced. */
    method Get(index: int, countReply: nat, fetched: seq<T>) returns (out: Outcome<T>)
      requires Valid()
      modifies this`cachedSize, this`countCalls, this`fetches, this`cachedPages, this`cachedElements
      modifies this`indexCache, this`notified
      ensures Valid()
      ensures index < 0 ==> cachedSize == old(cachedSize) && countCalls == old(countCalls)
      ensures index >= 0 ==> cachedSize == if old(cachedSize).Some? then old(cachedSize) else Some(countReply)
      ensures !(0 <= index && cachedSize.Some? && index < cachedSize.value) ==>
        && out == Thrown(IndexOutOfBounds)
        && fetches == old(fetches) && cachedPages == old(cachedPages)
        && cachedElements == old(cachedElements) && notified == old(notified) && indexCache == old(indexCache)
      ensures 0 <= index && cachedSize.Some? && index < cachedSize.value ==>
        && out == Thrown(NullPointer)
        && fetches == old(fetches) + [old(FetchFor(index / pageSize * pageSize))]
      ensures old(Consistent()) && old(indexCache).Some? ==> Consistent()
      ensures old(indexCache).Some? ==> indexCache.Some?
    {
      // The range test short-circuits: size() is not asked for a negative index.
      if index < 0 {
        return Thrown(IndexOutOfBounds);
      }
      var size := Size(countReply);
      if index >= size {
        return Thrown(IndexOutOfBounds);
      }
      var pageNumber := index / pageSize;
      var indexOnPage := index % pageSize;
      var page := GetPage(pageNumber);
      if page.None? {
        var loaded := LoadPage(pageNumber, fetched);
        if loaded.Thrown? {
          return Thrown(loaded.failure);
        }
        page := loaded.value;
      }
      match page {
        case None =>
          out := Thrown(NullPointer);
        case Some(p) =>
          out := match PageGet(p, indexOnPage) {
            case Some(x) => Ok(x)
            case None => Thrown(IndexOutOfBounds)
          };
      }
    }

    /** The cache half of indexOf: the reverse index is created on first use; the answer comes
        from it, or else from the first cached page holding o, and is then memoised. */
    method CachedIndexOf(o: T) returns (r: Option<int>)
      modifies this`indexCache
      ensures indexCache.Some?
      ensures
        var memo := if old(indexCache).Some? then old(indexCache).value else map[];
        var found := CachedPosition(cachedPages, pageSize, o);
        && (o in memo ==> r == Some(memo[o]) && indexCache == Some(memo))
        && (o !in memo && found.Some? ==> r == found && indexCache == Some(memo[o := found.value]))
        && (o !in memo && found.None? ==> r == None && indexCache == Some(memo))
    {
      if indexCache.None? {
        indexCache := Some(map[]);
      }
      if o in indexCache.value {
        return Some(indexCache.value[o]);
      }
      for k := 0 to |cachedPages|
        invariant CachedPosition(cachedPages, pageSize, o) == CachedPosition(cachedPages[k..], pageSize, o)
      {
        assert cachedPages[k..][1..] == cachedPages[k + 1..];
        var indexInPage := Common.IndexOf(cachedPages[k].content, o);
        if indexInPage != -1 {
          var v := cachedPages[k].pageNumber * pageSize + indexInPage;
          indexCache := Some(indexCache.value[o := v]);
          return Some(v);
        }
      }
      assert cachedPages[|cachedPages|..] == [];
      return None;
    }

    /** indexOf: the cached answer when there is one; otherwise AbstractList.indexOf walks the
        list with get(0), get(1), ... */
    method IndexOf(o: T, countReply: nat, fetched: seq<T>) returns (out: Outcome<int>)
      requires Valid()
      modifies this`cachedSize, this`countCalls, this`fetches, this`cachedPages, this`cachedElements
      modifies this`indexCache, this`notified
      ensures Valid() && indexCache.Some?
      ensures
        var memo := if old(indexCache).Some? then old(indexCache).value else map[];
        var found := old(CachedPosition(cachedPages, pageSize, o));
        && (o in memo ==>
              out == Ok(memo[o]) && indexCache == Some(memo)
              && fetches == old(fetches) && cachedPages == old(cachedPages) && cachedSize == old(cachedSize))
        && (o !in memo && found.Some? ==>
              out == Ok(found.value) && indexCache == Some(memo[o := found.value])
              && fetches == old(fetches) && cachedPages == old(cachedPages) && cachedSize == old(cachedSize))
        && (o in memo || found.Some? ==> cachedElements == old(cachedElements) && notified == old(notified))
        && (o !in memo && found.None? ==>
              && cachedSize == (if old(cachedSize).Some? then old(cachedSize) else Some(countReply))
              && out == (if cachedSize.value == 0 then Ok(-1) else Thrown(NullPointer))
              && fetches == old(fetches) + (if cachedSize.value == 0 then [] else [old(FetchFor(0))]))
    {
      var cached := CachedIndexOf(o);
      if cached.Some? {
        return Ok(cached.value);
      }
      var size := Size(countReply);
      if size == 0 {
        return Ok(-1);
      }
      var first := Get(0, countReply, fetched);
      out := Thrown(first.failure);
    }

    /** contains: true when a cached page holds o; otherwise AbstractCollection.contains walks
        the list through iterator(), whose first next() is get(0). */
    method Contains(o: T, countReply: nat, fetched: seq<T>) returns (out: Outcome<bool>)
      requires Valid()
      modifies this`cachedSize, this`countCalls, this`fetches, this`cachedPages, this`cachedElements
      modifies this`indexCache, this`notified
      ensures Valid()
      ensures (exists p :: p in old(cachedPages) && o in p.content) ==>
        out == Ok(true) && fetches == old(fetches) && cachedPages == old(cachedPages) && cachedSize == old(cachedSize)
        && cachedElements == old(cachedElements) && notified == old(notified) && indexCache == old(indexCache)
      ensures (forall p :: p in old(cachedPages) ==> o !in p.content) ==>
        && cachedSize == (if old(cachedSize).Some? then old(cachedSize) else Some(countReply))
        && out == (if cachedSize.value == 0 then Ok(false) else Thrown(NullPointer))
        && fetches == old(fetches) + (if cachedSize.value == 0 then [] else [old(FetchFor(0))])
    {
      for k := 0 to |cachedPages|
        invariant forall j :: 0 <= j < k ==> o !in cachedPages[j].content
      {
        if o in cachedPages[k].content {
          return Ok(true);
        }
      }
      var size := Size(countReply);
      if size == 0 {
        return Ok(false);
      }
      var first := Get(0, countReply, fetched);
      out := Thrown(first.failure);
    }

    /** sort: records the ordering for later fetches; with an ordered provider the cache is
        dropped and the listeners told, since every page may now hold other rows. */
    method Sort(names: seq<string>, ord: seq<Order>)
      requires Valid()
      modifies this`propertyNames, this`order, this`cachedPages, this`cachedElements, this`indexCache, this`notified
      ensures Valid()
      ensures propertyNames == Some(names) && order == Some(ord)
      ensures ordered ==> forall r :: FetchFor(r) == OrderedFetch(r, pageSize, Some(names), Some(ord))
      ensures ordered ==>
        && cachedPages == [] && cachedElements == {} && notified == old(notified) + listeners
        && indexCache == (if old(indexCache).Some? then Some(map[]) else None)
      ensures !ordered ==>
        cachedPages == old(cachedPages) && cachedElements == old(cachedElements)
        && indexCache == old(indexCache) && notified == old(notified)
    {
      propertyNames := Some(names);
      order := Some(ord);
      if ordered {
        ClearCache();
        FireChanged();
      }
    }

    /** The cached pages hold the backend rows their numbers stand for. */
    ghost predicate PagesAreWindows(rows: seq<T>)
      reads this
    {
      PagesMatch(rows, cachedPages, pageSize)
    }

    /** getPage as evidently intended: the first cached page with the requested number. */
    method FindPage(pageNumber: int) returns (r: Option<Page<T>>)
      ensures r == PageNumbered(cachedPages, pageNumber)
    {
      for k := 0 to |cachedPages|
        invariant PageNumbered(cachedPages, pageNumber) == PageNumbered(cachedPages[k..], pageNumber)
      {
        assert cachedPages[k..][1..] == cachedPages[k + 1..];
        if cachedPages[k].pageNumber == pageNumber {
          return Some(cachedPages[k]);
        }
      }
      assert cachedPages[|cachedPages|..] == [];
      return None;
    }

    /** removeCachedElements with the null check clearCache already makes on the reverse index. */
    method RemoveCachedElementsGuarded(page: Page<T>)
      modifies this`cachedElements, this`indexCache
      ensures cachedElements == old(cachedElements) - SeqSet(page.content)
      ensures indexCache == if old(indexCache).Some? then Some(old(indexCache).value - SeqSet(page.content)) else None
    {
      assert SeqSet(page.content[..0]) == {};
      if indexCache.Some? {
        assert indexCache.value - {} == indexCache.value;
      }
      for k := 0 to |page.content|
        invariant cachedElements == old(cachedElements) - SeqSet(page.content[..k])
        invariant indexCache == if old(indexCache).Some? then Some(old(indexCache).value - SeqSet(page.content[..k])) else None
      {
        var element := page.content[k];
        ghost var removedSoFar := SeqSet(page.content[..k]);
        assert page.content[..k + 1] == page.content[..k] + [element];
        assert SeqSet(page.content[..k + 1]) == removedSoFar + {element};
        cachedElements := cachedElements - {element};
        if indexCache.Some? {
          assert (old(indexCache).value - removedSoFar) - {element} == old(indexCache).value - (removedSoFar + {element});
          indexCache := Some(indexCache.value - {element});
        }
      }
      assert page.content[..|page.content|] == page.content;
    }

    /** loadPage as evidently intended: the eviction cannot fail and the new page is returned. */
    method LoadPageFixed(pageNumber: int, fetched: seq<T>) returns (page: Page<T>)
      requires Valid() && Consistent() && pageNumber >= 0
      modifies this`fetches, this`cachedPages, this`cachedElements, this`indexCache, this`notified
      ensures Valid() && Consistent()
      ensures page == Page(pageNumber, fetched)
      ensures fetches == old(fetches) + [old(FetchFor(pageNumber * pageSize))]
      ensures forall p :: p in cachedPages ==> p in old(cachedPages) || p == page
      ensures maxPages >= 2 ==> page in cachedPages
    {
      page := Page(pageNumber, fetched);
      LoadKeepsConsistent(cachedPages, cachedElements, maxPages, page);
      ghost var before := cachedPages;
      AppendFetchedPage(pageNumber, fetched);
      assert forall p :: p in cachedPages ==> p in before || p == page;
      if |cachedPages| >= maxPages {
        var index := |cachedPages| - 1;
        EvictionRemovesOldest(maxPages, |cachedPages|);
        RemoveCachedElementsGuarded(EvictedPage(index));
        assert cachedPages[|cachedPages| - 1] == page;
        cachedPages := PagesAfterEviction(index);
      }
    }

    /** The page get works on: the cached page with that number, or else the freshly loaded one. */
    method PageFor(pageNumber: int, fetched: seq<T>) returns (page: Page<T>)
      requires Valid() && Consistent() && pageNumber >= 0
      modifies this`fetches, this`cachedPages, this`cachedElements, this`indexCache, this`notified
      ensures Valid() && Consistent()
      ensures old(PageNumbered(cachedPages, pageNumber)).Some? ==>
        page == old(PageNumbered(cachedPages, pageNumber)).value
        && fetches == old(fetches) && cachedPages == old(cachedPages)
      ensures old(PageNumbered(cachedPages, pageNumber)).None? ==>
        page == Page(pageNumber, fetched)
        && fetches == old(fetches) + [old(FetchFor(pageNumber * pageSize))]
      ensures page.pageNumber == pageNumber && (page in old(cachedPages) || page == Page(pageNumber, fetched))
      ensures forall p :: p in cachedPages ==> p in old(cachedPages) || p == Page(pageNumber, fetched)
    {
      var found := FindPage(pageNumber);
      if found.Some? {
        page := found.value;
      } else {
        page := LoadPageFixed(pageNumber, fetched);
      }
    }

    /** get as evidently intended: a cached page with the requested number is used, otherwise
        the page is loaded; either way the element at index % pageSize of that page is returned.
        When the cache and the reply are windows of the backend rows, that is the row at index. */
    method GetFixed(index: int, countReply: nat, fetched: seq<T>, ghost rows: seq<T>) returns (out: Outcome<T>)
      requires Valid() && Consistent()
      modifies this`cachedSize, this`countCalls, this`fetches, this`cachedPages, this`cachedElements
      modifies this`indexCache, this`notified
      ensures Valid() && Consistent()
      ensures index < 0 ==> cachedSize == old(cachedSize) && countCalls == old(countCalls)
      ensures index >= 0 ==> cachedSize == if old(cachedSize).Some? then old(cachedSize) else Some(countReply)
      ensures !(0 <= index && cachedSize.Some? && index < cachedSize.value) ==>
        out == Thrown(IndexOutOfBounds) && fetches == old(fetches) && cachedPages == old(cachedPages)
      ensures 0 <= index && cachedSize.Some? && index < cachedSize.value ==>
        var hit := old(PageNumbered(cachedPages, index / pageSize));
        && (hit.Some? ==>
              out == AsOutcome(PageGet(hit.value, index % pageSize))
              && fetches == old(fetches) && cachedPages == old(cachedPages))
        && (hit.None? ==>
              out == AsOutcome(PageGet(Page(index / pageSize, fetched), index % pageSize))
              && fetches == old(fetches) + [old(FetchFor(index / pageSize * pageSize))])
      ensures 0 <= index < |rows| && cachedSize == Some(|rows|) && old(PagesAreWindows(rows))
              && fetched == Window(rows, FirstRowOf(index, pageSize), pageSize) ==>
        out == Ok(rows[index]) && PagesAreWindows(rows)
      ensures forall p :: p in cachedPages ==> p in old(cachedPages) || p == Page(index / pageSize, fetched)
    {
      if index < 0 {
        return Thrown(IndexOutOfBounds);
      }
      var size := Size(countReply);
      if index >= size {
        return Thrown(IndexOutOfBounds);
      }
      var pageNumber := index / pageSize;
      var indexOnPage := index % pageSize;
      PageSplit(index, pageSize);
      ghost var before := cachedPages;
      var page := PageFor(pageNumber, fetched);
      out := AsOutcome(PageGet(page, indexOnPage));
      if index < |rows| && PagesMatch(rows, before, pageSize) && fetched == Window(rows, FirstRowOf(index, pageSize), pageSize) {
        GetAgreesWithBackend(rows, before, cachedPages, pageSize, pageNumber, indexOnPage, page, Page(pageNumber, fetched));
      }
    }
  }

  /** iterator(): a cursor over the list whose size is read once, when the iterator is made;
      next() moves the cursor on and calls get. */
  class LazyListIterator<T(==,!new)> {
    const list: LazyList<T>
    const size: int
    var index: int

    ghost predicate Valid()
      reads this, list
    {
      list.Valid() && list.cachedSize == Some(size) && index >= -1
    }

    constructor (list: LazyList<T>, countReply: nat)
      requires list.Valid()
      modifies list`cachedSize, list`countCalls
      ensures Valid() && this.list == list && index == -1
      ensures list.cachedSize == if old(list.cachedSize).Some? then old(list.cachedSize) else Some(countReply)
      ensures list.cachedSize == Some(size)
    {
      var n := list.Size(countReply);
      this.list := list;
      size := n;
      index := -1;
    }

    /** hasNext: the cursor's next position is one get accepts, judged by the size captured
        when the iterator was made. */
    function HasNext(): (b: bool)
      reads this, list
      ensures Valid() ==> (b <==> 0 <= index + 1 < list.cachedSize.value)
    {
      index + 1 < size
    }

    method Next(fetched: seq<T>) returns (out: Outcome<T>)
      requires Valid()
      modifies this`index, list`cachedSize, list`countCalls, list`fetches, list`cachedPages
      modifies list`cachedElements, list`indexCache, list`notified
      ensures Valid() && index == old(index) + 1
      ensures old(HasNext()) ==>
        out == Thrown(NullPointer) && list.fetches == old(list.fetches) + [old(list.FetchFor((index + 1) / list.pageSize * list.pageSize))]
      ensures !old(HasNext()) ==> out == Thrown(IndexOutOfBounds) && list.fetches == old(list.fetches)
    {
      index := index + 1;
      out := list.Get(index, 0, fetched);
    }
  }

  /** With the code as written, reading the first element of a six-row list fails. */
  method GetNeverReturnsAnElement() returns (out: Outcome<int>)
    ensures out == Thrown(NullPointer)
  {
    var list := new LazyList<int>(2, 2, false);
    out := list.Get(0, 6, [10, 11]);
  }

  /** With the code as written and indexOf never called, the second page load reaches maxPages,
      the eviction fails and both pages stay: the cache holds more than maxPages - 1 pages, and
      the entity of the page that should have gone is cached but no longer known. */
  method EvictionWithoutReverseIndex() returns (first: Outcome<Option<Page<int>>>, second: Outcome<Option<Page<int>>>, pages: nat, known: set<int>)
    ensures first == Ok(None) && second == Thrown(NullPointer)
    ensures pages == 2 && pages > PageBound(2)
    ensures known == {11} && 10 !in known
  {
    var list := new LazyList<int>(1, 2, false);
    first := list.LoadPage(0, [10]);
    assert list.cachedPages == [Page(0, [10])];
    assert list.cachedElements == Elements([Page(0, [10])]);
    assert 11 !in list.cachedElements;
    second := list.LoadPage(1, [11]);
    pages := |list.cachedPages|;
    known := list.cachedElements;
  }

  /** The corrected get reads a six-row backend two rows at a time, keeping at most one page. */
  method SequentialReadsFixed() returns (a: Outcome<int>, b: Outcome<int>, c: Outcome<int>, pages: nat, fetches: nat)
    ensures a == Ok(10) && b == Ok(12) && c == Ok(14)
    ensures pages <= 1
    ensures fetches == 3
  {
    ghost var rows := [10, 11, 12, 13, 14, 15];
    var list := new LazyList<int>(2, 2, false);
    assert Window(rows, FirstRowOf(0, 2), 2) == [10, 11];
    a := list.GetFixed(0, 6, [10, 11], rows);
    assert Window(rows, FirstRowOf(2, 2), 2) == [12, 13];
    b := list.GetFixed(2, 6, [12, 13], rows);
    assert Window(rows, FirstRowOf(4, 2), 2) == [14, 15];
    c := list.GetFixed(4, 6, [14, 15], rows);
    pages := |list.cachedPages|;
    fetches := |list.fetches|;
  }
}
