# StorableObjectPersistenceManager collections, modelled in Dafny

This project models the in-memory collection layer of the StorableObjectPersistenceManager
library, and the identity rule those collections rely on:

- **LazyListPage** (`lazy_list_page.dfy`) is an immutable page of fetched rows.
- **LazyList** (`lazy_list.dfy`) is a read-only virtual list over a paged backend. It has:
  - a page cache bounded by `maxPages`;
  - a known-entities set for drift detection;
  - a memoised count;
  - a reverse index, and change listeners.
- **EditableLazyList** (`editable_lazy_list.dfy`) adds an uncommitted overlay of added, updated
  and removed entities, and merges it into reads with the provider's `compare`.
- **ContainerList** (`container_list.dfy`) is an eager list. It tracks its changes in three
  insertion-ordered sets and a key-to-element map (the codex), and flushes them with `commit`.
- **ReflectionComparator** (`reflection_comparator.dfy`) is a lexicographic comparator over
  runtime-chosen properties, each ascending or descending.
- **BaseStorableObject** (`storable_object.dfy`): equality and hashing keyed on
  `comparationId`, and the timestamp setters that truncate to the second.

`common.dfy` holds the list helpers the collections share. These model `ArrayList.indexOf`,
`List.remove(Object)`, and `LinkedHashSet` add and remove, kept in insertion order.

Classes whose Java fields change in place are Dafny classes whose methods modify those fields.
Providers are not called. Instead:
- their replies are method parameters (`countReply`, `fetched`, the constructor's `rows`);
- the calls made are recorded in log fields (`fetches`, `countCalls`, `calls`);
- listener callbacks are recorded as the list of listener ids notified;
- the clock and the UUID generator are parameters (`now`, `freshId`).

Java `equals`, as the collections use it, is value equality on the element type.
`BaseStorableObject` makes it mean "same `comparationId`", and that rule is modelled and proved
separately in `StorableObjects`.

Where the code's behaviour is easy to misread, the model follows the code:
- `size()` stays memoised after `clearCache`.
- A descending key returns exactly -1 or +1, not the negated raw value.
- A page is evicted once the cache *reaches* `maxPages`, so at most `maxPages - 1` pages stay
  cached.
- `sort` clears the cache and notifies listeners only when an ordered provider is present.
- `EditableLazyList.remove` always returns true, and appends even an absent element to the
  removed list.
- `EditableLazyList.update` puts an unknown backend row into the removed list, not into the
  updated list.

The source paths below are relative to the repository root.

## Model

| member | source | states |
|---|---|---|
| StorableObjects.RoundedMilliseconds | src/main/java/com/biit/persistence/entity/BaseStorableObject.java:102-110 | A null date gives 0. Otherwise the result is a whole second, at most the instant and less than one second before it. |
| StorableObjects.RoundedIdempotent | src/main/java/com/biit/persistence/entity/BaseStorableObject.java:89-96 | Rounding a rounded instant changes nothing, so getCreationTime's double rounding is harmless. |
| StorableObjects.RoundedSameSecond | src/main/java/com/biit/persistence/entity/BaseStorableObject.java:102-110 | Two instants in the same second round to the same timestamp. |
| StorableObjects.StorableObject.constructor | src/main/java/com/biit/persistence/entity/BaseStorableObject.java:68-71 | A new object has no id, the generator's fresh comparationId, a creation time of now rounded to the second, and no update time. |
| StorableObjects.StorableObject.Equals | src/main/java/com/biit/persistence/entity/BaseStorableObject.java:162-183 | Reflexive. Never equal to null. Unequal to a distinct object whose class is not the receiver's class or a subclass of it. |
| StorableObjects.StorableObject.HashCode | src/main/java/com/biit/persistence/entity/BaseStorableObject.java:154-160 | Always a 32-bit int; 31 when comparationId is null. Equal objects share it (EqualsImpliesSameHash). |
| StorableObjects.StorableObject.SetCreationTime | src/main/java/com/biit/persistence/entity/BaseStorableObject.java:136-138 | Stores the date rounded to the second (0 for null). No other field changes. |
| StorableObjects.StorableObject.SetUpdateTime | src/main/java/com/biit/persistence/entity/BaseStorableObject.java:140-142 | Stores the date rounded to the second (0 for null). No other field changes. |
| StorableObjects.StorableObject.GetCreationTime | src/main/java/com/biit/persistence/entity/BaseStorableObject.java:89-96 | A set creation time is returned unchanged. A missing one is set to now rounded to the second, and returned. |
| StorableObjects.StorableObject.GetUpdateTime | src/main/java/com/biit/persistence/entity/BaseStorableObject.java:112-119 | A set update time is returned unchanged. A missing one is set to now rounded to the second, and returned. |
| StorableObjects.StorableObject.ResetIds | src/main/java/com/biit/persistence/entity/BaseStorableObject.java:188-191 | The id becomes null and comparationId the fresh one. The timestamps are kept. |
| StorableObjects.EqualsImpliesSameHash | src/main/java/com/biit/persistence/entity/BaseStorableObject.java:154-183 | Equal objects have equal hash codes. |
| StorableObjects.EqualsIffSameComparationId | src/main/java/com/biit/persistence/entity/BaseStorableObject.java:174-182 | Between distinct objects of compatible classes, equality holds exactly when the comparationIds are equal, both null included. |
| StorableObjects.EqualsAsymmetricForSubclass | src/main/java/com/biit/persistence/entity/BaseStorableObject.java:170-172 | With equal comparationIds, a base-class object equals a subclass object but not the other way round. |
| ReflectionComparators.KeyCount | src/main/java/com/biit/persistence/utils/ReflectionComparator.java:53 | The number of keys examined is the shorter of the two arrays' lengths. |
| ReflectionComparators.CompareToIgnoreCaseZeroIff | src/main/java/com/biit/persistence/utils/ReflectionComparator.java:62-66 | Two strings tie exactly when they are equal after case folding. |
| ReflectionComparators.CompareToIgnoreCaseAntisymmetric | src/main/java/com/biit/persistence/utils/ReflectionComparator.java:63 | Swapping the strings negates compareToIgnoreCase. |
| ReflectionComparators.CompareRanks | src/main/java/com/biit/persistence/utils/ReflectionComparator.java:78-79 | A Comparable's compareTo is zero exactly on equal values and negative exactly on smaller ones. |
| ReflectionComparators.Directed | src/main/java/com/biit/persistence/utils/ReflectionComparator.java:67-91 | An ascending key returns the raw result. A descending key returns exactly -1 for a positive raw result and +1 for a negative one. |
| ReflectionComparators.KeyOutcomeOf | src/main/java/com/biit/persistence/utils/ReflectionComparator.java:54-98 | A name with no descriptor is skipped. A key that decides has a non-zero raw result. |
| ReflectionComparators.KeyOutcomeRules | src/main/java/com/biit/persistence/utils/ReflectionComparator.java:59-98 | A read that throws a caught exception, or a first value that is neither String nor Comparable, skips the key. Two strings tie exactly when equal after case folding; two Comparables exactly when equal. A value of the other kind throws ClassCastException. |
| ReflectionComparators.Compare | src/main/java/com/biit/persistence/utils/ReflectionComparator.java:52-102 | compare itself, run over the keys by CompareFrom. Its contract is stated by CompareZeroIff, CompareFirstDecidingKey, PassingKeyIgnored and CompareAntisymmetric. |
| ReflectionComparators.CompareZeroIff | src/main/java/com/biit/persistence/utils/ReflectionComparator.java:53-101 | compare returns 0 exactly when every examined key is skipped or ties. |
| ReflectionComparators.CompareFirstDecidingKey | src/main/java/com/biit/persistence/utils/ReflectionComparator.java:53-93 | The first key that is neither skipped nor tied decides the result, directed by its flag, or the uncaught ClassCastException escapes. |
| ReflectionComparators.PassingKeyIgnored | src/main/java/com/biit/persistence/utils/ReflectionComparator.java:53-101 | A key that is skipped or ties for two entities changes nothing: compare gives the same result with that key taken out. |
| ReflectionComparators.UnknownPropertyIgnored | src/main/java/com/biit/persistence/utils/ReflectionComparator.java:54-57 | A key without a descriptor changes nothing: the comparator behaves as if that key were not there. |
| ReflectionComparators.FailedReadIgnored | src/main/java/com/biit/persistence/utils/ReflectionComparator.java:94-98 | A read that throws is logged and the key skipped: compare gives the same result with that key taken out. |
| ReflectionComparators.CompareAntisymmetric | src/main/java/com/biit/persistence/utils/ReflectionComparator.java:52-102 | When neither direction throws, compare(a, b) and compare(b, a) have opposite signs. |
| ReflectionComparators.NewComparator | src/main/java/com/biit/persistence/utils/ReflectionComparator.java:39-48 | The descriptor map holds exactly the listed names. Each maps to the last descriptor given under that name. |
| ReflectionComparators.NameOrderIgnoresCase | src/main/java/com/biit/persistence/utils/ReflectionComparator.java:62-68 | Ascending by name gives "A" before "b" before "c", and "a" ties with "A". |
| LazyListPages.PageGet | src/main/java/com/biit/persistence/utils/LazyListPage.java:47-49 | Returns content[i] exactly for i in [0, size). Outside that range it fails. |
| LazyListPages.PageCompareTo | src/main/java/com/biit/persistence/utils/LazyListPage.java:42-45 | -1, 0 or 1. It is 0 exactly for equal page numbers and negative exactly for a smaller one. |
| LazyListPages.PageCompareToIsOrder | src/main/java/com/biit/persistence/utils/LazyListPage.java:42-45 | compareTo is antisymmetric and transitive. |
| LazyLists.FirstRowOf | src/main/java/com/biit/persistence/utils/LazyList.java:134-135 | The page start pageNumber * pageSize is at most index, and index is less than one page past it. |
| LazyLists.WindowPageAt | src/main/java/com/biit/persistence/utils/LazyList.java:133-143 | Page n, fetched as the window from row n * pageSize, holds at offset j < pageSize the backend row n * pageSize + j. Paging adds no artefacts. |
| LazyLists.GetAgreesWithBackend | src/main/java/com/biit/persistence/utils/LazyList.java:127-145 | A page with the requested number, whether cached as a backend window or freshly fetched as one, gives the backend row at n * pageSize + j. Caching that page keeps every cached page a backend window. |
| LazyLists.PageNumbered | src/main/java/com/biit/persistence/utils/LazyList.java:170-178 | Finds a cached page with the given number exactly when one exists. |
| LazyLists.CachedPosition | src/main/java/com/biit/persistence/utils/LazyList.java:260-267 | Absent exactly when no cached page holds o. Otherwise it is pageNumber * pageSize plus o's position in a page holding it. |
| LazyLists.CachedPositionIsBackendIndex | src/main/java/com/biit/persistence/utils/LazyList.java:252-267 | When the cached pages are backend windows, the position indexOf reports from them is a true backend index of o. |
| LazyLists.JavaDiv | src/main/java/com/biit/persistence/utils/LazyList.java:160 | Int division truncating towards zero: floor division on a non-negative dividend; for a negative one, the quotient is at most 0 and q·b is the least multiple of b at or above the dividend. |
| LazyLists.EvictionRemovesOldest | src/main/java/com/biit/persistence/utils/LazyList.java:152-166 | The new page always sits in the second half of the cache, so the first (oldest) page is the one evicted. |
| LazyLists.LoadKeepsConsistent | src/main/java/com/biit/persistence/utils/LazyList.java:147-168 | After the drift check, the append and a completed eviction, three things still hold: the known set is exactly the entities of the cached pages, no entity is in two pages, and there are at most maxPages - 1 pages (none when maxPages is not positive). |
| LazyLists.LazyList.constructor | src/main/java/com/biit/persistence/utils/LazyList.java:106-117 | Empty cache, known set and listener list. No count is memoised and no reverse index exists. |
| LazyLists.LazyList.Size | src/main/java/com/biit/persistence/utils/LazyList.java:207-214 | The count provider is asked only while no count is memoised, so it is asked at most once per list. |
| LazyLists.LazyList.ClearCache | src/main/java/com/biit/persistence/utils/LazyList.java:223-229 | Pages and known entities are emptied, and an existing reverse index is cleared. The memoised size is kept. |
| LazyLists.LazyList.AddListener | src/main/java/com/biit/persistence/utils/LazyList.java:231-233 | The listener is appended. |
| LazyLists.LazyList.RemoveListener | src/main/java/com/biit/persistence/utils/LazyList.java:235-237 | The listener's first registration is removed. |
| LazyLists.LazyList.FireChanged | src/main/java/com/biit/persistence/utils/LazyList.java:239-243 | Every registered listener is notified once, in registration order. |
| LazyLists.LazyList.FindEntities | src/main/java/com/biit/persistence/utils/LazyList.java:180-205 | Fetches from the ordered provider exactly when there is one. On drift (some fetched entity already known), the cache is cleared and the listeners are notified exactly once. Afterwards the known set is the old one (or, after drift, empty) plus the fetched entities. |
| LazyLists.LazyList.CheckDrift | src/main/java/com/biit/persistence/utils/LazyList.java:187-197 | When some entity of the page is already known, the cache is cleared and the listeners are notified once. Otherwise nothing changes. |
| LazyLists.LazyList.RegisterEntities | src/main/java/com/biit/persistence/utils/LazyList.java:199-202 | The known set becomes the old one plus every entity of the page. |
| LazyLists.LazyList.RemoveCachedElements | src/main/java/com/biit/persistence/utils/LazyList.java:216-221 | With a reverse index, the page's entities leave both the known set and the index. Without one, the first entity leaves the known set and a NullPointerException follows. |
| LazyLists.LazyList.BalanceCachePages | src/main/java/com/biit/persistence/utils/LazyList.java:159-168 | Evicts the last page when the index is below maxPages / 2 and the first page otherwise. With a reverse index, the page's entities leave the known set and the index. Without one, a non-empty page stays cached but its first entity is no longer known. |
| LazyLists.LazyList.AppendFetchedPage | src/main/java/com/biit/persistence/utils/LazyList.java:147-150 | The fetched page is appended after the drift check. |
| LazyLists.LazyList.LoadPage | src/main/java/com/biit/persistence/utils/LazyList.java:147-157 | Returns null or throws a NullPointerException. It throws exactly when the cache reaches maxPages, no reverse index exists and the page to evict is not empty; the page then stays while its first entity leaves the known set. The known set and the reverse index are given for every outcome. A load that completes keeps the cache consistent. |
| LazyLists.LazyList.GetPage | src/main/java/com/biit/persistence/utils/LazyList.java:170-178 | Matches page numbers against the field pageIndex, not the requested number, so on a valid list it never finds a page. |
| LazyLists.LazyList.Get | src/main/java/com/biit/persistence/utils/LazyList.java:127-145 | A negative index throws IndexOutOfBoundsException without asking for the size. Otherwise the size is read (memoised); at or past it, IndexOutOfBoundsException with nothing fetched. In range: the page is fetched and then a NullPointerException is thrown. |
| LazyLists.LazyList.CachedIndexOf | src/main/java/com/biit/persistence/utils/LazyList.java:252-267 | Creates the reverse index. Returns its entry, or the first cached page's position of o, which is then memoised. |
| LazyLists.LazyList.IndexOf | src/main/java/com/biit/persistence/utils/LazyList.java:252-269 | A cache or index hit is returned with nothing fetched. Otherwise the result is -1 for an empty list with nothing fetched, else get(0) fetches page 0 and throws its NullPointerException. A hit leaves the known set and the notifications unchanged. |
| LazyLists.LazyList.Contains | src/main/java/com/biit/persistence/utils/LazyList.java:271-281 | True when a cached page holds o. A hit changes no state. Otherwise false for an empty list with nothing fetched, else the iterator's first get fetches page 0 and throws its NullPointerException. |
| LazyLists.LazyList.Sort | src/main/java/com/biit/persistence/utils/LazyList.java:308-315 | Stores the keys, which later fetches pass on. With an ordered provider the cache is cleared and the listeners notified; without one nothing else changes. |
| LazyLists.LazyList.FindPage | src/main/java/com/biit/persistence/utils/LazyList.java:170-178 | getPage as intended: the first cached page with the requested number. |
| LazyLists.LazyList.RemoveCachedElementsGuarded | src/main/java/com/biit/persistence/utils/LazyList.java:216-221 | With the null check clearCache makes, the page's entities leave the known set, and the reverse index when there is one. |
| LazyLists.LazyList.LoadPageFixed | src/main/java/com/biit/persistence/utils/LazyList.java:147-157 | Keeps the cache consistent and returns the new page, which stays cached whenever maxPages >= 2. |
| LazyLists.LazyList.PageFor | src/main/java/com/biit/persistence/utils/LazyList.java:137-142 | A cached page with the number is used with nothing fetched. Otherwise the page is fetched and loaded. |
| LazyLists.LazyList.GetFixed | src/main/java/com/biit/persistence/utils/LazyList.java:127-145 | A negative index fails without asking for the size. When the cache and the reply are windows of the backend rows, get returns the backend row at index and the cache stays consistent. A cached page is used without a fetch, and only the requested page can join the cache. |
| LazyLists.LazyListIterator.constructor | src/main/java/com/biit/persistence/utils/LazyList.java:284-288 | The cursor starts at -1 and the size is read once, through the memoised size(). |
| LazyLists.LazyListIterator.HasNext | src/main/java/com/biit/persistence/utils/LazyList.java:290-293 | True exactly when the cursor's next position is below the size captured at creation. |
| LazyLists.LazyListIterator.Next | src/main/java/com/biit/persistence/utils/LazyList.java:295-299 | Advances the cursor and calls get. Before the end that throws get's NullPointerException; past the end, IndexOutOfBoundsException. |
| LazyLists.GetNeverReturnsAnElement | src/main/java/com/biit/persistence/utils/LazyList.java:127-157 | Reading the first row of a six-row list throws NullPointerException. |
| LazyLists.EvictionWithoutReverseIndex | src/main/java/com/biit/persistence/utils/LazyList.java:216-221 | With pageSize 1 and maxPages 2, the second load throws and two pages stay cached, more than maxPages - 1, while the entity of the first page is no longer known. |
| LazyLists.SequentialReadsFixed | src/main/java/com/biit/persistence/utils/LazyList.java:127-168 | With the corrected get, reading rows 0, 2 and 4 of six rows (pageSize 2, maxPages 2) returns the right rows with exactly three fetches, and keeps at most one page cached. |
| EditableLazyLists.MergeMultiset | src/main/java/com/biit/persistence/utils/EditableLazyList.java:115-142 | The merge holds exactly the backend rows and the added entities, with multiplicities. |
| EditableLazyLists.MergeSorted | src/main/java/com/biit/persistence/utils/EditableLazyList.java:115-125 | For a total preorder, merging two sorted sequences gives a sorted sequence. |
| EditableLazyLists.AddedAfterBackendComesLast | src/main/java/com/biit/persistence/utils/EditableLazyList.java:115-142 | An entity appended to the added list that every backend row precedes comes out last. |
| EditableLazyLists.Visible | src/main/java/com/biit/persistence/utils/EditableLazyList.java:91-94 | The backend rows not removed: x is visible exactly when it is a row and not removed. |
| EditableLazyLists.EditableLazyList.constructor | src/main/java/com/biit/persistence/utils/EditableLazyList.java:21-28 | The overlay lists and the position map start empty. |
| EditableLazyLists.EditableLazyList.Size | src/main/java/com/biit/persistence/utils/EditableLazyList.java:91-94 | The merged listing's length minus the number of removals. |
| EditableLazyLists.EditableLazyList.Add | src/main/java/com/biit/persistence/utils/EditableLazyList.java:30-38 | Appends to the added list, clears the positions and returns true. Size grows by one. |
| EditableLazyLists.EditableLazyList.Remove | src/main/java/com/biit/persistence/utils/EditableLazyList.java:40-53 | An added item leaves the added list. Anything else leaves the updated list and is appended to the removed list, even when absent. Always true, and size drops by one. |
| EditableLazyLists.EditableLazyList.Update | src/main/java/com/biit/persistence/utils/EditableLazyList.java:55-72 | Added or updated items move to the end of their list. A removed item gives false. A backend row is appended to the removed list, and anything else gives false. An empty updated list stays empty. |
| EditableLazyLists.EditableLazyList.UpdateFixed | src/main/java/com/biit/persistence/utils/EditableLazyList.java:55-72 | update as intended: the same answers. An added or updated item moves to the end of its list. A backend row the overlay does not know is appended to the updated list. Nothing is removed and size is unchanged. |
| EditableLazyLists.EditableLazyList.Contains | src/main/java/com/biit/persistence/utils/EditableLazyList.java:74-83 | True for added or updated items and false for removed ones. Anything else is looked up in the backend. |
| EditableLazyLists.EditableLazyList.ClearCache | src/main/java/com/biit/persistence/utils/EditableLazyList.java:85-89 | The position map is emptied. |
| EditableLazyLists.EditableLazyList.MostRecentVersion | src/main/java/com/biit/persistence/utils/EditableLazyList.java:145-153 | Backend row k itself: under value equality, the updated entry equal to it is the same value. |
| EditableLazyLists.EditableLazyList.WalkTo | src/main/java/com/biit/persistence/utils/EditableLazyList.java:115-125 | The walk keeps i = iDb + iAdded and stops at index or when a side runs out. What remains of the merge is the merge of the two remainders. |
| EditableLazyLists.EditableLazyList.Get | src/main/java/com/biit/persistence/utils/EditableLazyList.java:109-143 | Out of range gives IndexOutOfBoundsException. Otherwise it returns the element at index of the merge, with ties going to the added side and removed rows not skipped. |
| EditableLazyLists.EditableLazyList.IndexOf | src/main/java/com/biit/persistence/utils/EditableLazyList.java:96-107 | The first position among the size() listed elements holding o, or -1. |
| EditableLazyLists.EditableLazyList.GetVisible | src/main/java/com/biit/persistence/utils/EditableLazyList.java:109-143 | get as intended: it succeeds exactly within the visible rows plus the added ones, and never yields a removed row. |
| EditableLazyLists.RemovedRowStillListed | src/main/java/com/biit/persistence/utils/EditableLazyList.java:91-143 | After remove(1) on rows [1, 2], size is 1 and get(0) still returns 1. |
| EditableLazyLists.UpdateDropsRow | src/main/java/com/biit/persistence/utils/EditableLazyList.java:55-94 | update(1) on rows [1] returns true, after which contains(1) is false and size is 0. |
| EditableLazyLists.AddThenGetLast | src/main/java/com/biit/persistence/utils/EditableLazyList.java:30-143 | With nothing removed, add(x) then get(size() - 1) returns x when x sorts after every backend row. |
| ContainerLists.CallsFor | src/main/java/com/biit/persistence/utils/ContainerList.java:150-164 | One provider call of the given kind per element, in order. |
| ContainerLists.CommitCallsSpec | src/main/java/com/biit/persistence/utils/ContainerList.java:144-165 | Commit's calls come in phase order: removals, then updates, then additions. Each pending element gets exactly one call of its kind. |
| ContainerLists.CodexOfLastWins | src/main/java/com/biit/persistence/utils/ContainerList.java:41-44 | The codex holds exactly the keys of the loaded rows, each mapped to the last row with that key. |
| ContainerLists.AfterRemovalKeepsSets | src/main/java/com/biit/persistence/utils/ContainerList.java:117-127 | removeElement keeps the sets duplicate-free. An added element just leaves the added set; any other leaves the modified set and joins the removed set. |
| ContainerLists.ReinsertionSchedulesPrevious | src/main/java/com/biit/persistence/utils/ContainerList.java:69-77 | After set, the previous occupant is pending as added and, unless it had been added before, also as removed. |
| ContainerLists.CommitNothingPending | src/main/java/com/biit/persistence/utils/ContainerList.java:144-165 | A commit with nothing pending makes no provider call, so a second commit in a row is silent. |
| ContainerLists.CommitAfterRemoval | src/main/java/com/biit/persistence/utils/ContainerList.java:117-165 | After a remove, the next commit never adds the element. A loaded element is sent as a removal. An element pending only as added is not sent at all. |
| ContainerLists.ContainerList.constructor | src/main/java/com/biit/persistence/utils/ContainerList.java:31-45 | view is the provider's get(0, size()), the codex is built from it, the three sets are empty, and exactly count then get were called. |
| ContainerLists.ContainerList.AddElement | src/main/java/com/biit/persistence/utils/ContainerList.java:88-91 | The element joins the added set and the codex under its key. |
| ContainerLists.ContainerList.RemoveElement | src/main/java/com/biit/persistence/utils/ContainerList.java:117-127 | The key leaves the codex and the sets change as AfterRemoval says. The sets stay duplicate-free. |
| ContainerLists.ContainerList.Update | src/main/java/com/biit/persistence/utils/ContainerList.java:51-67 | The original's first slot takes the new version. The new version replaces the original in the added set, or else in the modified set. An absent original changes nothing. |
| ContainerLists.ContainerList.UpdateInPlace | src/main/java/com/biit/persistence/utils/ContainerList.java:47-49 | The view is unchanged, and an element present in the view ends up in the added or the modified set. |
| ContainerLists.ContainerList.Set | src/main/java/com/biit/persistence/utils/ContainerList.java:69-77 | Returns the previous occupant and stores the element. The previous occupant is removed and re-added in the bookkeeping; the new element is registered nowhere. |
| ContainerLists.ContainerList.SetFixed | src/main/java/com/biit/persistence/utils/ContainerList.java:69-77 | set as a replacement: the previous occupant goes through removeElement and the new element through addElement, with the whole new state given. |
| ContainerLists.ContainerList.Add | src/main/java/com/biit/persistence/utils/ContainerList.java:79-86 | Appends to the view, joins the added set and the codex, and returns true. |
| ContainerLists.ContainerList.AddAt | src/main/java/com/biit/persistence/utils/ContainerList.java:93-97 | Inserts at index, joins the added set and the codex. An index outside [0, size] fails before anything changes. |
| ContainerLists.ContainerList.RemoveObject | src/main/java/com/biit/persistence/utils/ContainerList.java:99-108 | An absent element gives false and changes nothing. Otherwise its first occurrence leaves the view, its key leaves the codex, and the sets follow removeElement. |
| ContainerLists.ContainerList.RemoveAt | src/main/java/com/biit/persistence/utils/ContainerList.java:110-115 | Removes and returns the element at index, followed by removeElement's bookkeeping. Out of range fails before anything changes. |
| ContainerLists.ContainerList.Get | src/main/java/com/biit/persistence/utils/ContainerList.java:129-132 | The view's element exactly for indices in range. Otherwise IndexOutOfBoundsException. |
| ContainerLists.ContainerList.Size | src/main/java/com/biit/persistence/utils/ContainerList.java:134-137 | Exactly the indices get accepts. |
| ContainerLists.ContainerList.GetByKey | src/main/java/com/biit/persistence/utils/ContainerList.java:139-142 | Present exactly when the codex has the key, and then it is the codex's element. |
| ContainerLists.ContainerList.ContainsKey | src/main/java/com/biit/persistence/utils/ContainerList.java:183-185 | Holds exactly when getByKey finds an element. |
| ContainerLists.ContainerList.Keys | src/main/java/com/biit/persistence/utils/ContainerList.java:175-177 | Exactly the keys containsKey accepts. |
| ContainerLists.ContainerList.GetIdByIndex | src/main/java/com/biit/persistence/utils/ContainerList.java:179-181 | Succeeds exactly where get does, with the key of that element. |
| ContainerLists.ContainerList.GetKeys | src/main/java/com/biit/persistence/utils/ContainerList.java:233-239 | As long as the view, and element i is the key of view[i]. |
| ContainerLists.ContainerList.FlushRemoved | src/main/java/com/biit/persistence/utils/ContainerList.java:150-154 | One provider remove per removed element, in order; the set ends empty. |
| ContainerLists.ContainerList.FlushModified | src/main/java/com/biit/persistence/utils/ContainerList.java:155-159 | One provider update per modified element, in order; the set ends empty. |
| ContainerLists.ContainerList.FlushAdded | src/main/java/com/biit/persistence/utils/ContainerList.java:160-164 | One provider add per added element, in order; the set ends empty. |
| ContainerLists.ContainerList.Commit | src/main/java/com/biit/persistence/utils/ContainerList.java:144-165 | The provider receives CommitCalls of the pending sets (removals, then updates, then additions), and all three sets end empty. |
| ContainerLists.SetRegistersPreviousOccupant | src/main/java/com/biit/persistence/utils/ContainerList.java:69-77 | set(0, 2) on rows [1] then commit sends remove(1) and add(1). The new element 2 never reaches the provider. |
| ContainerLists.SortWritesKeepKeys | src/main/java/com/biit/persistence/utils/ContainerList.java:224-231 | The writes Collections.sort makes through set, turning [1, 2] into [2, 1], keep both keys in the codex. |
| ContainerLists.SortWritesThroughSetFixedLoseKey | src/main/java/com/biit/persistence/utils/ContainerList.java:224-231 | The same writes through the replacement set leave 2 listed but drop its key from the codex. |

## Left out

- The Hibernate and JPA DAOs, the session bootstrap, the loggers, StorableObjectProvider, StorableObjectContainer, IdGenerator and StorableObject are not part of this model. They are I/O, library plumbing or one-line delegations.
- Providers (`IDataProvider`, the paging and count providers) are not called. Their replies are parameters and their calls are logged. A provider failure partway through commit is not modelled.
- Listener callbacks are not run. Each notification is recorded as the id of the listener notified.
- Clock reads and UUID generation are parameters.
- BaseStorableObject's no-argument setCreationTime() and setUpdateTime() are the setters applied to the clock reading. They are covered by SetCreationTime and SetUpdateTime with `Some(now)`. The plain accessors for id, createdBy, updatedBy and comparationId are not modelled.
- Java bean introspection in ReflectionComparator is replaced by a table from property name to a read function. A read that returns null, which throws NullPointerException at line 62, is not representable. Comparables other than String are ordered by an integer rank, and their compareTo gives only -1, 0 or +1. So an ascending key of that kind returns only the sign of Java's result. An Enum's compareTo gives the ordinal difference, and Character, Short and Byte give the value difference: for enum constants with ordinals 0 and 2, Java returns -2 and the model -1. The ordering is the same. Case folding covers ASCII letters only.
- `StorableObjects.StringHash` and `ReflectionComparators.CompareToIgnoreCase` work on Unicode scalar values, while Java's String.hashCode and compareToIgnoreCase work on UTF-16 code units. For a character outside the Basic Multilingual Plane, such as U+1F600, Java uses its surrogate pair, so the hash differs, and so does the order between such a character and one in U+E000 to U+FFFF.
- `LazyLists.LazyList.constructor` requires pageSize > 0, but the Java constructor accepts any value. With 0, get would throw ArithmeticException from the division. With a negative value, getIndexCache's `new WeakHashMap(pageSize * 3)` would throw IllegalArgumentException. Neither exception is modelled.
- LazyList's `pageNumber * pageSize` is computed without 32-bit overflow.
- The reverse index is a WeakHashMap. Its weak references, which let the garbage collector drop entries, are not modelled; the index is a plain map.
- `LazyLists.LazyList.Get`: in range, the contract states the fetch and the NullPointerException, but not the resulting page list. LoadPage's contract states that.
- `LazyLists.LazyList.LoadPageFixed`: with maxPages below 2 the new page may be evicted at once. The contract then does not say the page stays cached.
- The LazyList iterator's remove throws UnsupportedOperationException. It is not modelled.
- EditableLazyList's backend is the sequence `db`, standing for what the inherited get(i), size() and contains see. In the source those go through LazyList.get, which as written throws NullPointerException for any in-range index (see Findings). Virtual dispatch of super.contains back into the overridden get is not modelled.
- EditableLazyList's pageOrderedProvider is assumed non-null. A caller passing null to the five-argument constructor gets a NullPointerException from the merge walk.
- `EditableLazyLists.EditableLazyList.MostRecentVersion` states only that the result equals backend row k. Under value equality, a newer version sharing the row's identity is indistinguishable from the row.
- ContainerList.update on an element not in the view is modelled as "no change". On Java 8, `ArrayList.set(-1, …)` throws ArrayIndexOutOfBoundsException, which the method catches. Later runtimes throw IndexOutOfBoundsException, which escapes; that case is not modelled.
- ContainerList's null-element check in set (line 72) is not modelled: elements are never null.
- `ContainerLists.ContainerList.UpdateInPlace` states set membership and an unchanged view, not the exact sets. Update states those.
- `ContainerList.sort` and the library `Collections.sort` it calls are not modelled. They are library sorting over the ReflectionComparator. Only the way the sorted result is written back, slot by slot through set, is shown on two rows.
- `ContainerList.iterator` is not modelled. Its remove does not step the cursor back, so the element after a removed one is skipped.
- `ContainerList.addItem` is not modelled. It calls `newEntity()`, which IDataProvider does not declare.
- The getters for the provider, the key generator and the unmodifiable change-set views are not modelled, since each only returns a field.

## Findings

| source | as written | input that shows it | evidently intended | confidence | as-written member | corrected member |
|---|---|---|---|---|---|---|
| src/main/java/com/biit/persistence/utils/LazyList.java:170-178 | getPage compares page numbers with the field pageIndex, which is always -1. loadPage returns null, so get dereferences null. | get(0) on a six-row list, pageSize 2, maxPages 2 | get returns the row at index from the cached or newly loaded page | not executed; high | LazyLists.GetNeverReturnsAnElement | LazyLists.LazyList.GetFixed |
| src/main/java/com/biit/persistence/utils/LazyList.java:216-221 | removeCachedElements dereferences the reverse index, which is null until indexOf runs, so eviction fails and the cache keeps maxPages pages | pageSize 1, maxPages 2: load page 0, then page 1, without calling indexOf | eviction skips the missing reverse index, as clearCache does, keeping at most maxPages - 1 pages | not executed; high | LazyLists.EvictionWithoutReverseIndex | LazyLists.LazyList.RemoveCachedElementsGuarded |
| src/main/java/com/biit/persistence/utils/EditableLazyList.java:109-143 | the merge walk never skips removed rows, while size() subtracts them | rows [1, 2], remove(1): size() is 1 and get(0) returns 1 | removed rows are absent from get and iteration | not executed; high | EditableLazyLists.RemovedRowStillListed | EditableLazyLists.EditableLazyList.GetVisible |
| src/main/java/com/biit/persistence/utils/EditableLazyList.java:66-67 | update of a backend row appends it to removedElements, so the row disappears | rows [1], update(1): returns true, then contains(1) is false and size() is 0 | the row joins updatedElements and stays listed | not executed; medium | EditableLazyLists.UpdateDropsRow | EditableLazyLists.EditableLazyList.UpdateFixed |
| src/main/java/com/biit/persistence/utils/ContainerList.java:69-77 | set removes and re-adds the previous occupant, and never registers the new element | rows [1], set(0, 2), commit: the provider receives remove(1) and add(1), never 2 | uncertain: a replacing set (previous occupant removed, new element added) is the usual List.set behaviour, but ContainerList.sort writes every slot through set, and the replacing version then drops key 2 when [1, 2] is sorted to [2, 1] (ContainerLists.SortWritesThroughSetFixedLoseKey), while as written every key is kept (ContainerLists.SortWritesKeepKeys) | not executed; low | ContainerLists.SetRegistersPreviousOccupant | ContainerLists.ContainerList.SetFixed |
