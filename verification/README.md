# Verified model of six components of an advanced Java course repository

This project is a Dafny model of six components of the repository
`info.kgeorgiy.ja.samodelov`, with their properties proved. Each component
is modelled in the form its Java source takes.

- **Web crawler** (`crawler.dfy`, module `Crawler`). `WebCrawler.download(url, depth, hosts)`
  crawls breadth-first, one layer per unit of depth. Every URL is routed
  through a per-host throttle, `HostWorker`, which admits at most `perHost`
  downloads of a host at once and queues the rest in FIFO order. Both
  `HostWorker` and `WebCrawler` are classes whose methods update their
  fields. The crawl loop is a method with invariants.
- **`ArraySet`** (`arrayset.dfy`, module `ArraySets`). An immutable navigable set held in a
  sorted list, with a possibly inverted view (`InvertibleList`). The
  operations are lookups through a binary search (`getIndex`),
  lower/floor/ceiling/higher, contains, first/last, the sub-range views and
  the descending view.
- **`IterativeParallelism`** (`parallelism.dfy`, module `Parallelism`). The list is split into
  at most `threads` contiguous blocks. A per-block function runs on each
  block and a collector combines the results, for maximum, minimum, all,
  any, count, join, filter, map, reduce and mapReduce.
- **`StudentDB`** (`studentdb.dfy`, module `StudentDb`). The query, sort, find, group,
  "largest group" and "most popular name" queries over student records,
  with the comparators they use.
- **`StatisticData`** (`statistics.dfy`, module `Statistics`). A value-to-count map built
  from a list, and its total and unique counts, minimum, maximum and fold.
- **Hello `Utils`** (`hello_utils.dfy`, module `HelloUtils`). Message construction, the
  server's response, digit normalisation, and the check that a response
  names the expected thread and request numbers.

Shared modules:

- `Wrappers`: `Option` and `Result`.
- `Comparators`: the `Comparator` contract and the combinators `reversed`,
  `thenComparing`, `comparing` and `comparingInt`, with `Integer.compare`
  and `String.compareTo`.
- `Streams`: the stream operations map, filter, reduce, max/min and a
  stable sorted, with their laws (stability is part of `Streams.SortedSpec`).
- `TreeSets`: a `TreeSet` filled by `add`, with its contents proved.

How outside behaviour is handled:

- **Foreign calls become parameters.**
  - The crawler receives `Downloader.download` with `Document.extractLinks`
    as one function from URL to page-or-error. It receives
    `URLUtils.getHost` as a function from URL to optional host.
  - The hello utilities receive `Character.isDigit`/`getNumericValue` as a
    `CharClass`, and the locale number formats `FORMATS` as a sequence of
    functions from `int` to `string`.
  - `StatisticData` and the student queries receive their mappers and
    comparators as functions.
- **Java `null` becomes `None`.** Thrown exceptions become the `Failure`
  case of a `Result`: `NoSuchElementException`, `IllegalArgumentException`,
  `UnsupportedOperationException`, the duplicate-key `IllegalStateException`
  of `Collectors.toMap`, and the `NullPointerException` of a missing id.

Three behaviours of the crawler's `download` that a reader may not
expect; the model keeps each:

- The allow-list check is made against all keys of `hostMap`. Those keys
  persist across calls to `download`, so a host registered by an earlier
  call also passes. The model keeps this: `Crawler.WebCrawler.Download`
  admits hosts in `old(hostMap.Keys) + hosts`.
- Link extraction checks only the visited set. Hosts and the allow-list are
  checked when a URL of the next layer is processed (`downloadLinks`), not
  when the link is extracted.
- A URL is marked visited only when it is downloaded successfully or first
  met as a link. So a start URL whose download fails is reported once, and
  the crawl ends.

## Model

Every source path is relative to the repository root.

| member | source | states |
|---|---|---|
| Crawler.HostWorker.constructor | java-solutions/info/kgeorgiy/ja/samodelov/crawler/WebCrawler.java:133-137 | A new worker is idle: `working` is 0, the queue and the logs are empty, and the invariant holds. |
| Crawler.HostWorker.AddTask | java-solutions/info/kgeorgiy/ja/samodelov/crawler/WebCrawler.java:139-146 | Below `perHost` the task is dispatched at once and `working` grows by one. Otherwise it joins the back of the queue and `working` is unchanged. The invariant is kept: `0 <= working <= perHost`, a non-empty queue only at the limit, dispatched tasks in submission order. |
| Crawler.HostWorker.RunTask | java-solutions/info/kgeorgiy/ja/samodelov/crawler/WebCrawler.java:148-154 | When a dispatched task finishes, the oldest queued task is dispatched in its place and `working` is unchanged. With an empty queue, `working` drops by one. The same invariant is kept, so tasks are dispatched in FIFO order. |
| Crawler.AddLinksSpec | java-solutions/info/kgeorgiy/ja/samodelov/crawler/WebCrawler.java:78-83 | After link extraction every link is visited. The next layer only grows, by links not visited before, each once and in order. Every unvisited link joins it. |
| Crawler.TaskEffectSpec | java-solutions/info/kgeorgiy/ja/samodelov/crawler/WebCrawler.java:69-93 | The download task reports its URL in exactly one of `result` (on success) and `exceptions` (on failure, carrying the downloader's error). Links are collected only after a success, and they are new links of that page. |
| Crawler.ProgressMalformed | java-solutions/info/kgeorgiy/ja/samodelov/crawler/WebCrawler.java:55-61 | A URL without a host is recorded as malformed and is not downloaded. The crawl invariant is kept. |
| Crawler.ProgressSkipped | java-solutions/info/kgeorgiy/ja/samodelov/crawler/WebCrawler.java:62-66 | A URL whose host is not registered, when hosts may not be added, is skipped: the crawl state is unchanged and the invariant is kept. |
| Crawler.ProgressTask | java-solutions/info/kgeorgiy/ja/samodelov/crawler/WebCrawler.java:67-95 | An admitted URL registers its host and is downloaded once. The crawl invariant is kept: routing, registered hosts, reachability and the next layer. |
| Crawler.ProgressStep | java-solutions/info/kgeorgiy/ja/samodelov/crawler/WebCrawler.java:51-96 | Each `downloadLinks` call on the next URL of a layer keeps the crawl invariant, whichever of its three branches it takes. |
| Crawler.LayerEnd | java-solutions/info/kgeorgiy/ja/samodelov/crawler/WebCrawler.java:125-128 | After a layer, the next queue is the links collected in it. They are distinct, visited, never attempted, and one link further from the start URL. |
| Crawler.CrawlDone | java-solutions/info/kgeorgiy/ja/samodelov/crawler/WebCrawler.java:121-130 | When the depth loop ends, the reported result and exceptions meet every guarantee of `Download`. |
| Crawler.WebCrawler.constructor | java-solutions/info/kgeorgiy/ja/samodelov/crawler/WebCrawler.java:20-25 | A new crawler keeps the downloader and `perHost`, and has no host workers. |
| Crawler.WebCrawler.WorkerOf | java-solutions/info/kgeorgiy/ja/samodelov/crawler/WebCrawler.java:67 | `computeIfAbsent`: it returns the host's existing worker, or registers a new one. No other host's worker changes. |
| Crawler.WebCrawler.ExtractLinks | java-solutions/info/kgeorgiy/ja/samodelov/crawler/WebCrawler.java:75-89 | The extraction loop computes `AddLinks`, whose meaning `AddLinksSpec` states. |
| Crawler.WebCrawler.RunDownloadTask | java-solutions/info/kgeorgiy/ja/samodelov/crawler/WebCrawler.java:69-93 | The task body computes `TaskEffect`, whose meaning `TaskEffectSpec` states. |
| Crawler.WebCrawler.DownloadLinks | java-solutions/info/kgeorgiy/ja/samodelov/crawler/WebCrawler.java:51-96 | Three outcomes. A malformed URL is recorded. A URL whose host is not registered is skipped when hosts may not be added. Otherwise the host is registered and the download task runs through its worker. Existing workers are untouched. |
| Crawler.WebCrawler.RegisterHosts | java-solutions/info/kgeorgiy/ja/samodelov/crawler/WebCrawler.java:108-112 | Every listed host gets a worker; existing workers are kept. |
| Crawler.WebCrawler.DownloadLayer | java-solutions/info/kgeorgiy/ja/samodelov/crawler/WebCrawler.java:122-124 | Processing every URL of a layer in order keeps the crawl invariant. |
| Crawler.WebCrawler.Download | java-solutions/info/kgeorgiy/ja/samodelov/crawler/WebCrawler.java:106-131 | Routing: `result` and `exceptions` never share a URL, and every result downloaded successfully. A URL is malformed exactly when it has no host, and every download failure carries the downloader's message. No URL is downloaded twice. Every downloaded URL's host is registered, and with a host list only listed or earlier-registered hosts are downloaded. Everything reported lies within `depth - 1` links of the start. With `depth = 1` only the start URL is reported. |
| ArraySets.ViewSpec | java-solutions/info/kgeorgiy/ja/samodelov/arrayset/ArraySet.java:195-213 | An inverted list presents `items[size - 1 - i]` at `i`; otherwise it presents `items[i]`. |
| ArraySets.NewSpec | java-solutions/info/kgeorgiy/ja/samodelov/arrayset/ArraySet.java:9-22 | Construction stores the collection strictly ascending under the comparator, or under natural order when it is null. Every element of the collection is represented, and every stored element is the first of its comparator class. |
| ArraySets.SearchSpec | java-solutions/info/kgeorgiy/ja/samodelov/arrayset/ArraySet.java:111-118 | The `Collections.binarySearch` result is non-negative exactly when some element compares equal to the key, and is then its index. Otherwise it is `-(insertion point) - 1`. |
| ArraySets.BinarySearch | java-solutions/info/kgeorgiy/ja/samodelov/arrayset/ArraySet.java:111-118 | The loop returns exactly the binary-search result whose meaning `SearchSpec` states. |
| ArraySets.FromIndexSpec | java-solutions/info/kgeorgiy/ja/samodelov/arrayset/ArraySet.java:111-118 | `getIndex` for a "from" bound is the first index at or above (or strictly above) the element. |
| ArraySets.ToIndexSpec | java-solutions/info/kgeorgiy/ja/samodelov/arrayset/ArraySet.java:111-118 | `getIndex` for a "to" bound is the last index at or below (or strictly below) the element, or -1. |
| ArraySets.GreatestWithin | java-solutions/info/kgeorgiy/ja/samodelov/arrayset/ArraySet.java:120-123 | `getElement` for a "to" bound returns the greatest element within it, or null when there is none. |
| ArraySets.LeastWithin | java-solutions/info/kgeorgiy/ja/samodelov/arrayset/ArraySet.java:120-123 | `getElement` for a "from" bound returns the least element within it, or null when there is none. |
| ArraySets.LowerSpec | java-solutions/info/kgeorgiy/ja/samodelov/arrayset/ArraySet.java:29-32 | `lower(t)` is the greatest element strictly below `t`; it is null exactly when no element is below `t`. |
| ArraySets.FloorSpec | java-solutions/info/kgeorgiy/ja/samodelov/arrayset/ArraySet.java:34-37 | `floor(t)` is the greatest element at or below `t`; it is null exactly when none is. |
| ArraySets.CeilingSpec | java-solutions/info/kgeorgiy/ja/samodelov/arrayset/ArraySet.java:39-42 | `ceiling(t)` is the least element at or above `t`; it is null exactly when none is. |
| ArraySets.HigherSpec | java-solutions/info/kgeorgiy/ja/samodelov/arrayset/ArraySet.java:44-47 | `higher(t)` is the least element strictly above `t`; it is null exactly when none is. |
| ArraySets.ContainsSpec | java-solutions/info/kgeorgiy/ja/samodelov/arrayset/ArraySet.java:153-161 | `contains(o)` holds exactly when some element compares equal to `o`. |
| ArraySets.FirstSpec | java-solutions/info/kgeorgiy/ja/samodelov/arrayset/ArraySet.java:168-178 | `first()` throws `NoSuchElementException` exactly on an empty set. Otherwise it returns an element that no other element is below. |
| ArraySets.LastSpec | java-solutions/info/kgeorgiy/ja/samodelov/arrayset/ArraySet.java:168-174 | `last()` throws `NoSuchElementException` exactly on an empty set. Otherwise it returns an element that no other element is above. |
| ArraySets.PollFirst | java-solutions/info/kgeorgiy/ja/samodelov/arrayset/ArraySet.java:185-188 | The set is immutable: `pollFirst` always fails with `UnsupportedOperationException`. |
| ArraySets.PollLast | java-solutions/info/kgeorgiy/ja/samodelov/arrayset/ArraySet.java:190-193 | The set is immutable: `pollLast` always fails with `UnsupportedOperationException`. |
| ArraySets.DescendingSetSpec | java-solutions/info/kgeorgiy/ja/samodelov/arrayset/ArraySet.java:49-52 | The descending set has the same size and the elements in reverse order. It is again strictly ascending under its own (reversed) comparator. |
| ArraySets.DescendingTwice | java-solutions/info/kgeorgiy/ja/samodelov/arrayset/ArraySet.java:49-63 | Taking the descending set twice restores the elements, their order and the comparator. |
| ArraySets.GetSubSetSpec | java-solutions/info/kgeorgiy/ja/samodelov/arrayset/ArraySet.java:126-135 | The sub-range keeps exactly the elements within both bounds, honouring inclusivity, in the set's order, under the same comparator. It is again a valid set, on ascending and descending views alike. |
| ArraySets.SubSetSpec | java-solutions/info/kgeorgiy/ja/samodelov/arrayset/ArraySet.java:65-71 | `subSet` throws `IllegalArgumentException` exactly when `from > to`. Otherwise it keeps exactly the elements within the bounds, in order. Stated of the corrected `getSubSet` (see Findings); as written, a descending view gives these elements in reverse, as `ArraySets.DescendingSubSetAsWritten` shows. |
| ArraySets.HeadSetSpec | java-solutions/info/kgeorgiy/ja/samodelov/arrayset/ArraySet.java:74-81 | `headSet` returns the set itself when it is empty. Otherwise it keeps exactly the elements below (or at) the bound, in order. Stated of the corrected `getSubSet` (see Findings); as written, a descending view gives these elements in reverse, as `ArraySets.DescendingSubSetAsWritten` shows. |
| ArraySets.TailSetSpec | java-solutions/info/kgeorgiy/ja/samodelov/arrayset/ArraySet.java:83-90 | `tailSet` returns the set itself when it is empty. Otherwise it keeps exactly the elements above (or at) the bound, in order. Stated of the corrected `getSubSet` (see Findings); as written, a descending view gives these elements in reverse, as `ArraySets.DescendingSubSetAsWritten` shows. |
| ArraySets.SubSetHalfOpenSpec | java-solutions/info/kgeorgiy/ja/samodelov/arrayset/ArraySet.java:92-95 | `subSet(from, to)` is the half-open range `[from, to)`, and fails exactly when `from > to`. Stated of the corrected `getSubSet` (see Findings); as written, a descending view gives these elements in reverse, as `ArraySets.DescendingSubSetAsWritten` shows. |
| ArraySets.DefaultBoundsSpec | java-solutions/info/kgeorgiy/ja/samodelov/arrayset/ArraySet.java:97-105 | `headSet(to)` holds the elements strictly below `to`; `tailSet(from)` holds those at or above `from`. Stated of the corrected `getSubSet` (see Findings); as written, a descending view gives these elements in reverse, as `ArraySets.DescendingSubSetAsWritten` shows. |
| ArraySets.GetSubSetAsWritten | java-solutions/info/kgeorgiy/ja/samodelov/arrayset/ArraySet.java:126-135 | `getSubSet` as written agrees with the corrected one on every set that is not a descending view. |
| ArraySets.DescendingSubSetAsWritten | java-solutions/info/kgeorgiy/ja/samodelov/arrayset/ArraySet.java:126-135 | On the descending view of {1, 2, 3}, the sub-set from 3 down to 1 iterates 1, 2, 3 as written, and is not a valid set. Corrected, it iterates 3, 2, 1. |
| Comparators.ReversedIsComparator | java-solutions/info/kgeorgiy/ja/samodelov/arrayset/ArraySet.java:60-63 | `Collections.reverseOrder(c)` / `c.reversed()` obey the comparator contract when `c` does. |
| Comparators.ThenComparingIsComparator | java-solutions/info/kgeorgiy/ja/samodelov/student/StudentDB.java:14-18 | `c1.thenComparing(c2)` obeys the comparator contract when both parts do. |
| Comparators.ComparingIsComparator | java-solutions/info/kgeorgiy/ja/samodelov/student/StudentDB.java:12 | `comparing(key, order)` obeys the comparator contract when `order` does. |
| Comparators.StringCompareIsComparator | java-solutions/info/kgeorgiy/ja/samodelov/student/StudentDB.java:14-18 | Lexicographic `String.compareTo` obeys the comparator contract. |
| Streams.MaxSpec | java-solutions/info/kgeorgiy/ja/samodelov/concurrent/IterativeParallelism.java:74-80 | `Stream.max` is empty exactly on an empty stream. Otherwise it is the first element that no element exceeds. |
| Streams.MinSpec | java-solutions/info/kgeorgiy/ja/samodelov/concurrent/IterativeParallelism.java:82-88 | `Stream.min` is empty exactly on an empty stream. Otherwise it is the first element that no element undercuts. |
| Streams.MaxByMonoid | java-solutions/info/kgeorgiy/ja/samodelov/concurrent/IterativeParallelism.java:74-80 | The `maxBy` accumulator over optional values is associative with identity "empty", so maxima can be combined block by block. |
| Streams.MinByMonoid | java-solutions/info/kgeorgiy/ja/samodelov/concurrent/IterativeParallelism.java:82-88 | The `minBy` accumulator is associative with identity "empty". |
| Streams.FilterPermutation | java-solutions/info/kgeorgiy/ja/samodelov/student/StudentDB.java:78-83 | Filtering two permutations of a list gives permutations of each other. |
| Streams.SortedSpec | java-solutions/info/kgeorgiy/ja/samodelov/student/StudentDB.java:61-65 | `Stream.sorted(c)` returns a permutation of its input in non-decreasing order. It is stable: for every `k`, the elements comparing equal to `k` appear in their input order. |
| Streams.SortedStable | java-solutions/info/kgeorgiy/ja/samodelov/student/StudentDB.java:61-65 | For any `k`, sorting keeps the elements that compare equal to `k` in their input order. |
| TreeSets.TreeSetOfSorted | java-solutions/info/kgeorgiy/ja/samodelov/arrayset/ArraySet.java:17-22 | A `TreeSet` filled from a list is strictly ascending under its comparator. |
| TreeSets.TreeSetOfRepresents | java-solutions/info/kgeorgiy/ja/samodelov/arrayset/ArraySet.java:17-22 | Every element offered to the `TreeSet` has a comparator-equal element in it. |
| TreeSets.TreeSetOfKeepsFirst | java-solutions/info/kgeorgiy/ja/samodelov/arrayset/ArraySet.java:17-22 | Every element of the `TreeSet` comes from the list and is the first of its comparator class there. |
| TreeSets.TreeSetOfElements | java-solutions/info/kgeorgiy/ja/samodelov/student/StudentDB.java:49-51 | Under a comparator that ties only equal values, the `TreeSet` holds exactly the list's elements, each once. |
| Parallelism.BlockBounds | java-solutions/info/kgeorgiy/ja/samodelov/concurrent/IterativeParallelism.java:31-35 | Every block lies inside the list and ends exactly where the next one starts. |
| Parallelism.LastBlockEnd | java-solutions/info/kgeorgiy/ja/samodelov/concurrent/IterativeParallelism.java:30-37 | The last block ends at the end of the list. |
| Parallelism.SplitShape | java-solutions/info/kgeorgiy/ja/samodelov/concurrent/IterativeParallelism.java:30-39 | With `threads <= 0` there are no blocks, and otherwise there are `min(threads, n)` of them, all non-empty. When `threads < n`, block lengths differ by at most one and the first `n mod threads` blocks are the longer ones. When `threads >= n`, every block is one element. |
| Parallelism.SplitFlatten | java-solutions/info/kgeorgiy/ja/samodelov/concurrent/IterativeParallelism.java:30-39 | The blocks are contiguous and disjoint, and concatenated in order they give back the list. |
| Parallelism.SplitFold | java-solutions/info/kgeorgiy/ja/samodelov/concurrent/IterativeParallelism.java:25-71 | For an associative operator with identity, folding the per-block folds equals folding the whole list. |
| Parallelism.MaximumSpec | java-solutions/info/kgeorgiy/ja/samodelov/concurrent/IterativeParallelism.java:74-80 | `maximum` equals `Stream.max` over the whole list. It is null exactly on an empty list and otherwise the first greatest element. |
| Parallelism.MinimumSpec | java-solutions/info/kgeorgiy/ja/samodelov/concurrent/IterativeParallelism.java:82-88 | `minimum` equals `Stream.min` over the whole list. It is null exactly on an empty list and otherwise the first least element. |
| Parallelism.AllMatchSpec | java-solutions/info/kgeorgiy/ja/samodelov/concurrent/IterativeParallelism.java:90-96 | `allMatch` holds exactly when every element satisfies the predicate. |
| Parallelism.NoThreads | java-solutions/info/kgeorgiy/ja/samodelov/concurrent/IterativeParallelism.java:30-39 | With no threads there are no blocks, so every operation returns its collector's value for no results. `all` is true and `any` false; `maximum` and `minimum` are null; `count` is 0 and `join` is empty. `filter` and `map` return empty lists; `reduce` and `mapReduce` return the identity. |
| Parallelism.AllSpec | java-solutions/info/kgeorgiy/ja/samodelov/concurrent/IterativeParallelism.java:90-96 | `all` holds exactly when every element satisfies the predicate; it is true on an empty list. |
| Parallelism.AnySpec | java-solutions/info/kgeorgiy/ja/samodelov/concurrent/IterativeParallelism.java:98-102 | `any`, the negation of `all` of the negated predicate, holds exactly when some element satisfies the predicate. |
| Parallelism.CountSpec | java-solutions/info/kgeorgiy/ja/samodelov/concurrent/IterativeParallelism.java:104-110 | The sum of the per-block counts is the number of elements satisfying the predicate. |
| Parallelism.JoinSpec | java-solutions/info/kgeorgiy/ja/samodelov/concurrent/IterativeParallelism.java:112-117 | `join` concatenates the `toString` forms of all elements, in list order. |
| Parallelism.FilterSpec | java-solutions/info/kgeorgiy/ja/samodelov/concurrent/IterativeParallelism.java:119-133 | Concatenating the filtered blocks equals filtering the whole list, in order. |
| Parallelism.MapSpec | java-solutions/info/kgeorgiy/ja/samodelov/concurrent/IterativeParallelism.java:135-139 | Concatenating the mapped blocks equals mapping the whole list, in order. |
| Parallelism.ReduceSpec | java-solutions/info/kgeorgiy/ja/samodelov/concurrent/IterativeParallelism.java:141-146 | For a monoid, `reduce` equals the sequential fold of the list. |
| Parallelism.MapReduceSpec | java-solutions/info/kgeorgiy/ja/samodelov/concurrent/IterativeParallelism.java:148-153 | For a monoid, `mapReduce` equals lifting every element and folding sequentially. |
| StudentDb.StudentComparatorsAreComparators | java-solutions/info/kgeorgiy/ja/samodelov/student/StudentDB.java:12-18 | `ID_COMPARATOR` and `NAME_ID_COMPARATOR` obey the comparator contract. |
| StudentDb.NameIdComparatorSpec | java-solutions/info/kgeorgiy/ja/samodelov/student/StudentDB.java:14-18 | `NAME_ID_COMPARATOR` orders by last name descending, then first name descending, then id ascending. `reversed()` covers both name keys. |
| StudentDb.GroupCompareIsComparator | java-solutions/info/kgeorgiy/ja/samodelov/student/StudentDB.java:110-117 | Comparing group names by enum position obeys the comparator contract and ties only equal names. |
| StudentDb.GetFirstNames | java-solutions/info/kgeorgiy/ja/samodelov/student/StudentDB.java:28-31 | One first name per student, same length and order. |
| StudentDb.GetLastNames | java-solutions/info/kgeorgiy/ja/samodelov/student/StudentDB.java:33-36 | One last name per student, same length and order. |
| StudentDb.GetGroups | java-solutions/info/kgeorgiy/ja/samodelov/student/StudentDB.java:38-41 | One group per student, same length and order. |
| StudentDb.GetFullNames | java-solutions/info/kgeorgiy/ja/samodelov/student/StudentDB.java:24-46 | One full name per student, same length and order: the first name, a space, the last name. |
| StudentDb.DistinctFirstNamesSpec | java-solutions/info/kgeorgiy/ja/samodelov/student/StudentDB.java:48-51 | The distinct first names are strictly ascending, without repeats, and exactly the students' first names. |
| StudentDb.MaxStudentFirstNameSpec | java-solutions/info/kgeorgiy/ja/samodelov/student/StudentDB.java:53-59 | The result is "" for no students. Otherwise it is the first name of the first student with the greatest id. |
| StudentDb.SortStudentsByIdSpec | java-solutions/info/kgeorgiy/ja/samodelov/student/StudentDB.java:61-70 | A permutation of the input with non-decreasing ids. Students sharing an id keep their input order. |
| StudentDb.SortStudentsByNameSpec | java-solutions/info/kgeorgiy/ja/samodelov/student/StudentDB.java:61-76 | A permutation of the input in `NAME_ID_COMPARATOR` order. |
| StudentDb.FindStudentsSpec | java-solutions/info/kgeorgiy/ja/samodelov/student/StudentDB.java:78-98 | Exactly the students whose attribute equals the value, each as often as in the input, in `NAME_ID_COMPARATOR` order. |
| StudentDb.LastToMinFirstSpec | java-solutions/info/kgeorgiy/ja/samodelov/student/StudentDB.java:103-107 | `toMap(lastName, firstName, minBy(naturalOrder))`: the keys are exactly the last names present. Each value is the least first name among the students with that last name. |
| StudentDb.FindStudentNamesByGroupSpec | java-solutions/info/kgeorgiy/ja/samodelov/student/StudentDB.java:100-108 | The keys are the last names in the group. Each maps to the lexicographically smallest first name among that group's students with that last name. |
| StudentDb.GroupNamesSpec | java-solutions/info/kgeorgiy/ja/samodelov/student/StudentDB.java:110-117 | The groups are named in strictly ascending order, one per group that has students. |
| StudentDb.GroupedSpec | java-solutions/info/kgeorgiy/ja/samodelov/student/StudentDB.java:111-114 | The list collected for a group holds exactly that group's students, each as often as in the input. |
| StudentDb.GroupsByFunctionOrder | java-solutions/info/kgeorgiy/ja/samodelov/student/StudentDB.java:110-118 | The groups come in strictly ascending name order. |
| StudentDb.GroupsByFunctionMembers | java-solutions/info/kgeorgiy/ja/samodelov/student/StudentDB.java:110-118 | Every student's group appears, and each group holds the per-group function applied to exactly its students. |
| StudentDb.GroupsByNameSpec | java-solutions/info/kgeorgiy/ja/samodelov/student/StudentDB.java:122-125 | Every group holds exactly its students, sorted by `NAME_ID_COMPARATOR`. |
| StudentDb.GroupsByIdSpec | java-solutions/info/kgeorgiy/ja/samodelov/student/StudentDB.java:129-132 | Every group holds exactly its students, in non-decreasing id order. |
| StudentDb.LargestGroupSpec | java-solutions/info/kgeorgiy/ja/samodelov/student/StudentDB.java:140-153 | The result is null exactly when there are no students. Otherwise it is a group with the most students, and on a tie in size the greatest group name. |
| StudentDb.LargestGroupFirstNameSpec | java-solutions/info/kgeorgiy/ja/samodelov/student/StudentDB.java:155-164 | The result is null exactly when there are no students. Otherwise it is a group with the most distinct first names, and on a tie the smallest group name. |
| StudentDb.MostPopularNameSpec | java-solutions/info/kgeorgiy/ja/samodelov/student/StudentDB.java:166-179 | The result is "" for no students. Otherwise it is a first name found in the most distinct groups, and on a tie the smallest name. |
| StudentDb.IndexByIdSpec | java-solutions/info/kgeorgiy/ja/samodelov/student/StudentDB.java:186-189 | `toMap(getId, identity())` succeeds exactly when no two students share an id, and otherwise throws. |
| StudentDb.IndexByIdContents | java-solutions/info/kgeorgiy/ja/samodelov/student/StudentDB.java:186-189 | A built index maps exactly the ids present, each to its student. |
| StudentDb.LookupIdsSpec | java-solutions/info/kgeorgiy/ja/samodelov/student/StudentDB.java:181-183 | The lookup succeeds exactly when every id is in the map. It then maps `f` over the students in id order; otherwise it throws `NullPointerException`. |
| StudentDb.GetWithIdsSpec | java-solutions/info/kgeorgiy/ja/samodelov/student/StudentDB.java:186-209 | Repeated ids in the data make the id queries throw. A missing requested id throws too. Otherwise the i-th result is `f` of the student with the i-th id. |
| Statistics.StatisticData.constructor | java-solutions/info/kgeorgiy/ja/samodelov/i18n/StatisticData.java:13-15 | After the merge loop, the keys are exactly the values of the list, and each count is that value's multiplicity in the list. |
| Statistics.NumberOfAllSpec | java-solutions/info/kgeorgiy/ja/samodelov/i18n/StatisticData.java:17-19 | The sum of the counts is the length of the list. |
| Statistics.NumberOfUniqueSpec | java-solutions/info/kgeorgiy/ja/samodelov/i18n/StatisticData.java:17-23 | The unique count is the number of distinct values and at most the total. Each is zero exactly when the list is empty. |
| Statistics.MinValueSpec | java-solutions/info/kgeorgiy/ja/samodelov/i18n/StatisticData.java:25-27 | The result is null exactly for empty data. Otherwise it is `mapper` of some value, and no mapped value is below it. |
| Statistics.MaxValueSpec | java-solutions/info/kgeorgiy/ja/samodelov/i18n/StatisticData.java:29-31 | The result is null exactly for empty data. Otherwise it is `mapper` of some value, and no mapped value is above it. |
| Statistics.EntriesOfSpec | java-solutions/info/kgeorgiy/ja/samodelov/i18n/StatisticData.java:33-35 | The entries are distinct and are exactly the pairs of a value with its count. |
| Statistics.ReduceMapPermutation | java-solutions/info/kgeorgiy/ja/samodelov/i18n/StatisticData.java:33-35 | For a commutative, associative reducer, folding mapped elements does not depend on their order. |
| Statistics.GetReducedEmpty | java-solutions/info/kgeorgiy/ja/samodelov/i18n/StatisticData.java:33-35 | `getReduced` is `startValue` for empty data. |
| Statistics.GetReducedOrderIndependent | java-solutions/info/kgeorgiy/ja/samodelov/i18n/StatisticData.java:33-35 | For a commutative, associative reducer, `getReduced` equals the fold over the entries in any other iteration order of the keys. |
| HelloUtils.DecimalSpec | java-solutions/info/kgeorgiy/ja/samodelov/hello/Utils.java:93-95 | The decimal notation of a non-negative number is all digits and reads back as the number. A negative number's notation starts with '-'. |
| HelloUtils.DecimalInjective | java-solutions/info/kgeorgiy/ja/samodelov/hello/Utils.java:93-95 | Different numbers have different notations. |
| HelloUtils.CreateMessageParts | java-solutions/info/kgeorgiy/ja/samodelov/hello/Utils.java:93-95 | The message is the prefix, the thread number, '_', and the request number, each at its own position. |
| HelloUtils.ResponseSpec | java-solutions/info/kgeorgiy/ja/samodelov/hello/Utils.java:97-99 | The response is "Hello, " followed by the whole request. |
| HelloUtils.NormalizeNumbersInString | java-solutions/info/kgeorgiy/ja/samodelov/hello/Utils.java:25-35 | The `StringBuilder` loop builds the normalised string whose meaning `NormalizedSpec` states. |
| HelloUtils.NormalizedSpec | java-solutions/info/kgeorgiy/ja/samodelov/hello/Utils.java:25-35 | Normalising keeps the length. Each digit (in the `CharClass` sense) becomes the ASCII digit of its numeric value; every other character is kept. |
| HelloUtils.NormalizedKeepsAscii | java-solutions/info/kgeorgiy/ja/samodelov/hello/Utils.java:25-35 | A string whose only digits are ASCII is unchanged by normalisation. |
| HelloUtils.RunsSpec | java-solutions/info/kgeorgiy/ja/samodelov/hello/Utils.java:38-43 | The matches of `[0-9]+` are non-empty runs of digits. Together, in order, they are exactly the digits of the string. Each is maximal: they occur at increasing, non-overlapping positions, with no digit just before or just after any of them. |
| HelloUtils.RunsMaximal | java-solutions/info/kgeorgiy/ja/samodelov/hello/Utils.java:38-43 | Each match of `[0-9]+` occurs at a returned position. It has no digit just before or after it there, and the matches occur left to right without overlap. |
| HelloUtils.FindNumbers | java-solutions/info/kgeorgiy/ja/samodelov/hello/Utils.java:38-43 | The `matcher.find()` loop collects exactly those runs, left to right. |
| HelloUtils.AnyFormatMatches | java-solutions/info/kgeorgiy/ja/samodelov/hello/Utils.java:44-48 | True exactly when some format writes the thread number as the first run and the request number as the second. |
| HelloUtils.IsCorrectResponse | java-solutions/info/kgeorgiy/ja/samodelov/hello/Utils.java:37-50 | A response is accepted only if its normalised form has exactly two runs of digits and some format renders the thread and request numbers as those runs. |
| HelloUtils.ResponseRuns | java-solutions/info/kgeorgiy/ja/samodelov/hello/Utils.java:93-99 | For a digit-free prefix, the runs of the normalised response to a message are exactly the two numbers. |
| HelloUtils.ResponseAccepted | java-solutions/info/kgeorgiy/ja/samodelov/hello/Utils.java:37-50 | The response to a message is accepted when some format writes its numbers in plain decimal. With plain decimal as the only format, it is accepted exactly when the expected numbers are the message's. |

## Left out

- Threads, executors and synchronisation are not modelled:
  - the crawler's two executor pools, the `Phaser`, `ConcurrentHashMap` and `synchronized`;
  - the `IterativeParallelism` thread branch (thread creation, `join`, interrupt handling);
  - the `ParallelMapper` branch.

  Tasks run one after another, in dispatch order. The `ParallelMapper` branch computes the same per-block results, so it is not modelled separately.
- `WebCrawler.close` and `WebCrawler.main` are not modelled: they shut down pools and parse arguments.
- The other overloads are not modelled separately:
  - `download(url, depth)` is `Download` with no host list;
  - the public `ArraySet` constructors are `New` with an empty collection or with no comparator.
- The `contains`-then-`add` race on the visited set is not modelled; it only matters under concurrency.
- Crawler.WebCrawler.Download: it does not prove completeness, that is, that every URL reachable within the depth is reported. Only soundness and routing are stated.
- Crawler.WebCrawler.constructor: it requires `perHost >= 1`. With a non-positive limit the source never dispatches a task and waits forever at the phaser.
- `newLayer`, a concurrent hash set, is modelled as a duplicate-free sequence in insertion order. The returned `result` is a set, so its order is not modelled.
- The UDP helpers of `hello/Utils.java` are not modelled: `getString`, `setString`, `getBytes`, `createPacket`, `request`, `receive` and `send` are socket I/O.
- `Character.isDigit`, `Character.getNumericValue` and the locale `NumberFormat` list are not modelled. They are parameters: `CharClass` with its stated assumptions, and `formats`.
- The `ArraySet` iterators are not modelled. `iterator()` and `descendingIterator()` are the element sequences `Elements`.
- The `ClassCastException` that `contains` throws for an object of another type is not modelled: arguments are typed.
- `HashMap` iteration order is replaced by ascending key order in the student grouping queries. The result is unaffected where the comparator breaks ties by key (`getLargestGroup`, `getMostPopularName`). `getGroupsByFunction` sorts afterwards.
- ArraySets.SubSetSpec, ArraySets.HeadSetSpec, ArraySets.TailSetSpec, ArraySets.SubSetHalfOpenSpec, ArraySets.DefaultBoundsSpec: these are stated of the corrected `getSubSet`. On a descending view the code as written returns the elements in reverse order (see Findings and `ArraySets.DescendingSubSetAsWritten`); on an ascending set the two agree (`ArraySets.GetSubSetAsWritten`).
- Statistics.StatisticData: its key iteration order is first occurrence in the list. `HashMap` iterates in bucket order. This order decides only which of several tied keys `getMinValue` and `getMaxValue` return, and the fold order of `getReduced`. `Statistics.MinValueSpec`, `Statistics.MaxValueSpec` and `Statistics.GetReducedOrderIndependent` hold for any order.
- Comparators.StringCompare: it compares strings by Unicode scalar values (Dafny `char`). Java's `String.compareTo` compares UTF-16 code units, so the two orders differ when a supplementary character (above U+FFFF) meets a character in U+E000..U+FFFF, for example `"\uFFFF"` against `"\uD800\uDC00"`. This affects `NAME_ID_COMPARATOR`, the sorted first names of `getDistinctFirstNames`, the `minBy` of `findStudentNamesByGroup` and the name tie-break of `getMostPopularName`.
- Statistics.NumberOfAllSpec: it does not model 32-bit `int` overflow of the sum, because the sum equals the list length.
- Parallelism.CountSpec: it does not model 32-bit overflow, because the count is at most the list size.

## Findings

| source | as written | input that shows it | evidently intended | confidence | as-written member | corrected member |
|---|---|---|---|---|---|---|
| java-solutions/info/kgeorgiy/ja/samodelov/arrayset/ArraySet.java:126-135 | `getSubSet` takes `subList` of the already inverted list and wraps it with `isInverted` set again, so a descending view is reversed twice | `descendingSet()` of {1, 2, 3}, then `subSet(3, true, 1, true)`: iterates 1, 2, 3 under the descending comparator | iterates 3, 2, 1, the descending order of the view | not executed | ArraySets.DescendingSubSetAsWritten | ArraySets.GetSubSetSpec |
