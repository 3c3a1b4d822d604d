# A verified model of the algorithms in technopark_cpp

This project models, in Dafny, the algorithmic pieces of the teaching repository and
of the CppUnit copy it carries, and proves what they are for. `dafny verify
dfyconfig.toml` checks everything.

| file | models |
|---|---|
| ShellSort.dfy | `shell_sort`: gapped insertion sort with gaps 1, 4, 13, 40, ... |
| XmlPrinter.dfy | `XmlElement`: escaping and the indented printer |
| XmlScanner.dfy | `XmlUniformiser`: the cursor machine that strips layout |
| XmlRoundTrip.dfy, XmlExactness.dfy | printer and scanner together |
| XmlLayout.dfy | the scanner on texts in any layout, and `XmlDocument::toString` |
| CacheHistory.dfy | what recency means, without a cache |
| FastCache.dfy, SlowCache.dfy | `lru_cache` and `LastUsedCache` |
| CacheSimulation.dfy | the one as the fast form of the other |
| CacheWraps.dfy | runs that wrap the generation counter |
| GrowableArray.dfy, Heap.dfy | `DArray` and the binary max-heap on it |
| Text.dfy | `StringTools::split` and `wrap` |
| TestPaths.dfy | `TestPath` and the searches of `Test` |
| Protectors.dfy | `ProtectorChain`, `DefaultProtector`, `TestCase::run` |
| TestRuns.dfy | `TestComposite`, `RepeatedTest` and the stop flag |
| CaseTraces.dfy | `TestCase::run` as the listeners of a tree see it |
| Clocker.dfy | `ClockerModel` fed with the events of a run |
| SelectServer.dfy | `SelectEngine::manageConnections`, one round a step |
| Options.dfy, Sequences.dfy | optional values and results; distinct elements and first places |

Each file gives the program twice. Functions on values say what an operation computes;
methods and classes are the program's own loops and updates, proved to compute exactly
that. The properties are lemmas about the functions.

The main results:

* **Shell sort.** A pass with one gap never undoes the order made by an earlier pass,
  for any two gaps. In the middle of a pass this is not so (`MidPassLosesOrder`), and
  the bound on the inner loop cannot be had there: it comes from counting, in the array
  as it was when the pass began, the larger elements before an element in its own chain.
  Because p and 3p+1 are coprime, no outer index shifts 27h+9 elements or more, in any
  pass, and all the passes together shift O(n^(3/2)) elements.
* **XML.** Stripping what the printer printed gives the tree's compact form, whatever
  the indent, and comparing two stripped texts is comparing two trees: the texts are
  equal if and only if the trees are, up to spaces around contents. Both hold for
  documents in any layout: with declarations, comments and spaces anywhere between the
  tags, and attributes spaced in any way.
* **Caches.** All along a run the two caches hold the same keys in the same order if
  and only if, wherever the 64-bit generation counter wraps, the new stamp is still above
  those of the other resident keys; both stamps are told from the operations alone. Then
  they evict the same keys and both hold the last n distinct keys inserted. Every run
  that does not use up the 2^64 generations is such a run, however long; a run of one
  key inserted 2^63 times and then another is not, and there is a run that wraps with
  another key resident and is. They differ in the data of a key inserted again.
* **Heap.** Every run refines a priority queue that is a multiset. Making a heap takes
  fewer swaps than there are elements, adding and extracting at most the logarithm, and
  reallocation copies fewer than two slots a push.
* **Paths.** A path's string resolves to the same path if and only if the path is not
  empty, starts at the root, has no separator in a name, and takes at every step the
  first child bearing its name. The search for a test finds the first in preorder.
  Inserting a path of distinct tests into itself works in two places only, and the two
  are named.
* **Runs.** Under every behaviour of the stop flag a run is well bracketed; a stop
  request that stands cuts it off without leaving gaps. With no negative repeat inside
  another, the number of cases counted is the number started if and only if every
  negative repeat has nothing to repeat, or stands in something repeated no times. The
  clocker rebuilds from the events exactly the forest that was executed.
* **Server.** Every call of a run, select included, is legal and every round ends in a
  sound state if and only if the listener fits an fd_set and accept, whenever it is
  called, returns a valid descriptor that fits too and is not in use: then no descriptor
  is used that is not open and none is closed twice. Descriptor 1024 does not fit.

Modelling choices:

* Strings are sequences of characters, each standing for one byte. `isSpace` compares a
  plain char with 33; plain char is taken as signed, as on x86, so bytes from 128 up
  count as spaces.
* `long`, `int` and `size_t` are unbounded, except the 64-bit generations of the slow
  cache, whose wrap-around is modelled. Doubles are reals.
* An exception is a missing value or an error value. Objects that are only compared by
  address carry a number that stands for it.
* FD_SETSIZE is 1024, as on Linux.
* The stop flag, the clock, the kernel, test methods and pushed protectors are
  arbitrary functions; a property holds for all of them unless a row says otherwise.
* Listeners do not throw. The default protector reports from inside its handler, so an
  exception of a listener would get out there.
* `find` in both caches is const, so recency is recency of insertion.
* The header of `TestPath` says that `toString` yields a relative path without a leading
  separator; the code yields an absolute one. The model follows the code.

## Model

| member | source | states |
|---|---|---|
| ShellSort.ShellSort | cmake_make_gtest_cppunit/stack_corr.cpp:8-24 | the in-place program equals the pass-by-pass sort of the input; the result is a sorted permutation, still in order along every gap used; the shifts counted in the inner loop satisfy shifts^2 <= 5837 n^3, and those counted for each single outer index of each pass with gap h are fewer than 27h+9 |
| ShellSort.GapPass | cmake_make_gtest_cppunit/stack_corr.cpp:14-22 | one pass leaves exactly the array, and takes at each outer index and in all exactly the number of shifts, of the functional pass |
| ShellSort.PassKeepsOrder | cmake_make_gtest_cppunit/stack_corr.cpp:13-23 | a pass with gap h on a k-sorted array leaves it h-sorted and still k-sorted, for all h, k and all arrays |
| ShellSort.MidPassLosesOrder | cmake_make_gtest_cppunit/stack_corr.cpp:14-22 | between two outer iterations of a pass the order of an earlier pass can be lost: an array where it is |
| ShellSort.ChainSortKeepsOrder | cmake_make_gtest_cppunit/stack_corr.cpp:13-23 | the reason: sorting each h-chain of a k-sorted sequence, in whatever way, keeps it k-sorted |
| ShellSort.PassAccumulatesOrder | cmake_make_gtest_cppunit/stack_corr.cpp:13-23 | after each pass the array is sorted for every gap used so far |
| ShellSort.PassSorts | cmake_make_gtest_cppunit/stack_corr.cpp:14-22 | a pass h-sorts, permutes, and moves elements only within their h-chains |
| ShellSort.PassKeepsInvariant | cmake_make_gtest_cppunit/stack_corr.cpp:14-22 | what holds between any two outer iterations: sorted prefix chains, untouched suffix, same elements in every chain |
| ShellSort.InsertionSorts | cmake_make_gtest_cppunit/stack_corr.cpp:15-21 | inserting one element into a sorted chain gives a sorted chain one longer |
| ShellSort.ShiftsAtPassStart | cmake_make_gtest_cppunit/stack_corr.cpp:15-21 | the shifts done for an outer index are exactly the larger elements before it in its chain when the pass began |
| ShellSort.Representable | cmake_make_gtest_cppunit/stack_corr.cpp:10-10 | p and 3p+1 reach every distance from 3p(p-1) on, as an explicit non-negative combination |
| ShellSort.ShiftBound | cmake_make_gtest_cppunit/stack_corr.cpp:10-21 | with the orders of the larger gaps in place, a pass with gap h shifts fewer than 27h+9 elements at every outer index |
| ShellSort.EveryShiftBounded | cmake_make_gtest_cppunit/stack_corr.cpp:8-24 | that bound on the array each pass of a sort begins with, including the first two passes, where the length does it |
| ShellSort.Finished | cmake_make_gtest_cppunit/stack_corr.cpp:8-24 | with the last pass done, the shifts counted for every outer index of every pass are below the bound of that pass |
| ShellSort.TotalBound | cmake_make_gtest_cppunit/stack_corr.cpp:8-24 | works bounded that way, over gaps growing by 3h+1, add up to O(n^(3/2)) |
| ShellSort.GapForm | cmake_make_gtest_cppunit/stack_corr.cpp:10-13 | every gap is (3^k - 1)/2 and integer division by 3 retraces the growth |
| ShellSort.SortSorts | cmake_make_gtest_cppunit/stack_corr.cpp:13-23 | the passes from any gap down to 1 give a sorted permutation in order along every gap used |
| ShellSort.SortKeepsPromise | cmake_make_gtest_cppunit/stack_corr.cpp:8-24 | all of this for the gaps the program starts from |
| XmlPrinter.EscapeRoundTrip | cmake_make_gtest_cppunit/3rdparty/cppunit/src/cppunit/XmlElement.cpp:197-227 | reading the five predefined entities back undoes escaping, for every text |
| XmlPrinter.EscapeHidesMarkup | cmake_make_gtest_cppunit/3rdparty/cppunit/src/cppunit/XmlElement.cpp:197-227 | escaped text contains none of < > ' and the double quote |
| XmlPrinter.EscapeText | cmake_make_gtest_cppunit/3rdparty/cppunit/src/cppunit/XmlElement.cpp:197-227 | the loop computes the escaping |
| XmlPrinter.XmlElement.ToString | cmake_make_gtest_cppunit/3rdparty/cppunit/src/cppunit/XmlElement.cpp:131-174 | the string-growing loops and recursion compute the printed form of the tree the objects stand for |
| XmlPrinter.XmlElement.AppendElements | cmake_make_gtest_cppunit/3rdparty/cppunit/src/cppunit/XmlElement.cpp:149-154 | the loop over the children appends their printed forms in order |
| XmlPrinter.XmlElement.AttributesAsString | cmake_make_gtest_cppunit/3rdparty/cppunit/src/cppunit/XmlElement.cpp:177-194 | the attributes in order, escaped, separated by single spaces |
| XmlPrinter.XmlElement.AddElement | cmake_make_gtest_cppunit/3rdparty/cppunit/src/cppunit/XmlElement.cpp:92-96 | appends a child and changes nothing else |
| XmlPrinter.XmlElement.SetName | cmake_make_gtest_cppunit/3rdparty/cppunit/src/cppunit/XmlElement.cpp:55-59 | replaces the name and changes nothing else |
| XmlPrinter.XmlElement.SetContent | cmake_make_gtest_cppunit/3rdparty/cppunit/src/cppunit/XmlElement.cpp:62-66 | replaces the content and changes nothing else |
| XmlPrinter.XmlElement.AddAttribute | cmake_make_gtest_cppunit/3rdparty/cppunit/src/cppunit/XmlElement.cpp:76-81 | appends an attribute and changes nothing else |
| XmlScanner.XmlUniformiser.Uniformise | cmake_make_gtest_cppunit/3rdparty/cppunit/examples/cppunittest/XmlUniformiser.cpp:50-66 | terminates on every text with the cursor exactly at its end, and returns what the functional machine returns |
| XmlScanner.Turn | cmake_make_gtest_cppunit/3rdparty/cppunit/examples/cppunittest/XmlUniformiser.cpp:50-66 | every turn of the outer loop on a non-empty rest makes the rest shorter |
| XmlLayout.StripInstruction | cmake_make_gtest_cppunit/3rdparty/cppunit/examples/cppunittest/XmlUniformiser.cpp:122-129 | a processing instruction, through the first ?>, leaves nothing behind and what follows is read as if it were not there |
| XmlLayout.StripComment | cmake_make_gtest_cppunit/3rdparty/cppunit/examples/cppunittest/XmlUniformiser.cpp:132-139 | the same for a comment, through the first --> |
| XmlLayout.StripUnended | cmake_make_gtest_cppunit/3rdparty/cppunit/examples/cppunittest/XmlUniformiser.cpp:122-139 | an instruction or comment that does not end takes the rest of the text with it |
| XmlLayout.ReadLoose | cmake_make_gtest_cppunit/3rdparty/cppunit/examples/cppunittest/XmlUniformiser.cpp:159-217 | attributes spaced in any way, also names without a value, are copied with one space for those before a name, none around the equals sign, and one behind a name without a value |
| XmlLayout.StripLooseTag | cmake_make_gtest_cppunit/3rdparty/cppunit/examples/cppunittest/XmlUniformiser.cpp:142-217 | a tag with such attributes |
| XmlScanner.TrimEndIs | cmake_make_gtest_cppunit/3rdparty/cppunit/examples/cppunittest/XmlUniformiser.cpp:229-236 | what is left after trimming is the longest prefix that ends in no space, but never empty unless the text is |
| XmlScanner.SpaceIsSigned | cmake_make_gtest_cppunit/3rdparty/cppunit/examples/cppunittest/XmlUniformiser.cpp:77-81 | a byte is a space if it is below 33 as a signed number |
| XmlScanner.CopyAttribute | cmake_make_gtest_cppunit/3rdparty/cppunit/examples/cppunittest/XmlUniformiser.cpp:159-184 | every turn of the attribute loop on a non-empty rest makes the rest shorter |
| XmlScanner.SkipThrough | cmake_make_gtest_cppunit/3rdparty/cppunit/examples/cppunittest/XmlUniformiser.cpp:122-139 | skipping through a mark makes progress and stays within the text |
| XmlScanner.FindIsFirst | cmake_make_gtest_cppunit/3rdparty/cppunit/examples/cppunittest/XmlUniformiser.cpp:122-139 | the place skipped to is the first occurrence of the mark, or the end |
| XmlScanner.LenIs | cmake_make_gtest_cppunit/3rdparty/cppunit/examples/cppunittest/XmlUniformiser.cpp:150-199 | a copied run is the longest stretch without a stopping character |
| XmlScanner.XmlUniformiser.CopyElementAttributes | cmake_make_gtest_cppunit/3rdparty/cppunit/examples/cppunittest/XmlUniformiser.cpp:159-184 | the do-while loop computes the functional attribute copy and keeps the cursor in range |
| XmlScanner.XmlUniformiser.SkipMarked | cmake_make_gtest_cppunit/3rdparty/cppunit/examples/cppunittest/XmlUniformiser.cpp:122-139 | the loops over processing instructions and comments compute the functional skip |
| XmlScanner.XmlUniformiser.CopyRun | cmake_make_gtest_cppunit/3rdparty/cppunit/examples/cppunittest/XmlUniformiser.cpp:150-156 | the copying loops append exactly the run and advance past it |
| XmlScanner.XmlUniformiser.StartsWith | cmake_make_gtest_cppunit/3rdparty/cppunit/examples/cppunittest/XmlUniformiser.cpp:114-119 | the substring comparison is a prefix test, and its substring call is in range |
| XmlScanner.XmlUniformiser.RemoveTrailingSpaces | cmake_make_gtest_cppunit/3rdparty/cppunit/examples/cppunittest/XmlUniformiser.cpp:229-236 | trailing spaces go, but never the first character |
| XmlRoundTrip.ScannerCancelsPrinter | cmake_make_gtest_cppunit/3rdparty/cppunit/examples/cppunittest/XmlUniformiser.cpp:50-236 | stripping the printed form of any tree with scannable names, at any whitespace indent, gives exactly its compact form |
| XmlRoundTrip.StripPrinted | cmake_make_gtest_cppunit/3rdparty/cppunit/examples/cppunittest/XmlUniformiser.cpp:50-236 | the same in any context: with layout before it, text after it and output so far |
| XmlRoundTrip.StripTag | cmake_make_gtest_cppunit/3rdparty/cppunit/examples/cppunittest/XmlUniformiser.cpp:142-217 | a tag with any escaped attributes is copied as it is |
| XmlRoundTrip.StripContent | cmake_make_gtest_cppunit/3rdparty/cppunit/examples/cppunittest/XmlUniformiser.cpp:220-236 | content is copied without the spaces around it |
| XmlRoundTrip.PrintShape | cmake_make_gtest_cppunit/3rdparty/cppunit/src/cppunit/XmlElement.cpp:131-174 | the printed form is indent, start tag, inner text, end tag and line break |
| XmlExactness.ComparisonIsExact | cmake_make_gtest_cppunit/3rdparty/cppunit/examples/cppunittest/XmlUniformiser.cpp:18-39 | two printed trees, at any indents, strip to the same text if and only if they are equal up to spaces around contents |
| XmlLayout.LayoutIsIgnored | cmake_make_gtest_cppunit/3rdparty/cppunit/examples/cppunittest/XmlUniformiser.cpp:50-236 | a tree written with instructions, comments and spaces anywhere between its tags strips to its compact form |
| XmlLayout.DocumentComparisonIsExact | cmake_make_gtest_cppunit/3rdparty/cppunit/examples/cppunittest/XmlUniformiser.cpp:18-39 | two such documents strip to the same text if and only if their trees are equal up to spaces around contents |
| XmlLayout.PrologueIsIgnored | cmake_make_gtest_cppunit/3rdparty/cppunit/examples/cppunittest/XmlUniformiser.cpp:50-236 | instructions and comments before a printed tree leave only the tree |
| XmlLayout.DocumentIsItsTree | cmake_make_gtest_cppunit/3rdparty/cppunit/src/cppunit/XmlDocument.cpp:84-100 | a document as the program writes it, with declaration and style sheet, strips to the compact form of its tree |
| XmlLayout.DocumentIsUnique | cmake_make_gtest_cppunit/3rdparty/cppunit/src/cppunit/XmlDocument.cpp:84-100 | two documents written alike have the same encoding, style sheet and standalone flag, and trees equal up to spaces around contents |
| XmlPrinter.PrintIsLines | cmake_make_gtest_cppunit/3rdparty/cppunit/src/cppunit/XmlElement.cpp:131-174 | the printed form as lines: each at its depth, start tag, children, content and end tag in this order, or all on one line without children |
| XmlExactness.CompactUnique | cmake_make_gtest_cppunit/3rdparty/cppunit/src/cppunit/XmlElement.cpp:131-227 | compact forms followed by anything can be read in one way only |
| XmlExactness.TrimEscape | cmake_make_gtest_cppunit/3rdparty/cppunit/src/cppunit/XmlElement.cpp:197-227 | trimming and escaping commute |
| FastCache.LruCache.Insert | examples/039_good_lru_cache.cpp:40-60 | the list, map and stored nodes after an insertion; every stored node denotes the one list node with its key |
| FastCache.LruCache.Find | examples/039_good_lru_cache.cpp:27-38 | finds exactly the resident keys, with their data, and changes nothing |
| FastCache.LruCache.Size | examples/039_good_lru_cache.cpp:62-62 | the number of resident keys, within the capacity |
| FastCache.LruCache.Clear | examples/039_good_lru_cache.cpp:66-69 | empties list and map |
| FastCache.InsertKeepsForm | examples/039_good_lru_cache.cpp:40-60 | distinct keys in the list, the same keys in the map, never more than the capacity |
| FastCache.RefreshLinks | examples/039_good_lru_cache.cpp:55-58 | re-inserting a resident key leaves every stored node denoting the one list node with its key |
| FastCache.RunList | examples/039_good_lru_cache.cpp:40-69 | after any run the list is the last n distinct keys inserted since the last clear, most recent first |
| FastCache.RunData | examples/039_good_lru_cache.cpp:40-69 | after any run each resident key maps to the data inserted last |
| CacheHistory.RecencyOrder | examples/039_good_lru_cache.cpp:40-69 | the reference order: each key since the last clear once, by decreasing place of its last insertion |
| CacheHistory.TakeWithout | examples/039_good_lru_cache.cpp:50-58 | the first n keys of the full recency order evolve without knowledge of the rest |
| SlowCache.LastUsedCache.Insert | examples/038_bad_lru_cache.cpp:34-58 | generations advance modulo 2^64, a resident key only gets a new stamp, and a record with the least stamp leaves |
| SlowCache.LastUsedCache.EraseOldest | examples/038_bad_lru_cache.cpp:42-53 | the two scans erase a record with the least generation, in whatever order the map is walked |
| SlowCache.LastUsedCache.Find | examples/038_bad_lru_cache.cpp:22-32 | finds exactly the resident keys, with their data |
| SlowCache.LastUsedCache.Clear | examples/038_bad_lru_cache.cpp:64-64 | empties the map and keeps the generation |
| CacheSimulation.Simulation | examples/038_bad_lru_cache.cpp:34-64 | over every run in step the slow cache's keys by descending generation are the fast cache's list, and counter and stamps are those told from the operations |
| CacheSimulation.RunAgreesIff | examples/038_bad_lru_cache.cpp:34-64 | the caches are in the same order after every operation of a run if and only if, wherever the counter wraps, it wraps to a stamp above those of the other resident keys; the condition speaks of the operations only |
| CacheSimulation.FewStampsInStep | examples/038_bad_lru_cache.cpp:34-64 | a run that uses fewer than 2^64 generations, one for a new key and two for a resident one, meets that condition, however long it is |
| CacheSimulation.NoWrapIff | examples/038_bad_lru_cache.cpp:36-55 | the counter wraps nowhere in a run if and only if the run uses fewer than 2^64 generations |
| CacheSimulation.SameEvictions | examples/039_good_lru_cache.cpp:48-54 | at every step of a run in step both caches hold the same keys and evict the same ones |
| CacheSimulation.StepAgrees | examples/038_bad_lru_cache.cpp:34-64 | each operation in which the counter does not wrap keeps the two caches in agreement and advances the counter by what the operation costs |
| CacheSimulation.FindAfterRun | examples/038_bad_lru_cache.cpp:22-58 | after every run in step both caches find the last n distinct keys; the fast one returns the data inserted last, the slow one the data of the insertion that brought the key in |
| CacheSimulation.InsertAgreesIff | examples/038_bad_lru_cache.cpp:36-57 | from agreeing states, an insertion of any key into caches of any fill keeps the order the same if and only if the counter does not wrap in it or the wrapped stamp is above those of the other keys; the counter wraps if and only if what the insertion costs is not left |
| CacheSimulation.FirstWrapAgreesIff | examples/038_bad_lru_cache.cpp:36-57 | as long as no stamp is zero: if and only if the counter does not wrap or no other key is resident |
| CacheSimulation.WrapIsSurvived | examples/038_bad_lru_cache.cpp:54-57 | with another key stamped zero, a refresh from the last generation wraps to one and the order stays the same although another key is resident |
| CacheSimulation.FullInsertAgreesIff | examples/038_bad_lru_cache.cpp:36-53 | in particular, inserting a new key into full caches leaves the same keys if and only if the generation counter does not wrap |
| CacheSimulation.RefreshWrapParts | examples/038_bad_lru_cache.cpp:54-57 | a re-insertion that wraps to zero leaves the keys alone, but after one more new key the refreshed key is in the fast cache and not in the slow one |
| CacheWraps.AgainStamps | examples/038_bad_lru_cache.cpp:36-57 | inserting one key m times uses up 2m-1 generations |
| CacheWraps.WrapIsReached | examples/038_bad_lru_cache.cpp:34-57 | for every capacity there is a run from construction that wraps the counter and leaves the caches in different orders |
| CacheWraps.SurvivedWrapIsReached | examples/038_bad_lru_cache.cpp:34-64 | a run from construction, for every capacity above one, whose last step wraps the counter to one while another key is resident with the stamp zero: it is in step, and the caches are in the same order all along |
| SlowCache.RunExists | examples/038_bad_lru_cache.cpp:34-64 | every sequence of operations has a run of the slow cache |
| GrowableArray.DArray.PushBack | cmake_make_gtest_cppunit/DArray.cpp:45-51 | appends the value across any reallocation; size, capacity and the copies counted are those of the growth step |
| GrowableArray.DArray.PopBack | cmake_make_gtest_cppunit/DArray.cpp:53-58 | removes and returns the last value; an empty array is the exception |
| GrowableArray.DArray.Reallocate | cmake_make_gtest_cppunit/DArray.cpp:35-43 | doubles the buffer, keeps every slot and counts one copy a slot |
| GrowableArray.RunAmortised | cmake_make_gtest_cppunit/DArray.cpp:35-58 | over every run of pushes and pops the capacity is c times a power of two, the slots copied are the capacity minus c, and fewer than two per push |
| Heap.SiftDownAt | cmake_make_gtest_cppunit/Heap.cpp:8-21 | the recursion computes the functional sift, and the swaps it counts are at most the height of the tree |
| Heap.SiftDownRestores | cmake_make_gtest_cppunit/Heap.cpp:8-21 | sifting down closes a hole in an otherwise ordered heap, at any depth |
| Heap.SiftUpFrom | cmake_make_gtest_cppunit/Heap.cpp:24-33 | the loop computes the functional sift, and the swaps it counts are at most the height of the tree |
| Heap.SiftUpRestores | cmake_make_gtest_cppunit/Heap.cpp:24-33 | sifting up levels a bump in an otherwise ordered heap |
| Heap.MakeHeapOf | cmake_make_gtest_cppunit/Heap.cpp:36-40 | makes a heap of any array, in place, with fewer swaps than elements |
| Heap.AddElement | cmake_make_gtest_cppunit/Heap.cpp:42-45 | adds the element, keeps heap order, and costs one push and at most the height in swaps |
| Heap.ExtractMaximum | cmake_make_gtest_cppunit/Heap.cpp:47-58 | returns a maximum of a heap and leaves a heap of the rest, with at most the height in swaps; an empty array is the exception |
| Heap.Maximum | cmake_make_gtest_cppunit/Heap.cpp:60-65 | returns a maximum of a heap and changes nothing |
| Heap.MakeIsLinear | cmake_make_gtest_cppunit/Heap.cpp:36-40 | the sifts of MakeHeap together do fewer swaps than the array has elements |
| Heap.LevelsBounded | cmake_make_gtest_cppunit/Heap.cpp:36-40 | the levels below all places of an array of n elements add up to less than n |
| Heap.SwapsDownBounded | cmake_make_gtest_cppunit/Heap.cpp:8-21 | a sift down does at most as many swaps as there are levels below its place |
| Heap.SwapsUpBounded | cmake_make_gtest_cppunit/Heap.cpp:24-33 | a sift up does at most as many swaps as there are levels above its place |
| Heap.HeightIsLog | cmake_make_gtest_cppunit/Heap.cpp:8-33 | the height of n elements is the binary logarithm of n, rounded down |
| Heap.StepRefines | cmake_make_gtest_cppunit/Heap.cpp:8-65 | each call, seen on the multiset of elements, is a call of a priority queue |
| Heap.RunRefines | cmake_make_gtest_cppunit/Heap.cpp:8-65 | every run on a heap, or on any array if it begins with MakeHeap, returns what the priority queue returns and ends in a heap |
| Heap.HeapSort | cmake_make_gtest_cppunit/Heap.cpp:36-58 | draining any array after MakeHeap gives a non-increasing permutation of it |
| Text.Split | cmake_make_gtest_cppunit/3rdparty/cppunit/src/cppunit/StringTools.cpp:27-47 | joining the pieces gives the text back, and no piece contains the separator |
| Text.JoinPieces | cmake_make_gtest_cppunit/3rdparty/cppunit/src/cppunit/StringTools.cpp:27-47 | cutting and joining are inverse on every text |
| Text.PiecesJoin | cmake_make_gtest_cppunit/3rdparty/cppunit/src/cppunit/StringTools.cpp:27-47 | joining and cutting are inverse on every non-empty list of separator-free pieces |
| Text.Wrap | cmake_make_gtest_cppunit/3rdparty/cppunit/src/cppunit/StringTools.cpp:50-76 | the nested loops compute the wrapped text |
| Text.LinesOfWrapped | cmake_make_gtest_cppunit/3rdparty/cppunit/src/cppunit/StringTools.cpp:50-76 | the lines of the wrapped text are the lines of the text, each cut every c characters |
| Text.ChunksAreFull | cmake_make_gtest_cppunit/3rdparty/cppunit/src/cppunit/StringTools.cpp:50-76 | all chunks of a line but the last have exactly c characters, and only an empty line has an empty one |
| Text.WrapPromise | cmake_make_gtest_cppunit/3rdparty/cppunit/src/cppunit/StringTools.cpp:50-76 | lines of at most c characters, the same text when line breaks are deleted, and idempotence |
| TestPaths.SearchIsFirstInPreorder | cmake_make_gtest_cppunit/3rdparty/cppunit/src/cppunit/Test.cpp:31-78 | the search succeeds if and only if some test of the subtree matches, and then gives the chain to the first match in preorder |
| TestPaths.FindTestPath | cmake_make_gtest_cppunit/3rdparty/cppunit/src/cppunit/Test.cpp:31-78 | for any initial path: a failed search leaves it alone, a successful one puts the ancestors in front of it and the match behind it |
| TestPaths.PathRoundTrip | cmake_make_gtest_cppunit/3rdparty/cppunit/src/cppunit/TestPath.cpp:46-74 | for every path: its string resolves to that path if and only if it is not empty, has no separator in a name, starts at the root, and every step is the first child bearing its name |
| TestPaths.SplitPathString | cmake_make_gtest_cppunit/3rdparty/cppunit/src/cppunit/TestPath.cpp:192-255 | cutting the string of a path gives its names and says it is absolute |
| TestPaths.RelativeResolution | cmake_make_gtest_cppunit/3rdparty/cppunit/src/cppunit/TestPath.cpp:207-226 | if some test bears the first name of a relative string, the string resolves to a path if and only if the path starts at the first such test in preorder, bears the names and takes first children |
| TestPaths.RelativeFailure | cmake_make_gtest_cppunit/3rdparty/cppunit/src/cppunit/TestPath.cpp:207-226 | a relative string fails for want of a test if and only if no test of the tree bears its first name |
| TestPaths.DescendIff | cmake_make_gtest_cppunit/3rdparty/cppunit/src/cppunit/TestPath.cpp:55-73 | the child-by-child resolution of a path's names returns that path if and only if each step is a first child |
| TestPaths.DescendExactly | cmake_make_gtest_cppunit/3rdparty/cppunit/src/cppunit/TestPath.cpp:55-73 | resolution of any names gives a path if and only if the path starts at the test, bears the names and takes first children |
| TestPaths.FirstChildIs | cmake_make_gtest_cppunit/3rdparty/cppunit/src/cppunit/TestPath.cpp:59-68 | the search among the children finds the first that bears the name, and fails if and only if none does |
| TestPaths.DescendFails | cmake_make_gtest_cppunit/3rdparty/cppunit/src/cppunit/TestPath.cpp:55-73 | a failed resolution names the first name that no child bears, behind a path of first children |
| TestPaths.AbsoluteResolution | cmake_make_gtest_cppunit/3rdparty/cppunit/src/cppunit/TestPath.cpp:46-74 | the empty string resolves to the root; an absolute one to the path from the root through first children, and to the mismatch error if and only if the root does not bear the first name |
| TestPaths.MatchesIff | cmake_make_gtest_cppunit/3rdparty/cppunit/src/cppunit/Test.cpp:31-78 | a test answers to its own name and address and to no other |
| TestPaths.WindowIs | cmake_make_gtest_cppunit/3rdparty/cppunit/src/cppunit/TestPath.cpp:23-43 | the window holds exactly the valid places among those asked for, in order |
| TestPaths.SplicedIs | cmake_make_gtest_cppunit/3rdparty/cppunit/src/cppunit/TestPath.cpp:119-135 | after a splice the items stand from the index on and what was there stands behind them |
| TestPaths.ResolvePath | cmake_make_gtest_cppunit/3rdparty/cppunit/src/cppunit/TestPath.cpp:46-74 | the loops of the string constructor and findActualRoot compute the resolution, with its errors |
| TestPaths.SplitPathText | cmake_make_gtest_cppunit/3rdparty/cppunit/src/cppunit/TestPath.cpp:229-255 | the loop computes the cut |
| TestPaths.TestPath.ToString | cmake_make_gtest_cppunit/3rdparty/cppunit/src/cppunit/TestPath.cpp:192-204 | the loop computes the path string |
| TestPaths.TestPath.Slice | cmake_make_gtest_cppunit/3rdparty/cppunit/src/cppunit/TestPath.cpp:23-43 | the slice is the requested window cut down to valid places, for all indices and counts including negative ones |
| TestPaths.TestPath.Insert | cmake_make_gtest_cppunit/3rdparty/cppunit/src/cppunit/TestPath.cpp:119-126 | inserts at an index in range, refuses any other |
| TestPaths.TestPath.InsertPath | cmake_make_gtest_cppunit/3rdparty/cppunit/src/cppunit/TestPath.cpp:128-135 | splices another path in at an index, and can refuse only a non-empty one; inserting a path into itself inserts what the loop then reads |
| TestPaths.SelfInsertIff | cmake_make_gtest_cppunit/3rdparty/cppunit/src/cppunit/TestPath.cpp:128-135 | a path of distinct tests inserted into itself is spliced in if and only if it goes to the end or just before the last test |
| Protectors.ProtectorChain.Protect | cmake_make_gtest_cppunit/3rdparty/cppunit/src/cppunit/ProtectorChain.cpp:67-92 | the functors built in the downward loop call what the nested composition calls, with the first protector outermost |
| Protectors.DefaultReportsOnce | cmake_make_gtest_cppunit/3rdparty/cppunit/src/cppunit/DefaultProtector.cpp:9-39 | a call that returns goes through; one that throws gives false and exactly one report: a failure for an assertion, an error for any other exception, with the phase and the exception |
| Protectors.NothingEscapes | cmake_make_gtest_cppunit/3rdparty/cppunit/src/cppunit/DefaultProtector.cpp:9-39 | with the default protector first, no exception of any functor or protector gets out |
| Protectors.OutermostFirst | cmake_make_gtest_cppunit/3rdparty/cppunit/src/cppunit/ProtectorChain.cpp:67-92 | the first protector is called first, with the functor in which the others wait |
| Protectors.PushedIsInnermost | cmake_make_gtest_cppunit/3rdparty/cppunit/src/cppunit/ProtectorChain.cpp:46-50 | a pushed protector is wrapped directly around the functor, inside all others |
| Protectors.RunTestCase | cmake_make_gtest_cppunit/3rdparty/cppunit/src/cppunit/TestCase.cpp:51-100 | the program performs the steps of the functional case run |
| Protectors.CaseRunIsContained | cmake_make_gtest_cppunit/3rdparty/cppunit/src/cppunit/TestCase.cpp:51-100 | under the default protector every case run calls setUp, runTest exactly if setUp reported success, and tearDown exactly once, each on the state the one before left, and ends with endTest |
| Protectors.EscapeCutsShort | cmake_make_gtest_cppunit/3rdparty/cppunit/src/cppunit/TestCase.cpp:51-100 | under any other chain an exception that escapes ends the run where it stands, without what comes later |
| Protectors.DefaultCaseRun | cmake_make_gtest_cppunit/3rdparty/cppunit/src/cppunit/DefaultProtector.cpp:9-39 | under the default protector alone: setUp, runTest if setUp ended, tearDown, each adding one report if it throws, a failure or an error by its exception |
| Protectors.CaseIsBracketed | cmake_make_gtest_cppunit/3rdparty/cppunit/src/cppunit/TestCase.cpp:51-100 | under the default protector the listeners are told that the case started, then of its failures and errors, then that it finished, whatever is thrown |
| CaseTraces.CaseRunIsCase | cmake_make_gtest_cppunit/3rdparty/cppunit/src/cppunit/TestCase.cpp:51-100 | so a case run under the default protector is, for the listeners, a case of the tree with as many failures as were reported |
| TestRuns.RunIsWellBracketed | cmake_make_gtest_cppunit/3rdparty/cppunit/src/cppunit/TestComposite.cpp:19-66 | every run of every tree, under every behaviour of the stop flag, emits a well-bracketed trace |
| TestRuns.RunAllStops | cmake_make_gtest_cppunit/3rdparty/cppunit/src/cppunit/TestComposite.cpp:55-66 | a loop over children runs each after a no, asks next what follows that run, and after its first yes runs none of the rest, even if the flag is reset |
| TestRuns.RunTimesIsRunAll | cmake_make_gtest_cppunit/3rdparty/cppunit/src/cppunit/RepeatedTest.cpp:15-26 | a repeated test runs as a loop over that many copies of it |
| TestRuns.RunStartsCounted | cmake_make_gtest_cppunit/3rdparty/cppunit/src/cppunit/TestComposite.cpp:28-66 | with non-negative repeats no run starts more cases than countTestCases, and one never asked to stop starts exactly that many |
| TestRuns.RepeatCountsIff | cmake_make_gtest_cppunit/3rdparty/cppunit/src/cppunit/RepeatedTest.cpp:7-26 | for a repeated test with non-negative repeats inside, countTestCases is the number of cases an undisturbed run starts if and only if the repeat is not negative or there is nothing to repeat |
| TestRuns.CountIsRightIff | cmake_make_gtest_cppunit/3rdparty/cppunit/src/cppunit/RepeatedTest.cpp:7-26 | in any tree with no negative repeat inside a negative one, countTestCases is never more than an undisturbed run starts, and equal if and only if every negative repeat has nothing to repeat or stands in something repeated no times |
| TestRuns.DoubleNegativeMiscounts | cmake_make_gtest_cppunit/3rdparty/cppunit/src/cppunit/RepeatedTest.cpp:7-26 | with one negative repeat inside another the count is too high |
| TestRuns.NegativeRepeatMiscounts | cmake_make_gtest_cppunit/3rdparty/cppunit/src/cppunit/RepeatedTest.cpp:7-26 | with a negative repeat count the bound fails |
| TestRuns.RunStartsAtMost | cmake_make_gtest_cppunit/3rdparty/cppunit/src/cppunit/RepeatedTest.cpp:15-26 | a run never asked to stop starts exactly the cases of the tree, in order; no other starts more |
| TestRuns.RunTruncates | cmake_make_gtest_cppunit/3rdparty/cppunit/src/cppunit/TestComposite.cpp:55-66 | a stop request that stands cuts the run off: the cases started are a prefix of all the cases |
| TestRuns.RunTest | cmake_make_gtest_cppunit/3rdparty/cppunit/src/cppunit/TestComposite.cpp:19-25 | the program emits the trace and asks the questions of the functional run |
| TestRuns.RunChildTests | cmake_make_gtest_cppunit/3rdparty/cppunit/src/cppunit/TestComposite.cpp:55-66 | the loop with its break does the same for the children |
| TestRuns.RunRepeatedly | cmake_make_gtest_cppunit/3rdparty/cppunit/src/cppunit/RepeatedTest.cpp:15-26 | the loop with its break does the same for repeats |
| Clocker.Reconstruction | cmake_make_gtest_cppunit/3rdparty/cppunit/examples/ClockerPlugIn/ClockerModel.cpp:29-63 | fed the events of any run, with any clock, the machine ends with nothing open, exactly the preorder records of the executed forest, and a total that is the sum of the case times |
| Clocker.PreorderNumbering | cmake_make_gtest_cppunit/3rdparty/cppunit/examples/ClockerPlugIn/ClockerModel.cpp:29-50 | children have higher numbers and paths one longer than their parents; every record is a root or has exactly one parent |
| Clocker.ReadBackRun | cmake_make_gtest_cppunit/3rdparty/cppunit/examples/ClockerPlugIn/ClockerListener.cpp:83-103 | following the child numbers from each root gives back the executed trees |
| Clocker.RunTrace | cmake_make_gtest_cppunit/3rdparty/cppunit/src/cppunit/TestComposite.cpp:19-66 | the events of a run are the events of the forest it executes |
| Clocker.CaseExit | cmake_make_gtest_cppunit/3rdparty/cppunit/examples/ClockerPlugIn/ClockerModel.cpp:53-63 | when a case is left, the record entered last is the one on top of the stack |
| Clocker.FeedAll | cmake_make_gtest_cppunit/3rdparty/cppunit/examples/ClockerPlugIn/ClockerModel.cpp:29-63 | feeding a forest from any state adds its records and links and leaves the stack and path as they were |
| Clocker.ClockerModel.EnterTest | cmake_make_gtest_cppunit/3rdparty/cppunit/examples/ClockerPlugIn/ClockerModel.cpp:29-50 | enters a record under the open one; the index of a test stays that of its first record |
| Clocker.ClockerModel.ExitTest | cmake_make_gtest_cppunit/3rdparty/cppunit/examples/ClockerPlugIn/ClockerModel.cpp:53-63 | closes the open record and adds the time of the last one to the total |
| Clocker.ClockerModel.IndexOf | cmake_make_gtest_cppunit/3rdparty/cppunit/examples/ClockerPlugIn/ClockerModel.cpp:124-131 | the first record of a test, or -1 if and only if it has none |
| SelectServer.RoundIsSafe | net/libtpevent/src/select.cpp:20-94 | from a sound state a round makes only legal calls, select on the open descriptors among them, and ends in a sound state if and only if accept, when called, returns a valid descriptor that is below FD_SETSIZE and not open |
| SelectServer.ReadingRoundClients | net/libtpevent/src/select.cpp:35-94 | after a reading round the listener is left and, in the order they had, exactly the clients that were not ready or sent data |
| SelectServer.ReadingRoundCalls | net/libtpevent/src/select.cpp:35-94 | each ready client is read once, answered right after the reading if and only if data came, and closed once if and only if the reading failed or found the connection closed; the closes come last |
| SelectServer.OtherRounds | net/libtpevent/src/select.cpp:20-56 | an accepting round adds the new client at the end; a round without an answer changes nothing; select is handed the listener and all clients with a bound one above the highest |
| SelectServer.BrokenIsLast | net/libtpevent/src/select.cpp:32-35 | once select has failed, nothing more is asked |
| SelectServer.RunIsSafe | net/libtpevent/src/select.cpp:20-94 | over every honest run no descriptor is watched, read, written or closed that is not open, every set handed to select holds its descriptors, and the stored descriptors stay distinct, the open ones, with the listener in slot 0 |
| SelectServer.RunIsSafeIff | net/libtpevent/src/select.cpp:20-94 | a run is safe after each of its rounds if and only if accept, whenever called, succeeded with a descriptor that was below FD_SETSIZE and not open |
| SelectServer.ServerIsSafe | net/libtpevent/src/select.cpp:16-95 | the same equivalence from the state in which the loop is entered, with the listener itself below FD_SETSIZE |
| SelectServer.OversizedIsIllegal | net/libtpevent/src/select.cpp:17-33 | an accepted descriptor of FD_SETSIZE or more is stored, and the next round, whatever the kernel answers, overruns the set |
| SelectServer.OversizedInput | net/libtpevent/src/select.cpp:17-33 | descriptor 1024 for the first client of a server that listens on 3 |
| SelectServer.SelectEngine.Round | net/libtpevent/src/select.cpp:20-94 | one turn of the loop stores the next clients and makes the calls of the functional round |
| SelectServer.SelectEngine.Watched | net/libtpevent/src/select.cpp:22-33 | the set handed to select holds the listener and every client, the bound is one above the highest of them, and it is within FD_SETSIZE if and only if all of them are |
| SelectServer.SelectEngine.Scan | net/libtpevent/src/select.cpp:39-81 | the scan accepts and stops if the listener is ready, and otherwise reads every ready client and lists those to drop |
| SelectServer.SelectEngine.RemoveDisconnected | net/libtpevent/src/select.cpp:83-93 | every listed client is found, closed and erased; the source's assertion holds |

## Left out

- GrowableArray.DArray.constructor: requires a capacity of at least one, because with zero the first push writes past the buffer.
- Text.Wrap: requires a column of at least one, because with zero the loop never ends and a negative one steps backwards.
- XmlRoundTrip.ScannerCancelsPrinter: names must be free of spaces and `>` (attribute names also of `=`) and element names must not begin with `?` or `!--`, because the printer does not escape names.
- XmlExactness.ComparisonIsExact: element names must also not begin with `/`, because such a start tag is an end tag.
- XmlLayout.LayoutIsIgnored: the text of an element is taken to stand in one piece behind its children, as the printer writes it, and each attribute to have a space before it; without one the scanner emits none, as `ReadLoose` says.
- XmlLayout.DocumentIsItsTree: encoding and style sheet must not contain `?>`, because the program does not escape them; for the same reason `DocumentIsUnique` excludes the quotes that end them.
- XmlPrinter.XmlElement.AddElement: the child must be complete when it is added, because a parent's value is not recomputed when a child changes later; a child that contains the parent is excluded, because printing it would not end.
- Protectors.ProtectorChain.Pop: requires a non-empty chain, because the source takes the last element without a test.
- Clocker.ClockerModel.ExitTest: requires an open test, because the source takes the top of the stack without a test.
- CaseTraces.CaseRunIsCase: test methods and the other protectors of the chain are taken to tell the listeners nothing but failures and errors, because a method that calls startTest itself would break any bracketing.
- SelectServer.SelectEngine.Round: models the descriptors but not the bytes read, the terminator written behind them (which a read of all 256 bytes puts past the buffer), the trimming of line ends (which looks before the first character of an empty text) or the echoed text.
- The bounds-checked access of DArray, the destructors and the pairing of malloc, new and delete.
- LinkedList, Stack and Queue: the list does not keep its head and tail, and the other two hold only easy members.
- Adding a path to itself, which never ends, the removal of tests from a path, the queries of the clocker that only read one field, and the listeners' lists in TestResult.
- The wrapping suite of TestRunner, outputters, plug-ins, registries, assertion macros and the command line parser.
- The poll, epoll and asynchronous engines, sockets, and the other network programs.
- The language demonstrations in examples/ and the programs with deliberate memory errors.
- Width of `int` and `long` in shell_sort, and rounding of doubles in the clocker.
