# libnica: hashmap, INI parser and list

A Dafny model of three parts of libnica and proofs about it.

* **The chained hashmap** (`src/hashmap.c`). `HashMap.dfy` has the linked entries on the heap and the C
  functions as methods that update them in place; every method is proved against the value-level
  operations of `States.dfy` (a table is a sequence of chains, a chain a sequence of slots). About those
  operations the other files prove what the library is for: agreement with a mathematical map over every
  sequence of calls (`Refinement.dfy`, with `PointerKeys.dfy` for the default callbacks and `StringKeys.dfy` for string contents), meaning-preserving
  resizes (`States.dfy`), iteration with removals in between (`Iteration.dfy`), ownership, amortised
  resize cost, counter width and chain length (`Accounts.dfy`). `Runs.dfy` drives the methods over whole
  sequences of calls and proves that they go through the states, and give the answers, of those theorems.
* **The INI parser** (`src/inifile.c`). `Trim.dfy` has the in-place trimming of C strings in character
  buffers, `IniSpec.dfy` the parse as a fold over lines, `IniParser.dfy` the line loop over buffers and
  nested section maps, proved equal to the fold. `IniErrors.dfy` tells from the texts of the lines alone
  which line a parse stops at and with which number. `IniSpec.dfy`, `IniLayout.dfy` and `IniRoundTrip.dfy`
  prove merging, first-failure reporting, layout invariance and the round trip.
* **The list** (`src/list.c`), whose size and tail live on the current head, in `NcList.dfy`.

`Callbacks.dfy` states what the map assumes of its hash and comparison callbacks and proves that the
stock ones of `src/include/nica/hashmap.h` meet it. Pointers are addresses. What a string pointer points
at is part of each call: an address may carry another string in the next one, as a reused lookup buffer or
a key that was freed and allocated again does, as long as nobody rewrites a key while the map holds it.
Cleanup callbacks are modelled by the record of the pointers handed to them.

## Where the code and its intent differ

Two places compute something other than what the library promises. Both are modelled as written, with
the corrected form beside them.

* **Relinking a reused entry** (`src/hashmap.c:164-166`). When an insertion reuses a free entry that is
  not the last of its chain, the last entry's `next` is pointed back at it and the chain becomes a circle.
  `Relinking.dfy` proves when this happens: the chain still ends exactly when the key is already there, or
  no entry is free, or the last free entry ends the chain. Otherwise a lookup of any key the bucket does
  not hold never returns. Sequences of calls in which every put meets that guard go through the states of
  the intended code, so every theorem about `States` holds of them; sequences without removals always
  meet it, and a put, put, remove, put of two colliding keys does not. `HashMap.NcHashmap` takes the
  linking rule as a parameter.
* **Trailing blanks of a value** (`src/inifile.c:107-123`). The scan for trailing blanks starts at a
  length that leaves out the leading blanks. `Trim.ChewExact` gives the exact condition, over all strings,
  under which the result is the trimmed string; `key =  a b` (two blanks) is a value it truncates, to the
  empty string. The parser takes the scan as a parameter; the round trip holds with the code as written.

## Model

| member | source | states |
|---|---|---|
| `Callbacks.StringHash` | src/include/nica/hashmap.h:85-95 | the loop returns the DJB hash, which is 5381\*33^n plus the sum of c_i\*33^(n-1-i) modulo 2^32 with sign-extended characters |
| `Callbacks.HashIsPolynomial` | src/include/nica/hashmap.h:85-95 | the shift-and-add recurrence in 32-bit arithmetic is that polynomial, for every string |
| `Callbacks.HashConcat` | src/include/nica/hashmap.h:85-95 | the hash of a concatenation is determined by the hash of the first part and the second part |
| `Callbacks.StockCallbacksLegal` | src/include/nica/hashmap.h:85-122 | pointer and string comparison are equivalences on non-NULL keys that the hash respects, and NULL matches no such key |
| `Callbacks.StockCallbacksAre` | src/include/nica/hashmap.h:85-122 | pointer keys are equal exactly when the addresses are, and hash to them modulo 2^32; string keys are equal exactly when neither is NULL and the contents are, and hash to the polynomial; each cleanup flag is its own |
| `Chains.PutPlace` | src/hashmap.c:131-166 | an insertion writes over the first match, else into the last free entry, else behind the last entry, and leaves every other entry where and as it is |
| `Chains.FindEntryIsFind` | src/hashmap.c:193-209 | the lookup test, which ignores `occ`, stops at the same entry as the insertion test, for legal keys |
| `Chains.PutPairs` | src/hashmap.c:131-166 | an insertion exchanges the matching pair, if any, for the new one and leaves the chain's other pairs alone |
| `Tables.LookupMeaning` | src/hashmap.c:193-209 | looking in one bucket finds a key exactly when the whole table holds an equal one |
| `Tables.PutRowShaped` | src/hashmap.c:122-169 | insertion keeps every key in the bucket of its hash and keys pairwise different |
| `Tables.EntriesDistinct` | src/hashmap.c:122-169 | keys are pairwise different across the whole table, not just within a bucket |
| `States.RehashKeeps` | src/hashmap.c:350-369 | rehashing keeps exactly the pairs, and each insertion finds its key absent, so it returns 1 and no cleanup callback can fire |
| `States.ResizeKeeps` | src/hashmap.c:328-382 | a resize gives four times the buckets, the same pairs, the same size, no callback, and room for the pending insertion |
| `States.ResizesAtLoad` | src/hashmap.c:178-182 | a put resizes exactly when the map holds seven tenths of its bucket count, rounded down |
| `States.PutInv` | src/hashmap.c:171-191 | a put keeps shape, size, capacity 61\*4^k and load at most the threshold |
| `States.RemoveInv` | src/hashmap.c:224-249 | removal and stealing keep the invariant |
| `States.RemoveEntries` | src/hashmap.c:224-249 | removal takes away exactly the matching pair and answers whether there was one |
| `Refinement.StepIsModel` | src/hashmap.c:171-264 | one call from related states ends in related states with the mathematical map's answer |
| `Refinement.RunIsModel` | src/hashmap.c:105-264 | for every sequence of calls on a new map the table represents the mathematical map, every answer is that map's, size is its cardinality, and the invariant holds |
| `PointerKeys.PointerRun` | src/include/nica/hashmap.h:119-122 | for every sequence of calls under the default callbacks the answers are those of a plain map from addresses, and the table holds exactly its bindings |
| `StringKeys.StringRun` | src/include/nica/hashmap.h:108-175 | with string keys all answers are those of a plain map from string contents, each key read in the memory of its call, when memory may change between calls except at the keys the map holds |
| `StringKeys.CallsAsWrittenExact` | src/hashmap.c:122-191 | also while memory changes, the code as written closes no circle exactly when every put meets the guard, and then goes through the intended states |
| `StringKeys.ParserMap` | src/inifile.c:197-293 | without removals that is always so: the code as written, relinking included, answers like the map from strings |
| `StringKeys.OneMemory` | src/include/nica/hashmap.h:108-175 | when memory never changes these are the runs of `Refinement` |
| `Relinking.RelinkExact` | src/hashmap.c:150-168 | the insertion as written leaves a chain that ends exactly when the key is present, no entry is free, or the last free one ends the chain |
| `Relinking.CircleAtReused` | src/hashmap.c:150-168 | otherwise the step after the last entry leads to the last free one, which has been given the pair |
| `Relinking.UnsafeHangs` | src/hashmap.c:193-209 | after an insertion that breaks the guard, looking up a key the bucket lacks never returns, whatever number of rounds is allowed |
| `Relinking.SafeStops` | src/hashmap.c:193-209 | in a chain that ends, the lookup loop stops within one round more than its entries, with the functional answer |
| `Relinking.RehashNeverCircular` | src/hashmap.c:350-369 | the rehash as written never closes a circle |
| `Relinking.RehashRow` | src/hashmap.c:350-369 | each bucket of the new table has its pairs in the scan order of the old one, without free entries, or is a lone free head |
| `Relinking.RunAsWrittenExact` | src/hashmap.c:122-191 | for every sequence of calls: no circle arises exactly when every put meets the guard, and then the states are those of the intended code |
| `Relinking.RemovalFreeRun` | src/hashmap.c:122-191 | sequences without removals always meet the guard |
| `Relinking.RefillGoesCircular` | src/hashmap.c:122-191 | for any two unequal keys of one bucket: put, put, remove, put closes a circle |
| `Relinking.RefillExample` | src/hashmap.c:122-191 | (witness) the same for addresses 61 and 122 under the default callbacks |
| `Iteration.StepOver` | src/hashmap.c:426-445 | passing over a free entry keeps what is left to find, for a stale cursor too |
| `Iteration.Undisturbed` | src/hashmap.c:392-458 | n calls yield the first n entries in scan order, each once, and a call has failed exactly when there were fewer than n |
| `Iteration.PassSound` | src/hashmap.c:224-249 | with any removals and steals in between, no key is yielded twice, only pairs of the map are yielded, and after a failed call every pair still live has been yielded |
| `Iteration.PassEnds` | src/hashmap.c:407-458 | a pass ends whatever is removed in between: with more calls than the map had pairs, one has failed |
| `Iteration.LaterYieldsLive` | src/hashmap.c:407-458 | whatever is yielded after a moment is live at that moment |
| `Iteration.TakenIsGone` | src/hashmap.c:224-249 | a removal takes its pair, and only it, out of the live ones, so it is not yielded afterwards |
| `Iteration.CursorStays` | src/hashmap.c:243-246 | clearing entries in place leaves a cursor valid and where it was, exhausted ones exhausted |
| `Accounts.PairsConserved` | src/hashmap.c:136-145 | every pair accepted is live, was cleaned up, or was stolen |
| `Accounts.RemoveFrees` | src/hashmap.c:235-242 | a removal hands the stored key and value it takes out to the callbacks there are, and stealing hands over nothing |
| `Accounts.PutFrees` | src/hashmap.c:136-145 | a put hands over the key and value it overwrites, and nothing else |
| `Accounts.OwnershipConserved` | src/hashmap.c:235-310 | callback by callback, whatever the other is: with one, over every sequence of calls, accepted keys (or values) are live plus freed plus stolen, and destroying the map frees each remaining one once; without one, none is ever freed |
| `Accounts.AmortisedRehash` | src/hashmap.c:171-191 | three times the entries moved by all resizes is at most four times the fresh insertions |
| `Accounts.CountersFitInt` | src/hashmap.c:342-343 | below 716387123 fresh insertions the bucket count is at most 61\*4^12, so size, threshold and bucket count fit in an `int` |
| `Accounts.ThresholdExact` | src/hashmap.c:312-318 | the floor of 0.7\*n_buckets is 7\*n_buckets/10 even when the product is off by anything below a tenth |
| `Accounts.ChainLengthIsPeak` | src/hashmap.c:131-166 | each chain is as long as the most live entries its bucket has held since the array was built, and at least 1 |
| `Accounts.NullKeyRemoval` | src/hashmap.c:193-249 | (witness) with the default comparison, removing NULL from an empty map succeeds and leaves size -1, which is why NULL is not a legal key |
| `HashMap.NewBuckets` | src/hashmap.c:345-348 | the allocated array carries the empty table in fresh entries |
| `HashMap.NcHashmap.constructor` | src/hashmap.c:76-103 | a new map is the empty state |
| `HashMap.NcHashmap.InsertChain` | src/hashmap.c:122-169 | on linked entries, insertion leaves the chain of the source's or the intended linking rule, and frees exactly the overwritten pair |
| `HashMap.NcHashmap.InsertBucket` | src/hashmap.c:122-169 | the other chains are untouched, and the array stays well formed unless the guard is broken |
| `HashMap.OverflowExact` | src/hashmap.c:266-294 | the overflow entries are all the entries behind the heads, and no others |
| `HashMap.OverflowDiffers` | src/hashmap.c:266-294 | no overflow entry of an array occurs twice, so none is freed twice |
| `HashMap.NcHashmap.Resize` | src/hashmap.c:328-382 | the new array carries the rehashed table, no callback is made, and the old overflow entries are freed in order, no two of them the same; it reports how many entries it inserted |
| `HashMap.NcHashmap.MoveAll` | src/hashmap.c:350-369 | the nested loops carry out the rehash without writing to an old entry |
| `HashMap.NcHashmap.Put` | src/hashmap.c:171-191 | the new state is that of States.Put; the heap is well formed exactly when the intended rule is used or the guard holds |
| `HashMap.NcHashmap.GetEntry` | src/hashmap.c:193-209 | returns the entry the functional lookup stops at |
| `HashMap.NcHashmap.Get` | src/hashmap.c:211-222 | returns the stored value or NULL |
| `HashMap.NcHashmap.Contains` | src/hashmap.c:261-264 | true exactly when the value is not NULL |
| `HashMap.NcHashmap.Remove` | src/hashmap.c:224-259 | clears one entry in place, unlinks nothing, and frees the pair unless stealing |
| `HashMap.NcHashmap.FreeBucket` | src/hashmap.c:266-294 | frees each overflow entry once, in order, and with nuke hands each occupied pair to the callbacks once |
| `HashMap.NcHashmap.Free` | src/hashmap.c:296-310 | every pair still held goes to the callbacks and every overflow entry to free, no two of them the same |
| `HashMap.NcHashmapIter.Round` | src/hashmap.c:426-446 | one round of the search stops at an occupied entry or with nothing left, or goes on to a later bucket or further down the chain without passing a live entry |
| `HashMap.NcHashmapIter.Search` | src/hashmap.c:426-446 | the loop ends, at the first occupied entry from the cursor on or past the last bucket |
| `HashMap.NcHashmapIter.Next` | src/hashmap.c:407-458 | yields the next live entry in scan order and stands right behind it; once it fails nothing is left |
| `HashMap.RemoveDuring` | src/hashmap.c:224-259 | a removal between two calls leaves the iterator valid and where it was, and the array and its entries the same objects |
| `Runs.Do` | src/hashmap.c:105-264 | on the heap, each call is one step on the value, with that step's answer, and a resize in it inserts the number of entries of `Accounts.MovedBy` |
| `Runs.RunOps` | src/hashmap.c:105-264 | any sequence of calls on a new map ends in the state of `Refinement.After` and answers like the mathematical map, with the source's linking when every put meets the guard; three times the entries its resizes inserted is at most four times the fresh puts |
| `Runs.RunCalls` | src/hashmap.c:105-264 | the same with string keys while memory changes between the calls: the answers are those of a map from strings |
| `Runs.NextCall` | src/hashmap.c:407-458 | a call to next on the heap is the pass's event: same yield, same failure, and the iterator stands where the pass does or neither has anything left |
| `Runs.TakeCall` | src/hashmap.c:224-259 | so is a removal or steal |
| `Runs.RunPass` | src/hashmap.c:392-458 | driven over any sequence of events, the iterator yields what `Iteration.Reacted` yields, fails when it fails, and leaves its map |
| `Runs.Collect` | src/hashmap.c:392-458 | the loop a caller writes ends and has met the map's pairs once each, in scan order |
| `Trim.StripUnique` | src/inifile.c:46-88 | trimming is the only decomposition into blanks, a text without blanks at its ends, and blanks |
| `Trim.StripIdempotent` | src/inifile.c:140-150 | trimming twice is trimming once |
| `Trim.StripPad` | src/inifile.c:140-150 | blanks added at the ends make no difference |
| `Trim.ChewExact` | src/inifile.c:96-135 | as written the chewed string is the trimmed one exactly when there is no leading blank, or only blanks, or no trailing blank and the place at the text's length lies before the text or is not a blank |
| `Trim.ChewAsWritten` | src/inifile.c:107-128 | what it is otherwise, for every string with n leading blanks and text: from place n on, all of it if the place at the text's length is not blank or not behind the blanks; else up to the first place down from there that is not blank, or nothing |
| `Trim.FromEndIsStrip` | src/inifile.c:96-135 | with the scan from the end it is the trimmed one for every string |
| `Trim.ChewExample` | src/inifile.c:107-128 | (witness) two blanks and `a b` chew to the empty string |
| `Trim.Duplicate` | src/inifile.c:58-62 | a fresh buffer holds the rest of the string |
| `Trim.LStripBuffer` | src/inifile.c:46-64 | the buffer holds the string without leading blanks, and the reported length is its length |
| `Trim.RStripBuffer` | src/inifile.c:69-88 | trailing blanks are cut in place, never the first character |
| `Trim.StringStrip` | src/inifile.c:140-150 | the buffer holds the trimmed string and the reported length is its real one |
| `Trim.StringChew` | src/inifile.c:96-135 | the buffer holds the chewed string of the scan it is given |
| `IniSpec.RunConcat` | src/inifile.c:202-320 | parsing a concatenation continues from the state of the first part |
| `IniSpec.FirstFailure` | src/inifile.c:215-320 | a parse fails with an error at a line exactly when the lines before it parse and it fails in the state they leave |
| `IniErrors.ParseFaults` | src/inifile.c:215-297 | from the texts alone: a file parses exactly when no line is at fault, and else stops at the first one that is; an unclosed bracket is -3, a line without `=` that is no header or comment -5, an assignment before any header -4, an empty key -2 |
| `IniErrors.LineFault` | src/inifile.c:215-297 | one step of the fold fails exactly so |
| `IniErrors.LineMeaning` | src/inifile.c:216-297 | every other line, after lines that parse: a blank line or comment changes nothing, a header enters its section and adds it if new, an assignment binds its trimmed key in the current section |
| `IniSpec.LaterLinesIgnored` | src/inifile.c:308-320 | lines after the failing one make no difference |
| `IniSpec.NoInternalError` | src/inifile.c:281-297 | the current section is always bound, so the internal error does not arise |
| `IniSpec.ConcatIsMerge` | src/include/nica/inifile.h:51-53 | two files that parse, concatenated, parse to the first map overridden by the second |
| `IniSpec.MergeLookup` | src/include/nica/inifile.h:51-53 | (by unfolding the definition of merging) merging keeps exactly the sections and bindings of either, the second's value winning |
| `IniLayout.AssignmentLine` | src/inifile.c:249-270 | an assignment line, ended by a newline or not, reads as the trimmed left part and what chewing makes of the right part |
| `IniLayout.EndBlanks` | src/inifile.c:208-215 | blanks at the ends of a line make no difference, whether a newline ends it or, as the last of a file, none does |
| `IniLayout.BlanksBeforeEquals` | src/inifile.c:263-270 | blanks before the first `=` make no difference, with the scan as written too |
| `IniLayout.ValueExact` | src/inifile.c:263-270 | the value read is the trimmed right part exactly when the scan is from the end or the guard holds |
| `IniLayout.ValueAsWritten` | src/inifile.c:263-270 | that is the value read from an assignment line with the scan as written, for every text after the `=` |
| `IniLayout.BlanksAfterEquals` | src/inifile.c:263-270 | with the scan from the end, blanks after `=` make no difference |
| `IniLayout.BlanksAfterEqualsMatter` | src/inifile.c:263-270 | (witness) as written they do: two lines that differ only there |
| `IniLayout.SameLines` | src/inifile.c:202-320 | files whose lines read the same, line by line, parse alike, to the number of a failing line |
| `IniLayout.PaddedFile` | src/inifile.c:202-320 | blanks at the ends of any lines of a file make no difference to its parse |
| `IniLayout.LayoutInvariance` | src/inifile.c:202-320 | files with the same meaningful lines parse to the same map, or fail with the same error at lines that differ by the skipped lines before them |
| `IniLayout.SkipLine` | src/inifile.c:216-247 | a blank line or comment may be put anywhere |
| `IniRoundTrip.RoundTrip` | src/inifile.c:215-297 | every representable nested map, written in any order of sections and keys, parses back to itself, with the scan as written and with the corrected one |
| `IniRoundTrip.SomeDoc` | src/inifile.c:215-297 | every nested map has an order to be written in |
| `IniRoundTrip.ParseWrite` | src/include/nica/inifile.h:51-53 | a document with repeated sections and keys parses to their merge, the last value winning |
| `IniRoundTrip.RepresentableExact` | src/inifile.c:215-279 | a binding survives the round trip exactly when its key is a good key and its value is trimmed |
| `IniParser.RootMap.Create` | src/inifile.c:235-242 | a new section gets its own map |
| `IniParser.RootMap.PutIn` | src/inifile.c:281-297 | a pair lands in its section only |
| `IniParser.StrChr` | src/inifile.c:249-255 | the offset of the first occurrence, or none |
| `IniParser.SplitAssignment` | src/inifile.c:263-270 | key and value are the chewed parts around the first `=` |
| `IniParser.ParseLine` | src/inifile.c:203-297 | on buffers and section maps, one line does what one step of the fold does, and its error number is the one its text calls for |
| `IniParser.ParseFull` | src/inifile.c:174-340 | the parser computes the fold: the same map, or the same error; it returns 0 exactly when no line is at fault, and else the number (-2 to -5) and place of the first that is, told from the texts |
| `NcList.Conserved` | src/list.c:19-129 | over every sequence of calls, what was put in is in the list or was taken out |
| `NcList.RemoveAround` | src/list.c:87-129 | removal takes out the first occurrence and leaves what is around it in order |
| `NcList.RemoveUndoes` | src/list.c:87-129 | removal takes the first occurrence, so it undoes a prepend, and an append of a new item |
| `NcList.List.Append` | src/list.c:19-51 | adds at the end, updates size and tail on the head, allocates one node |
| `NcList.List.Prepend` | src/list.c:53-85 | adds at the front, and size and tail move to the new head |
| `NcList.List.Remove` | src/list.c:87-129 | takes out the first occurrence and keeps the other nodes, with their data, in order; size and tail are right on the current head; its node is freed once and no longer reachable |
| `NcList.Do` | src/list.c:19-129 | each call on the nodes is one step on the sequence, with that step's answer |
| `NcList.RunOps` | src/list.c:19-129 | any sequence of calls on an empty list ends in `NcList.After` and has freed one node for each item taken out |
| `NcList.List.FreeAll` | src/include/nica/list.h:70-106 | every node, and with items every datum, is freed once, in order |

## Left out

- Allocation failure: every allocation succeeds, so the -1 result of an insertion and the failure label of the resize (`src/hashmap.c:384-390`), which cleans up keys and values the old table still holds, are not modelled; that the label is not reached otherwise is proved.
- NULL keys, NULL maps and NULL iterators: outside the callbacks' contract; `Accounts.NullKeyRemoval` shows what a NULL key does.
- `HashMap.NcHashmap.Put`: requires the invariant that all reachable maps have, because the resize inside relies on stored keys being different; after a circle has been closed no further call on that map is modelled.
- `Accounts.CountersFitInt`: integers are unbounded, and this lemma says up to which number of insertions that makes no difference.
- `HashMap.NcHashmap.Free`: the release of the bucket array and of the map itself, which ends it, is not recorded; the map is not used afterwards.
- Using an iterator across a put, which may replace the array under it.
- `fopen`, `getline`, messages on stderr and `nc_ini_file_parse`: the parser starts from a sequence of lines without NUL characters.
- `IniParser.ParseFull`: the section and root hashmaps are maps behind the contract proved by `StringKeys.ParserMap`, and the release of buffers and of the partial map on failure is not recorded.
- `NcList.List.Append`: the 64-bit size counter is a natural number; a list of 2^64 nodes is not modelled.
- `src/array.c`, `src/nc-string.c`, `src/files.c`, `src/util.c`, the error texts of `nc_ini_error` and the autofree macros.
