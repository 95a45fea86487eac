# Models of the library layer of rrep

rrep carries a copy of the portability library its search and replace code
stands on.  Several files of that layer are real algorithms with invariants
that their sources state only in comments.  This project models them in Dafny
and proves what those comments, and the documentation of the functions, promise.

The model takes the form of the source.  Objects that the source updates in
place are classes with methods, arrays that it rearranges are arrays, and each
method is proved against a specification that does not mention how it works.

| files | what they model |
|---|---|
| `HashView.dfy`, `HashTables.dfy`, `HashRuns.dfy` | `lib/hash.c`: the chained table with linked overflow nodes and a free list; a rehash that undoes itself when memory runs out; whole histories of operations |
| `Primes.dfy` | `lib/hash.c`: the search for a prime bucket count, on 64-bit words |
| `Fnmatch.dfy`, `FnmatchMeaning.dfy` | `lib/fnmatch_loop.c`: matching with `?`, `*` and escapes, which commits to the leftmost match of each segment |
| `PathNames.dfy`, `Realpath.dfy`, `RealpathLaws.dfy` | `lib/canonicalize-lgpl.c`: one loop over a prefix buffer and a spliced suffix, against recursive resolution, and the laws of its results |
| `GetoptSpec.dfy`, `Getopt.dfy`, `GetoptRuns.dfy`, `GetoptLaws.dfy` | `lib/getopt.c`: scanning options while permuting argv, against a scan that moves nothing, and what that finds in any command line |
| `ExcludeSpec.dfy`, `Exclude.dfy` | `lib/exclude.c`: an ordered list of options compiled into segments, against the plain rule |
| `PatternLaws.dfy` | what patterns and options of both mean, by their first characters and their flags |
| `Fdopendir.dfy` | `lib/fdopendir.c`: arranging for opendir to use one particular descriptor |
| `DecimalStrings.dfy`, `Backupfile.dfy` | `lib/backupfile.c`: the next numbered backup name, by string operations only |
| `Intprops.dfy` | `lib/intprops.h`: digits of b-bit numbers, and overflow tests that do not overflow |
| `Unicode.dfy`, `UnicodeOrder.dfy`, `Conversion.dfy`, `Iconv.dfy` | `lib/iconv.c`, `lib/unistr`: UTF-16 and UTF-32 to and from UTF-8, in pieces |
| `Wrappers.dfy`, `CStrings.dfy`, `Basics.dfy` | what several of these files share |

`dafny verify dfyconfig.toml` checks everything.

How outside things are modelled:

* Allocations may fail.  Which requests malloc, calloc or realloc would grant is
  an input, and so are the answers of open, opendir, fchdir and getcwd to
  fdopendir: a postcondition holds for every pattern of failures and says what
  each leads to.  Where the source calls an allocator that aborts instead,
  allocation succeeds.  `Left out` names the one exception.
* `abort` in `lib/hash.c` and `lib/iconv.c` is `assert false`: it is proved to be
  unreachable.  The exits of `lib/fdopendir.c` are results, and it is proved when
  each can occur.
* Hasher and comparator are functions; equal entries have the same hash at every
  size, and hashes are in range.
* The file system is a finite map from paths to directories, files and links;
  readlink and the directory check are queries on it.
* dup, open and opendir take the lowest free descriptor.
* A directory listing is a sequence of names.

What a specification computes is pinned by laws that do not share its
definitions: `HashRuns.CallsDecide` (a table is the set its calls say),
`RealpathLaws` (the first component of a name), `GetoptLaws` (the spelling of
options), `PatternLaws` (the first character of a pattern) and `UnicodeOrder` (the
order of encodings).

Where the code and its promise differ, the code is modelled and the difference
is a theorem:

* Under FNM_PATHNAME a star in front of an escaped slash (`*\/`) never matches,
  since the search behind the star stops at the first slash.  The matcher agrees
  with the meaning of a pattern exactly if the pattern has no such place or
  matches nothing anyway (`FnmatchMeaning.AgreesExactlyWhen`).
* For a name with two slashes in a row, looking it up in a table of patterns
  starts behind each slash and direct matching does not.  The two agree, for all
  patterns, exactly under the condition of `ExcludeSpec.TableAgreesExactlyWhen`,
  and so do the list and the rule (`Excluding.ListAgreesExactlyWhen`).
* A hashed pattern that ends in a lone backslash is looked up as its own text,
  and fnmatch matches nothing with it (`ExcludeSpec.StoredMeansExactlyWhen`).
* When `hash_insert` runs out of memory, `add_exclude` loses the pattern without
  notice.  The rule counts such an option as added but not kept: it never
  matches, and if it is the first option it still sets the default.
* `is_prime` stays exact where `square` wraps around: for every odd 64-bit
  candidate the loop ends before the divisor reaches it (`Primes.BarrierHolds`,
  `Primes.SearchGoesOn`).
* If the descriptor passed to fdopendir is not below the limit on descriptors,
  the exit for a wrong descriptor is reached exactly when a duplicate could be
  made (`Fdopendir.Process.WithDup`, `Fdopendir.Process.Fdopendir`).
* EINVAL from iconv means that the input ends within a character, and more of it
  is needed.  `u8_mbtoucr` also reports that for a lone F5, F6 or F7, and the
  UTF-16 and UTF-32 decoders for some beginnings, although no character begins
  so, whatever follows.  `Unicode.DeadEnd` says for each form which inputs these
  are, and they are the only ones
  (`Unicode.TooFewIsWrongExactlyWhen`, `Conversion.IncompleteGoesOnExactlyWhen`).

## Model

| member | source | states |
|---|---|---|
| `HashTables.HashTable.Empty` | lib/hash.c:544-555 | a new table: all buckets empty, no entries, empty free list, well-formed |
| `HashTables.Initialize` | lib/hash.c:512-564 | NULL iff memory for the table or its buckets is refused or no size is possible; else a valid, empty table of the size asked for |
| `HashTables.HashTable.AllocateEntry` | lib/hash.c:659-679 | the head of the free list if there is one; else a fresh node, or none iff malloc refuses; chains and the rest of the free list are untouched |
| `HashTables.HashTable.FreeEntry` | lib/hash.c:684-690 | an unlinked node becomes the head of the free list; chains untouched |
| `HashTables.HashTable.ListsAreDisjoint` | lib/hash.c:75-93 | no node is on two lists: chains of different buckets, bucket heads and the free list have none in common |
| `HashTables.HashTable.LinkBehindHead` | lib/hash.c:797-798 | a loose node goes right behind an occupied head; every other bucket and the free list stay as they were |
| `HashTables.HashTable.FillHead` | lib/hash.c:834-835 | an empty head takes the entry and n_buckets_used goes up by one; nothing else changes |
| `HashTables.HashTable.Place` | lib/hash.c:979-999 | the entry ends up in its own bucket, the counters stay right, chained plus free nodes never shrink; it fails iff the bucket is in use, the free list is empty and malloc refuses, and then changes no bucket |
| `HashTables.HashTable.MoveNode` | lib/hash.c:788-807 | one overflow node of the source is relinked behind an occupied head or freed into an empty one; no allocation |
| `HashTables.HashTable.MoveOverflow` | lib/hash.c:786-808 | all overflow entries of a bucket arrive in the other table, which always succeeds |
| `HashTables.HashTable.MoveHead` | lib/hash.c:812-838 | the bucket head moves, or, where malloc refuses, both tables are unchanged, the target head is occupied and the free list is empty |
| `HashTables.HashTable.MoveBucket` | lib/hash.c:774-839 | one bucket moves with entries and nodes conserved; a failure, for which malloc must refuse, leaves exactly the head in the source |
| `HashTables.HashTable.TransferEntries` | lib/hash.c:768-841 | entries of both tables together are conserved, chained plus free nodes do not shrink; with safe it cannot fail and leaves heads only; a failure names the bucket it is stuck at, and needs a refusal of malloc |
| `HashTables.HashTable.Forward` | lib/hash.c:881-887 | the pass into the new table conserves entries and nodes, whether it completes or not; it completes if no malloc is refused, or if the free list is at most one node short of the buckets in use |
| `HashTables.HashTable.Undo` | lib/hash.c:913-916 | both undo passes succeed whatever allocations fail (the abort is unreachable) and give every old bucket its entries back |
| `HashTables.HashTable.RollBack` | lib/hash.c:900-919 | after a failed pass the old table has the same buckets, n_buckets_used and n_entries as before |
| `HashTables.HashTable.Adopt` | lib/hash.c:889-897 | the table takes over the new bucket array, counters and free list and is well-formed |
| `HashTables.HashTable.Rehash` | lib/hash.c:843-920 | same entries for every outcome; on failure every bucket holds the entries it held before and n_buckets, n_buckets_used, n_entries are unchanged; never aborts. It fails for want of a size or of the bucket array; with the array it succeeds if no malloc is refused, or if n_buckets_used - 1 nodes are free, as the comment says |
| `HashTables.HashTable.Lookup` | lib/hash.c:240-254 | returns a stored match, and NULL only if nothing stored matches |
| `HashTables.HashTable.FindEntry` | lib/hash.c:698-760 | a match of the entry in its own bucket; if asked for, it leaves the bucket and, unless it was alone there, one node of its chain goes on top of the free list; NULL iff nothing in the whole table matches |
| `HashTables.HashTable.BumpOverflow` | lib/hash.c:718-726 | deleting the head of a chain moves the first overflow entry into it; that entry's node is then on no list |
| `HashTables.HashTable.UnlinkNext` | lib/hash.c:744-752 | deleting an overflow entry takes its node off the chain, other chains unchanged; the node is then on no list |
| `HashTables.HashTable.DeleteHead` | lib/hash.c:714-732 | the head entry is deleted and a node of its chain, if there is one, goes on top of the free list |
| `HashTables.HashTable.DeleteNext` | lib/hash.c:741-755 | an overflow entry is deleted and its node goes on top of the free list |
| `HashTables.HashTable.InsertIfAbsent` | lib/hash.c:922-1002 | 0 with the stored match, 1 with the entry added, -1 with the set unchanged; the table stays valid. If nothing matches and the table need not grow, 1 iff the bucket is empty, a node is free or malloc grants one; if it must grow, -1 without a size or a bucket array, and 1 with the new size if no request is refused |
| `HashTables.HashTable.FindNothing` | lib/hash.c:971-973 | the search that follows a successful growth finds nothing, so its abort is unreachable |
| `HashTables.HashTable.Remove` | lib/hash.c:1014-1072 | returns and removes one match, or NULL when nothing matches; the table shrinks only if the bucket fell empty and the tuning asks for it, and does if no request is refused; a failed shrink changes no entry and gives up the free list |
| `HashTables.HashTable.TakeOut` | lib/hash.c:1020-1027 | removal with the counters brought in step; chained plus free nodes stay as many; emptied says whether the bucket of the entry fell empty |
| `HashTables.HashTable.MaybeGrow` | lib/hash.c:948-975 | growing or failing to grow keeps the set of entries; without growth nothing changes, with it the size is the one asked for, and it fails only where a request is refused or there is no size |
| `HashTables.HashTable.MaybeShrink` | lib/hash.c:1029-1068 | shrinking, failing to, and then releasing the free list keep the set of entries; it fails only where a request is refused or there is no size |
| `HashTables.HashTable.TableOk` | lib/hash.c:183-210 | true iff both counters agree with the buckets; with Valid as invariant it is true after every operation |
| `HashTables.HashTable.Clear` | lib/hash.c:566-602 | every entry is handed to the freer exactly once, the table is empty, all overflow nodes are on the free list |
| `HashTables.HashTable.GetFirst` | lib/hash.c:258-271 | the first entry in bucket order, NULL iff the table is empty; the abort is unreachable |
| `HashTables.HashTable.GetNext` | lib/hash.c:273-296 | the entry after the given one in bucket order, so a walk visits every entry once |
| `HashView.PutEntry` | lib/hash.c:977-1001 | on values: an insertion keeps every entry in its own bucket, adds exactly it, and costs an overflow node iff the bucket was in use |
| `HashView.DropEntry` | lib/hash.c:711-756 | on values: a deletion removes exactly the entry, keeps placement, and gives an overflow node back iff the entry was not alone in its bucket |
| `HashView.MoveConserves` | lib/hash.c:768-841 | moving entries conserves the union and the node count |
| `HashView.UndoFindsFreeNode` | lib/hash.c:900-912 | the counting argument of the comment: with heads only left in the new table, some entry short of its old place means a free node |
| `HashView.UndoCannotStop` | lib/hash.c:913-916 | the second undo pass cannot be stuck: being stuck contradicts conservation of nodes |
| `HashView.AllBack` | lib/hash.c:913-919 | entries that are all back lie in the old buckets, bucket by bucket |
| `HashView.UndoEnds` | lib/hash.c:913-919 | the second undo pass ends with every old bucket holding its entries, or contradicts the node count |
| `HashView.StuckIsShort` | lib/hash.c:867-874 | the forward pass is stuck only if the free list was more than one node short of the buckets in use: n_buckets_used - 1 free entries guarantee the transfer |
| `HashView.PlacedDetermines` | lib/hash.c:229-238 | the entries of a table in which each is in its own bucket determine each bucket up to order |
| `HashView.WalkHasNoRepeats` | lib/hash.c:256-296 | entries of a valid table are pairwise different, so positions of a walk are unique |
| `HashView.WalkStep` | lib/hash.c:273-296 | what follows an entry in the walk is what follows it in its bucket, or the first entry of a later bucket |
| `HashRuns.Perform` | lib/hash.c:843-1072 | each operation on a real table is a step of the abstract set of entries modulo the comparator; an insertion without growth fails only if malloc refuses the node it needs |
| `HashRuns.Execute` | lib/hash.c:922-1072 | every sequence of operations with any failures is a run of the abstract set and ends in a table hash_table_ok accepts |
| `HashRuns.StepKeepsDistinct` | lib/hash.c:935-941 | no step ever makes two stored entries match |
| `HashRuns.StepDecides` | lib/hash.c:922-1072 | one operation changes whether a match of an entry is stored exactly as its outcome says |
| `HashRuns.HistoryDecides` | lib/hash.c:922-1072 | what a table that started empty holds is determined by its history; failed inserts and rehashes leave no trace |
| `HashRuns.LookupFollowsHistory` | lib/hash.c:240-254 | at any point of any history a lookup finds a match iff the history left one |
| `HashRuns.StepDoes` | lib/hash.c:922-1072 | an insertion that no refusal hinders leaves a match of an entry iff it is one or there was one; a removal leaves one iff it is none and there was one; whatever they return |
| `HashRuns.CallsDecide` | lib/hash.c:922-1072 | where memory does not run out, a table that started empty is the set its calls say, whatever they returned: a match is found iff the last call that concerned one was an insertion |
| `HashRuns.FoundByItself` | lib/hash.c:240-254 | an entry that was inserted is found by itself, even if the comparator denies it |
| `Primes.IsPrime` | lib/hash.c:395-411 | exact for every odd 64-bit candidate from 11 up, including those for which square wraps around |
| `Primes.NextPrime` | lib/hash.c:413-428 | the least prime not below the candidate or 10, or SIZE_MAX if no prime in a word is; it terminates |
| `Primes.NextSquare` | lib/hash.c:402-406 | the update keeps square equal to divisor squared modulo the word size |
| `Primes.SquareDoesNotWrap` | lib/hash.c:398-406 | up to the square of the largest odd half-word the square does not wrap |
| `Primes.BarrierHolds` | lib/hash.c:401-410 | for every odd candidate there is an odd divisor the loop cannot pass: it divides the candidate, or its wrapped square is not below it |
| `Primes.SearchGoesOn` | lib/hash.c:401-408 | a round keeps the square right modulo the word size, the divisor below the candidate, and everything below the divisor excluded |
| `Primes.NoSmallDivisor` | lib/hash.c:401-410 | trial division up to the square root suffices |
| `Primes.SearchEnds` | lib/hash.c:401-410 | when the loop stops, the last remainder tells primality |
| `Fnmatch.WalkDecides` | lib/fnmatch_loop.c:59-95 | a pattern matches iff its first segment does and the rest matches behind it |
| `Fnmatch.SegmentShift` | lib/fnmatch_loop.c:197-222 | a segment that matches at two places leaves a gap behind it that a star may swallow |
| `Fnmatch.LeftmostSuffices` | lib/fnmatch_loop.c:205-222 | committing to the leftmost match of a segment loses no match |
| `Fnmatch.StarStar` | lib/fnmatch_loop.c:111-141 | a run of stars is one star |
| `Fnmatch.StarQuestion` | lib/fnmatch_loop.c:124-140 | "?" behind a star takes one character that is not a slash under FNM_PATHNAME |
| `Fnmatch.Element` | lib/fnmatch_loop.c:60-90 | an element other than a star or a bracket matches the next character or not; a lone final backslash matches nothing |
| `Fnmatch.Match` | lib/fnmatch_loop.c:59-226 | 0 iff the glob relation holds and the pattern is not one that is lost; with non-null ends it reports the segment end and never recurses; without FNM_PATHNAME it recurses at most one level |
| `Fnmatch.AfterStar` | lib/fnmatch_loop.c:111-226 | what happens behind a star decides the star, or continues at the end of the leftmost segment |
| `Fnmatch.TrailingStar` | lib/fnmatch_loop.c:143-163 | a final star matches the rest, which under FNM_PATHNAME has no slash unless FNM_LEADING_DIR |
| `Fnmatch.StarSlash` | lib/fnmatch_loop.c:188-196 | "*/" under FNM_PATHNAME can only use the next slash |
| `Fnmatch.Search` | lib/fnmatch_loop.c:197-226 | the search for the leftmost segment match, exact but for a star in front of an escaped slash |
| `Fnmatch.FoundSegment` | lib/fnmatch_loop.c:205-222 | the first place where the segment matches is as good as any later one |
| `Fnmatch.NoSegment` | lib/fnmatch_loop.c:225-226 | no place before the next slash means no match, unless an escaped slash follows the star |
| `FnmatchMeaning.GlobIsMeaning` | lib/fnmatch_loop.c:912-929 | the recursive relation holds iff the string, or with FNM_LEADING_DIR a part before a slash, cuts into one piece per token |
| `FnmatchMeaning.FnmatchString` | lib/fnmatch_loop.c:40-929 | the matcher returns 0 iff the string is in the language of the pattern and the pattern is not lost |
| `FnmatchMeaning.AgreesExactlyWhen` | lib/fnmatch_loop.c:197-208 | the matcher agrees with the meaning on all strings iff no star stands before an escaped slash under FNM_PATHNAME, or the pattern matches nothing anyway |
| `FnmatchMeaning.EscapedSlashExample` | lib/fnmatch_loop.c:197-208 | a concrete pattern and string for which the matcher misses a match |
| `PatternLaws.FoldsAlike` | lib/fnmatch.c:120-126 | two characters fold alike iff they are equal or, under FNM_CASEFOLD, the two cases of one letter |
| `PatternLaws.EmptyPattern` | lib/fnmatch_loop.c:912-929 | the empty pattern matches only the end, or with FNM_LEADING_DIR what begins with a slash |
| `PatternLaws.QuestionMark` | lib/fnmatch_loop.c:66-79 | "?" takes one character, not a slash under FNM_PATHNAME, and the rest matches the rest |
| `PatternLaws.StarPattern` | lib/fnmatch_loop.c:111-226 | "*" takes nothing, or one character, not a slash under FNM_PATHNAME, and then as much as it may |
| `PatternLaws.OrdinaryCharacter` | lib/fnmatch_loop.c:891-910 | any other character takes one that folds alike; so does a backslash under FNM_NOESCAPE |
| `PatternLaws.EscapedCharacter` | lib/fnmatch_loop.c:81-95 | without it a backslash makes the next character stand for itself, and at the end matches nothing |
| `PatternLaws.LostPatterns` | lib/fnmatch_loop.c:197-208 | a pattern is lost iff, under FNM_PATHNAME and with escapes, a star in it has nothing but wildcards between it and an escaped slash |
| `Realpath.SuffixRequiresDirCheck` | lib/canonicalize-lgpl.c:118-141 | true iff no later lookup would notice that the prefix is no directory: only "." up to a final "." or a ".." |
| `Realpath.BackUp` | lib/canonicalize-lgpl.c:292-295 | the buffer shows the parent; at the root it stays |
| `Realpath.Append` | lib/canonicalize-lgpl.c:303-317 | the buffer shows the path with one more component |
| `Realpath.NextComponent` | lib/canonicalize-lgpl.c:274-287 | the next component of the text, or none when only slashes are left |
| `Realpath.LinkStep` | lib/canonicalize-lgpl.c:331-390 | splicing a target in front of the rest has the outcome of resolving the link recursively |
| `Realpath.StepLink` | lib/canonicalize-lgpl.c:331-391 | a link keeps the loop on track, or fails with ELOOP exactly when the links are used up; where its target starts is told by `RealpathLaws.LinkIsItsTarget` |
| `Realpath.StepName` | lib/canonicalize-lgpl.c:301-396 | a name keeps the loop on track, or fails exactly when recursive resolution does |
| `Realpath.StepPlain` | lib/canonicalize-lgpl.c:392-395 | what is no link goes on iff it exists and is a directory where one is needed, and otherwise fails with ENOENT or ENOTDIR as resolution does |
| `Realpath.StepDots` | lib/canonicalize-lgpl.c:288-300 | "." and ".." keep the loop on track |
| `Realpath.RealpathStk` | lib/canonicalize-lgpl.c:201-421 | the result is that of recursive component-by-component resolution with at most the threshold of link expansions, with its ENOENT, ENOTDIR or ELOOP; any error of getcwd is one value; the loop ends by links left, then length of the rest. The laws below determine it |
| `Realpath.RenderIsClean` | lib/canonicalize-lgpl.c:423-432 | a canonical name is absolute, without empty components, without a slash at the end except for the root |
| `Realpath.ResultIsCanonical` | lib/canonicalize-lgpl.c:423-432 | a result is clean, without dot components, exists, is no link, all proper prefixes are directories, and resolving it again gives it back |
| `PathNames.ComponentsOfSplice` | lib/canonicalize-lgpl.c:360-363 | the components of a target with the rest behind it |
| `PathNames.ComponentsOfJoin` | lib/canonicalize-lgpl.c:303-317 | cutting a rendered path gives its components back |
| `PathNames.ResolveAppend` | lib/canonicalize-lgpl.c:272-397 | resolving a concatenation is resolving one part after the other |
| `PathNames.SpliceIsRecursion` | lib/canonicalize-lgpl.c:360-379 | following a link by splicing equals following it by recursion |
| `PathNames.ResolvedResult` | lib/canonicalize-lgpl.c:319-395 | what resolution ends at exists and is no link |
| `PathNames.PrefixesAreDirs` | lib/canonicalize-lgpl.c:423-426 | proper prefixes of what exists are directories |
| `PathNames.CanonicalIsFixed` | lib/canonicalize-lgpl.c:423-432 | resolving a canonical name gives it back, using no link |
| `RealpathLaws.FromTheRoot` | lib/canonicalize-lgpl.c:211-262 | "" is ENOENT, "/" is the root, what follows a slash is looked up from the root wherever the call is made, and without a working directory other names fail |
| `RealpathLaws.DotStays` | lib/canonicalize-lgpl.c:274-289 | "." stays in the directory, slashes behind it are one |
| `RealpathLaws.DotsGoUp` | lib/canonicalize-lgpl.c:290-300 | ".." goes up by one name, and stays at the root |
| `RealpathLaws.NoSuchName` | lib/canonicalize-lgpl.c:392-395 | a name not in the directory is ENOENT, whatever follows |
| `RealpathLaws.NameIsThere` | lib/canonicalize-lgpl.c:301-396 | a name that is there and no link is resolved if nothing follows; a directory is searched for what follows, for another file that is ENOTDIR, even if only slashes follow |
| `RealpathLaws.LinkIsItsTarget` | lib/canonicalize-lgpl.c:331-391 | a link counts as its target in front of the rest, in the directory that the link is in, or from the root if the target begins with a slash, with one link fewer; ELOOP if none is left |
| `RealpathLaws.SiblingLink` | lib/canonicalize-lgpl.c:380-389 | a link to another name in its directory resolves to that name there |
| `RealpathLaws.RealpathExample` | lib/canonicalize-lgpl.c:331-391 | /a/l, a link to "b", is /a/b; with a slash behind it, or with no link allowed, it is an error |
| `Getopt.SwapBlocks` | lib/getopt.c:152-160 | swapping two blocks of equal length, element by element |
| `Getopt.Rotate` | lib/getopt.c:133-177 | argv[first..last] and argv[last..optind] change places, each in its order; nothing else changes |
| `Getopt.GetoptData.Exchange` | lib/getopt.c:130-183 | exchange keeps argv laid out as consumed, skipped, untouched, and moves first and last along |
| `Getopt.GetoptData.Initialize` | lib/getopt.c:380-412 | the scan starts at optind, where 0 means 1, with the ordering that optstring and the environment ask for |
| `Getopt.FindLongOption` | lib/getopt.c:212-271 | the first exact match, else the first abbreviated one unless a later one differs |
| `Getopt.GetoptData.ProcessLongOption` | lib/getopt.c:193-376 | reports what the specification of a long option says, -1 leaving everything as it was if there is none; under getopt_long_only no other result is -1 |
| `Getopt.GetoptData.ProcessShortOption` | lib/getopt.c:608-699 | one option character: arguments, missing arguments, unknown options and -W as specified; what that is is told by `GetoptLaws.WordMeans` |
| `Getopt.GetoptData.SkipOperands` | lib/getopt.c:504-521 | gathers options in front of operands and passes over the operands that follow |
| `Getopt.GetoptData.EndAtDashes` | lib/getopt.c:528-540 | "--" is consumed and all that follows is skipped |
| `Getopt.GetoptData.EndOfScan` | lib/getopt.c:528-552 | the scan ends at "--" or the end with argv partitioned and optind at the boundary |
| `Getopt.GetoptData.ProcessOption` | lib/getopt.c:565-606 | whether an element is read as long or short option, and what is reported |
| `Getopt.GetoptData.TakeArgument` | lib/getopt.c:554-606 | an operand returned in order, or an option, with the consumed elements recorded |
| `Getopt.GetoptData.NextArgument` | lib/getopt.c:493-606 | one call outside a cluster does what the scan that moves nothing does next |
| `Getopt.GetoptData.NextInCluster` | lib/getopt.c:608-699 | the same inside a cluster of short options |
| `Getopt.GetoptData.GetoptInternal` | lib/getopt.c:470-700 | every call reports what the non-moving scan reports and keeps argv partitioned |
| `Getopt.LayoutExchange` | lib/getopt.c:130-183 | the layout after exchange |
| `Getopt.LayoutSkip` | lib/getopt.c:515-520 | operands that are passed over extend the skipped block |
| `Getopt.LayoutConsume` | lib/getopt.c:506-513 | elements used up extend the consumed block |
| `Getopt.LayoutEnd` | lib/getopt.c:542-552 | at the end argv is the consumed elements, then the skipped ones |
| `GetoptSpec.ChosenIsUnique` | lib/getopt.c:210-271 | the rule for long options picks one choice; `GetoptLaws.ChoiceLaws` tells which |
| `GetoptSpec.NextStep` | lib/getopt.c:470-700 | each step of the scan makes progress within argv |
| `GetoptSpec.ArgumentMovesOn` | lib/getopt.c:554-606 | an argument is consumed, or a shorter rest of a cluster is left |
| `GetoptRuns.Run` | lib/getopt.c:470-700 | over a whole run the reports are those of the non-moving scan, up to the first that is -1; if none is, argv ends as consumed then operands, which merge back to the arguments in order, with optind at the boundary; no arguments at all give no reports |
| `GetoptRuns.Call` | lib/getopt.c:702-715 | one call takes the run one step further, with a decreasing measure, or ends it with argv partitioned |
| `GetoptRuns.PartitionIsStable` | lib/getopt.c:59-75 | consumed and operands merge back to argv: nothing lost, both in original order |
| `GetoptRuns.OperandsBeforeDashes` | lib/getopt.c:523-540 | for every argument list and ordering, "--" included: the operands are some that do not begin with "-" unless they are "-" itself, and then all arguments behind "--", or behind the first operand where options must come first |
| `GetoptLaws.WordMeans` | lib/getopt.c:421-466 | for every option that optstring and the long options allow, in every spelling ("-abc", "-cx", "-c" "x", "--name=v", "--name" "v", -W), and for unknown, ambiguous and incomplete ones, the scan reports exactly this option, its argument or its error, uses up exactly its arguments, and goes on behind them |
| `GetoptLaws.CommandLineMeans` | lib/getopt.c:421-466 | the same for every command line made of such words and operands, up to its end, "--", or the first operand where options must come first |
| `GetoptLaws.EveryLine` | lib/getopt.c:421-466 | every command line is made of such words, so the law tells what is reported of any |
| `GetoptLaws.ChoiceLaws` | lib/getopt.c:445-451 | a full name stands for the first option so named, the beginning of just one name for that option; names of options that differ make their common beginning ambiguous |
| `GetoptLaws.ShortExamples` | lib/getopt.c:646-697 | optstring "ab:c::": how a, b with its argument and c with or without are written and reported, and b without an argument |
| `GetoptLaws.SuffixExample` | lib/getopt.c:675-693 | with optstring "S:" the argument behind "-S" is that of S, whatever it is |
| `GetoptLaws.LongExamples` | lib/getopt.c:329-375 | --suffix=x, --suf=x and --suf x are the option with the argument x |
| `Excluding.HasWildcards` | lib/exclude.c:140-176 | true iff some "?", "*" or "[" is not escaped |
| `Excluding.UnescapePattern` | lib/exclude.c:178-186 | the string in the buffer becomes the unescaped one, in place |
| `Excluding.FnmatchNoWildcards` | lib/exclude.c:330-348 | 0 iff equal, or with FNM_LEADING_DIR equal up to a slash |
| `Excluding.ExcludeFnmatch` | lib/exclude.c:375-391 | true iff the pattern matches the name or, unless anchored, some part behind a slash that no slash follows |
| `Excluding.FilePatternMatches` | lib/exclude.c:403-417 | true iff some pattern of the segment matches |
| `Excluding.LookupFrom` | lib/exclude.c:431-448 | true iff the name from a start on, or with FNM_LEADING_DIR cut at some slash, is in the table |
| `Excluding.FileNameMatches` | lib/exclude.c:422-462 | true iff some start and end of the name give an element of the table |
| `Excluding.AttachDecides` | lib/exclude.c:514-600 | a new option decides if it matches and otherwise changes no answer |
| `Excluding.CompileDecides` | lib/exclude.c:473-509 | the compiled segments answer by the plain rule |
| `Excluding.ListAgreesExactlyWhen` | lib/exclude.c:419-510 | for a name, all lists without a hashed pattern that ends in a lone backslash follow the rule iff the name has single slashes; if all options have FNM_LEADING_DIR, iff it has them or repeats its beginning |
| `Excluding.DoubleSlashExample` | lib/exclude.c:450-459 | a name with a double slash for which the list and the rule differ |
| `Excluding.LoneBackslashExample` | lib/exclude.c:593-596 | a pattern with a lone final backslash for which the list and the rule differ |
| `Excluding.Exclude.AddExclude` | lib/exclude.c:514-600 | the segments are those compiled from all options added; a hashed pattern is lost iff hash_insert has no memory and does not find it in its table |
| `Excluding.Exclude.Insert` | lib/exclude.c:593-598 | the pattern, unescaped where escapes are in force, is in the table afterwards, iff there was memory or it was there before |
| `Excluding.Exclude.ExcludedFileName` | lib/exclude.c:466-510 | the answer is that of the segments compiled from all options, whatever the name, and false for an empty list; where each option is faithful to the name it is the rule: the last that matches decides, the opposite of the first if none does |
| `ExcludeSpec.TableAgreesExactlyWhen` | lib/exclude.c:419-462 | looking a name up agrees with matching it, for all patterns, iff anchored or the name has single slashes (or, with FNM_LEADING_DIR, only repeats its beginning behind double ones) |
| `ExcludeSpec.StoredMeans` | lib/exclude.c:593-596 | a wildcard-free pattern without a lone final backslash matches the same names unescaped |
| `ExcludeSpec.StoredMeansExactlyWhen` | lib/exclude.c:593-596 | that is exact: with a lone final backslash the two differ |
| `ExcludeSpec.LiteralGlob` | lib/exclude.c:140-176 | under fnmatch a pattern without wildcards matches exactly its text |
| `ExcludeSpec.FaithfulMatches` | lib/exclude.c:419-462 | for a hashed option, the lookup and the direct match agree |
| `ExcludeSpec.RuleIsDeterministic` | lib/exclude.c:474-506 | the rule determines the answer |
| `PatternLaws.LiteralOption` | lib/exclude.c:375-391 | an option without wildcards matches iff the name is it, behind nothing or, unless anchored, behind a slash that no slash follows, and in front of nothing or, with FNM_LEADING_DIR, of a slash |
| `PatternLaws.HasWildcard` | lib/exclude.c:140-176 | what counts as a wildcard, by the first character: "?", "*" and "[" do unless escaped, and nothing else does |
| `PatternLaws.WildcardOptions` | lib/exclude.c:349-373 | an option "?" or "*" takes no slash under FNM_PATHNAME, but what follows one under FNM_LEADING_DIR |
| `PatternLaws.EscapeOptions` | lib/exclude.c:349-373 | a backslash escapes iff FNM_NOESCAPE is not set |
| `PatternLaws.TwoOptionsExample` | lib/exclude.c:464-510 | "exclude a, include a/b": the last that matches decides, what matches none is not excluded |
| `Fdopendir.LowestFree` | lib/fdopendir.c:124-130 | the least descriptor that is free, below the limit |
| `Fdopendir.FillingOne` | lib/fdopendir.c:138-148 | a duplicate below fd leaves one slot fewer there |
| `Fdopendir.AllFilled` | lib/fdopendir.c:150-153 | with all slots below fd taken, closing fd makes it the lowest free one |
| `Fdopendir.Process.CloneOpendir` | lib/fdopendir.c:175-224 | the stream is on the lowest free descriptor if the system grants it; the working directory is as before, or the process ends; by way of it, the answers of fchdir, opendir and going back decide |
| `Fdopendir.Process.WithDup` | lib/fdopendir.c:135-170 | a stream on exactly fd, or fd left open, just as the system answers; all other descriptors as on entry; the fd1 != fd exit unreachable below the limit, and beyond it taken iff a duplicate could be made; terminates |
| `Fdopendir.Process.CloseAndOpen` | lib/fdopendir.c:152-163 | with fd closed and the slots below taken, the stream or else a duplicate is on fd iff fd is below the limit; which of the two, the system decides |
| `Fdopendir.Process.SaveCwd` | lib/save-cwd.c:61-76 | the working directory is recorded on the lowest free descriptor if it can be opened, else by name if getcwd answers, else not |
| `Fdopendir.Process.Fdopendir` | lib/fdopendir.c:100-121 | the same for the whole call, with the saved working directory released again; the result is a function of the open descriptors and the answers of the system, with a second attempt exactly after an expected errno |
| `Fdopendir.ExitsOfFdopendir` | lib/fdopendir.c:100-121 | for an open fd: the exit for a wrong descriptor iff fd is not below the limit and one is free; with two free, the stream by way of /proc if granted, a refusal of another kind is final, and after an expected errno the working directory decides, with the exact conditions for each exit |
| `Backupfile.ReadVersion` | lib/backupfile.c:254-257 | all the digits at the place, and whether they are all nines |
| `Backupfile.VersionOfRun` | lib/backupfile.c:246-263 | an entry is version k iff its digits, then a tilde, end it, and k is their value |
| `Backupfile.NoVersion` | lib/backupfile.c:240-253 | entries that are too short, of another base name or without a first digit 1 to 9 are no versions |
| `Backupfile.TakenIffAtLeast` | lib/backupfile.c:259-263 | comparing lengths, then strings, tells whether the version exceeds the highest so far |
| `Backupfile.Larger` | lib/backupfile.c:240-263 | an entry is taken iff it is a version above the highest so far |
| `Backupfile.AddOne` | lib/backupfile.c:295-298 | the carry adds one to the digits in place and touches nothing else |
| `Backupfile.Append` | lib/backupfile.c:286-298 | the buffer holds the name with the next version |
| `Backupfile.Grow` | lib/backupfile.c:271-285 | the buffer itself if it has room for the longer suffix; else a larger one with the name kept, or none iff realloc refuses |
| `Backupfile.Consider` | lib/backupfile.c:240-298 | one entry: the buffer holds the version after the highest so far, with the result code to match; none iff the entry is higher, the buffer too small and realloc refuses |
| `Backupfile.OpenDirectory` | lib/backupfile.c:222-235 | the buffer is restored and holds the first version |
| `Backupfile.NumberedBackup` | lib/backupfile.c:208-303 | the buffer ends with the version after the highest among the entries, 1 if there are none; NEW iff there are none, LONGER iff the new version has more digits; out of memory only at an entry of a higher version whose successor does not fit and for which realloc refuses, and then it holds the name for the entries before it |
| `Backupfile.SuffixExamples` | lib/backupfile.c:233-234 | the suffixes of versions 1, 12 and 100, and the results behind versions 0, 8, 9 and 99 |
| `DecimalStrings.DecimalHasValue` | lib/backupfile.c:252-257 | decimal representations have their value and no leading zero |
| `DecimalStrings.ValueHasDecimal` | lib/backupfile.c:252-257 | digits without a leading zero are the representation of their value |
| `DecimalStrings.CompareIsNumeric` | lib/backupfile.c:260-262 | memcmp of digits of equal length is numeric comparison |
| `DecimalStrings.OrderByLength` | lib/backupfile.c:260-262 | numbers are ordered by length, then by digits |
| `DecimalStrings.IncrementAddsOne` | lib/backupfile.c:293-298 | turning final nines into zeros and incrementing the digit before adds one |
| `DecimalStrings.Successor` | lib/backupfile.c:265-298 | incrementing the digits of k, with a zero in front of all nines, gives those of k + 1, which are more iff all were nines |
| `Intprops.StrlenBound` | lib/intprops.h:52-55 | every number of b bits has at most (146b+484)/485 digits, for every b |
| `Intprops.StrlenBoundIsTight` | lib/intprops.h:52-55 | below 2621 bits the bound is the exact length of the largest value |
| `Intprops.StrlenBoundIsLoose` | lib/intprops.h:52-55 | at 2621 bits it is too large |
| `Intprops.LogOfTwo` | lib/intprops.h:52-52 | 2^485 < 10^146 |
| `Intprops.AddOverflow` | lib/intprops.h:112-117 | true iff the exact sum leaves the range; every subexpression stays in it |
| `Intprops.SubtractOverflow` | lib/intprops.h:119-124 | true iff the exact difference leaves the range; every subexpression stays in it |
| `Intprops.MultiplyOverflow` | lib/intprops.h:131-146 | true iff the exact product leaves the range, under truncating division; every subexpression stays in it |
| `Intprops.MultiplyTests` | lib/intprops.h:135-146 | each quotient exists within the range and lies on the side of the factor that the product tells |
| `Iconv.Utf16beMbtowc` | lib/iconv.c:51-78 | decodes the first scalar, or tells illegal from too few; the laws in UnicodeOrder fix which scalar |
| `Iconv.Utf16beWctomb` | lib/iconv.c:80-114 | stores exactly the encoding if it fits, else nothing; the laws in UnicodeOrder fix which |
| `Iconv.Utf16leMbtowc` | lib/iconv.c:122-149 | the same as above in little-endian order |
| `Iconv.Utf16leWctomb` | lib/iconv.c:151-185 | the same as above in little-endian order |
| `Iconv.Utf32beMbtowc` | lib/iconv.c:193-208 | decodes four bytes unless they encode no scalar |
| `Iconv.Utf32beWctomb` | lib/iconv.c:210-227 | stores exactly the encoding if it fits, else nothing |
| `Iconv.Utf32leMbtowc` | lib/iconv.c:235-250 | the same as above in little-endian order |
| `Iconv.Utf32leWctomb` | lib/iconv.c:252-269 | the same as above in little-endian order |
| `Iconv.U8Mbtoucr` | lib/unistr/u8-mbtoucr.c:23-142 | decodes the first scalar, or tells illegal from too few; then the character is U+FFFD |
| `Iconv.TwoBytes` | lib/unistr/u8-mbtoucr.c:35-53 | the same for leads C2 to DF |
| `Iconv.ThreeBytes` | lib/unistr/u8-mbtoucr.c:54-88 | the same for leads E0 to EF |
| `Iconv.FourBytes` | lib/unistr/u8-mbtoucr.c:89-137 | the same for leads F0 to F7, of which F5 to F7 begin no character |
| `Iconv.U8Uctomb` | lib/unistr/u8-uctomb.c:32-77 | stores exactly the encoding if it fits, else nothing |
| `Iconv.Fill` | lib/unistr/u8-uctomb.c:64-71 | the stores from the last byte to the first leave the encoding in the buffer, and touch nothing else |
| `Iconv.RoundFromUtf8` | lib/iconv.c:309-353 | one round: the bytes of one scalar are replaced by its encoding, or the reason to stop is reported; neither abort is reachable |
| `Iconv.RoundToUtf8` | lib/iconv.c:390-434 | the same in the other direction |
| `Iconv.LoopFromUtf8` | lib/iconv.c:298-360 | bytes written encode the scalars decoded from the bytes consumed; pointers and counts add up; errno tells what comes next |
| `Iconv.LoopToUtf8` | lib/iconv.c:379-441 | the same in the other direction |
| `Iconv.RplIconv` | lib/iconv.c:273-447 | the same for the whole call; a null buffer changes nothing; 0 iff all is converted, else -1 with EILSEQ, EINVAL or E2BIG just for illegal, incomplete or too much input |
| `Unicode.DecodeEncode` | lib/iconv.c:51-269 | decoding an encoded scalar, whatever follows, gives it back, in all forms |
| `Unicode.EncodeDecode` | lib/iconv.c:51-269 | encoding what was decoded gives the bytes back, in all forms |
| `Unicode.VerdictIsStable` | lib/iconv.c:51-269 | more bytes change a verdict only if it was that there were too few |
| `Unicode.ProperPrefixIsTooFew` | lib/iconv.c:51-269 | part of an encoding is never illegal nor another scalar |
| `Unicode.TooFewIsWrongExactlyWhen` | lib/iconv.c:51-269 | for nonempty input the verdict "too few" is given although nothing that may follow makes a character, exactly at the dead ends of the form |
| `Unicode.Completes` | lib/iconv.c:51-269 | at any other place where there are too few bytes, some more bytes make exactly one character |
| `Unicode.LoneF5Example` | lib/unistr/u8-mbtoucr.c:89-137 | a lone F5 has too few bytes, and with any byte behind it is illegal |
| `Unicode.TooFewMeans8` | lib/unistr/u8-mbtoucr.c:23-142 | there are too few bytes iff they begin some encoding without being all of it, or are a lone F5, F6 or F7; all other bytes that begin no character are illegal |
| `Unicode.TooFewMeansElsewhere` | lib/iconv.c:51-250 | in UTF-16 there are too few iff fewer than two, or than four behind the first unit of a pair; in UTF-32 iff fewer than four |
| `UnicodeOrder.EncodingKeepsOrder` | lib/iconv.c:80-227 | UTF-8 and big-endian UTF-32 keep the order of scalars as the order of bytes; UTF-16 does below U+10000, and from there on |
| `UnicodeOrder.SurrogatesComeFirst` | lib/iconv.c:80-114 | across U+10000 UTF-16 does not: scalars above it come before those from U+E000 |
| `UnicodeOrder.SurrogatePair` | lib/iconv.c:51-114 | the two words of a pair hold the upper and the lower ten bits above U+FFFF |
| `UnicodeOrder.OtherByteOrder` | lib/iconv.c:122-269 | the little-endian forms are the big-endian ones with the bytes of each word or unit reversed |
| `UnicodeOrder.ExamplesOfTheStandards` | lib/iconv.c:51-269 | the examples of RFC 3629 and RFC 2781, and U+1F600 |
| `Conversion.ConvertsOneWay` | lib/iconv.c:298-360 | what a call converts and why it stops is determined by input and room |
| `Conversion.UniquelyDecodable` | lib/iconv.c:51-269 | bytes encode at most one sequence of scalars |
| `Conversion.Resume` | lib/iconv.c:336-341 | going on after a call equals one call with the room of both |
| `Conversion.InTwoCalls` | lib/iconv.c:336-341 | resuming after E2BIG converts what one call with enough room converts |
| `Conversion.MoreInput` | lib/iconv.c:318-323 | leftover bytes in front of new input are converted as if all had come at once |
| `Conversion.MoreInputIsNoHelp` | lib/iconv.c:312-317 | an illegal sequence stays illegal with more input |
| `Conversion.IncompleteGoesOnExactlyWhen` | lib/iconv.c:318-323 | after a stop with EINVAL some more input can be converted to one more character iff what is left is no dead end |
| `Conversion.ThereAndBack` | lib/iconv.c:298-441 | converting there and back gives the original bytes |

## Left out

- The tuning of the hash table: growth and shrink thresholds and the size asked for are floating-point arithmetic; whether a rehash is attempted and at which size is an input here.
- `hash_get_entries`, `hash_do_for_each`, `hash_free`, statistics and printing: they would add loops over chains that `TableOk` and `Clear` already show.
- Obstacks, and what data_freer does beyond being handed each entry once.
- Null entries, for which `hash_insert_if_absent` aborts: entries are values of a type without null.
- Bracket expressions, FNM_PERIOD, FNM_EXTMATCH, collation, wide characters and locales other than C in the matcher.  `NoBracket` says where a pattern begins no bracket expression; in the exclusion list, what fnmatch says of other patterns is an arbitrary function.
- A failing `hash_initialize` in `new_exclude_segment`: it succeeds here, since the source goes on with its result untested.
- Regular expressions, case folding and reading patterns from a file in the exclusion list.  Its tables are sets of strings; that a table behaves as a set is what `HashRuns` proves.
- Permissions, buffer growth, DOS prefixes and the distinct root `//` in realpath, and copying the result to a caller's buffer.
- Printing messages, the environment and the set of ambiguous candidates in getopt; changes of optind by the user between calls; calls after the first -1; under `getopt_long_only`, long options without a flag whose `val` is -1, after which the source takes the next element for short options and may read beyond argv.
- Threads that open or close descriptors during fdopendir, and the variants for systems without fchdir or with KLIBC.
- Renaming, name length limits, DOS names and the retry after EEXIST in `lib/backupfile.c`; a rescan of a directory with the buffer as the previous scan left it.
- The negation, division and remainder tests of `lib/intprops.h`, and the expansions that use compiler builtins.
- The inline `u8_uctomb` of `lib/unistr.in.h` with `u8_uctomb_aux` behind it, which has the branches of the one in `lib/unistr/u8-uctomb.c`.
- The sum of shifted bytes in the UTF-32 decoders is a number here, so a first byte of 128 or more makes it large, not negative; both are illegal.
- Locale tables, ACLs, wrappers for system calls and header templates: plumbing without invariants of its own.
