# A model of WinFsp's user mode library

WinFsp lets a program present a file system to Windows. Its user mode library is written without the standard
library, and holds several algorithms of its own and two small concurrent protocols. This project models them and
proves what they promise.

* **The directory buffer** (`Memory`, `FileNames`, `RecordPacking`, `DirectoryIndex`, `DirectorySort`,
  `DirectoryBuffer`, `DirectoryListing`, `DirectoryLocking`). An arena of bytes holds self-sized records at its low end
  and an index of 32-bit offsets at its high end. It grows when it is full; on release the index is compacted and sorted
  in place by a quicksort with an explicit stack; reads search the index by name and fill a page. The arena, index, sort
  and search are proved to agree with a sorted list of what was filled in and not invalidated, page by page and over
  a whole listing. The locking of the shared buffer is a state machine over any number of threads.
* **The resolution of reparse points** (`WideStrings`, `ReparsePaths`, `ReparsePoints`). A path is searched for symbolic
  links and rewritten in place until none is left. The in-place form is proved to be a pure rewriter of paths. The
  rewriter ends, follows at most 31 links, stays within its buffer, takes a dot, and a dotdot with the component before
  it, out of the path, puts a link's target in the link's place, and leaves no reparse point in a directory prefix. A
  path keeps its root unless a dot or dotdot at its end takes the root away. None of this assumes that the file system's
  answers are consistent with each other, except where the root is lost, that the empty path is no link.
* **The access check** (`Paths`, `AccessMasks`, `AccessRights`, `AccessCheck`). The path of a request is cut by NULs while
  names are checked, down to one nested check of the parent directory, and is put together again on every way out. When
  a check succeeds, and how it fails, is stated by the answers of the file system alone. What an open, an overwrite or the
  creation of a stream is granted in the end is compared with what was asked for.
* **The dispatcher** (`Dispatcher`, `OperationGuard`, `ResponseLoop`, `TransactFrames`). A chain of threads, each of which
  starts the next one and later joins it; the lock around operations; the loop that turns requests into responses; and
  the batches of frames shared with the driver.
* **Extended attributes** (`ExtendedAttributes`): lists with next offsets, written, made final and enumerated.

Sizes, offsets, bits and status codes that the theorems speak of are given in numbers there, so that they do not depend
on the model's own constants.

Concurrent code is modelled as steps of any thread in any order; a theorem about a run holds for runs of every length.
Everything else modelled here that changes memory in the library is a method on arrays or on a class. The file system,
the system's access check and the allocator are functions that are passed in, about which nothing is assumed except where
a theorem says so.

## Where the code differs from what one might expect

* The documented table of the operation guard does not list overwriting; the code takes the lock exclusively for it
  (`OperationGuard.FineIsDocumented`).
* `DispatcherStopped` is not called when the first dispatcher thread of a start gets to its end before
  `FspFileSystemStartDispatcher` has stored its handle (`Dispatcher.MayStaySilent`; `Dispatcher.AnnouncesUnlessEarly` says
  exactly when it is called).
* A marker ends at its first NUL, so a record whose name has a NUL does not resume a listing behind itself. All pages
  with room deliver a directory exactly once if and only if none of its names has a NUL
  (`DirectoryListing.ListedExactlyIfNulFree`); with the names "a" and "a", NUL, "b", pages of one record never end
  (`DirectoryListing.NulNameIsReadForever`).
* A check that asks the parent directory for help takes the index of a reparse point for access rights when the parent is
  itself a reparse point: an odd index for the right to read attributes, one with the bit of 64 for the right to delete.
  `AccessRights.CheckIsExactUnless` says exactly what the access check then grants. An open, an overwrite and a new stream
  take the right to delete back, so what they grant in the end is wrong exactly if an odd index brings the right to read
  attributes and nobody asked for it (`AccessRights.OpenGrantsExactly` and the two theorems behind it).
  `AccessRights.LinkedParentGrantsTooMuch` has an input for each: one for the access check alone, and one for each of the
  three operations.
* A dot or dotdot that is the last component and goes back to where the path starts takes the root with it. What is left
  is the empty path, or the stream alone, and not the root; the driver refuses such a result (src/sys/create.c:959-960).
  `ReparsePaths.RootIsLost` has two inputs: the path of a directory and dotdot, and a link with the target dotdot.
  `ReparsePaths.RootedUnlessSunk` says exactly when the root is kept.
* A list of extended attributes must be made final once only: in a final list the walk to the last entry never ends
  (`ExtendedAttributes.FinalWalkNeverEnds`).
* Names that contain NUL, or that are one or two characters U+0001, can compare equal to other names
  (`FileNames.IllegalNamesCollide` shows that this is the only such case without NULs).
* The length fields of a resolved path have 16 bits (`ReparsePaths.LengthFieldsAreExact` says when they are right;
  `ReparsePaths.LengthFieldsFit` that they always are for an output of at most 64K, such as the library's own).
* A capacity hint of 0, which is what `FspFileSystemAcquireDirectoryBuffer` passes, and one above 2^31 make the code
  shift a 32-bit one by 32. The model does what the processors do, which use the last five bits of the count: both hints
  stand for the lower bound.

## Model

| member | source | states |
|---|---|---|
| Memory.AlignUpMask | inc/winfsp/fsctl.h:86-88 | The mask form of the alignment macro gives the least multiple of 8 that is not below its argument. |
| FileNames.WcsNCmp | src/shared/um/minimal.h:107-128 | The bounded comparison gives the difference at the first place where the strings differ or both end. |
| FileNames.LexLessIs | src/dll/dirbuf.c:44-87 | A string is less than another one exactly if there is a place up to which they agree, where it ends or has the smaller code unit. |
| FileNames.FileNameCmp | src/dll/dirbuf.c:44-87 | Negative, zero and positive results are exactly less, equal and greater in the order on names, for all names. |
| FileNames.NamesAreTotal | src/dll/dirbuf.c:44-87 | Any two names compare in exactly one way. |
| FileNames.NamesAreTransitive | src/dll/dirbuf.c:44-87 | The order is transitive, and strict if one of its two steps is. |
| FileNames.LegalNamesAreDistinguished | src/dll/dirbuf.c:44-87 | Legal names compare equal exactly if they are the same. |
| FileNames.IllegalNamesCollide | src/dll/dirbuf.c:44-87 | Without NULs a name is illegal exactly if it is taken for "." or "..". |
| FileNames.DotsComeFirst | src/dll/dirbuf.c:44-87 | "." comes before "..", and both before every other legal name that is not empty. |
| FileNames.LengthBreaksTies | src/dll/dirbuf.c:76-85 | Of two names that agree up to a NUL the shorter one comes first, whatever is behind it. |
| FileNames.NulFreeOrderIsLexicographic | src/dll/dirbuf.c:44-87 | Without NULs the order is the lexicographic one on the names with the dots mapped. |
| FileNames.CutNameIsLess | src/dll/dirbuf.c:44-87 | A name that is cut at its first NUL comes before the whole name. |
| RecordPacking.AddXxxInfo | src/dll/fsop.c:1500-1529 | A record or end mark is written at the end exactly if it fits, padded to 8 bytes, and nothing else changes. |
| RecordPacking.PackedAppend | src/dll/fsop.c:1500-1529 | A record copied to the end of a packed list extends the list. |
| RecordPacking.WalkPacked | src/dll/fsop.c:1500-1529 | A reader that steps by aligned sizes gets back the packed records, and sees an end mark exactly if there is one. |
| RecordPacking.FittingIs | src/dll/fsop.c:1517-1520 | The number of records that fit is the one for which they fit and one more does not. |
| DirectoryIndex.NameInIs | src/dll/dirbuf.c:106-108 | The name of a record is the one whose 16-bit code units, low byte first, fill it behind the 104 bytes of its header, for every name. |
| DirectoryIndex.DirInfoIs | src/dll/dirbuf.c:106-108 | The size and the name of a record that is made up for a name are read back, for names of any code units. |
| DirectoryIndex.RecordIsFound | src/dll/dirbuf.c:142-150 | A whole record that lies at an offset is found there, with its name. |
| DirectoryIndex.Less | src/dll/dirbuf.c:142-150 | Records are compared by the names in their bytes. |
| DirectorySort.ScanUp | src/dll/dirbuf.c:160-161 | The scan up stops at the first entry that is not less than the pivot, which is there at the latest. |
| DirectorySort.ScanDown | src/dll/dirbuf.c:163-165 | The scan down stops at the first entry that is not greater than the pivot, or at the left end. |
| DirectorySort.Partition | src/dll/dirbuf.c:152-176 | The pivot ends in its final place, smaller records before it and larger ones after it; entries outside stay; both scans stay inside. |
| DirectorySort.MedianOfThree | src/dll/dirbuf.c:188-191 | After the swaps the median stands second to last, between the first and the last entry. |
| DirectorySort.MedianIsBetween | src/dll/dirbuf.c:188-191 | Three exchanges that compare put three entries in order. |
| DirectorySort.PermuteOrdered | src/dll/dirbuf.c:183-215 | Permuting one pending segment leaves entries of different segments in order. |
| DirectorySort.SplitOrdered | src/dll/dirbuf.c:194-206 | A segment splits about an entry in its final place. |
| DirectorySort.SplitHalves | src/dll/dirbuf.c:196-206 | Pushing the larger part keeps the k-th segment on the stack within the 2^k-th part of the whole. |
| DirectorySort.StackStaysShallow | src/dll/dirbuf.c:180 | A segment that is split never has 29 or more pairs below it, so 64 integers are enough for every count that fits an int. |
| DirectorySort.SortingSplits | src/dll/dirbuf.c:186-206 | One round keeps what holds between rounds: permuted so far, in order between segments, stack bounded. |
| DirectorySort.SplitAndPush | src/dll/dirbuf.c:194-206 | The partition and the push keep the invariant, and less is left to sort. |
| DirectorySort.QSort | src/dll/dirbuf.c:178-218 | The index ends up a permutation of itself in the order of the names, and the records stay as they are. |
| DirectoryBuffers.InitialCapacityIs | src/dll/dirbuf.c:245-252 | The initial capacity is the next power of two within its bounds, and the lower bound for hints whose power does not fit. |
| DirectoryBuffers.NextCapacityIs | src/dll/dirbuf.c:325-341 | The first capacity is the initial one; it grows by 4 below 1M, and by 2 from there on. |
| DirectoryBuffers.ExtendDenotes | src/dll/dirbuf.c:309-322 | A record at the low end and its offset at the high end add that record to what the index denotes, and leave the rest. |
| DirectoryBuffers.Relocate | src/dll/dirbuf.c:336-346 | Growing keeps the records and the index, which moves to the new end. |
| DirectoryBuffers.Compact | src/dll/dirbuf.c:362-372 | The entries that are not invalidated end up at the high end, in order. |
| DirectoryBuffers.CompactionDenotes | src/dll/dirbuf.c:362-372 | They denote the records that are present, and are sound. |
| DirectoryBuffers.SortDenotes | src/dll/dirbuf.c:226-233 | Sorting the index denotes the same records, in the order of their names. |
| DirectoryBuffers.DirectoryBuffer.constructor | src/dll/dirbuf.c:254-260 | A new buffer is empty. |
| DirectoryBuffers.DirectoryBuffer.Reset | src/dll/dirbuf.c:275-283 | A reset empties the buffer and keeps its memory. |
| DirectoryBuffers.DirectoryBuffer.Fill | src/dll/dirbuf.c:294-354 | A fill succeeds exactly if the growth it needs is granted; then the record is added, else the listing is as before. |
| DirectoryBuffers.DirectoryBuffer.TryAdd | src/dll/dirbuf.c:309-322 | The record is added exactly if it and an index entry fit between the marks. |
| DirectoryBuffers.DirectoryBuffer.Grow | src/dll/dirbuf.c:325-352 | Growth changes the capacity and nothing of the listing; a refused allocation changes nothing. |
| DirectoryBuffers.DirectoryBuffer.Invalidate | src/dll/library.h:124-126 | Overwriting an entry that was peeked at takes that record away and leaves the others. |
| DirectoryBuffers.DirectoryBuffer.Sort | src/dll/dirbuf.c:226-233 | Afterwards the records are ordered by name, and are the same. |
| DirectoryBuffers.DirectoryBuffer.Release | src/dll/dirbuf.c:356-377 | Afterwards the index is compacted and sorted, and denotes exactly the records that were filled and not invalidated. |
| DirectoryBuffers.SearchStep | src/dll/dirbuf.c:100-115 | One comparison decides about one side of the index. |
| DirectoryBuffers.DirectoryBuffer.Search | src/dll/dirbuf.c:93-124 | Found exactly if there is a record of that name; the result is its place, or that of the last record before it, or -1. |
| DirectoryBuffers.WritingStops | src/dll/dirbuf.c:402-413 | When a record does not fit, the page holds all that fit, and no end mark. |
| DirectoryBuffers.WritingEnds | src/dll/dirbuf.c:402-417 | After the last record there is an end mark if it fits. |
| DirectoryBuffers.DirectoryBuffer.ReadFrom | src/dll/dirbuf.c:402-413 | Records are written from a place on, as long as they fit. |
| DirectoryBuffers.DirectoryBuffer.Read | src/dll/dirbuf.c:379-418 | A page holds the records after the marker, which ends at its first NUL, as far as they fit, and an end mark after the last one; nothing outside it changes. |
| DirectoryListing.PageReads | src/dll/dirbuf.c:379-418 | What a reader finds in a page is the records that fit, with an end mark exactly if they are the last and it fits. |
| DirectoryListing.DistinctIsStrict | src/dll/dirbuf.c:93-124 | Sorted records with distinct names are strictly sorted. |
| DirectoryListing.StrictResume | src/dll/dirbuf.c:385-400 | With distinct names the place where a listing resumes is determined by the marker. |
| DirectoryListing.ResumeAfter | src/dll/dirbuf.c:393-400 | The name of a record, used as a marker, resumes the listing right after it exactly if it has no NUL; else at it or before. |
| DirectoryListing.PagesDeliverInOrder | src/dll/dirbuf.c:379-418 | Where no name has a NUL, pages of any lengths deliver the listing in order, without gap or repetition; it is complete when the end mark comes. |
| DirectoryListing.PagesEnd | src/dll/dirbuf.c:379-418 | Where no name has a NUL, pages that each have room for the next record get to the end mark after at most one page more than there are records. |
| DirectoryListing.WholeDirectoryIsListed | src/dll/dirbuf.c:379-418 | Where no name has a NUL, such pages deliver every record exactly once from no marker on, in order, and end. |
| DirectoryListing.NulNameRepeats | src/dll/dirbuf.c:397-400 | For every directory with a NUL in a name there are pages with room that do not deliver it exactly once. |
| DirectoryListing.ListedExactlyIfNulFree | src/dll/dirbuf.c:379-418 | All pages with room deliver the directory exactly once if and only if no name has a NUL. |
| DirectoryListing.NulNameIsReadForever | src/dll/dirbuf.c:397-400 | A concrete directory of two records of which one has a NUL in its name: pages of one record never get to the end mark. |
| DirectoryListing.ReadOnePage | src/dll/dirbuf.c:379-418 | What the read puts into a page is the records behind the marker that fit, and the end mark if they are the last. |
| DirectoryListing.ListDirectory | src/sys/dirctl.c:287-316 | A client that calls the read page after page, each after the last name it got, gets what the page theorems say: every record once, and an end. |
| DirectoryListing.FillAll | inc/winfsp/winfsp.hpp:402-424 | The buffer is filled completely exactly if all the growth that takes is granted, and then holds what the file system reported. |
| DirectoryListing.BufferedReadDirectory | inc/winfsp/winfsp.hpp:381-429 | A read succeeds exactly if the report is complete and the growth is granted; it delivers a page of the report, sorted, and later pages come from the same listing. |
| DirectoryListing.DistinctPermuted | src/dll/dirbuf.c:226-233 | Sorting keeps names distinct. |
| DirectoryListing.ReadBufferedPage | inc/winfsp/winfsp.hpp:381-429 | A reader of the page that such a call fills finds the records behind the marker that fit, and the end mark if they are the last. |
| DirectoryListing.ReadFurther | inc/winfsp/winfsp.hpp:381-429 | Calls behind the last name, one after the other, read the pages of one unchanged listing. |
| DirectoryListing.ListThroughBuffer | inc/winfsp/winfsp.hpp:381-429 | A call without a marker and then calls with the last name deliver the whole report, sorted, every record once, if no name has a NUL and the pages have room; they fail exactly if the first call does. |
| DirectoryLocking.StepKeepsInv | src/dll/dirbuf.c:235-286 | Every step of every thread keeps the protocol's invariant. |
| DirectoryLocking.RunInv | src/dll/dirbuf.c:235-286 | It holds in every state of every run. |
| DirectoryLocking.FillIsChange | src/dll/dirbuf.c:294-354 | What a fill does to a buffer is the step of a change. |
| DirectoryLocking.InvalidateIsChange | src/dll/library.h:124-126 | So is what an invalidation does. |
| DirectoryLocking.ReleaseIsCompactAndSort | src/dll/dirbuf.c:356-377 | What a release does before it unlocks is the step that compacts and sorts. |
| DirectoryLocking.PublishedOnce | src/dll/dirbuf.c:262-266 | At most one buffer is ever published. |
| DirectoryLocking.PublishedLocked | src/dll/dirbuf.c:259-266 | When it is published it is locked exclusively by the thread that may fill it. |
| DirectoryLocking.AcquireEnds | src/dll/dirbuf.c:235-286 | Every acquire that ends in a run gets the buffer, empty and locked, if it is to reset it or is the first; it gets none if it is not to reset it, or if there is no memory. |
| DirectoryLocking.AcquireLeavesAlone | src/dll/dirbuf.c:235-286 | On its way it leaves every buffer alone but the one it makes, and, if it is to reset it, the one that is published. |
| DirectoryLocking.ReadersSeeSorted | src/dll/dirbuf.c:362-376 | Whenever a shared lock is held or can be taken, the index is compacted and sorted. |
| DirectoryLocking.ListingMoves | src/dll/dirbuf.c:275-377 | Only the thread that holds a buffer changes what it lists, by one fill or invalidation, a release that keeps the records, or a reset. |
| DirectoryLocking.ReadIsStable | src/dll/dirbuf.c:379-414 | While a thread reads, the listing that it reads stays as it is, whatever the others do. |
| DirectoryLocking.ReadersShare | src/dll/dirbuf.c:385-387 | A thread that waits to read gets the lock exactly if nobody holds it exclusively. |
| DirectoryLocking.WritersExclude | src/dll/dirbuf.c:275-283 | While a thread fills or releases, no other one fills, releases or reads. |
| DirectoryLocking.NoDanglingBuffer | src/dll/dirbuf.c:268-273 | A buffer that a thread refers to has not been freed, and neither has one it holds. |
| DirectoryLocking.SortedFormExists | src/dll/dirbuf.c:356-377 | Every listing has a compacted and sorted form. |
| DirectoryLocking.NoDeadlock | src/dll/dirbuf.c:235-414 | While a thread is in the middle of a call, some thread can go on with its own. |
| ReparsePaths.RoomInBytes | src/dll/fsop.c:1601-1604 | A path has room exactly if 20 bytes, 2 for each of its code units and 2 for the NUL are no more than the output. |
| ReparsePaths.StepFits | src/dll/fsop.c:1707-1712 | A step keeps the path within the buffer and free of NULs. |
| ReparsePaths.ResolvedFits | src/dll/fsop.c:1601-1712 | So a path that comes out, with its NUL and 20 bytes before it, fits into the output. |
| ReparsePaths.StepCountsLinks | src/dll/fsop.c:1704-1705 | A link that is found costs a try and nothing else does; a step gives up exactly at a link. |
| ReparsePaths.AtMost31Links | src/dll/fsop.c:1598-1739 | However a resolution comes out, it makes at most 31 substitutions and finds at most 32 links; on success it has replaced all it found, as many as there are tries used up, and it gives up exactly if it has found one more than it has replaced. |
| ReparsePaths.DotDisappears | src/dll/fsop.c:1637-1652 | A dot goes with the backslash before it. |
| ReparsePaths.DotDotDropsComponent | src/dll/fsop.c:1654-1675 | A dotdot takes the component before it away, with every backslash between them and one before that component. |
| ReparsePaths.DotDotTakesTheRoot | src/dll/fsop.c:1654-1675 | A dotdot behind nothing but backslashes takes them away, so only what follows it is left, or nothing. |
| ReparsePaths.LinkIsSubstituted | src/dll/fsop.c:1707-1738 | A link becomes prefix, target and remainder, or target and remainder if its target starts with a backslash, and resolution is over if such a target is absolute; it fails exactly if that does not fit into the output or no try is left. |
| ReparsePaths.OutcomeIsExplained | src/dll/fsop.c:1617-1774 | Every outcome says what the file system answered where the resolution stopped, and each answer makes for its own outcome; all directory prefixes before that place are no reparse points. |
| ReparsePaths.StepKeepsRoot | src/dll/fsop.c:1637-1738 | A step leaves a rooted path rooted exactly if it is not a dot or dotdot at the end that goes back to where the path starts; then only the stream is left. |
| ReparsePaths.RootedUnlessSunk | src/dll/fsop.c:1614-1739 | A rooted path resolves to a rooted one if no such step is taken on the way; if one is, and the empty path is not a link, what comes out is empty or a stream. |
| ReparsePaths.RootIsLost | src/dll/fsop.c:1640-1675 | A directory followed by dotdot, and a link with the target dotdot, resolve to the empty path. |
| ReparsePaths.EndsInDotsIs | src/dll/fsop.c:1637-1657 | A prefix ends in dots exactly if its last component is dot or dotdot. |
| ReparsePaths.NotInDots | src/dll/fsop.c:1637-1657 | A component that is passed by is neither dot nor dotdot. |
| ReparsePaths.CleanCarriesOver | src/dll/fsop.c:1617-1739 | A rewrite behind a clean prefix leaves the prefix clean. |
| ReparsePaths.StepKeepsSettled | src/dll/fsop.c:1617-1739 | Every step keeps the prefix before the current place clean, and an end that is not absolute is fully resolved. |
| ReparsePaths.ResolvedIsClean | src/dll/fsop.c:1617-1739 | In a result that is not absolute no directory prefix is a reparse point, nor is the whole path if its last component counts. |
| ReparsePaths.LengthFieldsAreExact | src/dll/fsop.c:1741-1751 | For a path of n code units the length fields are 2n, 2n + 12 and 2n + 20 exactly if 2n + 12 has 16 bits. |
| ReparsePaths.LengthFieldsFit | src/dll/fsop.c:130-152 | They always are for an output of at most 64K. |
| ReparsePoints.LookUp | src/dll/fsop.c:1678-1682 | Cutting the path for a call leaves it as it was. |
| ReparsePoints.FindReparsePoint | src/dll/fsop.c:1537-1582 | What is found is the first directory prefix that is a reparse point; else there is none, or an error came first. |
| ReparsePoints.FindingIsExact | src/dll/fsop.c:1537-1582 | Where there is a reparse point to be found there is no other result. |
| ReparsePoints.FoundIsSettled | src/dll/fsop.c:1537-1582 | Resolution may start where a reparse point was found. |
| ReparsePoints.FoundIsResolved | src/dll/fsop.c:1537-1739 | Finding and resolving leaves no reparse point behind. |
| ReparsePoints.WholePathIsResolved | src/dll/fsop.c:1614-1739 | Resolving from the start leaves no dot and no dotdot behind either. |
| ReparsePoints.Substitute | src/dll/fsop.c:1707-1738 | The moves in place give the rewritten path exactly if it fits, and else nothing changes. |
| ReparsePoints.ResolveDot | src/dll/fsop.c:1634-1675 | The part of a round for dot and dotdot, in place, is a step of the rewriter and makes progress. |
| ReparsePoints.ResolveLink | src/dll/fsop.c:1704-1738 | The part of a round for a link, in place, is a step of the rewriter and makes progress. |
| ReparsePoints.ResolveRound | src/dll/fsop.c:1617-1739 | So is a whole round. |
| ReparsePoints.ResolveReparsePoints | src/dll/fsop.c:1584-1774 | Resolution in place ends, with the outcome and the path of the rewriter after 32 tries at most; it is refused at once exactly if 20 bytes and the path with its NUL exceed the output, and the lengths are right for every path of less than 32K code units. |
| Paths.PathPrefix | src/dll/path.c:24-41 | The path is cut behind its first component, and putting it together up to the remainder undoes that. |
| Paths.FirstRunIs | src/dll/path.c:24-41 | Where the path is cut and goes on is determined by its first run of backslashes. |
| Paths.PathSuffix | src/dll/path.c:43-68 | The path is cut before the backslashes in front of its last component. |
| Paths.PathCombine | src/dll/path.c:70-75 | NULs before the suffix become backslashes and nothing else changes. |
| Paths.CombineUndoes | src/dll/path.c:43-75 | Putting together undoes a cut. |
| Paths.ParentIs | src/dll/path.c:43-68 | The parent of a prefix, backslashes and a name is the prefix, or the root; the index is where the name starts, or 0 below the root. |
| Paths.SplitIsComplete | src/dll/path.c:43-68 | A path with a backslash is its parent, some backslashes and its last component. |
| Paths.SuffixIndex | src/dll/library.h:131-142 | The index of the last component is found and the name is left as it was. |
| AccessMasks.ParentRightsDoNotRecur | src/dll/security.c:238-244 | The rights that are asked of the parent cannot lead to another fallback. |
| AccessMasks.AskedOfParent | src/dll/security.c:238-269 | A parent that grants just what is asked adds no right that was not desired. |
| AccessMasks.BitsAre | src/dll/security.c:126-381 | The bits of the masks stand for the numbers of the rights, attributes and options. |
| AccessMasks.BitsMakeNumber | src/dll/security.c:385-386 | The set of bits that stands for a number has that number. |
| AccessMasks.AskedFor | src/dll/fsop.c:217-311 | With delete on close the right to delete is asked for as well; an overwrite and a new stream ask for the right to write data, a supersede for the right to delete. |
| AccessMasks.RightsLeft | src/dll/fsop.c:229-317 | Which rights are left of a grant, for every mask: what was asked for only to delete or overwrite goes, unless the most that is allowed is desired. |
| AccessMasks.OpenIsTakenBack | src/dll/fsop.c:265-278 | What an open asks for in addition does not stay in the grant, nor does DELETE that comes from the parent. |
| AccessMasks.OverwriteIsTakenBack | src/dll/fsop.c:303-317 | Nor does what an overwrite or supersede asks for. |
| AccessMasks.StreamIsTakenBack | src/dll/fsop.c:226-240 | Nor does what the creation of a stream asks of the main file. |
| AccessRights.TraverseIsOfAll | src/dll/security.c:126-191 | The check of the way passes exactly if every directory on it, up to a colon, passes; else it stops as the first one does that does not. |
| AccessRights.OpenWay | src/dll/security.c:126-191 | The way is open exactly if the file system calls every directory on it a directory and no reparse point, and FILE_TRAVERSE is allowed on each that has a descriptor. |
| AccessRights.ClosedWay | src/dll/security.c:144-188 | Else the first directory that fails decides: a reparse point with its index, a path that is not found, or what the access check says. |
| AccessRights.AccessIs | src/dll/security.c:209-278 | What the system refuses is asked for again without what the parent gives, if the parent is asked and its check succeeds; every other outcome is a refusal. |
| AccessRights.AttributesDecide | src/dll/security.c:280-381 | Which attributes and options make a check fail, with which status, and what is granted and handed back otherwise. |
| AccessRights.CheckEndsAs | src/dll/security.c:55-402 | How a check ends for every request, as the first of its parts decides. |
| AccessRights.CheckedIsAsAsked | src/dll/security.c:55-402 | A check succeeds exactly if the file is there and of the kind that is asked for, may be written or deleted if that is asked, every directory on the way may be traversed, and the access check allows what is desired. |
| AccessRights.NothingToCheck | src/dll/security.c:83-89 | Without security by name, and in kernel mode with no descriptor wanted, everything desired is granted. |
| AccessRights.AccessGranted | src/dll/security.c:209-278 | An access check that succeeds grants what is desired and what the parent makes up for. |
| AccessRights.CheckGrants | src/dll/security.c:55-402 | So does the whole check, in user mode and without MAXIMUM_ALLOWED. |
| AccessRights.CheckIsPlain | src/dll/security.c:55-402 | No check ends with a success code of the file system's own, whatever that answers: it succeeds plainly or with a reparse point. |
| AccessRights.ParentGivesWhatIsAsked | src/dll/security.c:238-278 | A parent that is not a reparse point gives no right that was not desired. |
| AccessRights.ParentResult | src/dll/security.c:55-402 | What the check of the parent comes back with: the rights that were asked for, or the index of a reparse point. |
| AccessRights.IndexAsRights | src/dll/security.c:256-269 | An odd index passes for the right to read attributes, one with the bit of 64 for the right to delete. |
| AccessRights.CheckIsExactUnless | src/dll/security.c:55-402 | A check that succeeds grants what is desired and what such an index brings, so just what is desired exactly if the index brings no other right. The index is read off the file system's answers for the parent. |
| AccessRights.OpenGrantsExactly | src/dll/fsop.c:246-280 | A successful open has been granted the right to delete if the file is to be deleted, and grants in the end the desired rights and those of the request, no more and no less, if and only if no such index brings the right to read attributes that neither asks for. |
| AccessRights.OverwriteGrantsExactly | src/dll/fsop.c:283-320 | A successful overwrite has been granted the right to write data, a supersede the right to delete; what is granted in the end is as exact as for an open. |
| AccessRights.StreamGrantsExactly | src/dll/fsop.c:217-243 | A new stream has been granted the right to write data to the main file; the same holds of what is granted in the end. |
| AccessRights.LinkedParentGrantsTooMuch | src/dll/security.c:238-278 | A concrete file in a linked directory where the check grants more than was asked for, and where an open, an overwrite and a new stream do. |
| AccessCheck.CheckPrefix | src/dll/security.c:126-191 | The check of one directory on the way leaves the path as it was. |
| AccessCheck.CheckDirectories | src/dll/security.c:126-191 | The traverse check, in place, is the check of all directories on the way. |
| AccessCheck.CheckRights | src/dll/security.c:209-278 | The system's check and the parent's help, in place, leave path and stream offset as they were. |
| AccessCheck.FinishAttributes | src/dll/security.c:280-381 | The checks of the attributes leave the path as it was. |
| AccessCheck.CheckCut | src/dll/security.c:114-390 | The check with the path cut leaves the cut path as it was. |
| AccessCheck.AccessCheckEx | src/dll/security.c:55-402 | Path and stream offset are as before on every way out; the nesting is at most one deep, and the result is that of the check on values. |
| Dispatcher.EffectiveCount | src/dll/fs.c:384-402 | The number of threads is the one asked for, or the number of processors within 4 and 16, and at least 2. |
| Dispatcher.ControlKeepsInv | src/dll/fs.c:379-441 | Every step of starting and stopping keeps the invariant. |
| Dispatcher.StepKeepsInv | src/dll/fs.c:244-376 | So does every step of every dispatcher thread. |
| Dispatcher.RunInv | src/dll/fs.c:244-463 | It holds in every state of every run, over any number of starts and stops. |
| Dispatcher.AsManyAsWanted | src/dll/fs.c:262-271 | When the last thread of a start is at work there are as many threads as were asked for. |
| Dispatcher.AtMostWanted | src/dll/fs.c:262-271 | A start never leads to more threads than it asked for. |
| Dispatcher.StopEndsAll | src/dll/fs.c:417-441 | When a stop's wait is over, and when it returns, no dispatcher thread is running. |
| Dispatcher.AnnouncedLast | src/dll/fs.c:361-374 | The first thread of a start calls DispatcherStopped, when every other thread has ended and it has not been called for this start; its argument says whether a stop is under way. |
| Dispatcher.AnnouncedOnce | src/dll/fs.c:361-374 | It is called at most once for each start. |
| Dispatcher.AnnouncesUnlessEarly | src/dll/fs.c:361-404 | A thread that checks whether to call it does so exactly if there is a callback, it is the first one, and its handle is stored. |
| Dispatcher.MayStaySilent | src/dll/fs.c:361-404 | A run in which it gets there before, and the call is never made. |
| Dispatcher.FirstFailureStays | inc/winfsp/winfsp.h:1395-1401 | The recorded result is the first failure reported, and does not change any more. |
| Dispatcher.FailureIsReported | src/dll/fs.c:346-353 | A thread that ends reports what it ends with if that is a failure, and no more. |
| Dispatcher.OneEndsAll | src/dll/fs.c:346-353 | When a thread gets to its join the volume is stopped, so that all the others end too. |
| Dispatcher.StoppedWindsDown | src/dll/fs.c:346-358 | Once the volume is stopped no dispatcher thread gets another request, and every step of one uses up one of finitely many. |
| Dispatcher.SomeThreadGoesOn | src/dll/fs.c:355-359 | While a thread has not ended, it or one behind it can go on: the joins do not deadlock. |
| Dispatcher.StopGoesOn | src/dll/fs.c:428-431 | While a stop waits, its wait is over or some dispatcher thread can go on. |
| Dispatcher.WaitIsFinite | src/dll/fs.c:428-431 | While a stop waits, every step of a dispatcher thread is taken from a bounded number, and nothing adds to it. |
| Dispatcher.StopReturns | src/dll/fs.c:417-431 | So the wait goes on for a bounded number of such steps only, and when no thread can take another one the wait is over. |
| OperationGuard.FineIsDocumented | src/dll/fsop.c:47-86 | The fine strategy takes the lock as documented, except that overwriting is exclusive too. |
| OperationGuard.TableInNumbers | src/dll/fsop.c:47-86 | Which option words and information classes take the lock how, in numbers: opens have 1 in the top byte of 32 bits. |
| OperationGuard.ReleasedIsAcquired | src/dll/fsop.c:47-127 | Leaving releases the mode that entering took. |
| OperationGuard.StepKeepsInv | src/dll/fsop.c:47-127 | The lock always counts exactly the operations that hold it. |
| OperationGuard.Overlap | src/dll/fsop.c:47-127 | Two operations overlap only if one of them is unguarded or both are shared. |
| OperationGuard.CoarseIsMutualExclusion | src/dll/fsop.c:81-83 | Under the coarse strategy no two operations overlap. |
| OperationGuard.EntersUnlessExcluded | src/dll/fsop.c:47-86 | A thread can enter exactly if no operation that is under way excludes its mode: shared ones run side by side. |
| OperationGuard.LockIsSound | src/dll/fsop.c:88-127 | Nothing is released that is not held, and the lock is free when no operation is under way. |
| OperationGuard.NoDeadlock | src/dll/fsop.c:47-127 | While a thread is entering or inside, some thread can go on. |
| OperationGuard.StrategyMustStay | inc/winfsp/winfsp.h:133-141 | After a change of strategy a lone operation gives the lock back exactly if both strategies agree on it. |
| ResponseLoop.Execute | src/dll/fs.c:306-319 | The operation runs if there is one and the guard lets it start; the status is what came last. |
| ResponseLoop.Finish | src/dll/fs.c:328-343 | The response is padded, or refused if it is too large, or blank if the answer comes later. |
| ResponseLoop.BlankIs | src/dll/fs.c:293-306 | A new response is 128 bytes with the kind and the hint of the request and zeros; what is behind it stays. |
| ResponseLoop.ExecutedIs | src/dll/fs.c:307-316 | If the operation is started the response is its own but for the status. |
| ResponseLoop.HandedIsWhole | src/dll/fs.c:328-343 | What is handed back has a size that is a multiple of 8 and at most the maximum, the operation's content and zero padding. |
| ResponseLoop.AnswerStatus | src/dll/fs.c:306-343 | A response that is handed back carries the status of the operation, of the guard that refused it, or of an invalid request. |
| ResponseLoop.StatusIs | src/dll/fs.c:307-343 | The status is that of the operation, of the guard that refused it, or of an invalid request if there is no operation or its response is larger than 16384 bytes; there is none yet exactly if the operation says so. |
| ResponseLoop.Loop | src/dll/fs.c:284-344 | What gets delivered is the responses of all rounds but the last, in order; the last round's goes with the call that fails. |
| ResponseLoop.RespondedInOrder | src/dll/fs.c:284-344 | One response is handed back for each request that is not left pending, in order, under its hint, with its kind (if operations leave it alone) and its status. |
| TransactFrames.ProduceAppends | inc/winfsp/fsctl.h:640-670 | Where a frame can be produced it fits, and it extends the batch. |
| TransactFrames.ConsumedIsProduced | inc/winfsp/fsctl.h:651-679 | A consumer gets back the frames that were produced. |
| TransactFrames.ConsumedIsPacked | inc/winfsp/fsctl.h:651-679 | Whatever a consumer gets is a packed list of frames that name their own sizes, and where it stops there is no whole frame. |
| TransactFrames.ProduceFrames | src/sys/volume.c:1187-1261 | Frames produced as long as the largest one has room are consumed again in order; producing stops early only for lack of that room. |
| ExtendedAttributes.NewEaIsWhole | src/dll/fsop.c:1858-1859 | An entry made up from flags, a name and a value has 9 bytes more than those two, and they are read back. |
| ExtendedAttributes.AddEa | src/dll/fsop.c:1851-1867 | An attribute is added exactly if it fits, at a multiple of 4 behind the others. |
| ExtendedAttributes.ListAppend | src/dll/fsop.c:1864-1866 | An entry behind the end extends the list. |
| ExtendedAttributes.FinishedList | src/dll/fsop.c:1868-1876 | Taking away the last next offset makes the list final. |
| ExtendedAttributes.FinishEa | src/dll/fsop.c:1868-1879 | The walk to the last entry ends, and the list is final. |
| ExtendedAttributes.FinalWalkStays | src/dll/fsop.c:1872-1873 | The last entry of a final list has no next offset, so the walk does not leave it. |
| ExtendedAttributes.FinalWalkNeverEnds | src/dll/fsop.c:1872-1873 | In a final list the condition of that walk's loop holds after every number of steps. |
| ExtendedAttributes.OpenWalkEnds | src/dll/fsop.c:1872-1873 | In a list that is not final the walk gets to the last entry, and its condition fails there. |
| ExtendedAttributes.EnumerateEa | src/dll/fsop.c:1833-1849 | The enumeration ends and visits the entries in order, up to the first one that is not accepted; it succeeds exactly if all are. |
| ExtendedAttributes.UntilIs | src/dll/fsop.c:1841-1847 | What is visited is all entries, or the first ones up to one that is refused. |
| ExtendedAttributes.AllAccepted | src/dll/fsop.c:1833-1849 | If all are accepted, all are visited. |
| ExtendedAttributes.AddAndEnumerate | src/dll/fsop.c:1833-1879 | Attributes that are added one by one, made final once and enumerated are seen in order up to the first refusal; they fit exactly if the aligned entries do. |
| ExtendedAttributes.SeenIsAdded | src/dll/library.h:175-176 | What is visited is what was added; only the last entry has the next offset 0. |

## Left out

- 32-bit wrap-around of the arena's capacity: the allocator is taken to refuse 2^31 bytes or more.
- A null arena is an array of length 0; a buffer is deleted by nobody, so `FspFileSystemDeleteDirectoryBuffer` is not part of this model.
- The exception path of `BufferedReadDirectory`, which releases the buffer and rethrows.
- The driver, which lists a directory by such reads, appears only as the loop of `ListDirectory`; markers that are offsets instead of names are not part of this model.
- The padding between records and pages keeps the bytes it had.
- Memory ordering: the interlocked helpers and the locks are taken to be sequentially consistent.
- The repeated call of `GetSecurityByName` after a buffer overflow: the file system answers once, and memory is there or not.
- The algorithm behind `AccessCheck`, privilege sets and the contents of security descriptors: the access check is a function of descriptor and rights.
- `NamedStream` counts code units instead of bytes; access masks are sets of bits.
- Reparse targets are whole code units; the memory for reparse data, and the information field when a resolution ends without a link, are not part of this model.
- The checks for creating a file, opening a target directory and renaming, which ask the same access check for other rights.
- Symbolic links are followed within one volume only; a result that is absolute goes back to the kernel.
- Operation guards other than the library's own, which a program may set in its place.
- The queue from which the driver takes the requests of a batch: `ProduceFrames` is given the frames in their order.
- Debug logging, thread-local storage, and the driver's side of a transaction: a transaction succeeds or fails as the driver likes, and fails once the volume is stopped.
- The handlers of the single operations: an operation is a function of the request and the response.
- Starting and stopping the dispatcher is done by one thread at a time, as its callers do.
- Code between two of a method's loops is split into methods of its own in places (`CheckCut`, `ResolveRound`, `SplitAndPush`, `Show` and others), where the library has one long function.
- Device control, named pipes, the registry, services, mounting, the FUSE and .NET layers: calls to the system with little logic of their own.
