# tarsana-filesystem, modelled in Dafny

This project models the behaviour of the tarsana-filesystem PHP library as its
test suite pins it down. It covers three parts:

- **Collection** (`collection.dfy`, scenarios in `collection_session.dfy`).
  - An insertion-ordered sequence of shared `Entry` objects (a File or a
    Directory), deduplicated by path.
  - Membership is computed from each entry's *current* path. Renaming an entry
    through a reference held outside the Collection therefore shows up in
    `contains` at once.
- **Reader** (`reader.dfy`). A forward-only cursor over the bytes a stream
  delivers.
  - Operations: `read()`, `read(n)`, `readLine()`, `readUntil(d)`, a blocking
    flag and `close()`.
  - A Reader can be opened only on a readable handle.
  - Module `Cursors` holds the pure cursor functions and their lemmas. Module
    `Readers` holds the `Reader` class, whose methods are proved against those
    functions.
- **Filesystem** (`paths.dfy`, `glob.dfy`, `tree.dfy`, `filesystem.dfy`;
  scenarios in `demo.dfy` and `session.dfy`).
  - The storage is a map from a node's path, a sequence of segments relative to
    the root, to its kind.
  - Glob matching is segment-wise: `*` matches any run of characters within one
    segment.
  - `whatIs`, `isFile`/`isDir`/`isAny`, their plural forms and `find` are pure
    functions of the tree.
  - `file`/`dir` (get, or create with missing parents), `remove` and
    `removeAll` change the tree held by a `Filesystem` object.
  - `demo.dfy` builds the demonstration tree of the test suite and proves every
    answer the suite expects of it. `session.dfy` drives a `Filesystem` object
    through the suite's get, create and remove scenarios.

`errors.dfy` declares the exceptions (`FilesystemException`,
`ResourceException`), the not-found and empty-collection outcomes, and the
`Result`/`Outcome`/`Option` wrappers.

The line terminator is fixed to `"\n"`. The storage's answer to "what is at the
root?" is a parameter of `Open`.

## Model

| member | source | states |
|---|---|---|
| PathStrings.Name | tests/Filesystem/CollectionTest.php:45-50 | `name()` is a suffix of the path that holds no separator |
| PathStrings.Dirname | tests/Filesystem/CollectionTest.php:52-58 | the directory part followed by the name gives back the path; it is empty or ends in a separator |
| PathStrings.LastSep | tests/Filesystem/CollectionTest.php:100-106 | the index of a separator after which no separator follows, or -1 when there is none |
| PathStrings.LastSepUnique | tests/Filesystem/CollectionTest.php:100-106 | those three facts determine LastSep's result |
| PathStrings.LastSepOfSuffix | tests/Filesystem/CollectionTest.php:100-106 | appending a separator-free name does not move the last separator |
| PathStrings.NameAfterSep | tests/Filesystem/CollectionTest.php:100-106 | the name of `prefix/n` is `n` and its directory part is `prefix/` |
| PathStrings.RenameSetsName | tests/Filesystem/CollectionTest.php:52-58 | renaming makes the new name the name and keeps the directory part |
| PathStrings.Split | tests/FilesystemTest.php:62-67 | every segment of a path is separator-free, and there is at least one |
| PathStrings.JoinSplit | tests/FilesystemTest.php:62-67 | `Join` inverts `Split`: joining the segments of any path gives the path back |
| PathStrings.SplitJoin | tests/FilesystemTest.php:62-67 | splitting a join of separator-free segments gives the segments back |
| PathStrings.SplitSnoc | tests/FilesystemTest.php:62-67 | appending `/name` appends one segment |
| PathStrings.JoinInjective | tests/FilesystemTest.php:62-67 | different segment lists join to different strings |
| PathStrings.NameOfJoin | tests/FilesystemTest.php:132-140 | the name of a joined path is its last segment |
| Glob.LiteralSegment | tests/FilesystemTest.php:53-57 | `SegmentMatches`: a segment without `*` matches exactly itself |
| Glob.LiteralPath | tests/FilesystemTest.php:53-57 | `PathMatches`: a pattern without wildcards matches exactly the path it spells |
| Glob.StarMatchesAll | tests/FilesystemTest.php:51-60 | `*` alone matches every name |
| Glob.StarThenLiteral | tests/FilesystemTest.php:54 | `*lit` matches exactly the names ending in `lit` (both directions) |
| Glob.LiteralThenStar | tests/FilesystemTest.php:187-189 | `lit*` matches exactly the names starting with `lit` (both directions) |
| Tree.AncestorsAreDirs | tests/FilesystemTest.php:13-28 | in a well-formed tree every ancestor of a node is a directory of the tree |
| Tree.Relative | tests/FilesystemTest.php:64-65 | a path is either taken as it is, or it is the root, a separator and the relative part |
| Tree.ResolveAll | tests/FilesystemTest.php:83-130 | a list of paths resolves to a list of the same length |
| Tree.ResolveAllPointwise | tests/FilesystemTest.php:83-130 | the resolution of a list is the list of resolutions, index by index |
| Tree.ResolveAllPrefix | tests/FilesystemTest.php:208 | resolving a prefix of a list gives a prefix of its resolution |
| Tree.ResolveAllSnoc | tests/FilesystemTest.php:208 | resolving one more path appends its resolution |
| Tree.AbsoluteAgreesWithRelative | tests/FilesystemTest.php:64-65 | a path written with the root in front resolves to the same node as the relative path |
| Tree.AbsPathInjective | tests/FilesystemTest.php:185-192 | distinct nodes have distinct absolute path strings |
| Tree.AbsPathName | tests/FilesystemTest.php:134-140 | the entry made for a node is named by the node's last segment |
| Tree.Matches | tests/FilesystemTest.php:51-60 | a pattern matches only nodes of the tree |
| Tree.WhatIsIsClassifiedMatches | tests/FilesystemTest.php:53-57 | `WhatIs` looking a literal path up agrees with `Classify` counting its matches as a pattern |
| Tree.WhatIsByCount | tests/FilesystemTest.php:51-60 | `whatIs` is nothing iff there is no match, a kind iff exactly one (that node's kind), a collection iff more than one |
| Tree.IsLiteral | tests/FilesystemTest.php:62-81 | for a literal path, `Is` (`isFile`/`isDir`/`isAny`) holds iff the node exists with that kind / exists |
| Tree.AnyIsFileOrDir | tests/FilesystemTest.php:75-81 | `isAny` iff `isFile` or `isDir` |
| Tree.AreAll | tests/FilesystemTest.php:83-130 | `areFiles`/`areDirs`/`areAny` hold iff the singular check holds of every listed path |
| Tree.FindIsWhatIs | tests/FilesystemTest.php:51-60 | `whatIs(p)` is the classification of what `find(p)` answers: nothing, the one node's kind, or a collection |
| Tree.FindLiteral | tests/FilesystemTest.php:185-192 | `find` of a path without wildcards answers that node when it exists and nothing otherwise |
| Tree.ResolveStar | tests/FilesystemTest.php:146-148 | the pattern `*` resolves to one wildcard segment, whatever the root |
| Tree.RootChildrenAreStar | tests/FilesystemTest.php:146-148 | `files()`/`dirs()` with no argument are `find("*")` narrowed to that kind |
| Tree.KindsSplitMatches | tests/FilesystemTest.php:189-191 | `OfKind`: the files and the directories of a set of matches add up to all of them |
| Tree.CreatedSpec | tests/FilesystemTest.php:138-140 | `Created`: creation adds the node with its kind and every missing ancestor as a directory, keeps every other node, adds nothing else, and keeps the tree well formed |
| Tree.CreatedIs | tests/FilesystemTest.php:196-197 | once created, a literal path passes the check of its kind and `isAny` |
| Tree.RemovedSpec | tests/FilesystemTest.php:198-199 | `Removed`: removal drops exactly the node and what lies below it, keeps the rest unchanged, and keeps the tree well formed |
| Tree.RemovedAllSnoc | tests/FilesystemTest.php:208 | one more removal continues from the tree the earlier removals left, failing when its path is gone |
| Tree.RemovedAllSpec | tests/FilesystemTest.php:208-210 | `RemovedAll`: a successful run of removals only drops nodes, keeps the tree well formed, and leaves none of the paths |
| Tree.RemovedIsNothing | tests/FilesystemTest.php:198-204 | once removed, a literal path passes none of the checks |
| Filesystems.Filesystem.constructor | tests/FilesystemTest.php:35-38 | a Filesystem over a well-formed tree at a root |
| Filesystems.Filesystem.PathOf | tests/FilesystemTest.php:46-49 | `path()` is the root followed by a separator |
| Filesystems.Filesystem.LookupNode | tests/FilesystemTest.php:173-183 | an entry iff the node exists with the kind asked for, otherwise a FilesystemException |
| Filesystems.Filesystem.Lookup | tests/FilesystemTest.php:134-136 | `file(p)`/`dir(p)`: the entry at the resolved path, or a FilesystemException when there is no node of that kind |
| Filesystems.Filesystem.Get | tests/FilesystemTest.php:132-171 | without the flag a lookup that changes nothing; with it, a missing creatable path is created with its parents and its entry answered |
| Filesystems.Filesystem.RemoveNode | tests/FilesystemTest.php:194-204 | succeeds iff the node exists, and then the tree is the one with that node removed; on failure nothing changes |
| Filesystems.Filesystem.Remove | tests/FilesystemTest.php:198-203 | `remove(p)` removes the resolved node with everything below it, or fails leaving the tree alone |
| Filesystems.Filesystem.RemoveAll | tests/FilesystemTest.php:208 | `removeAll` succeeds iff every removal in turn succeeds and ends at the tree the removals describe; on failure the removals before the missing path stay done; it only ever drops nodes |
| Filesystems.Filesystem.EntriesOf | tests/FilesystemTest.php:185-192 | one fresh entry per node, at the node's absolute path with its kind, no two sharing a path |
| Filesystems.Filesystem.Gather | tests/FilesystemTest.php:185-192 | a new Collection of one entry per node of the set, with distinct paths |
| Filesystems.Filesystem.Find | tests/FilesystemTest.php:185-192 | `find` answers a Collection with one entry per match, however many matches there are |
| Filesystems.Filesystem.Children | tests/FilesystemTest.php:146-148 | `files()`/`dirs()` answer a Collection of the root's children of that kind |
| Filesystems.Filesystem.LookupAll | tests/FilesystemTest.php:142-144 | every listed node's entry in order, or a FilesystemException when one is not a node of the kind |
| Filesystems.Filesystem.Listed | tests/FilesystemTest.php:142-144 | `files([...])`/`dirs([...])`: the listed paths' entries, in order and deduplicated by path, each of the kind asked for, or a FilesystemException when one is missing or of the other kind |
| Filesystems.DistinctNodesDistinctEntries | tests/FilesystemTest.php:185-192 | entries made for distinct nodes have distinct paths |
| Filesystems.Open | tests/FilesystemTest.php:40-44 | opening fails with a FilesystemException iff the root is not a directory |
| Entries.Entry.constructor | tests/Filesystem/CollectionTest.php:17-24 | an entry at the given path with the given kind |
| Entries.Entry.Name | tests/Filesystem/CollectionTest.php:45-50 | the name holds no separator and completes the directory part to the path |
| Entries.Entry.Rename | tests/Filesystem/CollectionTest.php:56 | the entry moves to the new name in the same directory, and its name becomes the new name |
| Collections.PathsOf | tests/Filesystem/CollectionTest.php:108-121 | each member's current path, index by index |
| Collections.Dedup | tests/Filesystem/CollectionTest.php:17-24 | adding one by one never makes the Collection longer than the input |
| Collections.DedupHasPath | tests/Filesystem/CollectionTest.php:39-43 | after adding items one by one, a path is held iff some item had it |
| Collections.DedupDistinct | tests/Filesystem/CollectionTest.php:34-36 | adding one by one never lets two members share a path |
| Collections.DedupMembers | tests/Filesystem/CollectionTest.php:17-24 | building a Collection keeps only entries it was given |
| Collections.DedupOfDistinct | tests/Filesystem/CollectionTest.php:17-24 | items with pairwise distinct paths are all kept, in order |
| Collections.DedupStep | tests/Filesystem/CollectionTest.php:31-36 | one more item is kept exactly when no earlier item has its path |
| Collections.Filter | tests/Filesystem/CollectionTest.php:68-82 | filtering never lengthens |
| Collections.FilterMembers | tests/Filesystem/CollectionTest.php:68-82 | the filter keeps exactly the members of the kind |
| Collections.FilterAppend | tests/Filesystem/CollectionTest.php:68-82 | filtering keeps relative order |
| Collections.KindsPartition | tests/Filesystem/CollectionTest.php:68-82 | the file and the directory counts add up to the count |
| Collections.TwoPathsTwoMembers | tests/Filesystem/CollectionTest.php:52-58 | members holding two different paths are at least two |
| Collections.Collection.Empty | tests/Filesystem/CollectionTest.php:17 | a new Collection holds nothing |
| Collections.Collection.Count | tests/Filesystem/CollectionTest.php:68-82 | `count()` is the count of `files()` plus the count of `dirs()` |
| Collections.Collection.Contains | tests/Filesystem/CollectionTest.php:39-43 | `contains(p)` iff some member's current path is `p` |
| Collections.Collection.Get | tests/Filesystem/CollectionTest.php:45-50 | the earliest member whose path is `p`, or NotFound iff there is none |
| Collections.Collection.Add | tests/Filesystem/CollectionTest.php:27-37 | appends the entry iff its path is new (count grows by 1), otherwise nothing changes; either way the path is held afterwards |
| Collections.Collection.Remove | tests/Filesystem/CollectionTest.php:123-131 | drops the earliest member with the path and keeps the rest in order; count falls by 1; on distinct members the path is then gone |
| Collections.Collection.First | tests/Filesystem/CollectionTest.php:84-90 | the earliest inserted member, or EmptyCollection iff there is none |
| Collections.Collection.Last | tests/Filesystem/CollectionTest.php:92-98 | the latest inserted member, or EmptyCollection iff there is none |
| Collections.Collection.Paths | tests/Filesystem/CollectionTest.php:108-121 | each member's current path in insertion order |
| Collections.Collection.Names | tests/Filesystem/CollectionTest.php:100-106 | each member's name in insertion order |
| Collections.Collection.OfKind | tests/Filesystem/CollectionTest.php:68-82 | `files()`/`dirs()`: a new Collection of the members of the kind, in order |
| Collections.AddNext | tests/Filesystem/CollectionTest.php:17-24 | adding the next item keeps the Collection equal to the one-by-one addition of the items so far |
| Collections.FromEntries | tests/Filesystem/CollectionTest.php:17-24 | `new Collection([...])` holds the items added one by one |
| Collections.RenameThroughReference | tests/Filesystem/CollectionTest.php:52-58 | renaming a member through an outside reference makes `contains` true of the new path and false of the old one, with no re-add |
| CollectionSession.MakeEntries | tests/Filesystem/CollectionTest.php:17-24 | six fresh entries at the fixture's paths with its kinds |
| CollectionSession.FixtureDistinct | tests/Filesystem/CollectionTest.php:17-24 | the fixture's six paths are pairwise different |
| CollectionSession.Fixture | tests/Filesystem/CollectionTest.php:14-25 | the fixture Collection keeps all six entries in order |
| CollectionSession.NotInFixture | tests/Filesystem/CollectionTest.php:42 | a path outside the fixture's six is not held |
| CollectionSession.AddAndCount | tests/Filesystem/CollectionTest.php:27-37 | count 6, then 7 after a new file, still 7 after a duplicate |
| CollectionSession.ContainsChecks | tests/Filesystem/CollectionTest.php:39-43 | `contains` is true of file1.txt and false of file.txt |
| CollectionSession.FixtureTopNames | tests/Filesystem/CollectionTest.php:100-106 | the first four entries are named file1.txt, file2.txt, dir1, dir2 |
| CollectionSession.FixtureInnerNames | tests/Filesystem/CollectionTest.php:100-106 | the last two entries are named dir11 and file11.txt |
| CollectionSession.GetByPath | tests/Filesystem/CollectionTest.php:45-50 | `get` of file1.txt succeeds with a File named file1.txt |
| CollectionSession.RenameParts | tests/Filesystem/CollectionTest.php:56 | renaming file1.txt to other.txt gives other.txt in the same directory |
| CollectionSession.RenameSeen | tests/Filesystem/CollectionTest.php:52-58 | other.txt is not held before the rename and is held after it |
| CollectionSession.AsArrayCount | tests/Filesystem/CollectionTest.php:60-66 | `asArray()` has six elements |
| CollectionSession.FixtureFiles | tests/Filesystem/CollectionTest.php:68-74 | the fixture's files are its entries 1, 2 and 6, in that order |
| CollectionSession.FixtureDirs | tests/Filesystem/CollectionTest.php:76-82 | the fixture's directories are its entries 3, 4 and 5, in that order |
| CollectionSession.KindCounts | tests/Filesystem/CollectionTest.php:68-82 | `files()` and `dirs()` both count 3 |
| CollectionSession.FirstAndLast | tests/Filesystem/CollectionTest.php:84-98 | `first()` is file1.txt and `last()` is dir1/file11.txt |
| CollectionSession.FixtureNames | tests/Filesystem/CollectionTest.php:100-106 | the names of the fixture's entries, in order, are the test's six names |
| CollectionSession.NamesList | tests/Filesystem/CollectionTest.php:100-106 | `names()` is exactly the six names in insertion order |
| CollectionSession.PathsList | tests/Filesystem/CollectionTest.php:108-121 | `paths()` is exactly the six paths in insertion order |
| CollectionSession.RemoveDir1 | tests/Filesystem/CollectionTest.php:123-131 | dir1 is held, five remain after removing it, and it is no longer held |
| Cursors.Limit | tests/Resource/ReaderTest.php:87-92 | how far a read may go: the end of the data when blocking; otherwise what has arrived, never less than the position |
| Cursors.FirstOccurrence | tests/Resource/ReaderTest.php:39-61 | the first index at which the delimiter occurs, with no earlier one, or none at all |
| Cursors.ReadN | tests/Resource/ReaderTest.php:69-79 | `read(n)` returns the next bytes, exactly n unless the limit is reached, and moves past them |
| Cursors.ReadRest | tests/Resource/ReaderTest.php:23-29 | `read()` returns everything up to the limit, in blocking mode the whole rest |
| Cursors.ReadUntil | tests/Resource/ReaderTest.php:39-61 | `readUntil` only moves the cursor forward, within the limit |
| Cursors.ReadUntilConsumes | tests/Resource/ReaderTest.php:39-61 | the returned piece, followed by the delimiter when found, is exactly what was consumed; without a delimiter everything up to the limit is returned |
| Cursors.NoOccurrenceInSlice | tests/Resource/ReaderTest.php:47-53 | a slice with no occurrence starting in it holds none inside |
| Cursors.ReadUntilStopsAtFirst | tests/Resource/ReaderTest.php:39-53 | the delimiter never occurs inside the returned piece |
| Cursors.ReadLineHasNoTerminator | tests/Resource/ReaderTest.php:31-37 | `readLine()` never returns a line terminator |
| Cursors.ReadNThenRest | tests/Resource/ReaderTest.php:69-85 | in blocking mode, `read(n)` then `read()` return together what one `read()` would, ending at the same place |
| Cursors.ReadMany | tests/Resource/ReaderTest.php:69-85 | a run of reads only changes the position, which never moves back |
| Cursors.ReadsAreConsecutive | tests/Resource/ReaderTest.php:69-85 | a run of reads returns exactly the bytes between the start and the end position: nothing repeated, nothing skipped |
| Cursors.NonBlockingNothingAvailable | tests/Resource/ReaderTest.php:87-92 | non-blocking `read()` with nothing new arrived returns "" and leaves the cursor alone |
| Cursors.Fresh | tests/Resource/ReaderTest.php:10-15 | a new reader starts at 0, blocking, able to read the whole content |
| Cursors.FirstOccurrenceNone | tests/Resource/ReaderTest.php:55-61 | with no occurrence there is no first one |
| Cursors.FirstOccurrenceIs | tests/Resource/ReaderTest.php:39-53 | an occurrence with none before it is the first |
| Cursors.ReadUntilFresh | tests/Resource/ReaderTest.php:39-53 | on a new reader, `readUntil(d)` returns what precedes the first occurrence of `d` |
| Cursors.GreetingWhole | tests/Resource/ReaderTest.php:23-29 | `read()`, and `readUntil("foo")`, of the greeting return all of it |
| Cursors.GreetingLine | tests/Resource/ReaderTest.php:31-37 | `readLine()` of the greeting returns "Hello World !" |
| Cursors.GreetingUntilChar | tests/Resource/ReaderTest.php:39-45 | `readUntil("y")` returns the text before the first y |
| Cursors.GreetingUntilWord | tests/Resource/ReaderTest.php:47-53 | `readUntil(" are")` returns the text before the word |
| Cursors.ReadThreeParts | tests/Resource/ReaderTest.php:69-85 | three reads of the parts' sizes return the three parts |
| Cursors.GreetingPieces | tests/Resource/ReaderTest.php:69-85 | `read(5)`, `read(6)`, `read()` return "Hello", " World" and the rest |
| Readers.Reader.State | tests/Resource/ReaderTest.php:69-85 | the reader's cursor is valid whenever the reader is |
| Readers.Reader.constructor | tests/Resource/ReaderTest.php:10-15 | a new reader is open, blocking, at position 0, over the handle's data |
| Readers.Reader.Read | tests/Resource/ReaderTest.php:69-85 | `read(n)` advances as ReadN says, or fails with a ResourceException iff closed |
| Readers.Reader.ReadAll | tests/Resource/ReaderTest.php:23-29 | `read()` advances as ReadRest says, or fails iff closed |
| Readers.Reader.ReadUntil | tests/Resource/ReaderTest.php:39-67 | the search loop returns what ReadUntil specifies; it fails with a ResourceException iff closed or the delimiter is empty |
| Readers.Reader.ReadLine | tests/Resource/ReaderTest.php:31-37 | `readLine()` is `readUntil` of the line terminator, failing iff closed |
| Readers.Reader.Blocking | tests/Resource/ReaderTest.php:87-92 | `blocking(flag)` sets the mode and leaves the position alone, failing iff closed |
| Readers.Reader.Close | tests/Resource/ReaderTest.php:94-101 | `close()` leaves the reader closed; closing twice fails |
| Readers.Open | tests/Resource/ReaderTest.php:17-21 | opening fails with a ResourceException iff the handle's mode is not a reading one |
| DemoTree.DemoWellFormed | tests/FilesystemTest.php:13-28 | the demonstration tree is well formed |
| DemoTree.DepthAtMostThree | tests/FilesystemTest.php:13-28 | every node of the tree is one to three segments deep |
| DemoTree.ResolveRelative | tests/FilesystemTest.php:62-130 | a relative path not starting with the root resolves to its segments |
| DemoTree.WhatIsSomeDoc | tests/FilesystemTest.php:53 | `whatIs` of the segments of "folder1/some-doc.txt" is "file" |
| DemoTree.WhatIsFolder1 | tests/FilesystemTest.php:55 | `whatIs("folder1")` is "dir" |
| DemoTree.WhatIsMissingDoc | tests/FilesystemTest.php:57 | `whatIs` of the segments of "folder1/missing-doc.txt" is "nothing" |
| DemoTree.StarOneMatches | tests/FilesystemTest.php:56 | `*1` matches only folder1 |
| DemoTree.WhatIsStarOne | tests/FilesystemTest.php:56 | `whatIs("*1")` is "dir" |
| DemoTree.DocMatches | tests/FilesystemTest.php:54 | `folder1/*-doc.txt` matches only folder1/some-doc.txt |
| DemoTree.WhatIsDoc | tests/FilesystemTest.php:54 | `whatIs` of the segments of "folder1/*-doc.txt" is "file" |
| DemoTree.JpgMatches | tests/FilesystemTest.php:58 | `folder1/*.jpg` matches nothing |
| DemoTree.WhatIsJpg | tests/FilesystemTest.php:58 | `whatIs` of the segments of "folder1/*.jpg" is "nothing" |
| DemoTree.Mp3Matches | tests/FilesystemTest.php:59 | `folder*/*.mp3` matches exactly the two tracks |
| DemoTree.WhatIsMp3 | tests/FilesystemTest.php:59 | `whatIs` of the segments of "folder*/*.mp3" is "collection" |
| DemoTree.FStarMatches | tests/FilesystemTest.php:187-189 | `f*` matches exactly the five top-level nodes |
| DemoTree.FindFStar | tests/FilesystemTest.php:187-189 | `find("f*")` finds the five top-level nodes |
| DemoTree.FStarKinds | tests/FilesystemTest.php:189-191 | of those five, one is a file and four are directories |
| DemoTree.IsFileTrack | tests/FilesystemTest.php:62-81 | `isFile` and `isAny` of folder1/track.mp3 hold |
| DemoTree.IsFileAbsoluteTrack | tests/FilesystemTest.php:65 | `isFile` holds of the track written with the root in front |
| DemoTree.MissingTrack | tests/FilesystemTest.php:62-81 | `isFile` and `isAny` of folder1/track.txt fail |
| DemoTree.IsDirFolder42 | tests/FilesystemTest.php:69-81 | `isDir` and `isAny` of folder4/folder42 hold |
| DemoTree.MissingFolder5 | tests/FilesystemTest.php:69-81 | `isDir` and `isAny` of folder5 fail |
| DemoTree.AreAllTwo | tests/FilesystemTest.php:90-130 | a plural check of two paths holds iff it holds of each |
| DemoTree.AreAllThree | tests/FilesystemTest.php:85-89 | a plural check of three paths holds iff it holds of each |
| DemoTree.AreFilesChecks | tests/FilesystemTest.php:83-98 | `areFiles` holds of the three files and fails once a directory or a missing path is listed |
| DemoTree.AreDirsChecks | tests/FilesystemTest.php:100-114 | `areDirs` holds of two directories and fails once a file or a missing path is listed |
| DemoTree.AreAnyChecks | tests/FilesystemTest.php:116-130 | `areAny` holds of directories and files alike and fails once a missing path is listed |
| DemoTree.RootChildrenAreTopLevel | tests/FilesystemTest.php:146-148 | the root's children of a kind are the top-level nodes of that kind |
| DemoTree.RootFilesAndDirs | tests/FilesystemTest.php:146-148 | `files()` is files.txt alone and `dirs()` has four members |
| DemoTree.OutsideDemo | tests/FilesystemTest.php:173-183 | a path whose first segment does not start with f is no node |
| DemoTree.TmpIsFree | tests/FilesystemTest.php:194-201 | nothing lies under tmp, so every path there can be created |
| DemoSession.OpenDemo | tests/FilesystemTest.php:35-38 | a Filesystem over the demonstration tree |
| DemoSession.RootPath | tests/FilesystemTest.php:46-49 | `path()` is "/demo/" |
| DemoSession.MissingRoot | tests/FilesystemTest.php:40-44 | a root that is not there fails with a FilesystemException |
| DemoSession.FindFStarCount | tests/FilesystemTest.php:187-189 | `find("f*")` counts 5 |
| DemoSession.RootListingCounts | tests/FilesystemTest.php:146-170 | `files()` counts 1 and `dirs()` counts 4 |
| DemoSession.ListedPair | tests/FilesystemTest.php:142-144 | listing two different nodes of a kind answers two entries |
| DemoSession.ListedFilesCount | tests/FilesystemTest.php:142-144 | `files([folder4/folder43/picture.jpg, files.txt])` counts 2 |
| DemoSession.ListedDirsCount | tests/FilesystemTest.php:164-166 | `dirs([folder4/folder43, folder2])` counts 2 |
| DemoSession.GetPresent | tests/FilesystemTest.php:134-136 | getting an existing top-level node answers its name and changes nothing |
| DemoSession.GetAbsent | tests/FilesystemTest.php:173-183 | getting a missing top-level name fails and changes nothing |
| DemoSession.ResolveSegment | tests/FilesystemTest.php:173-183 | a single segment resolves to itself under any root |
| DemoSession.GetExisting | tests/FilesystemTest.php:134-157 | `file("files.txt")` is named files.txt, `dir("folder1")` folder1 |
| DemoSession.GetMissing | tests/FilesystemTest.php:173-183 | `file` and `dir` of missing paths fail with a FilesystemException |
| DemoSession.GetCreated | tests/FilesystemTest.php:138-140 | getting a creatable path with the flag creates it and answers its last segment |
| DemoSession.CreateMissingFile | tests/FilesystemTest.php:138-140 | the created file is named file-to-be-created.txt |
| DemoSession.CreateMissingDir | tests/FilesystemTest.php:159-161 | the created directory is named sub-folder |
| DemoSession.CreateThenRemovePath | tests/FilesystemTest.php:196-203 | a created path passes its check, its removal succeeds, and then it fails the check |
| DemoSession.TmpPaths | tests/FilesystemTest.php:196-201 | tmp/file.php and tmp/dir resolve to their segments and can be created |
| DemoSession.SiblingAfterRemoval | tests/FilesystemTest.php:198-201 | after the file is removed, the directory beside it can be created and the file stays gone |
| DemoSession.AgainAfterRemoval | tests/FilesystemTest.php:204-207 | after tmp/file.php and then tmp/dir have been created and removed, both can be created again, the directory beside the file |
| DemoSession.RemoveBoth | tests/FilesystemTest.php:208 | `removeAll` of two nodes, neither below the other, succeeds and drops the first |
| DemoSession.PairResolves | tests/FilesystemTest.php:208 | a list of two paths resolves to their two resolutions |
| DemoSession.BothRemoved | tests/FilesystemTest.php:206-208 | after a file and a sibling directory are created, removing both succeeds and drops the file |
| DemoSession.BesideFile | tests/FilesystemTest.php:206-207 | a new sibling can be created beside a newly created file |
| DemoSession.CreateTwoRemoveAll | tests/FilesystemTest.php:206-210 | creating a file and a directory and then `removeAll` of both succeeds, and neither check holds afterwards |
| DemoSession.RemovesFilesAndDirectories | tests/FilesystemTest.php:194-211 | on one filesystem in sequence: the file and the directory each pass their check, are removed and then fail it; tmp/file.php is then no directory; both are created again and `removeAll` of them succeeds, after which tmp/file.php is neither a file nor a directory |

## Left out

- Storage I/O: the Local adapter, real files, `fopen`, `php://memory` and stdin are out of the model. Storage is a map from path to kind, and a reader's bytes are a string.
- Real-time waiting in non-blocking mode is not modelled. A non-blocking read returns what has already arrived, which may be nothing.
- Stream handle release on `close()` is modelled as the reader's closed state. No resource handle exists to observe.
- The line terminator is fixed to `"\n"`; the platform's end-of-line is not modelled.
- Bytes are modelled as characters (`string`), without encodings.
- Glob syntax other than `*` is not modelled: `?`, `[...]`, braces and the hidden-file rule of glob(3).
- `file`/`dir`/`remove` treat their argument as a literal path. Patterns are expanded only by `whatIs`, the existence checks and `find`.
- Path normalisation (`..`, `.`, doubled separators, symbolic links) is not modelled. Paths are already-normalised strings joined to the root.
- Does the root exist and what kind is it? That is the storage's answer, so it is a parameter of `Filesystems.Open`.
- `Entries.Entry.Rename` changes the entry's path only. Moving the file in storage is not modelled.
- `Collection.remove` drops the entry from the Collection only. The storage stays untouched.
- Writing (`Writer`, `write`, `writeLine`) is not modelled. It is a pass-through to an output stream.
- The test suite's cleanup steps are not modelled: removing tmp (lines 150 and 162 of `tests/FilesystemTest.php`) and the tearDown methods. They only restore the disk between tests.
- CollectionSession: the fixture directory is a parameter `dir`, standing for the suite's temporary directory below the demonstration root.
- DemoSession.RemovesFilesAndDirectories: lines 204 and 210 of `tests/FilesystemTest.php` check `isDir` of tmp/file.php rather than tmp/dir. The model proves exactly that check (a removed file is no directory) and separately proves that tmp/dir fails `isDir` after its removal.
- Filesystems.Filesystem.Listed: states the members as the deduplication of the listed entries, not as a number; `DemoSession.ListedPair` derives the count for two different nodes.
- `Entries.Entry.Rename` does not raise the DuplicatePath error for a rename onto a path another member of a Collection holds. An Entry holds no reference to the Collections it is in, the library's own rename is not part of this model, and no test exercises the collision. `Collections.Collection.Remove` below states what a collision then does to a Collection.
- The root itself is not a node of the tree: `Resolve(root, root)` and `Resolve(root, "")` do not denote it, so `isDir` of the root is false in the model. Whether the root exists is the separate answer `Filesystems.Open` takes.
- DemoTree.FStarKinds counts the kinds on the set of matches, not on the Collection `find` answers: `Filesystems.Filesystem.Find` states one entry per match with that match's kind, but the count of `files()` of that Collection is not derived.
- Collections.Collection.Remove: states that the path is gone afterwards only when no two members shared a path before. Members can come to share a path through an outside rename, and then a later member with the path stays.
