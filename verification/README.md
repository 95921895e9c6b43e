# Namespace-aware directory search of a ZIM archive reader

This project models, in Dafny, the lookup core of libzim's archive reader:
the binary searches over the archive's directory of entries that find where a
namespace begins and ends, and where a `(namespace, URL)` key is (or would be
inserted). The directory is sorted by namespace character, then by URL; the
reader relies on that order but never checks it.

The searches in `src/fileimpl.h` are templates over an `IMPL` that supplies
`getCountArticles()`, `getDirent(i)` and, for `findx`, the two namespace
offsets. Here the directory is a `seq<Dirent>` whose entries carry just the
namespace and the URL, and `getDirent(i)` is `entries[i]` — the same shape as
the mock used by the repository's own tests.

Files:

- `urls.dfy` (module `Urls`): the URL comparison (`std::string::compare`)
  and its order properties.
- `directory.dfy` (module `Directory`): entries, the directory order,
  sortedness, and reference definitions of namespace boundaries and
  insertion points.
- `namespace_index.dfy` (module `NamespaceIndex`): `getNamespaceBeginOffset`,
  `getNamespaceEndOffset` (as written and corrected) and `getNamespaceCount`.
- `findx.dfy` (module `Find`): the `findx` template, and `findx` over a
  directory whose offsets come from the functions above.
- `impl_find_tests.dfy` (module `ImplFindTests`): the fixture and cases of
  `test/impl_find.cpp`, plus the cases that expose the end-offset defect.

The three loop methods (`NamespaceBeginOffset`, `NamespaceEndOffset` and
`Findx`) also return `probes`, the indices they pass to `getDirent`, in
order. Their contracts say which entries a search may read.

Modelling choices:

- Entry indices are `nat`. The searches only ever hold values in
  `[0, count]`, and `count` is a 32-bit header field. So `l + (u - l) / 2`
  cannot overflow, and the loop invariants bound every index. The unsigned
  subtraction in `getNamespaceCount` is written out as `% 2^32`. It never
  wraps: on every non-empty directory, sorted or not, the begin offset is not
  above the end offset as written (`NamespaceIndex.BeginNotAfterEnd`). The
  two searches probe the same midpoints and move the same way until a probed
  entry is in the namespace; from there the begin search keeps the lower
  half and the end search the upper half.
- `getDirent(i)` past the end fails (the test fixture's `at` throws). The only
  read that can fail here is `getNamespaceBeginOffset`'s unconditional read of
  entry 0 when the directory is empty. It is modelled as
  `Failure(IndexOutOfRange(0))`, and the failure propagates through
  `getNamespaceCount` and `findx`.
- `findx` is given the offsets its `IMPL` reports, and requires
  `begin <= end <= count`. This is the implementation's side of the template
  contract. If `begin > end`, the unsigned `u - l` would wrap around.
- `findx` over the directory with the offsets as written
  (`Find.FileFindxAsWritten`) accepts any directory: `begin <= end` holds for
  those offsets whatever the order. Its guarantees about namespaces and
  insertion points need the directory's format invariant, sorted by
  namespace and then URL, which the reader assumes and never checks.
- `findx` with the corrected end offset (`Find.FileFindx`) requires a
  namespace-sorted directory. On an out-of-order one the corrected end can
  fall below the begin offset (`ImplFindTests.CorrectedEndBelowBegin`), and
  the template's unsigned `u - l` would wrap.
- `std::string::compare` is modelled as character-by-character comparison,
  where a proper prefix sorts first. Its result is normalised to -1/0/1,
  because `findx` uses only the sign.

`getNamespaceEndOffset` is meant to return the first index whose namespace is
above `ch`, the counterpart of `getNamespaceBeginOffset`. When `ch` is below
the first entry's namespace, the code returns 1 instead of 0. The model
follows the code, and states the intended offset separately (see Findings).

## Model

| member | source | states |
|---|---|---|
| Urls.Compare | src/fileimpl.h:138-140 | the URL comparison yields -1, 0 or 1, and 0 exactly when the two URLs are equal |
| Urls.LessIsLexicographic | src/fileimpl.h:138-140 | "compares below" is lexicographic order: either a proper prefix, or a smaller character at the first difference, in both directions |
| Urls.CompareAntisymmetric | src/fileimpl.h:142-145 | swapping the operands negates the comparison, so "key below entry" and "entry above key" agree |
| Urls.LessTransitive | src/fileimpl.h:142-145 | the URL order is transitive, which is what lets one probe decide a whole half of the range |
| NamespaceIndex.NamespaceBeginOffset | src/fileimpl.h:163-181 | fails on an empty directory (entry 0 is read first); otherwise returns at most count; reads entry 0 and then only indices in (0, count); below count when entry 0's namespace is not below ch, at least 1 when it is; equal to the value of the narrowing, as entry 0 decides; on a namespace-sorted directory it is the first index whose namespace is not below ch |
| NamespaceIndex.NamespaceEndOffset | src/fileimpl.h:183-198 | never reads entry 0; with at most one entry it returns count without reading; with at least one entry the result is at least 1; it is the final upper index of the narrowing; on a namespace-sorted directory it is the first index whose namespace is above ch when ch is not below entry 0's namespace, and 1 when it is |
| NamespaceIndex.NamespaceEndOffsetCorrected | src/fileimpl.h:183-198 | 0 below entry 0's namespace, the end offset as written otherwise; on every namespace-sorted directory and for every ch, the first index whose namespace is above ch |
| NamespaceIndex.NamespaceCount | src/fileimpl.h:103-104 | end minus begin mod 2^32; fails only on an empty directory; on every directory the result is at most count, so the subtraction does not wrap; on a namespace-sorted directory it equals the number of entries in the namespace, except 1 below the first namespace |
| NamespaceIndex.Narrow | src/fileimpl.h:163-198 | the narrowing of both namespace loops ends on two adjacent indices inside the starting pair |
| NamespaceIndex.NarrowBrackets | src/fileimpl.h:163-198 | on a namespace-sorted directory, every entry after 0 up to the final lower index sends a probe up and every entry from the final upper index on sends it down |
| NamespaceIndex.BeginNotAfterEnd | src/fileimpl.h:163-198 | on every non-empty directory, sorted or not, the begin offset does not exceed the end offset as written |
| NamespaceIndex.BeginLeEnd | src/fileimpl.h:163-198 | begin never exceeds end; the entries in [begin, end) are exactly those of namespace ch; the range is empty iff ch is absent |
| NamespaceIndex.BoundsMonotone | src/fileimpl.h:163-198 | begin and end are monotone in the namespace character |
| NamespaceIndex.EndIsNextBegin | src/fileimpl.h:183-198 | the end of ch is the begin of the next namespace present |
| NamespaceIndex.CountBetweenBounds | src/fileimpl.h:103-104 | end minus begin is the number of entries in the namespace |
| Find.Findx | src/fileimpl.h:120-161 | empty range gives (false, 0) whatever begin is; probes stay inside [begin, end); a one-entry range is decided on URL alone; a match has the key's URL and lies in range, and is in ns when the range is; over a range in ns with ascending URLs, found iff some entry has the URL, and a miss returns the insertion point |
| Find.FileFindx | src/fileimpl.h:120-161 | with begin and the corrected end: fails only on an empty directory; a match is the key's own entry; on a sorted directory found iff the key is present, and a miss returns the key's insertion point in the whole directory; an absent namespace gives (false, 0) |
| Find.FileFindxAsWritten | src/fileimpl.h:120-161 | with both offsets as written, on any directory: fails only on an empty directory, the index is at most count, and a match has the key's URL; on a sorted directory, the same guarantees as the corrected lookup when ns is not below entry 0's namespace; below it, the result is (url == entry 0's URL, 1 if entry 0's URL sorts before url, else 0), whatever entry 0's namespace |
| ImplFindTests.ArticlesSorted | test/impl_find.cpp:33-45 | the fixture (`Articles`, the `articleurl` array) is sorted by namespace, then URL |
| ImplFindTests.MockFindxBoundsAgree | test/impl_find.cpp:98-116 | the hard-coded offsets of MockFindx's two switches (`MockBegin`, `MockEnd`) for 'a', 'A' and 'M' are the fixture's namespace boundaries; for any other namespace both the mock offsets and the reference boundaries give an empty range |
| ImplFindTests.BeginOffsetCases | test/impl_find.cpp:67-80 | begin offsets 'a' 10, 'A' 0, 'M' 9, 'U' 10 |
| ImplFindTests.EndOffsetCases | test/impl_find.cpp:82-95 | end offsets 'a' 11, 'A' 9, 'M' 10, 'U' 10 |
| ImplFindTests.MockFindx | test/impl_find.cpp:98-124 | findx with the mock's offsets: (false, 0) outside 'a', 'A', 'M'; otherwise found iff the key is in the fixture, at the key's index, else the insertion point |
| ImplFindTests.ExactMatchCases | test/impl_find.cpp:133-146 | ('A', "aa") found at 0, ('a', "aa") at 10, ('A', "aabbbb") at 6 |
| ImplFindTests.NoExactMatchMissingNamespace | test/impl_find.cpp:151-153 | ('U', "aa") gives (false, 0) |
| ImplFindTests.NoExactMatchInA | test/impl_find.cpp:155-173 | in 'A', "aabb", "aabbb", "aabbbc", "bb" and "dd" are missing, at 5, 6, 7, 8 and 9 |
| ImplFindTests.NoExactMatchInM | test/impl_find.cpp:175-185 | in 'M', "f", "bar" and "foo1" are missing, at 9, 9 and 10 |
| ImplFindTests.MissCase | test/impl_find.cpp:149-186 | a key that falls between the entries at expected - 1 and expected is reported missing at expected |
| ImplFindTests.EndOffsetBelowFirstNamespace | src/fileimpl.h:183-198 | on the fixture, the end offset as written for '0' is 1, which is not where '0' ends; the corrected one is 0, which is |
| ImplFindTests.NamespaceCountBelowFirstNamespace | src/fileimpl.h:103-104 | on the fixture, the count for '0' is 1, while no entry is in '0' |
| ImplFindTests.CorrectedEndBelowBegin | src/fileimpl.h:163-198 | on the out-of-order directory [('C', ""), ('A', "")], namespace 'B' begins at 1 and the end as written is 2, but the corrected end is 0 |
| ImplFindTests.FindxBelowFirstNamespace | src/fileimpl.h:120-161 | on the fixture, ('0', "aa") is reported found at entry 0, which is ('A', "aa"); the corrected lookup reports (false, 0) |

## Findings

| source | as written | input that shows it | evidently intended | confidence | as-written member | corrected member |
|---|---|---|---|---|---|---|
| src/fileimpl.h:183-198 | `getNamespaceEndOffset` never reads entry 0, so when `ch` sorts below the first entry's namespace it returns 1. `getNamespaceCount` then reports one entry in an empty namespace | the test fixture with `ch = '0'`: end offset 1, count 1 | 0, the first index whose namespace is above `ch` (as `getNamespaceBeginOffset` does by consulting entry 0) | medium; not executed | NamespaceIndex.NamespaceEndOffset, ImplFindTests.EndOffsetBelowFirstNamespace | NamespaceIndex.NamespaceEndOffsetCorrected |
| src/fileimpl.h:120-161 | with that end offset, `findx` for a namespace below the first searches [0, 1), and its final URL-only comparison accepts entry 0 whatever its namespace | the test fixture with `findx('0', "aa")`: (true, 0), but entry 0 is ('A', "aa") | (false, 0): the namespace is absent | medium; not executed | Find.FileFindxAsWritten, ImplFindTests.FindxBelowFirstNamespace | Find.FileFindx |

## Left out

- Caches and locking of the file object (the dirent LRU cache, the cluster cache, the namespace begin/end memo maps, the mutexes and the once-flag, src/fileimpl.h:55-74): they serve concurrency and memoisation, their implementations are not part of this model, and the memo maps only store what the modelled functions compute.
- Cluster reading and blob access (`getCluster`, `readCluster`, `getClusterOffset`, `getBlobOffset`, src/fileimpl.h:96-99, 116): file I/O and an external decompressor, with bodies not part of this model.
- Header and dirent byte decoding: a dirent is reduced to its namespace and URL; titles, MIME types and redirect/content payloads play no part in these searches.
- `getFileParts`, `getChecksum`, `verify`, `getMTime`, `getFilesize`, `is_multiPart` (src/fileimpl.h:79-85, 111-113): I/O or hashing, declared only.
- `findxByTitle`, `findx(url)`, `findxByClusterOrder`, `getIndexByTitle`, `getNamespaces`, `hasNamespace`, `getMimeType` (src/fileimpl.h:88-109): declared only; their bodies are not part of this model.
- The member `FileImpl::findx(ns, url)` (src/fileimpl.h:91) is declared only; `Find.FileFindxAsWritten` models it as the template applied to the file's own offset functions, which is how the template's `IMPL` calls are resolved.
- The archive-writing interface (include/zim/writer/creator.h): declarations of a multithreaded writer, no search logic.
- The iteration counter `itcount` in `findx` (src/fileimpl.h:131, 134): it is incremented and never read.
- Namespace characters at or above 0x80: C++ `char` may be signed, which would order them below ASCII in the namespace comparisons; the model compares namespaces by code point.
- URLs that are not valid UTF-8: a URL is a Dafny `string` compared by code point, which matches `std::string::compare`'s unsigned byte order for UTF-8 URLs; a `std::string` holding other bytes has no `string` counterpart here.
- Find.FileFindx: requires a namespace-sorted directory, because the corrected end offset can fall below the begin offset on an out-of-order one; the offsets as written need no such requirement.
- Reads past the end in `findx`: the template trusts its `IMPL` to report offsets within the directory, so `Find.Findx` requires `end <= count` rather than modelling a failing `getDirent`.
