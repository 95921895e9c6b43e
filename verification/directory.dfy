/** The directory of an archive as the search routines see it: a sequence of
    entries, each reduced to its namespace character and its URL, where
    `getDirent(i)` is `entries[i]`. */
module Directory {
  import Urls

  /** A directory entry: the namespace is the primary sort key, the URL the
      secondary one. */
  datatype Dirent = Dirent(ns: char, url: string)

  /** Why a lookup failed: getDirent was asked for an index the directory
      does not have. */
  datatype Error = IndexOutOfRange(index: nat)

  datatype Result<T> = Success(value: T) | Failure(error: Error)

  /** The pair returned by findx: whether the key was found, and either the
      index of the match or the index where the key would be inserted. */
  datatype FindResult = FindResult(found: bool, index: nat)

  /** Entry indices are 32-bit unsigned integers. */
  const IndexModulus: int := 0x1_0000_0000

  /** Strict directory order: by namespace, then by URL. */
  predicate Precedes(a: Dirent, b: Dirent) {
    a.ns < b.ns || (a.ns == b.ns && Urls.Less(a.url, b.url))
  }

  /** The order the search for namespace boundaries relies on. */
  predicate NsSorted(entries: seq<Dirent>) {
    forall i, j :: 0 <= i < j < |entries| ==> entries[i].ns <= entries[j].ns
  }

  /** The format invariant of the directory: strictly ascending by
      namespace, then URL (so every (namespace, URL) key occurs once). */
  predicate Sorted(entries: seq<Dirent>) {
    forall i, j :: 0 <= i < j < |entries| ==> Precedes(entries[i], entries[j])
  }

  /** Every entry in [lo, hi) lies in namespace `ns`. */
  predicate InNamespace(entries: seq<Dirent>, ns: char, lo: nat, hi: nat)
    requires lo <= hi <= |entries|
  {
    forall k :: lo <= k < hi ==> entries[k].ns == ns
  }

  /** The URLs in [lo, hi) strictly ascend. */
  predicate UrlsAscending(entries: seq<Dirent>, lo: nat, hi: nat)
    requires lo <= hi <= |entries|
  {
    forall i, j :: lo <= i < j < hi ==> Urls.Less(entries[i].url, entries[j].url)
  }

  /** `b` is where namespace `ch` begins: the first index whose namespace is
      not below `ch`, or the entry count if there is none. */
  ghost predicate IsNamespaceBegin(entries: seq<Dirent>, ch: char, b: nat) {
    && b <= |entries|
    && (forall k :: 0 <= k < b ==> entries[k].ns < ch)
    && (forall k :: b <= k < |entries| ==> entries[k].ns >= ch)
  }

  /** `e` is where namespace `ch` ends: the first index whose namespace is
      above `ch`, or the entry count if there is none. */
  ghost predicate IsNamespaceEnd(entries: seq<Dirent>, ch: char, e: nat) {
    && e <= |entries|
    && (forall k :: 0 <= k < e ==> entries[k].ns <= ch)
    && (forall k :: e <= k < |entries| ==> entries[k].ns > ch)
  }

  /** `i` is where `url` belongs among the URLs of [lo, hi). */
  ghost predicate IsUrlInsertionPoint(entries: seq<Dirent>, lo: nat, hi: nat, url: string, i: nat)
    requires lo <= hi <= |entries|
  {
    && lo <= i <= hi
    && (forall k :: lo <= k < i ==> Urls.Less(entries[k].url, url))
    && (forall k :: i <= k < hi ==> Urls.Less(url, entries[k].url))
  }

  /** `i` is where `key` belongs in the whole directory. */
  ghost predicate IsInsertionPoint(entries: seq<Dirent>, key: Dirent, i: nat) {
    && i <= |entries|
    && (forall k :: 0 <= k < i ==> Precedes(entries[k], key))
    && (forall k :: i <= k < |entries| ==> Precedes(key, entries[k]))
  }

  /** Number of entries in namespace `ns` (reference definition). */
  function NsCount(entries: seq<Dirent>, ns: char): nat {
    if |entries| == 0 then 0
    else (if entries[0].ns == ns then 1 else 0) + NsCount(entries[1..], ns)
  }

  /** The directory order is transitive. */
  lemma PrecedesTransitive(a: Dirent, b: Dirent, c: Dirent)
    requires Precedes(a, b) && Precedes(b, c)
    ensures Precedes(a, c)
  {
    if a.ns == b.ns == c.ns {
      Urls.LessTransitive(a.url, b.url, c.url);
    }
  }

  /** A directory whose neighbouring entries are in order is sorted. */
  lemma SortedFromAdjacent(entries: seq<Dirent>)
    requires forall i :: 0 <= i < |entries| - 1 ==> Precedes(entries[i], entries[i + 1])
    ensures Sorted(entries)
  {
    forall i, j | 0 <= i < j < |entries|
      ensures Precedes(entries[i], entries[j])
    {
      PrecedesChain(entries, i, j);
    }
  }

  lemma {:induction false} PrecedesChain(entries: seq<Dirent>, i: nat, j: nat)
    requires forall i :: 0 <= i < |entries| - 1 ==> Precedes(entries[i], entries[i + 1])
    requires i < j < |entries|
    ensures Precedes(entries[i], entries[j])
    decreases j - i
  {
    if j > i + 1 {
      PrecedesChain(entries, i, j - 1);
      PrecedesTransitive(entries[i], entries[j - 1], entries[j]);
    }
  }

  /** Namespace boundaries are unique, so a method proved to return one of
      them returns a determined value. */
  lemma NamespaceBeginUnique(entries: seq<Dirent>, ch: char, b1: nat, b2: nat)
    requires IsNamespaceBegin(entries, ch, b1) && IsNamespaceBegin(entries, ch, b2)
    ensures b1 == b2
  {
    if b1 < |entries| {
      NamespaceBeginLeast(entries, ch, b2, b1);
    }
    if b2 < |entries| {
      NamespaceBeginLeast(entries, ch, b1, b2);
    }
  }

  lemma NamespaceBeginLeast(entries: seq<Dirent>, ch: char, b: nat, k: nat)
    requires IsNamespaceBegin(entries, ch, b)
    requires k < |entries| && entries[k].ns >= ch
    ensures b <= k
  {
  }

  lemma NamespaceEndUnique(entries: seq<Dirent>, ch: char, e1: nat, e2: nat)
    requires IsNamespaceEnd(entries, ch, e1) && IsNamespaceEnd(entries, ch, e2)
    ensures e1 == e2
  {
    if e1 < |entries| {
      NamespaceEndLeast(entries, ch, e2, e1);
    }
    if e2 < |entries| {
      NamespaceEndLeast(entries, ch, e1, e2);
    }
  }

  lemma NamespaceEndLeast(entries: seq<Dirent>, ch: char, e: nat, k: nat)
    requires IsNamespaceEnd(entries, ch, e)
    requires k < |entries| && entries[k].ns > ch
    ensures e <= k
  {
  }

  /** A sorted directory holds each key at one index only. */
  lemma KeyIndexUnique(entries: seq<Dirent>, i: nat, j: nat)
    requires Sorted(entries)
    requires i < |entries| && j < |entries| && entries[i] == entries[j]
    ensures i == j
  {
  }

  /** A key has one insertion point. */
  lemma InsertionPointUnique(entries: seq<Dirent>, key: Dirent, i1: nat, i2: nat)
    requires IsInsertionPoint(entries, key, i1) && IsInsertionPoint(entries, key, i2)
    ensures i1 == i2
  {
    if i1 < i2 {
      Urls.CompareAntisymmetric(key.url, entries[i1].url);
    } else if i2 < i1 {
      Urls.CompareAntisymmetric(key.url, entries[i2].url);
    }
  }

  /** In a sorted directory it suffices to compare a key with the two
      entries around a position to know that the position is the key's
      insertion point. */
  lemma InsertionPointFromNeighbours(entries: seq<Dirent>, key: Dirent, i: nat)
    requires Sorted(entries) && i <= |entries|
    requires i == 0 || Precedes(entries[i - 1], key)
    requires i == |entries| || Precedes(key, entries[i])
    ensures IsInsertionPoint(entries, key, i)
  {
    forall k | 0 <= k < i - 1
      ensures Precedes(entries[k], key)
    {
      PrecedesTransitive(entries[k], entries[i - 1], key);
    }
    forall k | i < k < |entries|
      ensures Precedes(key, entries[k])
    {
      PrecedesTransitive(key, entries[i], entries[k]);
    }
  }

  /** In a namespace-sorted directory, comparing `ch` with the namespaces
      of the two entries around a position decides whether the position is
      where namespace `ch` begins. */
  lemma NamespaceBeginFromNeighbours(entries: seq<Dirent>, ch: char, b: nat)
    requires NsSorted(entries) && b <= |entries|
    requires b == 0 || entries[b - 1].ns < ch
    requires b == |entries| || entries[b].ns >= ch
    ensures IsNamespaceBegin(entries, ch, b)
  {
  }

  /** The same for where namespace `ch` ends. */
  lemma NamespaceEndFromNeighbours(entries: seq<Dirent>, ch: char, e: nat)
    requires NsSorted(entries) && e <= |entries|
    requires e == 0 || entries[e - 1].ns <= ch
    requires e == |entries| || entries[e].ns > ch
    ensures IsNamespaceEnd(entries, ch, e)
  {
  }
}
