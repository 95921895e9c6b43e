/** Lookup of a (namespace, URL) key (src/fileimpl.h:120-161): a binary
    search restricted to the index range the implementation reports for
    the namespace. */
module Find {
  import Urls
  import opened Directory
  import opened NamespaceIndex

  /** The findx template, given the offsets `begin` and `end` that the
      implementation's getNamespaceBeginOffset and getNamespaceEndOffset
      return for `ns` (which the implementation keeps within the
      directory). An empty range yields (false, 0) whatever `begin` is.
      Probes compare namespace first, then URL; the last comparison looks at
      the URL alone (a one-entry range is decided by the URL of its entry),
      so the namespace of a match is only guaranteed when the whole range
      lies in `ns`. Over a range in `ns` with ascending URLs the
      search is complete, and a miss yields the insertion point. */
  method Findx(entries: seq<Dirent>, ns: char, url: string, begin: nat, end: nat)
    returns (r: FindResult, probes: seq<nat>)
    requires begin <= end <= |entries|
    ensures begin == end ==> r == FindResult(false, 0) && probes == []
    ensures begin < end ==> begin <= r.index <= end
    ensures forall k :: 0 <= k < |probes| ==> begin <= probes[k] < end
    ensures begin + 1 == end ==>
      r == FindResult(url == entries[begin].url, if Urls.Less(entries[begin].url, url) then end else begin)
    ensures r.found ==> r.index < end && entries[r.index].url == url
    ensures r.found && InNamespace(entries, ns, begin, end) ==> entries[r.index].ns == ns
    ensures InNamespace(entries, ns, begin, end) && UrlsAscending(entries, begin, end) ==>
      (r.found <==> exists k :: begin <= k < end && entries[k].url == url)
    ensures InNamespace(entries, ns, begin, end) && UrlsAscending(entries, begin, end) && begin < end && !r.found ==>
      IsUrlInsertionPoint(entries, begin, end, url, r.index)
  {
    probes := [];
    if begin == end {
      return FindResult(false, 0), probes;
    }
    ghost var ordered := InNamespace(entries, ns, begin, end) && UrlsAscending(entries, begin, end);
    var l, u := begin, end;
    while u - l > 1
      invariant begin <= l < u <= end
      invariant forall k :: 0 <= k < |probes| ==> begin <= probes[k] < end
      invariant ordered ==> forall k :: begin <= k < l ==> Urls.Less(entries[k].url, url)
      invariant ordered && l > begin ==> Urls.Less(entries[l].url, url)
      invariant ordered ==> forall k :: u <= k < end ==> Urls.Less(url, entries[k].url)
      decreases u - l
    {
      var p := l + (u - l) / 2;
      probes := probes + [p];
      var d := entries[p];
      var c := if ns < d.ns then -1 else if ns > d.ns then 1 else Urls.Compare(url, d.url);
      if c < 0 {
        if ordered {
          AboveFrom(entries, begin, end, url, p);
        }
        u := p;
      } else if c > 0 {
        if ordered {
          Urls.CompareAntisymmetric(url, d.url);
          BelowUpTo(entries, begin, end, url, p);
        }
        l := p;
      } else {
        return FindResult(true, p), probes;
      }
    }
    probes := probes + [l];
    var d := entries[l];
    var c := Urls.Compare(url, d.url);
    if c == 0 {
      return FindResult(true, l), probes;
    }
    Urls.CompareAntisymmetric(url, d.url);
    r := FindResult(false, if c < 0 then l else u);
  }

  /** A key below the URL at `p` is below every URL from `p` on. */
  lemma AboveFrom(entries: seq<Dirent>, begin: nat, end: nat, url: string, p: nat)
    requires begin <= p < end <= |entries|
    requires UrlsAscending(entries, begin, end)
    requires Urls.Less(url, entries[p].url)
    ensures forall k :: p <= k < end ==> Urls.Less(url, entries[k].url)
  {
    forall k | p < k < end
      ensures Urls.Less(url, entries[k].url)
    {
      Urls.LessTransitive(url, entries[p].url, entries[k].url);
    }
  }

  /** A key above the URL at `p` is above every URL before `p`. */
  lemma BelowUpTo(entries: seq<Dirent>, begin: nat, end: nat, url: string, p: nat)
    requires begin <= p < end <= |entries|
    requires UrlsAscending(entries, begin, end)
    requires Urls.Less(entries[p].url, url)
    ensures forall k :: begin <= k <= p ==> Urls.Less(entries[k].url, url)
  {
    forall k | begin <= k < p
      ensures Urls.Less(entries[k].url, url)
    {
      Urls.LessTransitive(entries[k].url, entries[p].url, url);
    }
  }

  /** findx over the directory itself, with the namespace range computed by
      getNamespaceBeginOffset and the corrected end offset. On a sorted
      directory: the key is found iff the directory holds it, a match is the
      key's own entry, and a miss yields the key's insertion point. An absent
      namespace yields (false, 0) on any namespace-sorted directory. */
  method FileFindx(entries: seq<Dirent>, ns: char, url: string) returns (r: Result<FindResult>)
    requires NsSorted(entries)
    ensures r.Success? <==> |entries| > 0
    ensures r.Success? && r.value.found ==> r.value.index < |entries| && entries[r.value.index] == Dirent(ns, url)
    ensures r.Success? && Sorted(entries) ==> (r.value.found <==> Dirent(ns, url) in entries)
    ensures r.Success? && Sorted(entries) && !r.value.found && (exists k :: 0 <= k < |entries| && entries[k].ns == ns) ==>
      IsInsertionPoint(entries, Dirent(ns, url), r.value.index)
    ensures r.Success? && (forall k :: 0 <= k < |entries| ==> entries[k].ns != ns) ==>
      r.value == FindResult(false, 0)
  {
    var begin, _ := NamespaceBeginOffset(entries, ns);
    if begin.Failure? {
      return Failure(begin.error);
    }
    var end := NamespaceEndOffsetCorrected(entries, ns);
    BeginLeEnd(entries, ns, begin.value, end);
    var f, _ := Findx(entries, ns, url, begin.value, end);
    r := Success(f);
    if Sorted(entries) && begin.value < end {
      LiftToDirectory(entries, ns, url, begin.value, end, f);
    }
  }

  /** findx over the directory with both offsets as written. On every
      non-empty directory, sorted or not, begin does not exceed end, so the
      search reads only inside the directory, and a match has the key's URL.
      On a namespace-sorted directory it agrees with FileFindx whenever `ns`
      is not below the first entry's namespace. Below it, the range searched
      is [0, 1), and the URL-only comparison reports the first entry as a
      match whenever its URL equals `url`, whatever its namespace. */
  method FileFindxAsWritten(entries: seq<Dirent>, ns: char, url: string) returns (r: Result<FindResult>)
    ensures r.Success? <==> |entries| > 0
    ensures r.Success? ==> r.value.index <= |entries|
    ensures r.Success? && r.value.found ==> r.value.index < |entries| && entries[r.value.index].url == url
    ensures r.Success? && NsSorted(entries) && entries[0].ns <= ns && r.value.found ==>
      entries[r.value.index] == Dirent(ns, url)
    ensures r.Success? && entries[0].ns <= ns && Sorted(entries) ==> (r.value.found <==> Dirent(ns, url) in entries)
    ensures r.Success? && entries[0].ns <= ns && Sorted(entries) && !r.value.found && (exists k :: 0 <= k < |entries| && entries[k].ns == ns) ==>
      IsInsertionPoint(entries, Dirent(ns, url), r.value.index)
    ensures r.Success? && NsSorted(entries) && entries[0].ns <= ns && (forall k :: 0 <= k < |entries| ==> entries[k].ns != ns) ==>
      r.value == FindResult(false, 0)
    ensures r.Success? && NsSorted(entries) && entries[0].ns > ns ==>
      r.value == FindResult(url == entries[0].url, if Urls.Less(entries[0].url, url) then 1 else 0)
  {
    var begin, _ := NamespaceBeginOffset(entries, ns);
    if begin.Failure? {
      return Failure(begin.error);
    }
    var end, _ := NamespaceEndOffset(entries, ns);
    BeginNotAfterEnd(entries, ns);
    var f, _ := Findx(entries, ns, url, begin.value, end);
    r := Success(f);
    if NsSorted(entries) && entries[0].ns <= ns {
      BeginLeEnd(entries, ns, begin.value, end);
      if Sorted(entries) && begin.value < end {
        LiftToDirectory(entries, ns, url, begin.value, end, f);
      }
    }
    if NsSorted(entries) && entries[0].ns > ns {
      Urls.CompareAntisymmetric(url, entries[0].url);
    }
  }

  /** What findx establishes over the range of namespace `ns` carries over
      to the whole sorted directory: found iff the key is present, and a
      miss in the range is the key's insertion point in the directory. */
  lemma LiftToDirectory(entries: seq<Dirent>, ns: char, url: string, b: nat, e: nat, f: FindResult)
    requires Sorted(entries)
    requires IsNamespaceBegin(entries, ns, b) && IsNamespaceEnd(entries, ns, e) && b < e
    requires f.found <==> exists k :: b <= k < e && entries[k].url == url
    requires !f.found ==> IsUrlInsertionPoint(entries, b, e, url, f.index)
    ensures f.found <==> Dirent(ns, url) in entries
    ensures !f.found ==> IsInsertionPoint(entries, Dirent(ns, url), f.index)
  {
  }
}
