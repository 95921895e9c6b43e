/** Namespace boundaries: binary searches over the whole directory that
    compare only the namespace character of the probed entries
    (src/fileimpl.h:101-104, 163-198). Each search also returns `probes`,
    the indices it hands to getDirent, in order. */
module NamespaceIndex {
  import opened Directory

  /** getNamespaceBeginOffset. Entry 0 is read before the loop, and that
      entry, not the one at `lower`, decides the result. With no entries
      the read of entry 0 fails. On a namespace-sorted directory the result
      is where namespace `ch` begins. */
  method NamespaceBeginOffset(entries: seq<Dirent>, ch: char) returns (r: Result<nat>, probes: seq<nat>)
    ensures r.Success? <==> |entries| > 0
    ensures r.Failure? ==> r.error == IndexOutOfRange(0)
    ensures |probes| >= 1 && probes[0] == 0
    ensures forall k :: 1 <= k < |probes| ==> 0 < probes[k] < |entries|
    ensures r.Success? ==> r.value <= |entries|
    ensures r.Success? && entries[0].ns >= ch ==> r.value < |entries|
    ensures r.Success? && entries[0].ns < ch ==> r.value >= 1
    ensures r.Success? && NsSorted(entries) ==> IsNamespaceBegin(entries, ch, r.value)
    ensures r.Success? ==> r.value == BeginOffsetOf(entries, ch)
  {
    var n := |entries|;
    probes := [0];
    if n == 0 {
      return Failure(IndexOutOfRange(0)), probes;
    }
    var first := entries[0];
    ghost var final := Narrow(entries, ch, false, 0, n);
    var lower, upper := 0, n;
    while upper - lower > 1
      invariant 0 <= lower < upper <= n
      invariant |probes| >= 1 && probes[0] == 0
      invariant forall k :: 1 <= k < |probes| ==> 0 < probes[k] < n
      invariant Narrow(entries, ch, false, lower, upper) == final
      decreases upper - lower
    {
      var m := lower + (upper - lower) / 2;
      probes := probes + [m];
      var d := entries[m];
      if d.ns >= ch {
        assert Narrow(entries, ch, false, lower, upper) == Narrow(entries, ch, false, lower, m);
        upper := m;
      } else {
        assert Narrow(entries, ch, false, lower, upper) == Narrow(entries, ch, false, m, upper);
        lower := m;
      }
    }
    if NsSorted(entries) {
      NarrowBrackets(entries, ch, false, 0, n);
      if lower > 0 {
        assert first.ns <= entries[lower].ns;
      }
    }
    r := Success(if first.ns < ch then upper else lower);
  }

  /** getNamespaceEndOffset, as written. Entry 0 is never read, so with at
      least one entry the result is at least 1: on a namespace-sorted
      directory it is where namespace `ch` ends whenever `ch` is not below
      the first entry's namespace, and 1 (instead of 0) when it is. */
  method NamespaceEndOffset(entries: seq<Dirent>, ch: char) returns (r: nat, probes: seq<nat>)
    ensures r <= |entries|
    ensures |entries| <= 1 ==> r == |entries| && probes == []
    ensures |entries| >= 1 ==> r >= 1
    ensures forall k :: 0 <= k < |probes| ==> 0 < probes[k] < |entries|
    ensures NsSorted(entries) && (|entries| == 0 || entries[0].ns <= ch) ==> IsNamespaceEnd(entries, ch, r)
    ensures NsSorted(entries) && |entries| >= 1 && entries[0].ns > ch ==> r == 1
    ensures r == EndOffsetOf(entries, ch)
  {
    var n := |entries|;
    probes := [];
    ghost var final := if n == 0 then (0, 0) else Narrow(entries, ch, true, 0, n);
    var lower, upper := 0, n;
    while upper - lower > 1
      invariant 0 <= lower <= upper <= n
      invariant n >= 1 ==> lower < upper
      invariant n <= 1 ==> probes == []
      invariant forall k :: 0 <= k < |probes| ==> 0 < probes[k] < n
      invariant n >= 1 ==> Narrow(entries, ch, true, lower, upper) == final
      decreases upper - lower
    {
      var m := lower + (upper - lower) / 2;
      probes := probes + [m];
      var d := entries[m];
      if d.ns > ch {
        assert Narrow(entries, ch, true, lower, upper) == Narrow(entries, ch, true, lower, m);
        upper := m;
      } else {
        assert Narrow(entries, ch, true, lower, upper) == Narrow(entries, ch, true, m, upper);
        lower := m;
      }
    }
    if NsSorted(entries) && n >= 1 {
      NarrowBrackets(entries, ch, true, 0, n);
      if lower > 0 {
        assert entries[0].ns <= entries[lower].ns;
      }
    }
    r := upper;
  }

  /** getNamespaceEndOffset with entry 0 consulted the way
      getNamespaceBeginOffset consults it: 0 below the first entry's
      namespace, the end offset as written otherwise. On every
      namespace-sorted directory it is where namespace `ch` ends, for every
      `ch`. */
  method NamespaceEndOffsetCorrected(entries: seq<Dirent>, ch: char) returns (r: nat)
    ensures r <= |entries|
    ensures NsSorted(entries) ==> IsNamespaceEnd(entries, ch, r)
    ensures |entries| > 0 && entries[0].ns > ch ==> r == 0
    ensures |entries| == 0 || entries[0].ns <= ch ==> r == EndOffsetOf(entries, ch)
  {
    var upper, _ := NamespaceEndOffset(entries, ch);
    r := if |entries| > 0 && entries[0].ns > ch then 0 else upper;
  }

  /** getNamespaceCount: end minus begin in 32-bit unsigned arithmetic,
      with the end offset as written. On any non-empty directory, sorted or
      not, the end offset is not below the begin offset, so the subtraction
      never wraps and the result is at most the entry count. On a
      namespace-sorted directory it is the number of entries in namespace
      `ns`, except below the first entry's namespace, where the end offset
      makes it 1. */
  method NamespaceCount(entries: seq<Dirent>, ns: char) returns (r: Result<nat>)
    requires |entries| < IndexModulus
    ensures r.Success? <==> |entries| > 0
    ensures r.Success? ==> r.value <= |entries|
    ensures r.Success? && NsSorted(entries) && entries[0].ns <= ns ==> r.value == NsCount(entries, ns)
    ensures r.Success? && NsSorted(entries) && entries[0].ns > ns ==> r.value == 1
  {
    var end, _ := NamespaceEndOffset(entries, ns);
    var begin, _ := NamespaceBeginOffset(entries, ns);
    if begin.Failure? {
      return Failure(begin.error);
    }
    BeginNotAfterEnd(entries, ns);
    r := Success((end - begin.value) % IndexModulus);
    if NsSorted(entries) {
      if entries[0].ns <= ns {
        BeginLeEnd(entries, ns, begin.value, end);
        CountBetweenBounds(entries, ns, begin.value, end);
      } else {
        assert begin.value == 0;
      }
    }
  }

  /** Whether a probe of entry `d` sends a search to the lower half: in the
      begin search when `d`'s namespace is not below `ch`, in the end search
      when it is above `ch`. */
  predicate GoesLow(d: Dirent, ch: char, isEnd: bool) {
    if isEnd then d.ns > ch else d.ns >= ch
  }

  /** The narrowing both namespace searches perform, from `(lower, upper)`
      to the final pair of adjacent indices. */
  function Narrow(entries: seq<Dirent>, ch: char, isEnd: bool, lower: nat, upper: nat): (r: (nat, nat))
    requires lower < upper <= |entries|
    ensures lower <= r.0 && r.1 <= upper && r.1 == r.0 + 1
    decreases upper - lower
  {
    if upper - lower <= 1 then (lower, upper)
    else
      var m := lower + (upper - lower) / 2;
      if GoesLow(entries[m], ch, isEnd) then Narrow(entries, ch, isEnd, lower, m)
      else Narrow(entries, ch, isEnd, m, upper)
  }

  /** On a namespace-sorted directory the narrowing keeps its bracket:
      every entry after entry 0 up to `lower` sends a probe up, every entry
      from `upper` on sends it down. */
  lemma {:induction false} NarrowBrackets(entries: seq<Dirent>, ch: char, isEnd: bool, lower: nat, upper: nat)
    requires NsSorted(entries) && lower < upper <= |entries|
    requires forall k :: 0 < k <= lower ==> !GoesLow(entries[k], ch, isEnd)
    requires forall k :: upper <= k < |entries| ==> GoesLow(entries[k], ch, isEnd)
    ensures forall k :: 0 < k <= Narrow(entries, ch, isEnd, lower, upper).0 ==> !GoesLow(entries[k], ch, isEnd)
    ensures forall k :: Narrow(entries, ch, isEnd, lower, upper).1 <= k < |entries| ==> GoesLow(entries[k], ch, isEnd)
    decreases upper - lower
  {
    if upper - lower > 1 {
      var m := lower + (upper - lower) / 2;
      if GoesLow(entries[m], ch, isEnd) {
        forall k | m < k < upper
          ensures GoesLow(entries[k], ch, isEnd)
        {
          assert entries[m].ns <= entries[k].ns;
        }
        NarrowBrackets(entries, ch, isEnd, lower, m);
      } else {
        forall k | lower < k < m
          ensures !GoesLow(entries[k], ch, isEnd)
        {
          assert entries[k].ns <= entries[m].ns;
        }
        NarrowBrackets(entries, ch, isEnd, m, upper);
      }
    }
  }

  /** The value getNamespaceBeginOffset computes on a non-empty directory:
      the final `upper` or `lower`, as entry 0 decides. */
  function BeginOffsetOf(entries: seq<Dirent>, ch: char): nat
    requires |entries| > 0
  {
    var (lower, upper) := Narrow(entries, ch, false, 0, |entries|);
    if entries[0].ns < ch then upper else lower
  }

  /** The value getNamespaceEndOffset computes: the final `upper`. */
  function EndOffsetOf(entries: seq<Dirent>, ch: char): nat {
    if |entries| == 0 then 0 else Narrow(entries, ch, true, 0, |entries|).1
  }

  /** On every non-empty directory, sorted or not, the begin offset does
      not exceed the end offset as written. */
  lemma BeginNotAfterEnd(entries: seq<Dirent>, ch: char)
    requires |entries| > 0
    ensures BeginOffsetOf(entries, ch) <= EndOffsetOf(entries, ch)
  {
    NarrowBeginBelowEnd(entries, ch, 0, |entries|);
  }

  /** Both searches probe the same midpoints and move the same way until a
      probed entry is in namespace `ch`; there the begin search keeps the
      lower half and the end search the upper half. */
  lemma {:induction false} NarrowBeginBelowEnd(entries: seq<Dirent>, ch: char, lower: nat, upper: nat)
    requires lower < upper <= |entries|
    ensures Narrow(entries, ch, false, lower, upper).1 <= Narrow(entries, ch, true, lower, upper).1
    decreases upper - lower
  {
    if upper - lower > 1 {
      var m := lower + (upper - lower) / 2;
      if entries[m].ns > ch {
        NarrowBeginBelowEnd(entries, ch, lower, m);
      } else if entries[m].ns < ch {
        NarrowBeginBelowEnd(entries, ch, m, upper);
      }
    }
  }

  /** Begin never exceeds end; the entries between them are exactly the
      entries of namespace `ch`, so the range is empty iff `ch` is absent. */
  lemma BeginLeEnd(entries: seq<Dirent>, ch: char, b: nat, e: nat)
    requires IsNamespaceBegin(entries, ch, b) && IsNamespaceEnd(entries, ch, e)
    ensures b <= e
    ensures forall k :: 0 <= k < |entries| ==> (entries[k].ns == ch <==> b <= k < e)
    ensures b == e <==> forall k :: 0 <= k < |entries| ==> entries[k].ns != ch
  {
    if e < |entries| {
      assert entries[e].ns > ch;
    }
    if b < e {
      assert entries[b].ns == ch;
    }
  }

  /** Boundaries are monotone in the namespace character. */
  lemma BoundsMonotone(entries: seq<Dirent>, ch1: char, ch2: char, b1: nat, b2: nat, e1: nat, e2: nat)
    requires ch1 <= ch2
    requires IsNamespaceBegin(entries, ch1, b1) && IsNamespaceBegin(entries, ch2, b2)
    requires IsNamespaceEnd(entries, ch1, e1) && IsNamespaceEnd(entries, ch2, e2)
    ensures b1 <= b2 && e1 <= e2
  {
    if b2 < |entries| {
      assert entries[b2].ns >= ch2;
    }
    if e2 < |entries| {
      assert entries[e2].ns > ch2;
    }
  }

  /** The end of namespace `ch` is the begin of the next namespace that is
      present in the directory. */
  lemma EndIsNextBegin(entries: seq<Dirent>, ch: char, e: nat)
    requires NsSorted(entries)
    requires IsNamespaceEnd(entries, ch, e) && e < |entries|
    ensures entries[e].ns > ch
    ensures IsNamespaceBegin(entries, entries[e].ns, e)
  {
  }

  /** Between the boundaries of `ns` lie exactly NsCount entries. */
  lemma CountBetweenBounds(entries: seq<Dirent>, ns: char, b: nat, e: nat)
    requires IsNamespaceBegin(entries, ns, b) && IsNamespaceEnd(entries, ns, e)
    requires b <= e
    ensures NsCount(entries, ns) == e - b
  {
    CountOfRange(entries, ns, b, e);
  }

  lemma {:induction false} CountOfRange(entries: seq<Dirent>, ns: char, b: nat, e: nat)
    requires b <= e <= |entries|
    requires forall k :: 0 <= k < |entries| ==> (entries[k].ns == ns <==> b <= k < e)
    ensures NsCount(entries, ns) == e - b
  {
    if |entries| > 0 {
      var rest := entries[1..];
      assert forall k :: 0 <= k < |rest| ==> rest[k] == entries[k + 1];
      if b > 0 {
        CountOfRange(rest, ns, b - 1, e - 1);
      } else if e > 0 {
        CountOfRange(rest, ns, 0, e - 1);
      } else {
        CountOfRange(rest, ns, 0, 0);
      }
    }
  }
}
