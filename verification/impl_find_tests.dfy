/** The cases of test/impl_find.cpp, stated over the same eleven-entry
    directory, plus the cases that expose the end-offset defect. */
module ImplFindTests {
  import opened Directory
  import opened NamespaceIndex
  import opened Find

  /** The `articleurl` fixture. */
  function Articles(): seq<Dirent> {
    [ Dirent('A', "aa"),
      Dirent('A', "aaaa"),
      Dirent('A', "aaaaaa"),
      Dirent('A', "aaaabb"),
      Dirent('A', "aaaacc"),
      Dirent('A', "aabbaa"),
      Dirent('A', "aabbbb"),
      Dirent('A', "aabbcc"),
      Dirent('A', "cccccc"),
      Dirent('M', "foo"),
      Dirent('a', "aa") ]
  }

  /** MockFindx::getNamespaceBeginOffset: hard-coded offsets. */
  function MockBegin(ns: char): nat {
    match ns
    case 'a' => 10
    case 'A' => 0
    case 'M' => 9
    case _ => 0
  }

  /** MockFindx::getNamespaceEndOffset: hard-coded offsets. */
  function MockEnd(ns: char): nat {
    match ns
    case 'a' => 11
    case 'A' => 9
    case 'M' => 10
    case _ => 0
  }

  /** The fixture satisfies the directory's format invariant. */
  lemma ArticlesSorted()
    ensures Sorted(Articles())
  {
    forall i | 0 <= i < |Articles()| - 1
      ensures Precedes(Articles()[i], Articles()[i + 1])
    {
      if i < 5 { ArticlesAdjacentLow(i); } else { ArticlesAdjacentHigh(i); }
    }
    SortedFromAdjacent(Articles());
  }

  /** Neighbouring entries of the fixture are in order: the first half, */
  lemma ArticlesAdjacentLow(i: nat)
    requires i < 5
    ensures Precedes(Articles()[i], Articles()[i + 1])
  {
  }

  /** and the second half. */
  lemma ArticlesAdjacentHigh(i: nat)
    requires 5 <= i < 10
    ensures Precedes(Articles()[i], Articles()[i + 1])
  {
  }

  /** For 'a', 'A' and 'M', MockFindx's offsets are where the namespace
      begins and ends in the fixture. */
  lemma MockRange(ns: char)
    requires ns in "aAM"
    ensures MockBegin(ns) < MockEnd(ns) <= |Articles()|
    ensures IsNamespaceBegin(Articles(), ns, MockBegin(ns))
    ensures IsNamespaceEnd(Articles(), ns, MockEnd(ns))
  {
  }

  /** The hard-coded offsets of MockFindx are the namespace boundaries of
      the fixture; for any other namespace both describe an empty range. */
  lemma MockFindxBoundsAgree(ns: char, b: nat, e: nat)
    requires IsNamespaceBegin(Articles(), ns, b) && IsNamespaceEnd(Articles(), ns, e)
    ensures ns in "aAM" ==> b == MockBegin(ns) && e == MockEnd(ns)
    ensures ns !in "aAM" ==> b == e && MockBegin(ns) == MockEnd(ns)
  {
    if ns in "aAM" {
      MockRange(ns);
      NamespaceBeginUnique(Articles(), ns, b, MockBegin(ns));
      NamespaceEndUnique(Articles(), ns, e, MockEnd(ns));
    } else {
      BeginLeEnd(Articles(), ns, b, e);
    }
  }

  /** TEST_F(NamespaceTest, BeginOffset). */
  method BeginOffsetCases() returns (a: Result<nat>, capitalA: Result<nat>, m: Result<nat>, u: Result<nat>)
    ensures a == Success(10) && capitalA == Success(0) && m == Success(9) && u == Success(10)
  {
    a := BeginOffsetCase('a', 10);
    capitalA := BeginOffsetCase('A', 0);
    m := BeginOffsetCase('M', 9);
    u := BeginOffsetCase('U', 10);
  }

  /** One begin-offset case: namespace `ch` begins at `expected` when the
      entries around `expected` say so. */
  method BeginOffsetCase(ch: char, expected: nat) returns (r: Result<nat>)
    requires expected <= |Articles()|
    requires expected == 0 || Articles()[expected - 1].ns < ch
    requires expected == |Articles()| || Articles()[expected].ns >= ch
    ensures r == Success(expected)
  {
    ArticlesSorted();
    NamespaceBeginFromNeighbours(Articles(), ch, expected);
    var probes;
    r, probes := NamespaceBeginOffset(Articles(), ch);
    NamespaceBeginUnique(Articles(), ch, r.value, expected);
  }

  /** TEST_F(NamespaceTest, EndOffset). */
  method EndOffsetCases() returns (a: nat, capitalA: nat, m: nat, u: nat)
    ensures a == 11 && capitalA == 9 && m == 10 && u == 10
  {
    a := EndOffsetCase('a', 11);
    capitalA := EndOffsetCase('A', 9);
    m := EndOffsetCase('M', 10);
    u := EndOffsetCase('U', 10);
  }

  /** One end-offset case, for a namespace not below the first entry's:
      namespace `ch` ends at `expected` when the entries around `expected`
      say so. */
  method EndOffsetCase(ch: char, expected: nat) returns (r: nat)
    requires Articles()[0].ns <= ch
    requires expected <= |Articles()|
    requires expected == 0 || Articles()[expected - 1].ns <= ch
    requires expected == |Articles()| || Articles()[expected].ns > ch
    ensures r == expected
  {
    ArticlesSorted();
    NamespaceEndFromNeighbours(Articles(), ch, expected);
    var probes;
    r, probes := NamespaceEndOffset(Articles(), ch);
    NamespaceEndUnique(Articles(), ch, r, expected);
  }

  /** findx on the fixture with MockFindx's offsets. */
  method MockFindx(ns: char, url: string) returns (r: FindResult)
    ensures ns !in "aAM" ==> r == FindResult(false, 0)
    ensures ns in "aAM" ==> (r.found <==> Dirent(ns, url) in Articles())
    ensures ns in "aAM" && r.found ==> r.index < |Articles()| && Articles()[r.index] == Dirent(ns, url)
    ensures ns in "aAM" && !r.found ==> IsInsertionPoint(Articles(), Dirent(ns, url), r.index)
  {
    var probes;
    if ns in "aAM" {
      ArticlesSorted();
      MockRange(ns);
      r, probes := Findx(Articles(), ns, url, MockBegin(ns), MockEnd(ns));
      LiftToDirectory(Articles(), ns, url, MockBegin(ns), MockEnd(ns), r);
    } else {
      r, probes := Findx(Articles(), ns, url, MockBegin(ns), MockEnd(ns));
    }
  }

  /** TEST_F(FindxTest, ExactMatch). */
  method ExactMatchCases() returns (r1: FindResult, r2: FindResult, r3: FindResult)
    ensures r1 == FindResult(true, 0)
    ensures r2 == FindResult(true, 10)
    ensures r3 == FindResult(true, 6)
  {
    ArticlesSorted();
    r1 := MockFindx('A', "aa");
    KeyIndexUnique(Articles(), r1.index, 0);
    r2 := MockFindx('a', "aa");
    KeyIndexUnique(Articles(), r2.index, 10);
    r3 := MockFindx('A', "aabbbb");
    KeyIndexUnique(Articles(), r3.index, 6);
  }

  /** TEST_F(FindxTest, NoExactMatch), first case: no 'U' namespace, so
      index 0. */
  method NoExactMatchMissingNamespace() returns (r: FindResult)
    ensures r == FindResult(false, 0)
  {
    r := MockFindx('U', "aa");
  }

  /** TEST_F(FindxTest, NoExactMatch), keys missing from namespace 'A'. */
  method NoExactMatchInA() returns (rs: seq<FindResult>)
    ensures rs == [ FindResult(false, 5), FindResult(false, 6), FindResult(false, 7),
                    FindResult(false, 8), FindResult(false, 9) ]
  {
    var r1 := MissCase('A', "aabb", 5);
    var r2 := MissCase('A', "aabbb", 6);
    var r3 := MissCase('A', "aabbbc", 7);
    var r4 := MissCase('A', "bb", 8);
    var r5 := MissCase('A', "dd", 9);
    rs := [r1, r2, r3, r4, r5];
  }

  /** TEST_F(FindxTest, NoExactMatch), keys missing from namespace 'M'. */
  method NoExactMatchInM() returns (rs: seq<FindResult>)
    ensures rs == [ FindResult(false, 9), FindResult(false, 9), FindResult(false, 10) ]
  {
    var r1 := MissCase('M', "f", 9);
    var r2 := MissCase('M', "bar", 9);
    var r3 := MissCase('M', "foo1", 10);
    rs := [r1, r2, r3];
  }

  /** One not-found case of NoExactMatch: the key falls between the
      entries at `expected - 1` and `expected`, so findx reports it missing
      at `expected`. */
  method MissCase(ns: char, url: string, expected: nat) returns (r: FindResult)
    requires ns in "aAM"
    requires expected <= |Articles()|
    requires expected == 0 || Precedes(Articles()[expected - 1], Dirent(ns, url))
    requires expected == |Articles()| || Precedes(Dirent(ns, url), Articles()[expected])
    ensures r == FindResult(false, expected)
  {
    ArticlesSorted();
    InsertionPointFromNeighbours(Articles(), Dirent(ns, url), expected);
    r := MockFindx(ns, url);
    InsertionPointUnique(Articles(), Dirent(ns, url), r.index, expected);
  }

  /** The end offset as written, asked for a namespace below the fixture's
      first one ('0' sorts before 'A'): 1, although namespace '0' ends at 0.
      The corrected end offset returns 0. */
  method EndOffsetBelowFirstNamespace() returns (asWritten: nat, corrected: nat)
    ensures asWritten == 1 && !IsNamespaceEnd(Articles(), '0', asWritten)
    ensures corrected == 0 && IsNamespaceEnd(Articles(), '0', corrected)
  {
    ArticlesSorted();
    var probes;
    asWritten, probes := NamespaceEndOffset(Articles(), '0');
    corrected := NamespaceEndOffsetCorrected(Articles(), '0');
    NamespaceEndUnique(Articles(), '0', corrected, 0);
  }

  /** The same defect seen through getNamespaceCount: one entry counted in
      namespace '0', which has none. */
  method NamespaceCountBelowFirstNamespace() returns (r: Result<nat>)
    ensures r == Success(1) && NsCount(Articles(), '0') == 0
  {
    ArticlesSorted();
    r := NamespaceCount(Articles(), '0');
  }

  /** The same defect seen through findx: looking up ('0', "aa") searches
      [0, 1) and reports entry 0, which is ('A', "aa"), as the match. The
      lookup with the corrected end offset reports it missing. */
  method FindxBelowFirstNamespace() returns (asWritten: Result<FindResult>, corrected: Result<FindResult>)
    ensures asWritten == Success(FindResult(true, 0)) && Articles()[0] != Dirent('0', "aa")
    ensures corrected == Success(FindResult(false, 0))
  {
    ArticlesSorted();
    asWritten := FileFindxAsWritten(Articles(), '0', "aa");
    corrected := FileFindx(Articles(), '0', "aa");
  }

  /** Why the corrected end offset needs a namespace-sorted directory: on
      the out-of-order directory [('C', ""), ('A', "")], namespace 'B'
      begins at 1 and the end as written is 2, but the corrected end is 0,
      below the begin offset. */
  method CorrectedEndBelowBegin() returns (begin: Result<nat>, asWritten: nat, corrected: nat)
    ensures begin == Success(1) && asWritten == 2 && corrected == 0
  {
    var directory := [Dirent('C', ""), Dirent('A', "")];
    var probes;
    begin, probes := NamespaceBeginOffset(directory, 'B');
    asWritten, probes := NamespaceEndOffset(directory, 'B');
    corrected := NamespaceEndOffsetCorrected(directory, 'B');
  }
}
