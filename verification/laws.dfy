/** What a sequence of calls on one analyser does: how loads and accessors
    combine, what a repeated accessor returns, and the examples the test
    suite relies on. */
module AnalyserLaws {
  import opened Results
  import opened Exceptions
  import opened FileNames
  import opened Ordering
  import opened Records
  import opened Sorting
  import opened CensusAnalyser

  /** A new analyser has nothing to sort: every accessor throws NO_CSV_DATA
      and leaves it as it was. */
  lemma FreshAnalyserHasNoData()
    ensures GetStateWiseSortedCensusData(Fresh) == Step(Fresh, Failure(NoData))
    ensures GetStateCodeWiseSortedCensusData(Fresh) == Step(Fresh, Failure(NoData))
    ensures GetPopulationWiseSortedCensusData(Fresh) == Step(Fresh, Failure(NoData))
    ensures GetPopulationDensityWiseSortedCensusData(Fresh) == Step(Fresh, Failure(NoData))
  {
  }

  /** A refused file name is decided before the file is read: whatever the
      file would have produced, both loads throw WRONG_FILE_TYPE and leave
      the analyser as it was. */
  lemma WrongNameNeverReadsFile(st: Analyser, path: string,
                                c1: BuilderOutcome<CensusRecord>, c2: BuilderOutcome<CensusRecord>,
                                s1: BuilderOutcome<StateCodeRecord>, s2: BuilderOutcome<StateCodeRecord>)
    requires !CheckValidityOfFile(BaseName(path))
    ensures LoadIndiaCensusData(st, path, c1) == LoadIndiaCensusData(st, path, c2)
    ensures LoadIndianStateCode(st, path, s1) == LoadIndianStateCode(st, path, s2)
    ensures LoadIndiaCensusData(st, path, c1) == Step(st, Failure(Typed(WrongFileTypeMessage, WrongFileType)))
    ensures LoadIndianStateCode(st, path, s1) == Step(st, Failure(Typed(WrongFileTypeMessage, WrongFileType)))
  {
  }

  /** The shapes of exception a load can throw: WRONG_FILE_TYPE,
      CENSUS_FILE_PROBLEM or NOT_PROPER_CSV, or a builder exception that
      carries a name and no kind. */
  predicate IsLoadError(e: CensusAnalyserException) {
    || e.kind == Some(WrongFileType)
    || e.kind == Some(CensusFileProblem)
    || e.kind == Some(NotProperCsv)
    || (e.kind.None? && e.name.Some?)
  }

  /** Every exception a load throws has one of the load shapes; in
      particular UNABLE_TO_PARSE and NO_CSV_DATA never come from a load. */
  lemma LoadErrorKinds(st: Analyser, path: string, census: BuilderOutcome<CensusRecord>, codes: BuilderOutcome<StateCodeRecord>)
    ensures LoadIndiaCensusData(st, path, census).result.Failure? ==>
      IsLoadError(LoadIndiaCensusData(st, path, census).result.error)
    ensures LoadIndianStateCode(st, path, codes).result.Failure? ==>
      IsLoadError(LoadIndianStateCode(st, path, codes).result.error)
  {
  }

  /** On a non-empty census list the state accessor stores and returns the
      stable sort of that list by state. */
  lemma StateWiseIsStableSort(st: Analyser)
    requires st.censusList.Some? && |st.censusList.value| > 0
    ensures IsComparator(ByState)
    ensures
      var view := StableSort(st.censusList.value, ByState);
      GetStateWiseSortedCensusData(st) == Step(st.(censusList := Some(view)), Success(view))
  {
    ComparatorsAreValid();
  }

  /** A well-named census file whose builder succeeds is stored as it is,
      and its size is returned. */
  lemma CensusLoadStores(st: Analyser, path: string, records: seq<CensusRecord>)
    requires CheckValidityOfFile(BaseName(path))
    ensures LoadIndiaCensusData(st, path, Built(records))
         == Step(st.(censusList := Some(records)), Success(|records|))
  {
  }

  /** A load that hands back `n` records leaves an analyser whose state
      accessor succeeds exactly when `n` is positive, and then returns the
      stable sort of exactly those records. */
  lemma LoadThenSortByState(st: Analyser, path: string, records: seq<CensusRecord>)
    requires CheckValidityOfFile(BaseName(path))
    ensures
      var loaded := LoadIndiaCensusData(st, path, Built(records));
      && loaded.result == Success(|records|)
      && (|records| == 0 ==> GetStateWiseSortedCensusData(loaded.next).result == Failure(NoData))
      && (|records| > 0 ==>
            IsComparator(ByState) &&
            GetStateWiseSortedCensusData(loaded.next).result == Success(StableSort(records, ByState)))
  {
    CensusLoadStores(st, path, records);
    var next := st.(censusList := Some(records));
    if |records| > 0 {
      StateWiseIsStableSort(next);
    }
  }

  /** A second loading of the census file replaces the first list: counts
      do not accumulate, and the state code list is untouched by both. */
  lemma ReloadReplaces(st: Analyser, path: string, first: seq<CensusRecord>, second: seq<CensusRecord>)
    requires CheckValidityOfFile(BaseName(path))
    ensures
      var one := LoadIndiaCensusData(st, path, Built(first));
      var two := LoadIndiaCensusData(one.next, path, Built(second));
      && two.result == Success(|second|)
      && two.next == Analyser(Some(second), st.stateCodeList)
  {
  }

  /** Sorting by state twice without reloading changes nothing the second
      time: the stored list is already sorted, and a sorted list is left as
      it is. */
  lemma StateWiseTwiceIsStable(st: Analyser)
    ensures
      var first := GetStateWiseSortedCensusData(st);
      first.result.Success? ==> GetStateWiseSortedCensusData(first.next) == first
  {
    var first := GetStateWiseSortedCensusData(st);
    if first.result.Success? {
      ComparatorsAreValid();
      StableSortOfSorted(first.result.value, ByState);
    }
  }

  /** The same holds for sorting the state codes twice. */
  lemma StateCodeWiseTwiceIsStable(st: Analyser)
    ensures
      var first := GetStateCodeWiseSortedCensusData(st);
      first.result.Success? ==> GetStateCodeWiseSortedCensusData(first.next) == first
  {
    var first := GetStateCodeWiseSortedCensusData(st);
    if first.result.Success? {
      ComparatorsAreValid();
      StableSortOfSorted(first.result.value, ByStateCode);
    }
  }

  /** On a non-empty state code list the code accessor stores and returns
      the stable sort of that list by code. */
  lemma StateCodeWiseIsStableSort(st: Analyser)
    requires st.stateCodeList.Some? && |st.stateCodeList.value| > 0
    ensures IsComparator(ByStateCode)
    ensures
      var view := StableSort(st.stateCodeList.value, ByStateCode);
      GetStateCodeWiseSortedCensusData(st) == Step(st.(stateCodeList := Some(view)), Success(view))
  {
    ComparatorsAreValid();
  }

  /** Two rows that share a code are already in order by code either way
      round. */
  lemma TiedCodesAreSorted(a: StateCodeRecord, b: StateCodeRecord)
    requires a.stateCode == b.stateCode
    ensures IsComparator(ByStateCode)
    ensures StableSort([a, b], ByStateCode) == [a, b]
  {
    ComparatorsAreValid();
    assert Sorted([a, b], ByStateCode);
    StableSortOfSorted([a, b], ByStateCode);
  }

  /** Two rows that share a code come back in the order they were stored,
      whichever order that is: the sort never exchanges tied rows. */
  lemma SharedCodeKeepsStoredOrder(a: StateCodeRecord, b: StateCodeRecord)
    requires a.stateCode == b.stateCode
    ensures GetStateCodeWiseSortedCensusData(Analyser(None, Some([a, b]))).result == Success([a, b])
    ensures GetStateCodeWiseSortedCensusData(Analyser(None, Some([b, a]))).result == Success([b, a])
  {
    TiedCodesAreSorted(a, b);
    TiedCodesAreSorted(b, a);
    StateCodeWiseIsStableSort(Analyser(None, Some([a, b])));
    StateCodeWiseIsStableSort(Analyser(None, Some([b, a])));
  }

  /** Two descending views in a row put every group of ties back in the
      order of the list stored before the first call, since each call
      reverses the groups. */
  lemma {:induction false} DescendingTwiceRestoresTies<T(!new)>(s: seq<T>, cmp: (T, T) -> int)
    requires IsComparator(cmp)
    ensures forall x :: EqualKeys(DescendingView(DescendingView(s, cmp), cmp), x, cmp) == EqualKeys(s, x, cmp)
  {
    forall x ensures EqualKeys(DescendingView(DescendingView(s, cmp), cmp), x, cmp) == EqualKeys(s, x, cmp) {
      ReverseFacts(EqualKeys(s, x, cmp));
    }
  }

  /** Sorting by population twice keeps the descending order but returns
      records of equal population in the order they had before the first
      call. */
  lemma PopulationWiseTwice(st: Analyser)
    ensures
      var first := GetPopulationWiseSortedCensusData(st);
      var second := GetPopulationWiseSortedCensusData(first.next);
      first.result.Success? ==>
        && second.result.Success?
        && second.next == st.(censusList := Some(second.result.value))
        && forall x :: EqualKeys(second.result.value, x, ByPopulation) == EqualKeys(st.censusList.value, x, ByPopulation)
  {
    var first := GetPopulationWiseSortedCensusData(st);
    if first.result.Success? {
      ComparatorsAreValid();
      DescendingTwiceRestoresTies(st.censusList.value, ByPopulation);
    }
  }

  /** Two records of equal population are already in ascending order
      either way round. */
  lemma TiedPairIsSorted(a: CensusRecord, b: CensusRecord)
    requires a.population == b.population
    ensures IsComparator(ByPopulation)
    ensures StableSort([a, b], ByPopulation) == [a, b]
  {
    ComparatorsAreValid();
    assert Sorted([a, b], ByPopulation);
    StableSortOfSorted([a, b], ByPopulation);
  }

  lemma TiedPairViews(a: CensusRecord, b: CensusRecord)
    requires a.population == b.population
    ensures IsComparator(ByPopulation)
    ensures DescendingView([a, b], ByPopulation) == [b, a]
  {
    TiedPairIsSorted(a, b);
    assert Reverse([a, b]) == [b, a];
  }

  /** On a non-empty census list the population accessor stores and returns
      the descending view by population. */
  lemma PopulationWiseIsDescendingView(st: Analyser)
    requires st.censusList.Some? && |st.censusList.value| > 0
    ensures IsComparator(ByPopulation)
    ensures
      var view := DescendingView(st.censusList.value, ByPopulation);
      GetPopulationWiseSortedCensusData(st) == Step(st.(censusList := Some(view)), Success(view))
  {
    ComparatorsAreValid();
  }

  /** Two states of equal population: the first population call returns
      them swapped and the second returns them in their original order, so
      the descending accessors do not give the same answer twice. */
  lemma PopulationWiseIsNotIdempotent()
    ensures
      var a, b := CensusRecord("Goa", 10, 1), CensusRecord("Sikkim", 10, 2);
      var first := GetPopulationWiseSortedCensusData(Analyser(Some([a, b]), None));
      var second := GetPopulationWiseSortedCensusData(first.next);
      && first.result == Success([b, a])
      && second.result == Success([a, b])
  {
    var a, b := CensusRecord("Goa", 10, 1), CensusRecord("Sikkim", 10, 2);
    ComparatorsAreValid();
    TiedPairViews(a, b);
    TiedPairViews(b, a);
    PopulationWiseIsDescendingView(Analyser(Some([a, b]), None));
    PopulationWiseIsDescendingView(Analyser(Some([b, a]), None));
  }

  /** A permutation of three elements starts with one of them and holds
      the middle one somewhere. */
  lemma PermutationOfThree<T>(list: seq<T>, view: seq<T>)
    requires |list| == 3 && multiset(view) == multiset(list)
    ensures |view| == 3
    ensures view[0] == list[0] || view[0] == list[1] || view[0] == list[2]
    ensures list[1] == view[0] || list[1] == view[1] || list[1] == view[2]
  {
    assert |view| == |multiset(view)|;
    assert view[0] in multiset(list);
    assert list[1] in multiset(view);
  }

  /** Of three records, the one whose state name is smallest comes first
      in the state view. */
  lemma SmallestStateFirst(a: CensusRecord, b: CensusRecord, c: CensusRecord)
    requires CompareStrings(a.state, b.state) > 0 && CompareStrings(c.state, b.state) > 0
    ensures
      var r := GetStateWiseSortedCensusData(Analyser(Some([a, b, c]), None));
      r.result.Success? && r.result.value[0].state == b.state
  {
    var list := [a, b, c];
    var view := GetStateWiseSortedCensusData(Analyser(Some(list), None)).result.value;
    PermutationOfThree(list, view);
  }

  /** Of three records, the one with the largest population comes first in
      the population view. */
  lemma LargestPopulationFirst(a: CensusRecord, b: CensusRecord, c: CensusRecord)
    requires a.population < b.population && c.population < b.population
    ensures
      var r := GetPopulationWiseSortedCensusData(Analyser(Some([a, b, c]), None));
      r.result.Success? && r.result.value[0] == b
  {
    var list := [a, b, c];
    var view := GetPopulationWiseSortedCensusData(Analyser(Some(list), None)).result.value;
    PermutationOfThree(list, view);
  }

  /** A worked example: sorting Bihar, Andhra Pradesh and
      Goa by name puts Andhra Pradesh first. */
  lemma StateWiseExample()
    ensures
      var list := [CensusRecord("Bihar", 104099452, 1106),
                   CensusRecord("Andhra Pradesh", 49386799, 308),
                   CensusRecord("Goa", 1458545, 394)];
      var r := GetStateWiseSortedCensusData(Analyser(Some(list), None));
      r.result.Success? && r.result.value[0].state == "Andhra Pradesh"
  {
    assert CompareStrings("Bihar", "Andhra Pradesh") > 0;
    assert CompareStrings("Goa", "Andhra Pradesh") > 0;
    SmallestStateFirst(CensusRecord("Bihar", 104099452, 1106),
                       CensusRecord("Andhra Pradesh", 49386799, 308),
                       CensusRecord("Goa", 1458545, 394));
  }

  /** A worked example: sorting populations 10, 50 and 30
      in descending order puts the record with 50 first. */
  lemma PopulationWiseExample()
    ensures
      var list := [CensusRecord("A", 10, 1), CensusRecord("B", 50, 1), CensusRecord("C", 30, 1)];
      var r := GetPopulationWiseSortedCensusData(Analyser(Some(list), None));
      r.result.Success? && r.result.value[0] == CensusRecord("B", 50, 1)
  {
    LargestPopulationFirst(CensusRecord("A", 10, 1), CensusRecord("B", 50, 1), CensusRecord("C", 30, 1));
  }
}
