/** The analyser itself: two stored lists, the two loads that replace them
    and the four accessors that sort them in place and hand them back. Each
    operation takes the analyser's state and returns the state after the
    call together with its return value or the exception it throws. */
module CensusAnalyser {
  import opened Results
  import opened Exceptions
  import opened FileNames
  import opened Ordering
  import opened Records
  import opened Sorting

  /** The analyser's fields; `None` is a list that is still null. */
  datatype Analyser = Analyser(
    censusList: Option<seq<CensusRecord>>,
    stateCodeList: Option<seq<StateCodeRecord>>)

  /** A newly constructed analyser. */
  const Fresh: Analyser := Analyser(None, None)

  /** What opening the file and running the CSV builder over it produced:
      an I/O exception, a runtime exception (a malformed file), a builder
      exception naming its own type, or the list of records. */
  datatype BuilderOutcome<T> =
    | IoFailure(message: string)
    | RuntimeFailure(message: string)
    | BuilderFailure(message: string, typeName: string)
    | Built(records: seq<T>)

  /** The state after a call and what the call returned or threw. */
  datatype Step<R> = Step(next: Analyser, result: Result<R, CensusAnalyserException>)

  /** The part both loads share: the file-name check, then the builder,
      with each kind of failure turned into the analyser's exception. */
  function ReadList<T>(path: string, outcome: BuilderOutcome<T>): (r: Result<seq<T>, CensusAnalyserException>)
    ensures r.Success? <==> MatchesPattern(BaseName(path)) && outcome.Built?
    ensures r.Success? ==> r.value == outcome.records
    ensures !MatchesPattern(BaseName(path)) ==>
      r == Failure(Typed(WrongFileTypeMessage, WrongFileType))
    ensures MatchesPattern(BaseName(path)) && outcome.IoFailure? ==>
      r == Failure(Typed(outcome.message, CensusFileProblem))
    ensures MatchesPattern(BaseName(path)) && outcome.RuntimeFailure? ==>
      r == Failure(Typed(outcome.message, NotProperCsv))
    ensures MatchesPattern(BaseName(path)) && outcome.BuilderFailure? ==>
      r == Failure(Named(outcome.message, outcome.typeName))
  {
    match IsFileValid(path)
    case Fail(e) => Failure(e)
    case Pass =>
      match outcome
      case IoFailure(m) => Failure(Typed(m, CensusFileProblem))
      case RuntimeFailure(m) => Failure(Typed(m, NotProperCsv))
      case BuilderFailure(m, name) => Failure(Named(m, name))
      case Built(records) => Success(records)
  }

  /** Loads the census file. Only a successful load touches the state, and
      it replaces the census list alone; the count is that of the new list. */
  function LoadIndiaCensusData(st: Analyser, path: string, outcome: BuilderOutcome<CensusRecord>): (r: Step<nat>)
    ensures r.result.Success? <==> MatchesPattern(BaseName(path)) && outcome.Built?
    ensures r.result.Success? ==>
      r.next == st.(censusList := Some(outcome.records)) && r.result.value == |outcome.records|
    ensures r.result.Failure? ==> r.next == st && ReadList(path, outcome) == Failure(r.result.error)
  {
    match ReadList(path, outcome)
    case Failure(e) => Step(st, Failure(e))
    case Success(list) => Step(st.(censusList := Some(list)), Success(|list|))
  }

  /** Loads the state code file, with the same rules for the state code
      list. */
  function LoadIndianStateCode(st: Analyser, path: string, outcome: BuilderOutcome<StateCodeRecord>): (r: Step<nat>)
    ensures r.result.Success? <==> MatchesPattern(BaseName(path)) && outcome.Built?
    ensures r.result.Success? ==>
      r.next == st.(stateCodeList := Some(outcome.records)) && r.result.value == |outcome.records|
    ensures r.result.Failure? ==> r.next == st && ReadList(path, outcome) == Failure(r.result.error)
  {
    match ReadList(path, outcome)
    case Failure(e) => Step(st, Failure(e))
    case Success(list) => Step(st.(stateCodeList := Some(list)), Success(|list|))
  }

  /** The message of the exception every accessor throws without data. */
  const NoCsvDataMessage := "No csv data"

  /** The error of an accessor called on a list that is null or empty. */
  const NoData: CensusAnalyserException := Typed(NoCsvDataMessage, NoCsvData)

  /** A list sorted ascending and then reversed: the descending views. The
      first element is in order after every other, and every group of ties
      comes out in the reverse of its order in `s`. */
  function DescendingView<T(!new)>(s: seq<T>, cmp: (T, T) -> int): (r: seq<T>)
    requires IsComparator(cmp)
    ensures |r| == |s| && multiset(r) == multiset(s)
    ensures SortedDescending(r, cmp)
    ensures forall k :: 0 <= k < |r| ==> cmp(r[0], r[k]) >= 0
    ensures forall x :: EqualKeys(r, x, cmp) == Reverse(EqualKeys(s, x, cmp))
  {
    var sorted := StableSort(s, cmp);
    ReverseOfSorted(sorted, cmp);
    ReverseFacts(sorted);
    assert forall x :: EqualKeys(Reverse(sorted), x, cmp) == Reverse(EqualKeys(s, x, cmp)) by {
      forall x ensures EqualKeys(Reverse(sorted), x, cmp) == Reverse(EqualKeys(s, x, cmp)) {
        EqualKeysReverse(sorted, x, cmp);
      }
    }
    Reverse(sorted)
  }

  /** The census list sorted by state name, stored back and returned. */
  function GetStateWiseSortedCensusData(st: Analyser): (r: Step<seq<CensusRecord>>)
    ensures r.result.Failure? <==> st.censusList.None? || |st.censusList.value| == 0
    ensures r.result.Failure? ==> r.next == st && r.result.error == NoData
    ensures r.result.Success? ==>
      var list, view := st.censusList.value, r.result.value;
      && r.next == st.(censusList := Some(view))
      && multiset(view) == multiset(list)
      && Sorted(view, ByState)
      && (forall k :: 0 <= k < |view| ==> CompareStrings(view[0].state, view[k].state) <= 0)
      && (forall x :: EqualKeys(view, x, ByState) == EqualKeys(list, x, ByState))
  {
    if st.censusList.None? || |st.censusList.value| == 0 then Step(st, Failure(NoData))
    else
      ComparatorsAreValid();
      var view := StableSort(st.censusList.value, ByState);
      SortedPairwise(view, ByState);
      Step(st.(censusList := Some(view)), Success(view))
  }

  /** The state code list sorted by code, stored back and returned. */
  function GetStateCodeWiseSortedCensusData(st: Analyser): (r: Step<seq<StateCodeRecord>>)
    ensures r.result.Failure? <==> st.stateCodeList.None? || |st.stateCodeList.value| == 0
    ensures r.result.Failure? ==> r.next == st && r.result.error == NoData
    ensures r.result.Success? ==>
      var list, view := st.stateCodeList.value, r.result.value;
      && r.next == st.(stateCodeList := Some(view))
      && multiset(view) == multiset(list)
      && Sorted(view, ByStateCode)
      && (forall k :: 0 <= k < |view| ==> CompareStrings(view[0].stateCode, view[k].stateCode) <= 0)
      && (forall x :: EqualKeys(view, x, ByStateCode) == EqualKeys(list, x, ByStateCode))
  {
    if st.stateCodeList.None? || |st.stateCodeList.value| == 0 then Step(st, Failure(NoData))
    else
      ComparatorsAreValid();
      var view := StableSort(st.stateCodeList.value, ByStateCode);
      SortedPairwise(view, ByStateCode);
      Step(st.(stateCodeList := Some(view)), Success(view))
  }

  /** The population view of a list: a permutation in non-increasing
      population order headed by a largest population, with every group of
      equal populations reversed. */
  lemma PopulationViewFacts(list: seq<CensusRecord>)
    ensures IsComparator(ByPopulation)
    ensures
      var view := DescendingView(list, ByPopulation);
      && multiset(view) == multiset(list)
      && (forall k :: 0 <= k < |view| - 1 ==> view[k].population >= view[k + 1].population)
      && (forall k :: 0 <= k < |view| ==> view[0].population >= view[k].population)
      && (forall x :: EqualKeys(view, x, ByPopulation) == Reverse(EqualKeys(list, x, ByPopulation)))
  {
    ComparatorsAreValid();
    var view := DescendingView(list, ByPopulation);
    assert forall k :: 0 <= k < |view| - 1 ==> ByPopulation(view[k], view[k + 1]) >= 0;
    assert forall k :: 0 <= k < |view| ==> ByPopulation(view[0], view[k]) >= 0;
  }

  /** The density view of a list, with the same shape as the population
      view. */
  lemma DensityViewFacts(list: seq<CensusRecord>)
    ensures IsComparator(ByDensity)
    ensures
      var view := DescendingView(list, ByDensity);
      && multiset(view) == multiset(list)
      && (forall k :: 0 <= k < |view| - 1 ==> view[k].densityPerSqKm >= view[k + 1].densityPerSqKm)
      && (forall k :: 0 <= k < |view| ==> view[0].densityPerSqKm >= view[k].densityPerSqKm)
      && (forall x :: EqualKeys(view, x, ByDensity) == Reverse(EqualKeys(list, x, ByDensity)))
  {
    ComparatorsAreValid();
    var view := DescendingView(list, ByDensity);
    assert forall k :: 0 <= k < |view| - 1 ==> ByDensity(view[k], view[k + 1]) >= 0;
    assert forall k :: 0 <= k < |view| ==> ByDensity(view[0], view[k]) >= 0;
  }

  /** The census list by population, largest first: sorted ascending,
      reversed, stored back and returned. */
  function GetPopulationWiseSortedCensusData(st: Analyser): (r: Step<seq<CensusRecord>>)
    ensures r.result.Failure? <==> st.censusList.None? || |st.censusList.value| == 0
    ensures r.result.Failure? ==> r.next == st && r.result.error == NoData
    ensures r.result.Success? ==>
      var list, view := st.censusList.value, r.result.value;
      && r.next == st.(censusList := Some(view))
      && multiset(view) == multiset(list)
      && (forall k :: 0 <= k < |view| - 1 ==> view[k].population >= view[k + 1].population)
      && (forall k :: 0 <= k < |view| ==> view[0].population >= view[k].population)
      && (forall x :: EqualKeys(view, x, ByPopulation) == Reverse(EqualKeys(list, x, ByPopulation)))
  {
    if st.censusList.None? || |st.censusList.value| == 0 then Step(st, Failure(NoData))
    else
      PopulationViewFacts(st.censusList.value);
      var view := DescendingView(st.censusList.value, ByPopulation);
      Step(st.(censusList := Some(view)), Success(view))
  }

  /** The census list by density, densest first: sorted ascending,
      reversed, stored back and returned. */
  function GetPopulationDensityWiseSortedCensusData(st: Analyser): (r: Step<seq<CensusRecord>>)
    ensures r.result.Failure? <==> st.censusList.None? || |st.censusList.value| == 0
    ensures r.result.Failure? ==> r.next == st && r.result.error == NoData
    ensures r.result.Success? ==>
      var list, view := st.censusList.value, r.result.value;
      && r.next == st.(censusList := Some(view))
      && multiset(view) == multiset(list)
      && (forall k :: 0 <= k < |view| - 1 ==> view[k].densityPerSqKm >= view[k + 1].densityPerSqKm)
      && (forall k :: 0 <= k < |view| ==> view[0].densityPerSqKm >= view[k].densityPerSqKm)
      && (forall x :: EqualKeys(view, x, ByDensity) == Reverse(EqualKeys(list, x, ByDensity)))
  {
    if st.censusList.None? || |st.censusList.value| == 0 then Step(st, Failure(NoData))
    else
      DensityViewFacts(st.censusList.value);
      var view := DescendingView(st.censusList.value, ByDensity);
      Step(st.(censusList := Some(view)), Success(view))
  }
}
