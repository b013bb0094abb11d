/** The two record types the analyser loads, reduced to the fields its
    sorts read and, for a state code row, the state name that tells apart
    rows sharing a code; and the four comparators its accessors sort with.
    Each comparator is `Comparator.comparing` over one key field. */
module Records {
  import opened Ordering

  /** A row of the state census file. */
  datatype CensusRecord = CensusRecord(state: string, population: int, densityPerSqKm: int)

  /** A row of the state code file: a state's name and its short code. */
  datatype StateCodeRecord = StateCodeRecord(stateName: string, stateCode: string)

  /** `Comparator.comparing(census -> census.state)`: lexicographic order of
      the state names, with ties exactly on equal names. */
  function ByState(a: CensusRecord, b: CensusRecord): (r: int)
    ensures r == 0 <==> a.state == b.state
    ensures r < 0 <==> LexLess(a.state, b.state)
  {
    CompareStringsIsLexicographic(a.state, b.state);
    CompareStrings(a.state, b.state)
  }

  /** `Comparator.comparing(census -> census.stateCode)`: lexicographic order
      of the codes; records with the same code tie whatever their names. */
  function ByStateCode(a: StateCodeRecord, b: StateCodeRecord): (r: int)
    ensures r == 0 <==> a.stateCode == b.stateCode
    ensures r < 0 <==> LexLess(a.stateCode, b.stateCode)
  {
    CompareStringsIsLexicographic(a.stateCode, b.stateCode);
    CompareStrings(a.stateCode, b.stateCode)
  }

  /** `Comparator.comparing(census -> census.population)`: numeric order of
      the populations. */
  function ByPopulation(a: CensusRecord, b: CensusRecord): (r: int)
    ensures r < 0 <==> a.population < b.population
    ensures r == 0 <==> a.population == b.population
  {
    CompareInts(a.population, b.population)
  }

  /** `Comparator.comparing(census -> census.densityPerSqKm)`: numeric order
      of the densities. */
  function ByDensity(a: CensusRecord, b: CensusRecord): (r: int)
    ensures r < 0 <==> a.densityPerSqKm < b.densityPerSqKm
    ensures r == 0 <==> a.densityPerSqKm == b.densityPerSqKm
  {
    CompareInts(a.densityPerSqKm, b.densityPerSqKm)
  }

  /** Each of the four comparators meets the comparator contract, because
      the key comparison it is built on does. */
  lemma ComparatorsAreValid()
    ensures IsComparator(ByState)
    ensures IsComparator(ByStateCode)
    ensures IsComparator(ByPopulation)
    ensures IsComparator(ByDensity)
  {
    CompareStringsIsComparator();
    CompareIntsIsComparator();
  }
}
