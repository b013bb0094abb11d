# Indian census analyser, modelled in Dafny

This project models the core of a small Java census analyser, the class
`CensusAnalyser` and its exception class `CensusAnalyserException`. The
analyser's state is two lists: state census records and state code
records. A list that was never loaded is null.

- The two loads first check the file name against a regular expression.
  They then read the file through a CSV builder, replace one list and
  return its size.
- The four accessors throw NO_CSV_DATA when their list is null or empty.
  Otherwise they sort the list in place with a hand-written bubble sort
  and return it. Two sort ascending, by state name or by state code. Two
  sort ascending and then reverse, by population or by density.

The model's modules:

- `Results`: `Option`, `Result` and `Outcome`, standing for null, for a
  value or a thrown exception, and for a check that passes or throws.
- `Exceptions`: the five-kind enumeration and the three constructors.
- `FileNames`: the file-name check. It gives the language of
  `^([a-z A-Z 0-9]+).csv$` as the concatenation of its pieces, and it
  proves that `CheckValidityOfFile` decides exactly that language.
- `Ordering`: the `java.util.Comparator` contract. Also `String.compareTo`,
  proved lexicographic and a valid comparator, and `Integer.compare`.
- `Records`: the two record types and the four key comparators.
- `Sorting`:
  - `StableSort`, a functional reference: it is ordered, a permutation,
    and keeps every group of ties in input order.
  - A uniqueness theorem: two sorted lists with the same groups of ties
    are equal.
  - `BubbleSort`, the source's loop nest. It is proved equal to
    `StableSort` for every input.
- `CensusAnalyser`: the state machine. Each operation maps an `Analyser`
  state to a `Step`: the next state plus the return value or the thrown
  exception. What the file and the CSV builder produce is a parameter of
  the load (`BuilderOutcome`).
- `AnalyserLaws`: laws about sequences of calls. They cover load then
  sort, reload, repeated sorting, and the concrete examples.

Three behaviours of the code are easy to miss on a first reading. The
model keeps all three:

- The file pattern's dot is unescaped, so any one character other than a
  line terminator may stand before `csv`. The character class also
  admits the space. `FileNames.DotQuirks` shows both.
- Sorting by state or by code twice returns the same answer both times.
  Sorting by population or by density does not when two records tie on
  the key. Each call reverses the ascending order, ties included, so
  tied records swap places on every call.
  `AnalyserLaws.PopulationWiseIsNotIdempotent` shows this on two states
  of equal population.
- No path of the core throws UNABLE_TO_PARSE. A CSV builder exception
  becomes an exception that carries the builder's type name and no
  kind.

## Model

| member | source | states |
|---|---|---|
| Exceptions.ExactlyFiveKinds | src/main/java/censusanalyser/CensusAnalyserException.java:5-7 | The enumeration has exactly five kinds, all distinct, and every kind is one of them. |
| Exceptions.Typed | src/main/java/censusanalyser/CensusAnalyserException.java:12-15 | The (message, type) constructor keeps the message, sets the kind, and leaves the name and cause null. |
| Exceptions.TypedWithCause | src/main/java/censusanalyser/CensusAnalyserException.java:17-20 | The (message, type, cause) constructor keeps the message, kind and cause, and leaves the name null. |
| Exceptions.Named | src/main/java/censusanalyser/CensusAnalyserException.java:22-25 | The (message, name) constructor sets the name and leaves the type null, so the exception has no kind. |
| Exceptions.NamedIsTheOnlyUntyped | src/main/java/censusanalyser/CensusAnalyserException.java:12-25 | An exception from the name constructor never equals one from a typed constructor, and it alone lacks a kind. |
| FileNames.PatternShape | src/main/java/censusanalyser/CensusAnalyser.java:27 | A name is in the pattern's language iff it has at least five characters and ends in `csv`. The character before `csv` must not be a line terminator, and every earlier character must be a letter, a digit or a space. |
| FileNames.CheckValidityOfFile | src/main/java/censusanalyser/CensusAnalyser.java:26-29 | The result is true exactly when the whole name is in the language of `^([a-z A-Z 0-9]+).csv$`. |
| FileNames.DotQuirks | src/main/java/censusanalyser/CensusAnalyser.java:27 | `a.b.csv` and `.csv` are refused. `dataXcsv` and `my data.csv` are accepted. |
| FileNames.TestSuiteNames | src/test/java/censusanalyser/CensusAnalyserTest.java:11-13 | The test suite's census file name is accepted, and the same name with a `.txt` extension is refused. |
| FileNames.BaseName | src/main/java/censusanalyser/CensusAnalyser.java:33-34 | The file name of a path is a suffix of it with no `/`. It is preceded by a `/` whenever it is not the whole path. |
| FileNames.BaseNameOfJoin | src/main/java/censusanalyser/CensusAnalyser.java:33-34 | Joining any directory and a `/`-free name with `/` gives a path whose file name is that name. |
| FileNames.IsFileValid | src/main/java/censusanalyser/CensusAnalyser.java:32-38 | The check passes iff the path's file name matches the pattern. Otherwise it throws WRONG_FILE_TYPE with the message "Enter proper file type". |
| FileNames.ValidityIgnoresDirectory | src/main/java/censusanalyser/CensusAnalyser.java:33-34 | The directory part of a path never changes the verdict of the check. |
| FileNames.TestSuitePaths | src/test/java/censusanalyser/CensusAnalyserTest.java:11-13 | The test suite's census path passes the check, and its `.txt` path fails it. |
| Ordering.CompareStrings | src/main/java/censusanalyser/CensusAnalyser.java:86 | `String.compareTo` is zero exactly on equal strings. |
| Ordering.CompareStringsIsLexicographic | src/main/java/censusanalyser/CensusAnalyser.java:86 | `String.compareTo` is negative iff the first string comes first lexicographically: it is a proper prefix of the second, or it has the smaller character at the first difference. |
| Ordering.CompareStringsAntisymmetric | src/main/java/censusanalyser/CensusAnalyser.java:86 | Swapping the arguments of `String.compareTo` flips the sign of the result. |
| Ordering.CompareStringsTransitive | src/main/java/censusanalyser/CensusAnalyser.java:86 | "Not after" under `String.compareTo` is transitive. |
| Ordering.CompareStringsIsComparator | src/main/java/censusanalyser/CensusAnalyser.java:86 | `String.compareTo` meets the `Comparator` contract. |
| Ordering.CompareInts | src/main/java/censusanalyser/CensusAnalyser.java:108 | `Integer.compare` is negative, zero or positive exactly as the first integer is below, equal to or above the second. Its value is -1, 0 or 1. |
| Ordering.CompareIntsIsComparator | src/main/java/censusanalyser/CensusAnalyser.java:108 | `Integer.compare` meets the `Comparator` contract. |
| Records.ByState | src/main/java/censusanalyser/CensusAnalyser.java:86 | Comparing two census rows by state is zero iff their state names are equal, and negative iff the first name comes first lexicographically. |
| Records.ByStateCode | src/main/java/censusanalyser/CensusAnalyser.java:97 | Comparing two code rows by state code is zero iff their codes are equal, and negative iff the first code comes first lexicographically. |
| Records.ByPopulation | src/main/java/censusanalyser/CensusAnalyser.java:108 | Comparing two census rows by population is negative iff the first population is smaller, and zero iff the populations are equal. |
| Records.ByDensity | src/main/java/censusanalyser/CensusAnalyser.java:120 | Comparing two census rows by density is negative iff the first density is smaller, and zero iff the densities are equal. |
| Records.ComparatorsAreValid | src/main/java/censusanalyser/CensusAnalyser.java:86-120 | Each of the four key comparators the accessors build meets the `Comparator` contract. |
| Sorting.StableSort | src/main/java/censusanalyser/CensusAnalyser.java:128-139 | The reference sort returns a permutation of its input. The result is in non-decreasing comparator order, and every group of ties keeps its input order. |
| Sorting.SortedStableUnique | src/main/java/censusanalyser/CensusAnalyser.java:128-139 | Two lists that are both sorted and have the same groups of ties are equal. So the sort result is determined by those two properties. |
| Sorting.StableSortOfSorted | src/main/java/censusanalyser/CensusAnalyser.java:128-139 | Sorting an already sorted list leaves it unchanged. |
| Sorting.SwapAt | src/main/java/censusanalyser/CensusAnalyser.java:134-135 | Setting position `j` to the element at `j + 1` and `j + 1` to the element at `j` exchanges the two and leaves every other position alone. The list keeps its length and its elements. |
| Sorting.SwapKeepsTies | src/main/java/censusanalyser/CensusAnalyser.java:133-135 | Swapping an adjacent pair that compares above zero keeps every group of ties in order. |
| Sorting.BubbleStep | src/main/java/censusanalyser/CensusAnalyser.java:130-136 | One inner iteration carries the largest element seen so far one place to the right. It keeps the sorted suffix and the prefix below it. |
| Sorting.PassDone | src/main/java/censusanalyser/CensusAnalyser.java:129-137 | At the end of a pass the sorted suffix has grown by one element, and everything before it is still not after it. |
| Sorting.BubblePass | src/main/java/censusanalyser/CensusAnalyser.java:130-137 | One pass of the inner loop over the unsorted prefix of length `m` returns a permutation with the same groups of ties. The sorted suffix grows to start at `m - 1`, everything before it stays not after it, and a sorted list is left unchanged. |
| Sorting.Finished | src/main/java/censusanalyser/CensusAnalyser.java:128-139 | Once the unsorted prefix has at most one element, the list is a sorted permutation of the input with the same groups of ties. It equals the reference sort, and it is the input itself when the input was already sorted. |
| Sorting.BubbleSort | src/main/java/censusanalyser/CensusAnalyser.java:128-139 | The bubble sort returns a sorted permutation of its input with ties in input order. It leaves sorted lists and lists of fewer than two elements unchanged, and it equals the reference sort on every input. |
| Sorting.Reverse | src/main/java/censusanalyser/CensusAnalyser.java:110 | `Collections.reverse` puts element `i` at position `n - 1 - i`. |
| Sorting.ReverseFacts | src/main/java/censusanalyser/CensusAnalyser.java:110 | Reversing twice restores the list, and reversing is a permutation. |
| Sorting.EqualKeysReverse | src/main/java/censusanalyser/CensusAnalyser.java:110 | Reversing a list reverses the order of every group of ties. |
| Sorting.ReverseOfSorted | src/main/java/censusanalyser/CensusAnalyser.java:109-110 | Reversing an ascending list gives a descending list whose first element is not below any other. |
| CensusAnalyser.ReadList | src/main/java/censusanalyser/CensusAnalyser.java:41-54 | A read succeeds iff the file name matches and the builder produced records, and then it returns exactly those records. A bad name throws WRONG_FILE_TYPE. An I/O failure throws CENSUS_FILE_PROBLEM and a runtime failure NOT_PROPER_CSV, both with the failure's message. A builder exception throws a named exception carrying the builder's type name. |
| CensusAnalyser.LoadIndiaCensusData | src/main/java/censusanalyser/CensusAnalyser.java:41-55 | A load succeeds iff the read does. Success replaces the census list alone and returns the new list's size. Failure throws the read's exception and changes nothing. |
| CensusAnalyser.LoadIndianStateCode | src/main/java/censusanalyser/CensusAnalyser.java:58-72 | As for the census load, for the state code list. |
| CensusAnalyser.DescendingView | src/main/java/censusanalyser/CensusAnalyser.java:108-110 | Sorting and then reversing gives a descending permutation whose first element is the largest. Every group of ties is reversed relative to the input. |
| CensusAnalyser.GetStateWiseSortedCensusData | src/main/java/censusanalyser/CensusAnalyser.java:82-90 | The call throws NO_CSV_DATA, changing nothing, iff the census list is null or empty. Otherwise it stores and returns a permutation sorted by state name. Its first state is least under `String.compareTo`, and tied records keep their order. |
| CensusAnalyser.GetStateCodeWiseSortedCensusData | src/main/java/censusanalyser/CensusAnalyser.java:93-101 | The same for the state code list, sorted by state code. |
| CensusAnalyser.PopulationViewFacts | src/main/java/censusanalyser/CensusAnalyser.java:108-110 | Sorting by population and then reversing gives a permutation in non-increasing population order headed by a largest population. Every group of equal populations is reversed. |
| CensusAnalyser.DensityViewFacts | src/main/java/censusanalyser/CensusAnalyser.java:120-122 | The same for density per square kilometre. |
| CensusAnalyser.GetPopulationWiseSortedCensusData | src/main/java/censusanalyser/CensusAnalyser.java:104-113 | The call throws NO_CSV_DATA, changing nothing, iff the census list is null or empty. Otherwise it stores and returns a permutation in non-increasing population order, and the first record has the largest population. Records of equal population come out in reverse of their stored order. |
| CensusAnalyser.GetPopulationDensityWiseSortedCensusData | src/main/java/censusanalyser/CensusAnalyser.java:116-125 | The same as the population accessor, for density per square kilometre. |
| AnalyserLaws.FreshAnalyserHasNoData | src/main/java/censusanalyser/CensusAnalyser.java:22-23 | On a new analyser every accessor throws NO_CSV_DATA and leaves the state as it was. |
| AnalyserLaws.WrongNameNeverReadsFile | src/main/java/censusanalyser/CensusAnalyser.java:42 | With a refused file name, both loads throw WRONG_FILE_TYPE and change nothing, whatever the file would have contained. |
| AnalyserLaws.LoadErrorKinds | src/main/java/censusanalyser/CensusAnalyser.java:47-53 | A load throws only WRONG_FILE_TYPE, CENSUS_FILE_PROBLEM, NOT_PROPER_CSV, or a named exception without a kind. |
| AnalyserLaws.CensusLoadStores | src/main/java/censusanalyser/CensusAnalyser.java:45-46 | A well-named file whose builder succeeds is stored as read, and its size is returned. |
| AnalyserLaws.LoadThenSortByState | src/main/java/censusanalyser/CensusAnalyser.java:41-90 | After a load of `n` records, the state accessor throws NO_CSV_DATA if `n` is 0. Otherwise it returns the stable sort of exactly the loaded records. |
| AnalyserLaws.ReloadReplaces | src/main/java/censusanalyser/CensusAnalyser.java:45-46 | A second census load replaces the first list rather than adding to it. It returns the new size and leaves the state code list alone. |
| AnalyserLaws.StateWiseTwiceIsStable | src/main/java/censusanalyser/CensusAnalyser.java:82-90 | A second call of the state accessor returns the same list and state as the first. |
| AnalyserLaws.StateCodeWiseTwiceIsStable | src/main/java/censusanalyser/CensusAnalyser.java:93-101 | A second call of the state code accessor returns the same list and state as the first. |
| AnalyserLaws.StateCodeWiseIsStableSort | src/main/java/censusanalyser/CensusAnalyser.java:93-101 | On a non-empty code list the state code accessor stores and returns exactly the stable sort of that list by code. |
| AnalyserLaws.TiedCodesAreSorted | src/main/java/censusanalyser/CensusAnalyser.java:97-98 | Two code rows with the same code are already in order, so sorting leaves the pair as it is. |
| AnalyserLaws.SharedCodeKeepsStoredOrder | src/main/java/censusanalyser/CensusAnalyser.java:93-101 | Two rows sharing a code but naming different states come back in their stored order, whichever order that is. |
| AnalyserLaws.DescendingTwiceRestoresTies | src/main/java/censusanalyser/CensusAnalyser.java:109-110 | Two descending views in a row return every group of ties to its original order. |
| AnalyserLaws.PopulationWiseTwice | src/main/java/censusanalyser/CensusAnalyser.java:104-113 | A second population call also succeeds and stores what it returns. Its groups of equal population are in the order stored before the first call. |
| AnalyserLaws.PopulationWiseIsNotIdempotent | src/main/java/censusanalyser/CensusAnalyser.java:109-110 | Two states of equal population come back swapped from the first population call and in their original order from the second. |
| AnalyserLaws.SmallestStateFirst | src/main/java/censusanalyser/CensusAnalyser.java:82-90 | Of three census rows, the one whose state name is below the other two under `String.compareTo` comes first from the state accessor. |
| AnalyserLaws.LargestPopulationFirst | src/main/java/censusanalyser/CensusAnalyser.java:104-113 | Of three census rows, the one with a population above the other two comes first from the population accessor. |
| AnalyserLaws.StateWiseExample | src/test/java/censusanalyser/CensusAnalyserTest.java:139-148 | Sorting Bihar, Andhra Pradesh and Goa by state puts Andhra Pradesh first. |
| AnalyserLaws.PopulationWiseExample | src/test/java/censusanalyser/CensusAnalyserTest.java:162-172 | Sorting populations 10, 50 and 30 in descending order puts the record with 50 first. |

## Left out

- JSON output: the accessors return the sorted list itself, not its Gson serialisation.
- `getCount` (CensusAnalyser.java:75-79): it is private and no operation of the class calls it.
- The area accessor: the test suite calls `getStateAreaWiseSortedCensusData`, but the class does not define it.
- File I/O and the CSV builder: what opening and reading the file produces is a parameter of the load, `BuilderOutcome`. The builder's header and delimiter checks are part of that library, not of this class.
- `FileNames.BaseName`: models `Paths.get(...).getFileName()` for `/`-separated paths only. `Paths.get` (CensusAnalyser.java:33, outside the `try`) throws the unchecked `InvalidPathException` for a path it cannot parse: on Unix, a path containing a NUL character; on other platforms, further reserved characters as well. That exception escapes both loads. The model has no such outcome: it takes the file name of any path, so a name such as `dir/ab\u{0}csv`, with a NUL in the dot's place, passes the check and loads. The root path (where Java returns null), redundant trailing slashes, an empty path and other platforms' separators are not modelled.
- `AnalyserLaws.LoadErrorKinds`: the unchecked `InvalidPathException` from `Paths.get` (CensusAnalyser.java:33) is not among the shapes it lists, because the model has no such outcome (see `FileNames.BaseName`).
- `FileNames.IsFileValid`: passes for a path with a NUL character whose file name matches, where the source throws `InvalidPathException` instead.
- An `IOException` thrown while closing the reader after a successful build is not modelled. In the source this would both store the list and throw CENSUS_FILE_PROBLEM.
- A builder that returns null is not modelled. In the source the null list is stored and the size call throws, which becomes NOT_PROPER_CSV.
- A null exception message is represented by the empty string, since the model's messages are plain strings.
- `Ordering.CompareStrings`: compares Dafny characters, which are Unicode scalar values. Java compares UTF-16 code units, which orders characters beyond the Basic Multilingual Plane differently.
- The record classes are reduced to the fields the comparators read (state, population and density for census rows, state code for code rows), plus the state name of a code row, which tells apart rows that share a code.
- `CensusAnalyser.LoadIndiaCensusData`: returns the list size as an unbounded natural number. Java's `int` cannot overflow here, because a list holds fewer than 2^31 elements.
- The exception's cause is represented by its message, since no operation of the core inspects it.
- The unused class type parameter `<E>` of `CensusAnalyser` has no counterpart.
