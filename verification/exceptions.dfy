/** The analyser's exception class: a message, an optional kind and an
    optional name, with the three constructors the class offers. */
module Exceptions {
  import opened Results

  /** The kinds of failure, in the order the enumeration declares them. */
  datatype ExceptionType =
    | CensusFileProblem
    | UnableToParse
    | NotProperCsv
    | WrongFileType
    | NoCsvData

  /** Every kind, in declaration order. */
  const AllKinds: seq<ExceptionType> :=
    [CensusFileProblem, UnableToParse, NotProperCsv, WrongFileType, NoCsvData]

  /** The enumeration has exactly five distinct kinds. */
  lemma ExactlyFiveKinds()
    ensures |AllKinds| == 5
    ensures forall k: ExceptionType :: k in AllKinds
    ensures forall i, j :: 0 <= i < j < |AllKinds| ==> AllKinds[i] != AllKinds[j]
  {
    forall k: ExceptionType ensures k in AllKinds {
      match k
      case CensusFileProblem => assert AllKinds[0] == k;
      case UnableToParse => assert AllKinds[1] == k;
      case NotProperCsv => assert AllKinds[2] == k;
      case WrongFileType => assert AllKinds[3] == k;
      case NoCsvData => assert AllKinds[4] == k;
    }
  }

  /** An exception value. `kind` is the public `type` field and `name` the
      private `name` field; `None` stands for a field left null. `cause` is
      the wrapped throwable, represented by its message. */
  datatype CensusAnalyserException = CensusAnalyserException(
    message: string,
    kind: Option<ExceptionType>,
    name: Option<string>,
    cause: Option<string>)

  /** The (message, type) constructor. */
  function Typed(message: string, kind: ExceptionType): (e: CensusAnalyserException)
    ensures e.message == message
    ensures e.kind == Some(kind)
    ensures e.name.None? && e.cause.None?
  {
    CensusAnalyserException(message, Some(kind), None, None)
  }

  /** The (message, type, cause) constructor. */
  function TypedWithCause(message: string, kind: ExceptionType, cause: string): (e: CensusAnalyserException)
    ensures e.message == message
    ensures e.kind == Some(kind)
    ensures e.cause == Some(cause)
    ensures e.name.None?
  {
    CensusAnalyserException(message, Some(kind), None, Some(cause))
  }

  /** The (message, name) constructor: it sets the name and leaves the type
      null, so such an exception carries no kind. */
  function Named(message: string, name: string): (e: CensusAnalyserException)
    ensures e.message == message
    ensures e.name == Some(name)
    ensures e.kind.None? && e.cause.None?
  {
    CensusAnalyserException(message, None, Some(name), None)
  }

  /** A kind-carrying exception can never be confused with a named one: the
      name constructor is the only one that leaves the type unset. */
  lemma NamedIsTheOnlyUntyped(m1: string, m2: string, k: ExceptionType, c: string, n: string)
    ensures Typed(m1, k) != Named(m2, n)
    ensures TypedWithCause(m1, k, c) != Named(m2, n)
    ensures Typed(m1, k).kind.Some? && TypedWithCause(m1, k, c).kind.Some? && Named(m2, n).kind.None?
  {
  }
}
