/** The error taxonomy of htmpl (src/lib.rs): one variant per failure the
    evaluator reports, each carrying the tag of the element it surfaced in
    where the source records one. */
module Errors {
  import opened Wrappers

  /** A `rusqlite::Error`, reduced to a code and a message and compared
      structurally: an opaque stand-in for the library's own error. */
  datatype SqlError = SqlError(code: int, message: string)

  /** An `io::Error`, reduced to the two things its comparison looks at:
      its kind and its display text. */
  datatype IoError = IoError(kind: string, message: string)

  datatype Error =
    | TemplateEval(message: string)
    | MissingAttr(element: string, attr: string)
    | MissingQuery(element: string, query: string)
    | Cardinality(element: string, query: string, got: nat, want: nat)
    | MissingColumn(element: string, query: string, columns: string, wanted: string)
    | NoDefaultColumn(element: string, query: string, columns: string)
    | InvalidParameter(element: string, text: string)
    | MissingParameter(element: string, parameter: string)
    | Sql(query: string, cause: SqlError)
    | Serialize(io: IoError)

  /** The variants that record the tag of the element an error surfaced in. */
  predicate HasElement(e: Error) {
    || e.MissingAttr? || e.MissingQuery? || e.Cardinality? || e.MissingColumn?
    || e.NoDefaultColumn? || e.InvalidParameter? || e.MissingParameter?
  }

  /** Position of the variant in the declaration, for stating "same variant". */
  function Variant(e: Error): nat {
    match e
    case TemplateEval(_) => 0
    case MissingAttr(_, _) => 1
    case MissingQuery(_, _) => 2
    case Cardinality(_, _, _, _) => 3
    case MissingColumn(_, _, _, _) => 4
    case NoDefaultColumn(_, _, _) => 5
    case InvalidParameter(_, _) => 6
    case MissingParameter(_, _) => 7
    case Sql(_, _) => 8
    case Serialize(_) => 9
  }

  /** `PartialEq for Error`: same variant and every field equal; the I/O
      error is compared by kind and display text. */
  function ErrorEq(a: Error, b: Error): (r: bool)
    ensures r <==> a == b
    ensures Variant(a) != Variant(b) ==> !r
  {
    match (a, b)
    case (TemplateEval(l0), TemplateEval(r0)) => l0 == r0
    case (MissingAttr(l0, l1), MissingAttr(r0, r1)) => l0 == r0 && l1 == r1
    case (MissingQuery(l0, l1), MissingQuery(r0, r1)) => l0 == r0 && l1 == r1
    case (Cardinality(l0, l1, l2, l3), Cardinality(r0, r1, r2, r3)) =>
      l0 == r0 && l1 == r1 && l2 == r2 && l3 == r3
    case (MissingColumn(l0, l1, l2, l3), MissingColumn(r0, r1, r2, r3)) =>
      l0 == r0 && l1 == r1 && l2 == r2 && l3 == r3
    case (NoDefaultColumn(l0, l1, l2), NoDefaultColumn(r0, r1, r2)) =>
      l0 == r0 && l1 == r1 && l2 == r2
    case (InvalidParameter(l0, l1), InvalidParameter(r0, r1)) => l0 == r0 && l1 == r1
    case (MissingParameter(l0, l1), MissingParameter(r0, r1)) => l0 == r0 && l1 == r1
    case (Sql(l0, l1), Sql(r0, r1)) => l0 == r0 && l1 == r1
    case (Serialize(l0), Serialize(r0)) => l0.kind == r0.kind && l0.message == r0.message
    case _ => false
  }

  /** The same error with its element tag, if any, cleared. */
  function Untagged(e: Error): Error {
    if HasElement(e) then e.(element := "") else e
  }

  /** `Error::set_element`: records `tag` as the element an error surfaced in,
      unless a more specific tag was already recorded. */
  function SetElement(e: Error, tag: string): (r: Error)
    ensures Variant(r) == Variant(e)
    ensures Untagged(r) == Untagged(e)
    ensures HasElement(e) && e.element == "" ==> r.element == tag
    ensures HasElement(e) && e.element != "" ==> r == e
    ensures !HasElement(e) ==> r == e
  {
    if HasElement(e) && e.element == "" then e.(element := tag) else e
  }

  /** `From<Error> for Result<T, Error>`: an error converts into a failed result. */
  function IntoResult<T>(e: Error): (r: Result<T, Error>)
    ensures r.IsFailure() && ErrorEq(r.error, e)
  {
    Err(e)
  }
}
