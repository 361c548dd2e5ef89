/** The error enum of the minase crate (minase/src/db_core/query_error.rs): the eight variants
    of the database crate plus `InvalidQuery`, and its `Display` text. */
module MinaseQueryErrors {
  import Legacy = QueryErrors

  datatype QueryError =
    | TypeMismatch
    | OperatorMismatch
    | NoOperation
    | CellValueNotSet
    | TableNotFound
    | SizeMismatch
    | StackUnderflow
    | ColumnNotFound
    | InvalidQuery

  const Prefix: string := "Query Error: "

  /** Every variant, listed independently of the datatype declaration. */
  function AllVariants(): set<QueryError> {
    {TypeMismatch, OperatorMismatch, NoOperation, CellValueNotSet,
     TableNotFound, SizeMismatch, StackUnderflow, ColumnNotFound, InvalidQuery}
  }

  /** `impl Display for QueryError`. */
  function Display(e: QueryError): (s: string)
    ensures |s| > |Prefix| && s[..|Prefix|] == Prefix
  {
    match e
    case TypeMismatch => "Query Error: Type Mismatch"
    case OperatorMismatch => "Query Error: Operator Mismatch"
    case NoOperation => "Query Error: No Operation"
    case CellValueNotSet => "Query Error: Column Value Not Set"
    case TableNotFound => "Query Error: Table Not Found"
    case SizeMismatch => "Query Error: Size Mismatch"
    case StackUnderflow => "Query Error: Stack Underflow"
    case ColumnNotFound => "Query Error: Column Not Found"
    case InvalidQuery => "Query Error: Invalid Query"
  }

  lemma ExactlyNineVariants()
    ensures forall e: QueryError :: e in AllVariants()
    ensures |AllVariants()| == 9
  {
    forall e: QueryError ensures e in AllVariants() {
      match e
      case TypeMismatch =>
      case OperatorMismatch =>
      case NoOperation =>
      case CellValueNotSet =>
      case TableNotFound =>
      case SizeMismatch =>
      case StackUnderflow =>
      case ColumnNotFound =>
      case InvalidQuery =>
    }
  }

  /** The nine variants display as nine distinct texts. */
  lemma DisplayInjective(a: QueryError, b: QueryError)
    requires Display(a) == Display(b)
    ensures a == b
  {
  }

  lemma CellValueNotSetText()
    ensures Display(CellValueNotSet) == "Query Error: Column Value Not Set"
  {
  }

  /** The text the server sends back for a request it does not recognise. */
  lemma InvalidQueryText()
    ensures Display(InvalidQuery) == "Query Error: Invalid Query"
  {
  }

  /** The same-named minase variant of a database-crate error. The minase executor receives the
      evaluator's errors through this map. */
  function Lift(e: Legacy.QueryError): (r: QueryError)
    ensures r != InvalidQuery
    ensures Display(r) == Legacy.Display(e)
  {
    match e
    case TypeMismatch => TypeMismatch
    case OperatorMismatch => OperatorMismatch
    case NoOperation => NoOperation
    case CellValueNotSet => CellValueNotSet
    case TableNotFound => TableNotFound
    case SizeMismatch => SizeMismatch
    case StackUnderflow => StackUnderflow
    case ColumnNotFound => ColumnNotFound
  }

  /** Lifting loses nothing: distinct database-crate errors stay distinct. */
  lemma LiftInjective(a: Legacy.QueryError, b: Legacy.QueryError)
    requires Lift(a) == Lift(b)
    ensures a == b
  {
  }
}
