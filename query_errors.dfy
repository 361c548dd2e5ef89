/** The error enum of the database crate (database/src/db_core/query_error.rs): eight variants,
    no `InvalidQuery`, and its `Display` text. */
module QueryErrors {

  datatype QueryError =
    | TypeMismatch
    | OperatorMismatch
    | NoOperation
    | CellValueNotSet
    | TableNotFound
    | SizeMismatch
    | StackUnderflow
    | ColumnNotFound

  const Prefix: string := "Query Error: "

  /** Every variant, listed independently of the datatype declaration. */
  function AllVariants(): set<QueryError> {
    {TypeMismatch, OperatorMismatch, NoOperation, CellValueNotSet,
     TableNotFound, SizeMismatch, StackUnderflow, ColumnNotFound}
  }

  /** `impl Display for QueryError`. */
  function Display(e: QueryError): (s: string)
    ensures |s| > |Prefix| && s[..|Prefix|] == Prefix
  {
    match e
    case TypeMismatch => "Query Error: Type Mismatch"
    case OperatorMismatch => "Query Error: Operator Mismatch"
    case NoOperation => "Query Error: No Operation"
    case CellValueNotSet => "Query Error: Column Value Not Set"
    case TableNotFound => "Query Error: Table Not Found"
    case SizeMismatch => "Query Error: Size Mismatch"
    case StackUnderflow => "Query Error: Stack Underflow"
    case ColumnNotFound => "Query Error: Column Not Found"
  }

  /** The enum is closed with exactly eight variants. */
  lemma ExactlyEightVariants()
    ensures forall e: QueryError :: e in AllVariants()
    ensures |AllVariants()| == 8
  {
    forall e: QueryError ensures e in AllVariants() {
      match e
      case TypeMismatch =>
      case OperatorMismatch =>
      case NoOperation =>
      case CellValueNotSet =>
      case TableNotFound =>
      case SizeMismatch =>
      case StackUnderflow =>
      case ColumnNotFound =>
    }
  }

  /** Distinct variants display as distinct texts, so the eight texts are pairwise different. */
  lemma DisplayInjective(a: QueryError, b: QueryError)
    requires Display(a) == Display(b)
    ensures a == b
  {
  }

  lemma CellValueNotSetText()
    ensures Display(CellValueNotSet) == "Query Error: Column Value Not Set"
  {
  }
}
