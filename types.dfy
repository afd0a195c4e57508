/**
 * The record types of the money book (src/types/category.ts and
 * src/types/transaction.ts).
 */
module Types {
  import opened Wrappers

  /** CategoryType: the two enum members and their string values. */
  datatype CategoryType = Income | Expense {
    function Label(): (r: string)
      ensures r == "income" <==> this == Income
      ensures r == "expense" <==> this == Expense
    {
      match this
      case Income => "income"
      case Expense => "expense"
    }
  }

  /** A category: 관 (section), 항 (category) and 목 (subcategory), with a position. */
  datatype Category = Category(
    id: int,
    kind: CategoryType,
    section: string,
    category: string,
    subcategory: string,
    order: int)

  /**
   * A transaction. `kind` is the `type` field, kept as text because the edit
   * buffer stores whatever value the type selector reports.
   */
  datatype Transaction = Transaction(
    id: int,
    amount: int,
    kind: string,
    date: string,
    category: string,
    subcategory: string,
    item: string,
    memo: string)

  /** NewTransaction: a transaction whose id may be missing. */
  datatype NewTransaction = NewTransaction(
    id: Option<int>,
    amount: int,
    kind: CategoryType,
    date: string,
    category: string,
    subcategory: string,
    item: string,
    memo: string)
}
