/**
 * The records of the account classification table: the two enumerations,
 * an account, and the projection of an account onto the four display
 * columns of the table.
 */
module Accounts {

  /** The side on which an account's balance ordinarily increases. */
  datatype NormalBalance = Debit | Credit | Special {

    /** The enumeration member's `.value`, which is what the table shows. */
    function Label(): (s: string)
      ensures s != []
    {
      match this
      case Debit => "Debit"
      case Credit => "Credit"
      case Special => "Special"
    }
  }

  /** The financial statement an account's balance flows into. */
  datatype FinancialStatement = BalanceSheet | IncomeStatement | RetainedEarnings | NotApplicable {

    function Label(): (s: string)
      ensures s != []
    {
      match this
      case BalanceSheet => "Balance Sheet"
      case IncomeStatement => "Income Statement"
      case RetainedEarnings => "Retained Earnings"
      case NotApplicable => "Not Applicable"
    }
  }

  datatype Account = Account(
    title: string,
    classification: string,
    statement: FinancialStatement,
    normalBalance: NormalBalance)

  const ColumnCount: nat := 4

  /** An index into the column list, as `sortby_to_index` produces it. */
  type ColumnIndex = i: nat | i < ColumnCount

  /** One table row: exactly one display string per column. */
  type Row = r: seq<string> | |r| == ColumnCount witness ["", "", "", ""]

  /** `Account.get_column_names`: the headers, and the vocabulary of sort keys. */
  const ColumnNames: seq<string> := ["Title", "Classification", "Statement", "Normal Balance"]

  /** `Account.get_column_values`: the enumerations are shown by their labels. */
  function ColumnValues(a: Account): (r: Row)
  {
    [a.title, a.classification, a.statement.Label(), a.normalBalance.Label()]
  }

  /** The list comprehension over all accounts that starts a table. */
  function Project(accounts: seq<Account>): (rows: seq<Row>)
    ensures |rows| == |accounts|
    ensures forall i :: 0 <= i < |accounts| ==> rows[i] == ColumnValues(accounts[i])
  {
    if accounts == [] then [] else [ColumnValues(accounts[0])] + Project(accounts[1..])
  }

  /** Distinct enumeration members are shown by distinct labels. */
  lemma LabelsInjective(x: FinancialStatement, y: FinancialStatement, m: NormalBalance, n: NormalBalance)
    ensures x.Label() == y.Label() ==> x == y
    ensures m.Label() == n.Label() ==> m == n
  {
  }

  /**
   * The projection loses nothing: an account is recovered from its row, so
   * reordering rows is the same as reordering the accounts they came from.
   */
  lemma {:induction false} ColumnValuesInjective(a: Account, b: Account)
    ensures ColumnValues(a) == ColumnValues(b) ==> a == b
  {
    if ColumnValues(a) == ColumnValues(b) {
      assert a.title == ColumnValues(a)[0] == ColumnValues(b)[0] == b.title;
      assert a.classification == ColumnValues(a)[1] == ColumnValues(b)[1] == b.classification;
      LabelsInjective(a.statement, b.statement, a.normalBalance, b.normalBalance);
      assert a.statement.Label() == ColumnValues(a)[2] == ColumnValues(b)[2] == b.statement.Label();
      assert a.normalBalance.Label() == ColumnValues(a)[3] == ColumnValues(b)[3] == b.normalBalance.Label();
    }
  }
}
