/**
 * `get_account_classification_table`: project the accounts onto their
 * display rows, sort the rows in place by the resolved key columns when
 * sort keys were given, render them, and post-process the rendering into a
 * markdown table.
 */
module Table {
  import opened Accounts
  import opened Resolver
  import opened Sorting
  import opened Markdown

  /**
   * The rows the table shows, in order: the projected accounts, stably
   * sorted by the resolved key columns when `sortby` is non-empty.
   */
  function TableRows(accounts: seq<Account>, sortby: seq<string>): (r: seq<Row>)
    ensures multiset(r) == multiset(Project(accounts))
    ensures sortby == [] || SortByToIndex(sortby) == [] ==> r == Project(accounts)
    ensures Sorted(r, SortByToIndex(sortby))
    ensures SameClasses(r, Project(accounts), SortByToIndex(sortby))
  {
    var rows := Project(accounts);
    if sortby == [] then
      SortSortedUnchanged(rows, []);
      rows
    else
      SortWithoutKeysUnchanged(rows);
      StableSort(rows, SortByToIndex(sortby))
  }

  /**
   * Lines 135-138: a fresh list of rows is built and, when keys were given,
   * sorted in place; the caller's accounts are a value and stay as they were.
   */
  method AccountClassificationRows(accounts: seq<Account>, sortby: seq<string>) returns (rows: seq<Row>)
    ensures rows == TableRows(accounts, sortby)
  {
    var projected := Project(accounts);
    var columnValues := new Row[|projected|](i requires 0 <= i < |projected| => projected[i]);
    assert columnValues[..] == projected;
    if sortby != [] {
      SortRows(columnValues, SortByToIndex(sortby));
    }
    rows := columnValues[..];
  }

  /**
   * The whole table. `render` stands for the table library's layout of a
   * header and rows into bordered text.
   */
  method GetAccountClassificationTable(
    accounts: seq<Account>,
    sortby: seq<string>,
    render: (seq<string>, seq<Row>) -> string)
    returns (table: string)
    ensures table == MarkdownTable(render(ColumnNames, TableRows(accounts, sortby)))
    ensures '+' !in table
  {
    var rows := AccountClassificationRows(accounts, sortby);
    var rendered := render(ColumnNames, rows);
    table := MarkdownTable(rendered);
  }

  /** Sorting by an unknown key keeps the accounts in their listed order. */
  lemma UnknownKeyKeepsOrder(accounts: seq<Account>)
    ensures TableRows(accounts, ["nonexistent"]) == Project(accounts)
  {
    NonexistentDropped();
  }
}
