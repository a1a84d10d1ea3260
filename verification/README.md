# Account classification table, modelled in Dafny

This project models how the account classification script builds its
markdown table. The script is `src/account_classification.py`. The model
covers five parts:

- the two enumerations of an account (`NormalBalance`, `FinancialStatement`)
  and the four display columns of an account;
- the resolution of user sort keys to column indices: `normalize`,
  `fuzzy_find` and `sortby_to_index`;
- the stable multi-key sort of the rows in `get_account_classification_table`;
- the markdown post-processing of the rendered text table;
- the whole table operation, with the table library's layout as a parameter.

Modules, one per file:

- `Wrappers` (`wrappers.dfy`): `Option`, standing for Python's `None`.
- `Accounts` (`accounts.dfy`): the enumerations and their `.value` labels,
  `Account`, a `Row` of four strings, the column names, and the projection
  of accounts onto rows.
- `Resolver` (`resolver.dfy`): `Normalize`, `FuzzyFind`, `ResolveKey`,
  `SortByToIndex`, and what they do on the four column names.
- `Ordering` (`ordering.dfy`): Python's `<` on strings (by code point) and
  on lists of strings (lexicographic), proved a strict total order.
- `Sorting` (`sorting.dfy`): a reference stable sort `StableSort`, and the
  in-place sort `SortRows` on an array. `SortRows` is proved to leave exactly
  what `StableSort` gives.
- `Markdown` (`markdown.dfy`): line splitting and joining, dropping the
  border lines, `+` to `|`, and the right-alignment rewrite.
- `Table` (`table.dfy`): `get_account_classification_table`.

Stability is stated without reference to any particular algorithm. For
every key value, the subsequence of rows that have that key is the same
before and after the sort (`SameClasses`). Sortedness together with
stability fixes the result completely (`SortedStableUnique`). So any stable
sort by this key gives the rows `StableSort` gives, Python's included.

## Model

| member | source | states |
|---|---|---|
| Accounts.NormalBalance.Label | src/account_classification.py:34-37 | every normal balance is shown by a non-empty label ("Debit", "Credit", "Special") |
| Accounts.FinancialStatement.Label | src/account_classification.py:40-44 | every statement is shown by a non-empty label ("Balance Sheet", ...) |
| Accounts.LabelsInjective | src/account_classification.py:34-44 | distinct enumeration members have distinct labels |
| Accounts.Project | src/account_classification.py:135 | one row per account, in account order, each row being that account's four column values |
| Accounts.ColumnValues | src/account_classification.py:64-70 | an account's row: title, classification, then the `.value` labels of its statement and its normal balance (definition; `ColumnValuesInjective` is its property) |
| Accounts.ColumnValuesInjective | src/account_classification.py:64-70 | two accounts with the same column values are the same account, so the rows lose nothing |
| Resolver.FoldChar | src/account_classification.py:114-116 | one character after lower-casing and dropping non-ASCII: an ASCII capital becomes the letter 32 code points above it, any other ASCII character stays, U+212A becomes `k`, U+0130 becomes `i`, and every other non-ASCII character becomes nothing |
| Resolver.Normalize | src/account_classification.py:113-118 | the result is no longer than the input and has no character above 0x7F and no ASCII capital |
| Resolver.NormalizeAppend | src/account_classification.py:113-118 | normalising a concatenation is concatenating the normal forms |
| Resolver.NormalizeIdempotent | src/account_classification.py:113-118 | normalising twice is normalising once |
| Resolver.NormalizeAscii | src/account_classification.py:113-118 | on all-ASCII text nothing is deleted: the normal form has the same length and, at every position, the lower case of the input character |
| Resolver.NormalizeDeletes | src/account_classification.py:116 | a non-ASCII character other than U+212A and U+0130 disappears from the normal form wherever it stands |
| Resolver.NormalizeFixesLowerAscii | src/account_classification.py:113-118 | text of lower-case ASCII is its own normal form |
| Resolver.Matches | src/account_classification.py:124 | the generator's filter: an item passes exactly when its normal form starts with the normalised query (definition; `FuzzyFind` states what the filter selects) |
| Resolver.ShortestMatchIndex | src/account_classification.py:123-127 | the `min(key=len, default=None)` scan over the items that pass the filter; an index it returns lies within the scanned items and its item passes the filter (`ShortestMatchIndexCorrect` states the rest) |
| Resolver.ShortestMatchIndexCorrect | src/account_classification.py:123-127 | the `min(key=len, default=None)` scan finds nothing exactly when no item passes the filter, and otherwise stops at the first of the shortest items that pass |
| Resolver.FirstShortestUnique | src/account_classification.py:123-127 | the tie-break leaves at most one possible answer |
| Resolver.OnlyMatchIsFirstShortest | src/account_classification.py:123-127 | an item that alone passes the filter is the answer |
| Resolver.FuzzyFind | src/account_classification.py:121-127 | `None` exactly when no item's normal form starts with the normalised query; otherwise an item of the list whose normal form starts with it, no longer than any other match, and the first of those |
| Resolver.FuzzyFindChooses | src/account_classification.py:121-127 | conversely, whenever an item is the first shortest match, `fuzzy_find` returns that item |
| Resolver.IndexOf | src/account_classification.py:131 | `list.index`: a position holding the value, with no earlier position holding it |
| Resolver.ColumnNamesNonEmpty | src/account_classification.py:62 | every column name is non-empty, so the walrus test keeps every found name |
| Resolver.ResolveKey | src/account_classification.py:131 | a key is dropped exactly when `fuzzy_find` finds nothing; otherwise it becomes a valid column index whose column name is the one found |
| Resolver.SortByToIndex | src/account_classification.py:130-131 | every index is a valid column index and the result is no longer than the keys |
| Resolver.SortByToIndexAppend | src/account_classification.py:130-131 | keys are resolved one by one: the result for two key lists joined is the two results joined, so order and repeats are kept |
| Resolver.SortByToIndexAllDropped | src/account_classification.py:130-131 | the result is empty exactly when no key resolves |
| Resolver.AllKeysDropped | src/account_classification.py:130-131 | keys that all fail to resolve give no index at all |
| Resolver.KeyContributes | src/account_classification.py:130-131 | the result has at least as many indices as any single key gives |
| Resolver.OneKeyKept | src/account_classification.py:130-131 | one key that resolves, wherever it stands, makes the result non-empty |
| Resolver.SortByToIndexSingle | src/account_classification.py:130-131 | a single key gives its resolved index, or nothing |
| Resolver.InitialAt | src/account_classification.py:62 | the normal forms of the four column names start with `t`, `c`, `s`, `n` |
| Resolver.ResolvesTo | src/account_classification.py:131 | when `fuzzy_find` selects column `i`'s name, the key gives index `i` |
| Resolver.TitleIsShortest | src/account_classification.py:62 | for the empty normalised query every column matches, and "Title" is the first shortest |
| Resolver.EmptyQueryResolvesToTitle | src/account_classification.py:121-127 | a key that normalises to nothing selects "Title" and gives index 0 |
| Resolver.PrefixResolves | src/account_classification.py:121-131 | any non-empty prefix of a column's normal form, in any case, selects that column and gives its index |
| Resolver.OtherColumnsDiffer | src/account_classification.py:62 | a normal form starting with one column's initial matches no other column |
| Resolver.NoColumnMatches | src/account_classification.py:121-131 | a key matching no column is not found and is dropped |
| Resolver.UnknownInitialDropped | src/account_classification.py:121-131 | a key whose normal form starts with none of `t`, `c`, `s`, `n` is dropped |
| Resolver.NormalBalanceMismatch | src/account_classification.py:62 | a normal form whose third letter is not `r` does not match "Normal Balance" |
| Resolver.LeavesNormalBalanceDropped | src/account_classification.py:121-131 | a key that starts like "normal balance" but leaves it at the third letter is dropped |
| Resolver.ZzzNotFound | src/account_classification.py:121-127 | "zzz" is not found |
| Resolver.NonexistentDropped | src/account_classification.py:130-131 | "nonexistent" is not found, and `["nonexistent"]` gives no index |
| Resolver.StatResolves | src/account_classification.py:130-131 | `["stat"]` gives `[2]` |
| Resolver.UpperTiResolves | src/account_classification.py:130-131 | `["TI"]` gives `[0]`: matching ignores case |
| Resolver.XDropped | src/account_classification.py:130-131 | `["x"]` gives no index |
| Resolver.NResolves | src/account_classification.py:130-131 | `["n"]` gives `[3]` |
| Ordering.StrLess | src/account_classification.py:138 | Python's `<` on strings: code point by code point, a proper prefix being smaller (definition; the lemmas below make it a strict total order) |
| Ordering.KeyLess | src/account_classification.py:138 | Python's `<` on lists of strings: element by element with `StrLess`, a proper prefix being smaller (definition; the lemmas below make it a strict total order) |
| Ordering.StrLessIrreflexive | src/account_classification.py:138 | no string is less than itself |
| Ordering.StrLessTransitive | src/account_classification.py:138 | string `<` is transitive |
| Ordering.StrLessTotal | src/account_classification.py:138 | of two different strings one is less than the other |
| Ordering.KeyLessIrreflexive | src/account_classification.py:138 | no sort key is less than itself |
| Ordering.KeyLessTransitive | src/account_classification.py:138 | sort-key `<` is transitive |
| Ordering.KeyLessTotal | src/account_classification.py:138 | of two different sort keys one is less than the other |
| Ordering.KeyLessAsymmetric | src/account_classification.py:138 | two keys are never each less than the other |
| Ordering.NotLessTransitive | src/account_classification.py:138 | "not less than" on keys is transitive |
| Sorting.Key | src/account_classification.py:138 | the sort key of a row: its cells at the resolved column indices, in key order, repeats included (definition; `Sorted` and `StableSort` use it) |
| Sorting.ClassOfAppend | src/account_classification.py:138 | the rows of one key in two joined lists are the rows of that key in each, joined |
| Sorting.ClassMembers | src/account_classification.py:138 | a row of a key's class is a row of the list with that key |
| Sorting.SwapKeepsClasses | src/account_classification.py:138 | swapping two neighbours with different keys keeps every key's rows in order |
| Sorting.SortedStableUnique | src/account_classification.py:138 | two sorted lists with the same rows of every key, in the same order, are equal |
| Sorting.InsertPermutes | src/account_classification.py:138 | inserting a row adds exactly that row |
| Sorting.InsertSorted | src/account_classification.py:138 | inserting into a sorted list keeps it sorted |
| Sorting.InsertClass | src/account_classification.py:138 | inserting a row keeps every key's rows in the order of putting it in front |
| Sorting.StableSort | src/account_classification.py:138 | the sorted rows are a permutation of the input, non-decreasing by key, with the rows of every key in their input order |
| Sorting.SortSortedUnchanged | src/account_classification.py:138 | rows already in key order are left as they are |
| Sorting.SortWithoutKeysUnchanged | src/account_classification.py:138 | with no key columns the order is the input order |
| Sorting.SortIdempotent | src/account_classification.py:138 | sorting twice by the same key is sorting once |
| Sorting.StepStart | src/account_classification.py:138 | the in-place sort's step invariant holds when a new row starts to move |
| Sorting.StepSwap | src/account_classification.py:138 | swapping the moving row past a greater neighbour keeps the step invariant |
| Sorting.StepDone | src/account_classification.py:138 | when the moving row stops, the rows up to it are sorted |
| Sorting.SortRows | src/account_classification.py:138 | the in-place sort leaves the array holding exactly the reference stable sort of its old contents |
| Markdown.SplitLines | src/account_classification.py:151 | `split("\n")` gives at least one piece and no piece holds a newline |
| Markdown.JoinLines | src/account_classification.py:151 | `"\n".join`: the lines with one newline between neighbours (definition; `JoinSplit` and `SplitJoin` make it the inverse of `SplitLines`) |
| Markdown.JoinSplit | src/account_classification.py:151 | joining the pieces of a split with newlines gives back the text |
| Markdown.SplitAround | src/account_classification.py:151 | a newline splits the text into the lines before it and the lines after it |
| Markdown.SplitSingle | src/account_classification.py:151 | a text without newline is one line |
| Markdown.SplitJoin | src/account_classification.py:151 | splitting a join of newline-free lines gives back the lines |
| Markdown.DropFirstLastLine | src/account_classification.py:151 | `"\n".join(table.split("\n")[1:-1])` (definition; the next two lemmas state what it keeps) |
| Markdown.DropFirstLastLineKeepsMiddle | src/account_classification.py:151 | exactly the first and the last line are removed; the text between the first and the last newline is kept unchanged |
| Markdown.DropFirstLastLineShort | src/account_classification.py:151 | text with fewer than two newlines leaves the empty string |
| Markdown.ReplacePlus | src/account_classification.py:154 | same length; every `+` becomes `\|` and every other character is kept; no `+` is left |
| Markdown.AlignSiteChars | src/account_classification.py:157 | a rewrite site is a `-`, `-`, `\|`, newline sequence, the site being its second dash |
| Markdown.RightAlign | src/account_classification.py:157 | same length; the second dash of every `--\|` before a newline becomes `:`, and every other character is kept |
| Markdown.RightAlignLeavesNoSite | src/account_classification.py:157 | after the rewrite no `--\|` before a newline is left |
| Markdown.RightAlignIdempotent | src/account_classification.py:157 | rewriting twice is rewriting once |
| Markdown.MarkdownTable | src/account_classification.py:150-157 | the post-processed table contains no `+` |
| Markdown.MarkdownTableOfBordered | src/account_classification.py:150-157 | for a top line, a body and a bottom line, the result is the body with `+` made `\|` and the line-final separators right-aligned, character by character |
| Markdown.SeparatorRowExample | src/account_classification.py:157 | `\|--\|--\|` with a newline after it becomes `\|--\|-:\|`; the same row with no newline after it stays as it is |
| Table.TableRows | src/account_classification.py:135-138 | the rows are a permutation of the projected accounts; with no keys, or keys that all fail to resolve, they are in account order; they are sorted by the key columns and stable |
| Table.AccountClassificationRows | src/account_classification.py:135-138 | the fresh list, sorted in place when keys are given, ends up holding `TableRows` |
| Table.GetAccountClassificationTable | src/account_classification.py:134-159 | the result is the post-processed rendering of the column names and `TableRows`, and contains no `+` |
| Table.UnknownKeyKeepsOrder | src/account_classification.py:137-138 | sorting by "nonexistent" keeps the accounts in listed order |

## Left out

- The `prettytable` layout (src/account_classification.py:140-148). The
  rendering is a function parameter `render` of
  `GetAccountClassificationTable`. Column widths and alignment padding are
  not modelled. The post-processing is modelled for any rendered text.
- `re.sub` as a regular-expression engine (lines 116, 154, 157). Each of the
  three substitutions is written out as the character or substring rewrite
  it performs.
- Unicode case mapping in `str.lower()`. Only the characters whose lower
  case has an ASCII part are modelled: ASCII capitals, U+212A KELVIN SIGN
  (becomes `k`) and U+0130 (becomes `i` plus a combining dot, which is then
  dropped). Every other non-ASCII character is dropped, whatever its lower
  case.
- `print_footer` (lines 162-166). It reads the wall clock and prints.
- `main` (lines 169-201) and the script entry point (lines 204-205). They
  read the command line, print, and loop over the columns in "all" mode.
- The 32 hard-coded accounts (lines 74-107). The model works for any list
  of accounts.
- The commented-out classes (lines 11-31).
- Resolver.SortByToIndex: the source recomputes the key indices once per
  row inside the sort key. The model computes them once. `sortby_to_index`
  depends only on `sortby`, so every row gets the same index list.
- Sorting.SortRows: Python's `list.sort` is Timsort, not insertion sort.
  Both are stable sorts by the same key, so `SortedStableUnique` makes
  their results equal.
- Resolver.ResolveKey: the walrus test also drops a found name that is the
  empty string. The model keeps this branch, but it never applies, because
  no column name is empty (`ColumnNamesNonEmpty`).
- Markdown.RightAlign: the rewrite needs a newline after the separator, so
  a separator on the last kept line is not rewritten. The table library's
  output has no empty line before its bottom border, so the kept text ends
  without a newline there. On other text it can end with one:
  `DropFirstLastLine("a\nb\n\nc")` is `"b\n"`. `SeparatorRowExample` shows
  both cases of the rewrite.
