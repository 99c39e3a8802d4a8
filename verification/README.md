# personal_finance ledger core in Dafny

A model of the finance ledger of `personal_finance`: a command-line
program that keeps every user's state in five CSV files (credentials, user data,
expenses, monthly budgets, savings goals) and rewrites a whole file on every
change. Every file is modelled as the rows `csv.reader` yields
(`Records.Table = seq<seq<string>>`); a missing file reads as no rows. Every
read-modify-write is a pure function from the old rows to the new rows, and the
lemmas relate what a reader sees before and after a writer runs.

| file | module | what it models |
|---|---|---|
| `wrappers.dfy` | `Wrappers` | `Option` and `Result` |
| `text.dfy` | `Text` | ASCII character classes, `str.strip`, `str.split`/`join`, searches |
| `numbers.dfy` | `Numbers` | amounts as exact decimals, `float(text)`, `str(float)`, `int(text)`, `str(int)` |
| `records.dfy` | `Records` | the file headers, `DictReader` column lookup, the start-up header repair |
| `validators.dfy` | `Validators` | the name, age, email and password rules of main.py, login.py and cli.py |
| `credentials.dfy` | `Credentials` | `username_exists` and the row replacement of `change_password` |
| `expenses.dfy` | `Expenses` | the monthly totals of main.py and login.py, positional edit/delete |
| `budget.dfy` | `Budget` | the budget upsert and first-match read, the 50/80/100% alert state machine |
| `savings.dfy` | `Savings` | savings goals: per-user rewrite, max+1 ids, top-up, delete by id |

Amounts are `Numbers.Decimal(mantissa, scale)`, worth `mantissa / 10^scale`.
`float(text)` is `Numbers.ToFloat` (strip, optional sign, digits with at most
one point). `str(float)` of an amount is `Numbers.FormatFloat`: the digits of
the canonical form (at least one decimal place, no trailing zero after the
first), so `12.50` is written back as `12.5` and `1000` as `1000.0`. This is
what Python writes for amounts of at most 15 significant digits whose size is
zero or between 1e-4 and 1e16; outside that range Python switches to exponent
form (`1e+16`, `1e-05`), which the model does not produce.

`csv.DictReader` is `Records.Lookup(header, row, key)`, which gives `Missing`
when the header has no such column, `Null` when the row stops before it, and
the field text otherwise; when a name occurs twice in the header the last
column wins. The clock (`get_current_month`, today's date) and
`hash_password` are parameters. Each interactive prompt loop is replaced by the
value it accepts: a `requires` on the amount (`> 0`), a password that passes
the rules, or the raw text typed when the code parses it itself.

## Model

| member | source | states |
|---|---|---|
| Records.RepairHeader | personal_finance/login.py:13-42 | a file is left alone exactly when its stripped first line splits into the header; a missing or empty file becomes the header alone; a rewrite has the header plus one row per non-blank line |
| Records.RepairKeepsLines | personal_finance/login.py:37-42 | a rewrite keeps every non-blank line, the old first line included, in order: line i becomes row 1 + (non-blank lines before i) |
| Records.RepairKeepsHeadedFile | personal_finance/src/personal_finance/main.py:36-43 | a file whose first row is the standard header is never rewritten |
| Records.RepairIsIdempotent | personal_finance/src/personal_finance/main.py:20-43 | running the repair on a repaired file changes nothing |
| Credentials.UsernameExists | personal_finance/src/personal_finance/main.py:219-227 | true exactly when some row, the header row included, is non-empty and starts with the name |
| Credentials.CredentialsMatch | personal_finance/src/personal_finance/main.py:371-374 | the first row of the user decides: a match exactly when such a row carries the digest and no earlier row of the user is too short; a too-short row of the user before any match is an error |
| Credentials.ReplacePassword | personal_finance/src/personal_finance/main.py:397-402 | every row of the user becomes [user, digest]; every other row stays in place; the length is kept |
| Credentials.ChangePassword | personal_finance/src/personal_finance/main.py:359-405 | the file changes exactly when the old password checks out, and then by the row replacement |
| Credentials.NewPasswordChecksOut | personal_finance/src/personal_finance/main.py:395-405 | after a change the new password checks out and a different old one no longer does |
| Validators.NameProblems | personal_finance/login.py:103-109 | no problem exactly when the name is alphabetic with 3 or more letters; one problem per broken rule, alphabet rule first |
| Validators.AgeProblems | personal_finance/login.py:112-122 | a non-digit string gives only "not a number"; for a digit string "at least 15" is given exactly below 15 and "more than 80" exactly above 80, so it passes exactly when 15 <= age <= 80 |
| Validators.MatchesWholeIsShape | personal_finance/src/personal_finance/main.py:186-187 | the computed match (first '@', last '.') accepts exactly the strings the email pattern describes |
| Validators.IsValidEmail | personal_finance/src/personal_finance/main.py:186-191 | accepts exactly the pattern's strings, and those followed by one final newline, which `$` also lets through |
| Validators.EmailProblems | personal_finance/login.py:125-130 | one problem exactly when the email does not match |
| Validators.PasswordProblems | personal_finance/login.py:133-143 | no problem exactly when length >= 8 with a letter, a digit and a listed symbol; each problem present exactly when its rule fails |
| Validators.PasswordProblemsOrdered | personal_finance/login.py:133-143 | the problems come in the order the rules are checked, each once |
| Validators.IsValidNameCli | personal_finance/cli.py:7-8 | true exactly when the list-returning check finds nothing; never true of the empty string |
| Validators.IsValidAgeCli | personal_finance/cli.py:10-11 | false whenever a character is not a digit; true exactly when the list-returning check passes and the age is at least 18 |
| Validators.IsValidEmailCli | personal_finance/cli.py:13-15 | true exactly when the list-returning check finds nothing |
| Expenses.MonthlySpending | personal_finance/src/personal_finance/main.py:444-467 | the loop's total is the sum of the contributions of the data rows; the header is skipped |
| Expenses.TotalConcat | personal_finance/src/personal_finance/main.py:455-465 | totals of consecutive stretches of rows add up |
| Expenses.SkippedRowAddsNothing | personal_finance/src/personal_finance/main.py:456-462 | a short or unparseable row, or one of another month, changes no total wherever it sits |
| Expenses.AppendedExpenseSpending | personal_finance/src/personal_finance/main.py:455-465 | appending a row of the month whose amount reads as x raises the total by exactly x |
| Expenses.MonthlySummary | personal_finance/login.py:311-324 | an empty file totals 0; under the standard header login.py's total equals main.py's |
| Expenses.ActionOf | personal_finance/src/personal_finance/main.py:776-782 | "2" deletes and "1" edits, after stripping; anything else does nothing |
| Expenses.KeepOrStrip | personal_finance/src/personal_finance/main.py:783-786 | an answer replaces the field exactly when its strip is non-empty, and then by its strip |
| Expenses.EditDeleteExpense | personal_finance/src/personal_finance/main.py:741-792 | the file changes exactly when there is a data row, the index parses, names a data row, and that row has five fields; "no expenses" and "invalid input" exactly in their cases |
| Expenses.DeleteRemovesRow | personal_finance/src/personal_finance/main.py:778-780 | a delete removes exactly the chosen row; all others keep their order |
| Expenses.EditRewritesRow | personal_finance/src/personal_finance/main.py:782-788 | an edit keeps the date, takes each other field from its answer unless blank, and touches no other row |
| Expenses.EditDeleteExpenseLogin | personal_finance/login.py:264-308 | as main.py, except that only an edit needs five fields |
| Expenses.EditDeleteVersionsAgree | personal_finance/login.py:283-303 | the two versions give the same outcome except where main.py refuses a malformed row that login.py deletes or leaves |
| Expenses.BlankEditKeepsRows | personal_finance/src/personal_finance/main.py:783-788 | an edit with every answer blank writes the rows back unchanged |
| Expenses.DeleteLowersTotal | personal_finance/src/personal_finance/main.py:778-780 | a delete lowers the month's total by exactly the deleted row's contribution |
| Budget.ParseBudget | personal_finance/src/personal_finance/main.py:250-259 | a matching row gives a record exactly when its amount column is present and parses |
| Budget.ReadFrom | personal_finance/src/personal_finance/main.py:248-260 | no row with the user and month gives no budget |
| Budget.FirstMatchDecides | personal_finance/src/personal_finance/main.py:248-259 | the first row with the user and month decides the read, even when its amount fails to parse |
| Budget.ReadUserBudget | personal_finance/src/personal_finance/main.py:234-260 | a missing or empty file gives no budget, and so does a file in which no data row has the user and month under its own header |
| Budget.FirstMatchIsRead | personal_finance/src/personal_finance/main.py:246-259 | the first data row with the user and month is the one read, under the file's own header, even when its amount fails to parse |
| Budget.Upsert | personal_finance/src/personal_finance/main.py:276-290 | with the key present every keyed row is replaced in place and all others stay; otherwise exactly one row is appended at the end |
| Budget.WrittenData | personal_finance/src/personal_finance/main.py:263-293 | the file's header is kept, or the header is written first when the file is missing or empty, and the data rows are the upsert of the old data rows |
| Budget.ReadAfterWrite | personal_finance/src/personal_finance/main.py:246-290 | reading right after a write gives the written amount, in float form, and the written flags |
| Budget.WriteKeepsOtherBudgets | personal_finance/src/personal_finance/main.py:280-285 | a write leaves what every other user and month reads unchanged |
| Budget.SetOrUpdateBudget | personal_finance/src/personal_finance/main.py:421-439 | afterwards the month reads the new amount with all three alerts armed ("no") |
| Budget.ReachedIsPercentage | personal_finance/src/personal_finance/main.py:487-501 | for a positive limit, spent*100 >= t*limit is the percentage test (spent/limit)*100 >= t |
| Budget.FiredLevels | personal_finance/src/personal_finance/main.py:491-504 | a level fires exactly when its flag is "no" and it is reached; the fired levels ascend |
| Budget.EvaluateAlerts | personal_finance/src/personal_finance/main.py:483-504 | the amount is kept; exactly the fired flags become "yes", every other flag keeps its value; alerts come lowest first |
| Budget.CheckBudgetAlerts | personal_finance/src/personal_finance/main.py:470-514 | for a given spending: no budget or a limit <= 0 changes nothing; otherwise the alerts are those the evaluation fires; no alert means no write |
| Budget.CheckBudgetAlertsWithExpenses | personal_finance/src/personal_finance/main.py:470-514 | is `CheckBudgetAlerts` at the month's total of the expense file, so the file is rewritten as there; no budget or a limit <= 0 changes nothing, an empty expense file fires nothing, and a level fires exactly when its flag is "no" and the total has reached it |
| Budget.FlagsOnlyRise | personal_finance/src/personal_finance/main.py:491-504 | a flag changes only from "no" to "yes"; "yes" stays "yes" |
| Budget.JumpFiresAll | personal_finance/src/personal_finance/main.py:491-504 | spending at or past the limit with all flags armed fires 50, 80 and 100 in one pass, in that order |
| Budget.ThousandBudgetExample | personal_finance/src/personal_finance/main.py:491-504 | with a limit of 1000, spending 950 fires 50 and 80, and then 1200 fires only 100 |
| Budget.AlertsWriteBack | personal_finance/src/personal_finance/main.py:506-514 | when alerts fire, the file then reads the evaluated record |
| Budget.NothingLeftToFire | personal_finance/src/personal_finance/main.py:491-514 | a written-back evaluation has nothing left to fire at the same spending |
| Budget.AlertsIdempotent | personal_finance/src/personal_finance/main.py:470-514 | a second check at the same spending fires nothing and writes nothing |
| Budget.AlertsKeepBudget | personal_finance/src/personal_finance/main.py:506-514 | the check keeps the budget amount, never clears a "yes", and leaves every other key's budget as it was |
| Budget.ArmedFiresReached | personal_finance/src/personal_finance/main.py:491-504 | with every flag armed, exactly the reached levels fire |
| Budget.SetBudgetRearms | personal_finance/src/personal_finance/main.py:432-439 | after setting a budget again the next check fires every level the spending has reached |
| Savings.ParseGoal | personal_finance/src/personal_finance/main.py:309-320 | a row gives a goal exactly when id, target and current amount all convert; otherwise it is skipped |
| Savings.GoalsFromConcat | personal_finance/src/personal_finance/main.py:308-318 | the goals of two stretches of rows are those of the first, then those of the second |
| Savings.GetUserSavingsGoals | personal_finance/src/personal_finance/main.py:296-304 | a missing or empty file has no goals |
| Savings.UserGoalsAreParsedRows | personal_finance/src/personal_finance/main.py:305-320 | a goal is read exactly when some data row is the user's and its id, target and current amount all convert to it |
| Savings.OtherRowsMembers | personal_finance/src/personal_finance/main.py:338-341 | the rewrite keeps exactly the non-empty rows of other users |
| Savings.OtherRowsConcat | personal_finance/src/personal_finance/main.py:339-341 | the kept rows keep their order: the filter distributes over concatenation |
| Savings.ReadAfterWrite | personal_finance/src/personal_finance/main.py:296-353 | reading the user's goals right after a write gives the written goals, in order, in the form the file stores them |
| Savings.WriteKeepsOtherUsers | personal_finance/src/personal_finance/main.py:336-341 | a write leaves every other user's goals as they were |
| Savings.WriteUserSavingsGoals | personal_finance/src/personal_finance/main.py:323-353 | the first row is the file's header, or the standard header for a missing or empty file |
| Savings.WrittenRows | personal_finance/src/personal_finance/main.py:336-353 | after the header come the other users' kept rows, then one row per goal in order |
| Savings.NextGoalId | personal_finance/src/personal_finance/main.py:536-538 | 1 for the first goal; otherwise one more than the largest id, hence larger than every existing id |
| Savings.CreateSavingsGoal | personal_finance/src/personal_finance/main.py:517-548 | the goals read back as before plus one new goal whose id is the next id (1 for the first goal, otherwise the largest id + 1, so fresh), with the name, the target, nothing saved and today's date |
| Savings.FindGoal | personal_finance/src/personal_finance/main.py:586-590 | the position of the first goal with the id, or none when no goal has it |
| Savings.AddMoneyToSavings | personal_finance/src/personal_finance/main.py:568-612 | no goals and an unknown id are refused, without a write, exactly in their cases |
| Savings.TopUpReadsBack | personal_finance/src/personal_finance/main.py:586-609 | the goals read back as the topped-up list: the selected goal's savings rise by exactly the amount; every id, name, target and date, and every other goal's savings, are kept |
| Savings.WithoutId | personal_finance/src/personal_finance/main.py:633 | the goals kept are exactly those with another id; an absent id keeps the list as it is |
| Savings.WithoutIdConcat | personal_finance/src/personal_finance/main.py:633 | the filter keeps order and multiplicity: it distributes over concatenation, and a single goal stays exactly when its id differs |
| Savings.DeleteSavingsGoal | personal_finance/src/personal_finance/main.py:615-637 | a user without goals is refused; otherwise the goals without the id are written |
| Savings.DeletionRemovesId | personal_finance/src/personal_finance/main.py:633-635 | afterwards the user's goals read back as the old goals without the id, in order; none has the id and every goal with another id is still there |
| Savings.DeletingAbsentIdKeepsGoals | personal_finance/src/personal_finance/main.py:633-635 | deleting an id no goal has leaves the user's goals as they read |
| Savings.DeletedNewestIdIsReused | personal_finance/src/personal_finance/main.py:536-538 | with goals 1 and 2, deleting 2 makes the next id 2 again: ids are not reserved |

## Behaviour that follows the code

- `calculate_monthly_spending` takes a user name but never uses it: expense rows
  carry no user, so every user's total is the total of the whole file
  (`Expenses.MonthlySpending` has no user parameter).
- Goal ids are the largest remaining id plus one, so deleting the newest goal
  and creating another reuses its id (`Savings.DeletedNewestIdIsReused`); ids
  are not reserved once deleted.
- main.py's `edit_delete_expense` unpacks the chosen row into five fields
  before asking what to do, so a row of another length cannot even be deleted;
  login.py unpacks only for an edit (`Expenses.EditDeleteVersionsAgree`).
- A budget flag that a short row leaves as `None` is written back as an empty
  field by `check_budget_alerts`; such a flag is not "no", so its level never
  fires (`Budget.Reread`).
- The `$` of the email pattern also matches before a final newline, so
  `"a@b.co\n"` passes `is_valid_email` (`Validators.IsValidEmail`).
- cli.py's age rule starts at 18, the other two files' at 15.

## Left out

- File I/O, directories, `os.chdir`, the menus, `print` output and
  `view_*`, `export_expenses`, `add_expense`, `register_user`, `login_user`:
  the model works on the rows a file holds, before and after.
- The prompt loops of `get_input`, `change_password`, `set_or_update_budget`,
  `create_savings_goal`, `add_money_to_savings` and `delete_savings_goal`: each
  becomes the value it finally accepts (a positive amount, a valid password
  typed twice alike, an integer id).
- SHA-256 in `hash_password`: any deterministic function from text to text.
- `datetime.now()`: the month and the day's date are parameters.
- Binary floating point: amounts are exact decimals, so sums, top-ups and the
  percentage test carry no rounding; `float` text with exponents, `inf`, `nan`
  or underscores, and `int` text with underscores, do not parse; `str(float)`
  is modelled by positional digits only, which matches Python for amounts of
  at most 15 significant digits that are zero or between 1e-4 and 1e16;
  exponent-form output (`1e+16`, `1e-05`) is not modelled.
- CSV quoting: a row is its list of fields. The header repair splits on commas
  without quoting, and the model assumes no header field holds a comma.
- Unicode: letters, digits and blanks are ASCII (`str.isalpha`, `isdigit`,
  `strip` and `\d` accept more).
- Crashes: main.py's `change_password`, and login.py's `edit_delete_expense`
  and `monthly_summary`, raise on a missing file; the model reads a missing
  password file as no rows, gives the missing expense file `NoFile` in the
  edit, and totals a missing expense file as 0 in the summary. An
  expense row that does not unpack raises in the source; the model gives
  `MalformedEntry` and leaves the file as it was.
- Budget.ReadFrom: its own contract states only the no-match case; the
  first-match case is stated by `Budget.FirstMatchDecides`.
- Savings.AddMoneyToSavings: its contract states the two refusals and the rows
  written; what those rows read back as is stated by `Savings.TopUpReadsBack`.
- Budget.ReadUserBudget: its own contract states only when nothing is read;
  which row is read is stated by `Budget.FirstMatchIsRead`.
- Savings.GetUserSavingsGoals: its own contract states only the missing-file
  case; which goals are read is stated by `Savings.UserGoalsAreParsedRows`,
  and their order by `Savings.GoalsFromConcat`.
- Expenses.MonthlySummary: relates login.py's total to main.py's only for a
  file under the standard header; under another header the model computes
  the total by column name without a stated property.
