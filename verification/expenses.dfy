/** The expense ledger `expenses.csv`: rows `[date, amount, category,
    description, payment_mode]` under `ExpenseHeader`, the monthly total of
    main.py and login.py, and the positional edit/delete of both files. */
module Expenses {
  import opened Wrappers
  import opened Text
  import opened Numbers
  import opened Records

  /** A row that `calculate_monthly_spending` adds up: it has an amount field
      that reads as a number, and its date starts with the month. */
  predicate Counts(row: Row, month: string)
  {
    |row| >= 2 && ToFloat(row[1]).Some? && StartsWith(row[0], month)
  }

  /** What one row adds to the month's total: nothing when it is too short,
      when its amount does not read as a number, or when its date is of another
      month. */
  function Contribution(row: Row, month: string): real
  {
    if Counts(row, month) then Value(ToFloat(row[1]).value) else 0.0
  }

  /** The month's total over some rows, added up from the first row to the last. */
  function Total(rows: Table, month: string): real
  {
    if |rows| == 0 then 0.0 else Total(rows[..|rows| - 1], month) + Contribution(rows[|rows| - 1], month)
  }

  /** Totals of consecutive stretches add up. */
  lemma {:induction false} TotalConcat(a: Table, b: Table, month: string)
    ensures Total(a + b, month) == Total(a, month) + Total(b, month)
    decreases |b|
  {
    if |b| > 0 {
      var b' := b[..|b| - 1];
      assert (a + b)[..|a + b| - 1] == a + b';
      TotalConcat(a, b', month);
    } else {
      assert a + b == a;
    }
  }

  /** One more row adds its contribution. */
  lemma TotalStep(rows: Table, i: nat, month: string)
    requires i < |rows|
    ensures Total(rows[..i + 1], month) == Total(rows[..i], month) + Contribution(rows[i], month)
  {
    assert rows[..i + 1][..i] == rows[..i];
  }

  lemma TotalSingle(row: Row, month: string)
    ensures Total([row], month) == Contribution(row, month)
  {
    assert [row][..0] == [];
  }

  /** `calculate_monthly_spending`: the amounts of the month's data rows.
      The user name it is given plays no part, since expense rows carry none. */
  method MonthlySpending(expenses: Table, month: string) returns (total: real)
    ensures total == Total(DataRows(expenses), month)
  {
    total := 0.0;
    if |expenses| == 0 {
      return;
    }
    var rows := expenses[1..];
    var i := 0;
    while i < |rows|
      invariant 0 <= i <= |rows|
      invariant total == Total(rows[..i], month)
    {
      TotalStep(rows, i, month);
      total := total + Contribution(rows[i], month);
      i := i + 1;
    }
    assert rows[..i] == rows;
  }

  /** A row in the middle of a stretch adds its contribution to the rest. */
  lemma TotalWithout(before: Table, row: Row, after: Table, month: string)
    ensures Total(before + [row] + after, month) == Total(before + after, month) + Contribution(row, month)
  {
    TotalConcat(before + [row], after, month);
    TotalConcat(before, [row], month);
    TotalSingle(row, month);
    TotalConcat(before, after, month);
  }

  /** A row that does not count changes no total, wherever it sits. */
  lemma SkippedRowAddsNothing(before: Table, row: Row, after: Table, month: string)
    requires !Counts(row, month)
    ensures Total(before + [row] + after, month) == Total(before + after, month)
  {
    TotalWithout(before, row, after, month);
  }

  /** A new row of the month whose amount reads as `amount` raises the month's
      total by exactly that amount; by `FloatRoundTrip`, a row written with
      `str(amount)` is one. */
  lemma AppendedExpenseSpending(expenses: Table, row: Row, amount: Decimal, month: string)
    requires |expenses| > 0 && |row| >= 2 && StartsWith(row[0], month) && ToFloat(row[1]) == Some(amount)
    ensures Total(DataRows(expenses + [row]), month) == Total(DataRows(expenses), month) + Value(amount)
  {
    assert DataRows(expenses + [row]) == DataRows(expenses) + [row];
    TotalConcat(DataRows(expenses), [row], month);
    TotalSingle(row, month);
  }

  /** What one row adds in login.py's `monthly_summary`, which reads the row
      through `DictReader` and drops it when any step raises: a missing column,
      a date or amount the row is too short to have, an amount that is not a number. */
  function SummaryContribution(header: Row, row: Row, month: string): real
  {
    var date := Lookup(header, row, "date");
    var amount := Lookup(header, row, "amount");
    if date.Val? && StartsWith(date.text, month) && amount.Val? && ToFloat(amount.text).Some?
    then Value(ToFloat(amount.text).value)
    else 0.0
  }

  function SummaryTotal(header: Row, rows: Table, month: string): real
  {
    if |rows| == 0 then 0.0
    else SummaryTotal(header, rows[..|rows| - 1], month) + SummaryContribution(header, rows[|rows| - 1], month)
  }

  /** Under the standard header each row adds the same in both readers. */
  lemma SameContribution(row: Row, month: string)
    ensures SummaryContribution(ExpenseHeader, row, month) == Contribution(row, month)
  {
    StandardHeadersDistinct();
    LookupColumn(ExpenseHeader, row, 0);
    LookupColumn(ExpenseHeader, row, 1);
  }

  lemma {:induction false} SameTotal(rows: Table, month: string)
    ensures SummaryTotal(ExpenseHeader, rows, month) == Total(rows, month)
    decreases |rows|
  {
    if |rows| > 0 {
      SameTotal(rows[..|rows| - 1], month);
      SameContribution(rows[|rows| - 1], month);
    }
  }

  /** login.py's `monthly_summary`. The first row is the `DictReader` header;
      under the standard header the total is the one main.py computes. */
  function MonthlySummary(expenses: Table, month: string): (total: real)
    ensures |expenses| == 0 ==> total == 0.0
    ensures |expenses| > 0 && expenses[0] == ExpenseHeader ==> total == Total(DataRows(expenses), month)
  {
    if |expenses| == 0 then 0.0
    else
      var total := SummaryTotal(expenses[0], expenses[1..], month);
      SameTotal(expenses[1..], month);
      total
  }

  /** Why `edit_delete_expense` leaves the file as it was. */
  datatype ExpenseError =
    | NoFile          // main.py reports it; login.py fails to open the file
    | NoExpenses      // only the header, or nothing
    | InvalidInput    // the index is not an integer
    | InvalidIndex    // the index is not the position of a data row
    | MalformedEntry  // the chosen row does not unpack into five fields

  /** The answer to "1. Edit / 2. Delete", stripped: anything else is no action. */
  datatype Action = Edit | Delete | NoAction

  function ActionOf(answer: string): (a: Action)
    ensures a == Delete <==> Strip(answer) == "2"
    ensures a == Edit <==> Strip(answer) == "1"
  {
    var choice := Strip(answer);
    if choice == "2" then Delete else if choice == "1" then Edit else NoAction
  }

  /** The four answers of the edit prompts. */
  datatype EditInput = EditInput(amount: string, category: string, description: string, mode: string)

  /** `input(...).strip() or current`, deciding emptiness by the blanks. */
  function KeepOr(typed: string, current: string): string
  {
    if AllSpace(typed) then current else Strip(typed)
  }

  /** The answer is kept exactly when its strip is not empty. */
  lemma KeepOrStrip(typed: string, current: string)
    ensures KeepOr(typed, current) == if Strip(typed) == "" then current else Strip(typed)
  {
    StripEmpty(typed);
  }

  /** The edited row: the date is kept, each other field is the new answer, or
      the old value when the answer is blank. */
  function EditedRow(entry: Row, edit: EditInput): (row: Row)
    requires |entry| == 5
    ensures |row| == 5 && row[0] == entry[0]
  {
    [entry[0], KeepOr(edit.amount, entry[1]), KeepOr(edit.category, entry[2]),
     KeepOr(edit.description, entry[3]), KeepOr(edit.mode, entry[4])]
  }

  /** The rows without the one at `i`, as `rows.pop(i)` leaves them. */
  function RemoveAt(rows: Table, i: nat): (r: Table)
    requires i < |rows|
    ensures |r| == |rows| - 1
    ensures forall k | 0 <= k < i :: r[k] == rows[k]
    ensures forall k | i <= k < |r| :: r[k] == rows[k + 1]
  {
    rows[..i] + rows[i + 1..]
  }

  /** The data row an index typed at the prompt names, if it names one. */
  predicate ValidChoice(rows: Table, choiceText: string)
  {
    ToInt(choiceText).Some? && 1 <= ToInt(choiceText).value < |rows|
  }

  /** `after` is `rows` without row `c`, everything else in order. */
  predicate Deleted(rows: Table, c: nat, after: Table)
    requires c < |rows|
  {
    && |after| == |rows| - 1
    && (forall k | 0 <= k < c :: after[k] == rows[k])
    && (forall k | c <= k < |after| :: after[k] == rows[k + 1])
  }

  /** `after` is `rows` with row `c` edited: its date kept, its other fields
      taken from the answers unless these are blank. */
  predicate Edited(rows: Table, c: nat, edit: EditInput, after: Table)
    requires c < |rows| && |rows[c]| == 5
  {
    && |after| == |rows|
    && (forall k | 0 <= k < |rows| && k != c :: after[k] == rows[k])
    && |after[c]| == 5 && after[c][0] == rows[c][0]
    && after[c][1] == KeepOr(edit.amount, rows[c][1])
    && after[c][2] == KeepOr(edit.category, rows[c][2])
    && after[c][3] == KeepOr(edit.description, rows[c][3])
    && after[c][4] == KeepOr(edit.mode, rows[c][4])
  }

  /** The chosen action on data row `c`. */
  function Apply(rows: Table, c: nat, action: Action, edit: EditInput): (after: Table)
    requires 1 <= c < |rows| && (action == Edit ==> |rows[c]| == 5)
    ensures 0 < |after| && after[0] == rows[0]
  {
    match action
    case Delete => RemoveAt(rows, c)
    case Edit => rows[c := EditedRow(rows[c], edit)]
    case NoAction => rows
  }

  /** A delete removes exactly the chosen row. */
  lemma DeleteRemovesRow(rows: Table, c: nat, edit: EditInput)
    requires 1 <= c < |rows|
    ensures Deleted(rows, c, Apply(rows, c, Delete, edit))
  {
  }

  /** An edit rewrites the chosen row and no other. */
  lemma EditRewritesRow(rows: Table, c: nat, edit: EditInput)
    requires 1 <= c < |rows| && |rows[c]| == 5
    ensures Edited(rows, c, edit, Apply(rows, c, Edit, edit))
  {
  }

  /** main.py's `edit_delete_expense`: the chosen row is unpacked before the
      action is asked for, so a malformed row stops even a delete. */
  function EditDeleteExpense(file: Option<Table>, choiceText: string, action: Action, edit: EditInput)
    : (r: Result<Table, ExpenseError>)
    ensures r.Ok? <==> (file.Some? && |file.value| > 1 && ValidChoice(file.value, choiceText)
                        && |file.value[ToInt(choiceText).value]| == 5)
    ensures r == Err(NoExpenses) <==> (file.Some? && |file.value| <= 1)
    ensures r == Err(InvalidInput) <==> (file.Some? && |file.value| > 1 && ToInt(choiceText).None?)
    ensures r.Ok? ==> r.value == Apply(file.value, ToInt(choiceText).value, action, edit)
  {
    match file
    case None => Err(NoFile)
    case Some(rows) =>
      if |rows| <= 1 then Err(NoExpenses)
      else
        match ToInt(choiceText)
        case None => Err(InvalidInput)
        case Some(c) =>
          if c < 1 || c >= |rows| then Err(InvalidIndex)
          else if |rows[c]| != 5 then Err(MalformedEntry)
          else Ok(Apply(rows, c, action, edit))
  }

  /** login.py's `edit_delete_expense`: the same steps, except that the chosen
      row is unpacked only for an edit, so any row can be deleted. */
  function EditDeleteExpenseLogin(file: Option<Table>, choiceText: string, action: Action, edit: EditInput)
    : (r: Result<Table, ExpenseError>)
    ensures r.Ok? <==> (file.Some? && |file.value| > 1 && ValidChoice(file.value, choiceText)
                        && (action == Edit ==> |file.value[ToInt(choiceText).value]| == 5))
    ensures r.Ok? ==> r.value == Apply(file.value, ToInt(choiceText).value, action, edit)
  {
    match file
    case None => Err(NoFile)
    case Some(rows) =>
      if |rows| <= 1 then Err(NoExpenses)
      else
        match ToInt(choiceText)
        case None => Err(InvalidInput)
        case Some(c) =>
          if c < 1 || c >= |rows| then Err(InvalidIndex)
          else if action == Edit && |rows[c]| != 5 then Err(MalformedEntry)
          else Ok(Apply(rows, c, action, edit))
  }

  /** The two versions agree except when main.py refuses a malformed row that
      login.py would delete or write back. */
  lemma EditDeleteVersionsAgree(file: Option<Table>, choiceText: string, action: Action, edit: EditInput)
    ensures var main := EditDeleteExpense(file, choiceText, action, edit);
      var login := EditDeleteExpenseLogin(file, choiceText, action, edit);
      main == login || (main == Err(MalformedEntry) && login.Ok? && action != Edit)
  {
  }

  /** Editing with every answer blank writes back the rows as they were. */
  lemma BlankEditKeepsRows(rows: Table, c: nat, edit: EditInput)
    requires 1 <= c < |rows| && |rows[c]| == 5
    requires AllSpace(edit.amount) && AllSpace(edit.category)
    requires AllSpace(edit.description) && AllSpace(edit.mode)
    ensures Apply(rows, c, Edit, edit) == rows
  {
    BlankEditKeepsRow(rows[c], edit);
    assert rows[c := rows[c]] == rows;
  }

  lemma BlankEditKeepsRow(entry: Row, edit: EditInput)
    requires |entry| == 5
    requires AllSpace(edit.amount) && AllSpace(edit.category)
    requires AllSpace(edit.description) && AllSpace(edit.mode)
    ensures EditedRow(entry, edit) == entry
  {
    assert EditedRow(entry, edit) == [entry[0], entry[1], entry[2], entry[3], entry[4]];
  }

  /** Deleting an expense takes exactly its contribution off the month's total. */
  lemma DeleteLowersTotal(file: Option<Table>, choiceText: string, edit: EditInput, month: string)
    requires EditDeleteExpense(file, choiceText, Delete, edit).Ok?
    ensures var rows := file.value; var c := ToInt(choiceText).value;
      Total(DataRows(EditDeleteExpense(file, choiceText, Delete, edit).value), month)
      == Total(DataRows(rows), month) - Contribution(rows[c], month)
  {
    var rows := file.value;
    var c := ToInt(choiceText).value;
    var after := Apply(rows, c, Delete, edit);
    assert EditDeleteExpense(file, choiceText, Delete, edit).value == after;
    var before := rows[1..c];
    var rest := rows[c + 1..];
    assert DataRows(rows) == before + [rows[c]] + rest;
    assert DataRows(after) == before + rest;
    TotalWithout(before, rows[c], rest, month);
  }
}
