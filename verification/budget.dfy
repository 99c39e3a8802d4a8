/** The budget ledger `budget.csv`: one row per user and month under
    `BudgetHeader`, its upsert and its first-match read, and the alert state
    machine of `check_budget_alerts`. */
module Budget {
  import opened Wrappers
  import opened Text
  import opened Numbers
  import opened Records
  import opened Expenses

  /** What `read_user_budget` returns: the amount and the three alert flags,
      each the column's text, "no" when the file has no such column, or `None`
      when the row stops before it. */
  datatype BudgetRecord = BudgetRecord(
    amount: Decimal,
    alerted50: Option<string>,
    alerted80: Option<string>,
    alertedExceeded: Option<string>)

  /** `row.get("username") == username and row.get("month") == month`. */
  predicate KeyMatches(header: Row, row: Row, username: string, month: string)
  {
    Lookup(header, row, "username") == Val(username) && Lookup(header, row, "month") == Val(month)
  }

  /** The record of a matching row; `None` when `float(row["budget_amount"])` raises. */
  function ParseBudget(header: Row, row: Row): (r: Option<BudgetRecord>)
    ensures r.Some? <==> Lookup(header, row, "budget_amount").Val? && ToFloat(Lookup(header, row, "budget_amount").text).Some?
  {
    var amount := Lookup(header, row, "budget_amount");
    if amount.Val? && ToFloat(amount.text).Some? then
      Some(BudgetRecord(ToFloat(amount.text).value,
                        GetOr(Lookup(header, row, "alerted_50"), "no"),
                        GetOr(Lookup(header, row, "alerted_80"), "no"),
                        GetOr(Lookup(header, row, "alerted_exceeded"), "no")))
    else None
  }

  /** The scan of `read_user_budget` over the data rows: the first matching row decides. */
  function ReadFrom(header: Row, rows: Table, username: string, month: string): (r: Option<BudgetRecord>)
    ensures (forall i | 0 <= i < |rows| :: !KeyMatches(header, rows[i], username, month)) ==> r.None?
  {
    if |rows| == 0 then None
    else if KeyMatches(header, rows[0], username, month) then ParseBudget(header, rows[0])
    else
      assert forall i | 1 <= i < |rows| :: rows[i] == rows[1..][i - 1];
      ReadFrom(header, rows[1..], username, month)
  }

  /** The first row with the key decides what the scan reads. */
  lemma {:induction false} FirstMatchDecides(header: Row, rows: Table, username: string, month: string, i: nat)
    requires i < |rows| && KeyMatches(header, rows[i], username, month)
    requires forall j | 0 <= j < i :: !KeyMatches(header, rows[j], username, month)
    ensures ReadFrom(header, rows, username, month) == ParseBudget(header, rows[i])
  {
    if i > 0 {
      assert !KeyMatches(header, rows[0], username, month);
      assert forall j | 0 <= j < i - 1 :: rows[1..][j] == rows[j + 1];
      FirstMatchDecides(header, rows[1..], username, month, i - 1);
    }
  }

  /** `read_user_budget`: the first data row whose user and month match decides;
      no such row, or an empty or missing file, gives `None`. */
  function ReadUserBudget(budgets: Table, username: string, month: string): (r: Option<BudgetRecord>)
    ensures |budgets| == 0 ==> r.None?
    ensures (forall i | 1 <= i < |budgets| :: !KeyMatches(budgets[0], budgets[i], username, month)) ==> r.None?
  {
    if |budgets| == 0 then None
    else
      assert forall i | 0 <= i < |budgets| - 1 :: budgets[1..][i] == budgets[i + 1];
      ReadFrom(budgets[0], budgets[1..], username, month)
  }

  /** The first data row with the user and month decides what is read, under
      the file's own header, even when its amount does not parse. */
  lemma FirstMatchIsRead(budgets: Table, username: string, month: string, i: nat)
    requires 1 <= i < |budgets| && KeyMatches(budgets[0], budgets[i], username, month)
    requires forall j | 1 <= j < i :: !KeyMatches(budgets[0], budgets[j], username, month)
    ensures ReadUserBudget(budgets, username, month) == ParseBudget(budgets[0], budgets[i])
  {
    var rows := budgets[1..];
    assert rows[i - 1] == budgets[i];
    assert forall j | 0 <= j < i - 1 :: rows[j] == budgets[j + 1];
    FirstMatchDecides(budgets[0], rows, username, month, i - 1);
  }

  /** `len(r) >= 2 and r[0] == username and r[1] == month`: the key test of the writer. */
  predicate SameKey(row: Row, username: string, month: string)
  {
    |row| >= 2 && row[0] == username && row[1] == month
  }

  /** Under the standard header the reader and the writer agree on the key. */
  lemma KeyMatchesIsSameKey(row: Row, username: string, month: string)
    ensures KeyMatches(BudgetHeader, row, username, month) <==> SameKey(row, username, month)
  {
    StandardHeadersDistinct();
    LookupColumn(BudgetHeader, row, 0);
    LookupColumn(BudgetHeader, row, 1);
  }

  predicate HasKey(rows: Table, username: string, month: string)
  {
    exists i | 0 <= i < |rows| :: SameKey(rows[i], username, month)
  }

  /** The row `write_user_budget` writes. */
  function BudgetRow(username: string, month: string, amount: Decimal, f50: string, f80: string, f100: string): Row
  {
    [username, month, FormatFloat(amount), f50, f80, f100]
  }

  /** Every row with the key becomes `row`; every other row is kept in place. */
  function ReplaceKeyed(rows: Table, username: string, month: string, row: Row): (r: Table)
    ensures |r| == |rows|
    ensures forall i | 0 <= i < |rows| :: r[i] == if SameKey(rows[i], username, month) then row else rows[i]
  {
    if |rows| == 0 then []
    else
      var first := if SameKey(rows[0], username, month) then row else rows[0];
      [first] + ReplaceKeyed(rows[1..], username, month, row)
  }

  /** The data rows after an upsert: every row with the key replaced in place
      by `row`, or, when there is none, `row` appended after all of them. */
  function Upsert(rows: Table, username: string, month: string, row: Row): (r: Table)
    ensures HasKey(rows, username, month) ==> (|r| == |rows|
      && forall i | 0 <= i < |rows| :: r[i] == if SameKey(rows[i], username, month) then row else rows[i])
    ensures !HasKey(rows, username, month) ==> r == rows + [row]
  {
    var data := ReplaceKeyed(rows, username, month, row);
    if HasKey(rows, username, month) then data
    else
      assert data == rows;
      rows + [row]
  }

  /** `write_user_budget`: the header row is kept, or written when the file is
      missing or empty, and the data rows are upserted (`WrittenData`; read
      back by `ReadAfterWrite` and `WriteKeepsOtherBudgets`). */
  function WriteUserBudget(budgets: Table, username: string, month: string, amount: Decimal,
                           f50: string, f80: string, f100: string): Table
  {
    var row := BudgetRow(username, month, amount, f50, f80, f100);
    if |budgets| == 0 then [BudgetHeader, row]
    else [budgets[0]] + Upsert(budgets[1..], username, month, row)
  }

  /** A file the ledger wrote: missing or empty, or headed by the standard header. */
  predicate Headed(budgets: Table)
  {
    |budgets| == 0 || budgets[0] == BudgetHeader
  }

  /** The written row reads back as the written amount, in float form, and flags. */
  lemma ParseBudgetRow(username: string, month: string, amount: Decimal, f50: string, f80: string, f100: string)
    ensures ParseBudget(BudgetHeader, BudgetRow(username, month, amount, f50, f80, f100))
         == Some(BudgetRecord(Canonical(amount), Some(f50), Some(f80), Some(f100)))
  {
    var row := BudgetRow(username, month, amount, f50, f80, f100);
    StandardHeadersDistinct();
    LookupColumn(BudgetHeader, row, 2);
    LookupColumn(BudgetHeader, row, 3);
    LookupColumn(BudgetHeader, row, 4);
    LookupColumn(BudgetHeader, row, 5);
    FloatTextRoundTrip(amount);
  }

  /** After an in-place replacement, the written key reads the new row and
      every other key reads what it read before. */
  lemma {:induction false} ReadFromReplaced(rows: Table, username: string, month: string, row: Row,
                                            otherUser: string, otherMonth: string)
    requires SameKey(row, username, month)
    ensures HasKey(rows, username, month) ==>
      ReadFrom(BudgetHeader, ReplaceKeyed(rows, username, month, row), username, month) == ParseBudget(BudgetHeader, row)
    ensures (otherUser, otherMonth) != (username, month) ==>
      ReadFrom(BudgetHeader, ReplaceKeyed(rows, username, month, row), otherUser, otherMonth)
      == ReadFrom(BudgetHeader, rows, otherUser, otherMonth)
  {
    if |rows| > 0 {
      var head := rows[0];
      var replaced := ReplaceKeyed(rows, username, month, row);
      assert replaced[1..] == ReplaceKeyed(rows[1..], username, month, row);
      KeyMatchesIsSameKey(head, username, month);
      KeyMatchesIsSameKey(row, username, month);
      KeyMatchesIsSameKey(head, otherUser, otherMonth);
      KeyMatchesIsSameKey(row, otherUser, otherMonth);
      KeyMatchesIsSameKey(replaced[0], username, month);
      KeyMatchesIsSameKey(replaced[0], otherUser, otherMonth);
      ReadFromReplaced(rows[1..], username, month, row, otherUser, otherMonth);
      if HasKey(rows, username, month) && !SameKey(head, username, month) {
        var i :| 0 <= i < |rows| && SameKey(rows[i], username, month);
        assert SameKey(rows[1..][i - 1], username, month);
      }
    }
  }

  /** An appended row is read only when no earlier row has its key. */
  lemma {:induction false} ReadFromAppended(rows: Table, row: Row, username: string, month: string)
    ensures HasKey(rows, username, month) ==>
      ReadFrom(BudgetHeader, rows + [row], username, month) == ReadFrom(BudgetHeader, rows, username, month)
    ensures !HasKey(rows, username, month) ==>
      ReadFrom(BudgetHeader, rows + [row], username, month)
      == if SameKey(row, username, month) then ParseBudget(BudgetHeader, row) else None
    ensures !HasKey(rows, username, month) ==> ReadFrom(BudgetHeader, rows, username, month).None?
  {
    KeyMatchesIsSameKey(row, username, month);
    if |rows| > 0 {
      assert (rows + [row])[1..] == rows[1..] + [row];
      KeyMatchesIsSameKey(rows[0], username, month);
      ReadFromAppended(rows[1..], row, username, month);
      if HasKey(rows, username, month) && !SameKey(rows[0], username, month) {
        var i :| 0 <= i < |rows| && SameKey(rows[i], username, month);
        assert SameKey(rows[1..][i - 1], username, month);
      }
      if !HasKey(rows, username, month) {
        assert !HasKey(rows[1..], username, month) by {
          forall i | 0 <= i < |rows[1..]| ensures !SameKey(rows[1..][i], username, month) {
            assert rows[1..][i] == rows[i + 1];
          }
        }
      }
    } else {
      assert rows + [row] == [row];
    }
  }

  lemma UpsertCases(rows: Table, username: string, month: string, row: Row)
    ensures HasKey(rows, username, month) ==> Upsert(rows, username, month, row) == ReplaceKeyed(rows, username, month, row)
    ensures !HasKey(rows, username, month) ==> Upsert(rows, username, month, row) == rows + [row]
  {
  }

  /** After an upsert the key reads the new row. */
  lemma ReadUpsertedKey(rows: Table, username: string, month: string, row: Row)
    requires SameKey(row, username, month)
    ensures ReadFrom(BudgetHeader, Upsert(rows, username, month, row), username, month) == ParseBudget(BudgetHeader, row)
  {
    UpsertCases(rows, username, month, row);
    if HasKey(rows, username, month) {
      ReadFromReplaced(rows, username, month, row, username, month);
    } else {
      ReadFromAppended(rows, row, username, month);
    }
  }

  /** After an upsert every other key reads what it read before. */
  lemma ReadUpsertedOther(rows: Table, username: string, month: string, row: Row, otherUser: string, otherMonth: string)
    requires SameKey(row, username, month)
    requires (otherUser, otherMonth) != (username, month)
    ensures ReadFrom(BudgetHeader, Upsert(rows, username, month, row), otherUser, otherMonth)
         == ReadFrom(BudgetHeader, rows, otherUser, otherMonth)
  {
    UpsertCases(rows, username, month, row);
    if HasKey(rows, username, month) {
      ReadFromReplaced(rows, username, month, row, otherUser, otherMonth);
    } else {
      ReadFromAppended(rows, row, otherUser, otherMonth);
      KeyMatchesIsSameKey(row, otherUser, otherMonth);
      assert !SameKey(row, otherUser, otherMonth);
    }
  }

  /** The data rows of a write, seen as an upsert of the file's data rows. */
  lemma WrittenData(budgets: Table, username: string, month: string, amount: Decimal,
                    f50: string, f80: string, f100: string)
    ensures var after := WriteUserBudget(budgets, username, month, amount, f50, f80, f100);
      |after| > 0 && after[0] == (if |budgets| == 0 then BudgetHeader else budgets[0])
      && after[1..] == Upsert(DataRows(budgets), username, month, BudgetRow(username, month, amount, f50, f80, f100))
  {
    var row := BudgetRow(username, month, amount, f50, f80, f100);
    if |budgets| == 0 {
      assert !HasKey([], username, month);
      assert Upsert([], username, month, row) == [row];
    }
  }

  /** Reading right after a write gives the written amount, as the float it
      was written as, and the written flags. */
  lemma ReadAfterWrite(budgets: Table, username: string, month: string, amount: Decimal,
                       f50: string, f80: string, f100: string)
    requires Headed(budgets)
    ensures ReadUserBudget(WriteUserBudget(budgets, username, month, amount, f50, f80, f100), username, month)
         == Some(BudgetRecord(Canonical(amount), Some(f50), Some(f80), Some(f100)))
  {
    var row := BudgetRow(username, month, amount, f50, f80, f100);
    WrittenData(budgets, username, month, amount, f50, f80, f100);
    ReadUpsertedKey(DataRows(budgets), username, month, row);
    ParseBudgetRow(username, month, amount, f50, f80, f100);
  }

  /** A write leaves what every other user and month reads unchanged. */
  lemma WriteKeepsOtherBudgets(budgets: Table, username: string, month: string, amount: Decimal,
                               f50: string, f80: string, f100: string, otherUser: string, otherMonth: string)
    requires Headed(budgets)
    requires (otherUser, otherMonth) != (username, month)
    ensures ReadUserBudget(WriteUserBudget(budgets, username, month, amount, f50, f80, f100), otherUser, otherMonth)
         == ReadUserBudget(budgets, otherUser, otherMonth)
  {
    var row := BudgetRow(username, month, amount, f50, f80, f100);
    WrittenData(budgets, username, month, amount, f50, f80, f100);
    ReadUpsertedOther(DataRows(budgets), username, month, row, otherUser, otherMonth);
  }

  /** `set_or_update_budget`: the amount is the positive number the prompt loop
      accepts, and every alert flag is written as "no". */
  function SetOrUpdateBudget(budgets: Table, username: string, month: string, amount: Decimal): (r: Table)
    requires Value(amount) > 0.0
    ensures Headed(budgets) ==>
      ReadUserBudget(r, username, month) == Some(BudgetRecord(Canonical(amount), Some("no"), Some("no"), Some("no")))
  {
    if Headed(budgets) then
      ReadAfterWrite(budgets, username, month, amount, "no", "no", "no");
      WriteUserBudget(budgets, username, month, amount, "no", "no", "no")
    else WriteUserBudget(budgets, username, month, amount, "no", "no", "no")
  }

  /** The three alert levels, in the order they are checked. */
  datatype Threshold = Fifty | Eighty | Hundred
  {
    function Percent(): int
    {
      match this
      case Fifty => 50
      case Eighty => 80
      case Hundred => 100
    }
  }

  /** The flag a level reads and writes. */
  function FlagAt(b: BudgetRecord, t: Threshold): Option<string>
  {
    match t
    case Fifty => b.alerted50
    case Eighty => b.alerted80
    case Hundred => b.alertedExceeded
  }

  /** A flag still to fire: `flag == "no"`. */
  predicate Armed(flag: Option<string>) { flag == Some("no") }

  /** `(spent / limit) * 100 >= percent` for a positive limit, without the division. */
  predicate Reached(spent: real, limit: real, t: Threshold)
  {
    spent * 100.0 >= (t.Percent() as real) * limit
  }

  /** For a positive limit the product form is the percentage test. */
  lemma ReachedIsPercentage(spent: real, limit: real, t: Threshold)
    requires limit > 0.0
    ensures Reached(spent, limit, t) <==> (spent / limit) * 100.0 >= t.Percent() as real
  {
    var p := spent / limit;
    assert p * limit == spent;
    var lhs := p * 100.0;
    var rhs := t.Percent() as real;
    assert lhs * limit == spent * 100.0;
    if lhs >= rhs {
      assert lhs * limit >= rhs * limit;
    } else {
      assert lhs * limit < rhs * limit;
    }
  }

  /** The record after the checks, and the alerts printed, lowest level first. */
  datatype Evaluation = Evaluation(record: BudgetRecord, fired: seq<Threshold>)

  /** A level fires when its flag is "no" and spending has reached it. */
  predicate Fires(b: BudgetRecord, spent: real, t: Threshold)
  {
    Armed(FlagAt(b, t)) && Reached(spent, Value(b.amount), t)
  }

  /** The levels that fire, lowest first. */
  function FiredLevels(b: BudgetRecord, spent: real): (fired: seq<Threshold>)
    ensures forall t: Threshold :: t in fired <==> Fires(b, spent, t)
    ensures forall i | 0 < i < |fired| :: fired[i - 1].Percent() < fired[i].Percent()
  {
    (if Fires(b, spent, Fifty) then [Fifty] else [])
    + (if Fires(b, spent, Eighty) then [Eighty] else [])
    + (if Fires(b, spent, Hundred) then [Hundred] else [])
  }

  /** A flag after its check: "yes" when its level fired. */
  function Raised(flag: Option<string>, fired: bool): Option<string>
  {
    if fired then Some("yes") else flag
  }

  /** The three independent checks of `check_budget_alerts`: a level fires when
      its flag is "no" and spending has reached it, and its flag becomes "yes". */
  function EvaluateAlerts(b: BudgetRecord, spent: real): (e: Evaluation)
    requires Value(b.amount) > 0.0
    ensures e.record.amount == b.amount
    ensures forall t: Threshold :: t in e.fired <==> Armed(FlagAt(b, t)) && Reached(spent, Value(b.amount), t)
    ensures forall t: Threshold :: FlagAt(e.record, t) == if t in e.fired then Some("yes") else FlagAt(b, t)
    ensures forall i | 0 < i < |e.fired| :: e.fired[i - 1].Percent() < e.fired[i].Percent()
  {
    var fired := FiredLevels(b, spent);
    var record := BudgetRecord(
      b.amount,
      Raised(b.alerted50, Fifty in fired),
      Raised(b.alerted80, Eighty in fired),
      Raised(b.alertedExceeded, Hundred in fired));
    Evaluation(record, fired)
  }

  /** What `check_budget_alerts` leaves behind: the budget file and the alerts printed. */
  datatype AlertOutcome = AlertOutcome(budgets: Table, fired: seq<Threshold>)

  /** `check_budget_alerts` for the month's spending `spent`: nothing happens
      without a budget or with a limit that is not positive; otherwise the
      checks run, and the file is rewritten only when some alert fired, with
      the amount as read and a missing flag written as an empty field. */
  function CheckBudgetAlerts(budgets: Table, username: string, month: string, spent: real): (o: AlertOutcome)
    ensures ReadUserBudget(budgets, username, month).None? ==> o == AlertOutcome(budgets, [])
    ensures (ReadUserBudget(budgets, username, month).Some? && Value(ReadUserBudget(budgets, username, month).value.amount) <= 0.0)
            ==> o == AlertOutcome(budgets, [])
    ensures (ReadUserBudget(budgets, username, month).Some? && Value(ReadUserBudget(budgets, username, month).value.amount) > 0.0)
            ==> o.fired == EvaluateAlerts(ReadUserBudget(budgets, username, month).value, spent).fired
    ensures o.fired == [] ==> o.budgets == budgets
  {
    match ReadUserBudget(budgets, username, month)
    case None => AlertOutcome(budgets, [])
    case Some(b) =>
      if Value(b.amount) <= 0.0 then AlertOutcome(budgets, [])
      else
        var e := EvaluateAlerts(b, spent);
        if e.fired == [] then AlertOutcome(budgets, [])
        else
          AlertOutcome(WriteUserBudget(budgets, username, month, b.amount,
                                       NoneAsEmpty(e.record.alerted50), NoneAsEmpty(e.record.alerted80),
                                       NoneAsEmpty(e.record.alertedExceeded)),
                       e.fired)
  }

  /** `check_budget_alerts` with the spending it computes itself: the month's
      total of the expense file, which carries no user. With no expense rows
      nothing fires; otherwise a level fires exactly when its flag is "no" and
      the month's total has reached it. What the file becomes is that of
      `CheckBudgetAlerts` at this total, so `AlertsWriteBack`,
      `AlertsIdempotent` and `AlertsKeepBudget` apply to it. */
  method CheckBudgetAlertsWithExpenses(budgets: Table, expenses: Table, username: string, month: string)
    returns (o: AlertOutcome)
    ensures o == CheckBudgetAlerts(budgets, username, month, Total(DataRows(expenses), month))
    ensures ReadUserBudget(budgets, username, month).None? ==> o == AlertOutcome(budgets, [])
    ensures var b := ReadUserBudget(budgets, username, month);
      b.Some? && Value(b.value.amount) <= 0.0 ==> o == AlertOutcome(budgets, [])
    ensures var b := ReadUserBudget(budgets, username, month);
      b.Some? && Value(b.value.amount) > 0.0 ==>
        forall t: Threshold :: t in o.fired <==>
          Armed(FlagAt(b.value, t)) && Reached(Total(DataRows(expenses), month), Value(b.value.amount), t)
    ensures |expenses| <= 1 ==> o == AlertOutcome(budgets, [])
    ensures o.fired == [] ==> o.budgets == budgets
  {
    var spent := MonthlySpending(expenses, month);
    o := CheckBudgetAlerts(budgets, username, month, spent);
    var b := ReadUserBudget(budgets, username, month);
    if b.Some? && Value(b.value.amount) > 0.0 && |expenses| <= 1 {
      assert DataRows(expenses) == [];
      NothingReachedAtZero(Value(b.value.amount), Fifty);
      NothingReachedAtZero(Value(b.value.amount), Eighty);
      NothingReachedAtZero(Value(b.value.amount), Hundred);
      assert FiredLevels(b.value, spent) == [];
    }
  }

  /** With nothing spent no level is reached. */
  lemma NothingReachedAtZero(limit: real, t: Threshold)
    requires limit > 0.0
    ensures !Reached(0.0, limit, t)
  {
    assert (t.Percent() as real) * limit > 0.0;
  }

  /** A flag changes only from "no" to "yes"; in particular "yes" stays "yes". */
  lemma FlagsOnlyRise(b: BudgetRecord, spent: real, t: Threshold)
    requires Value(b.amount) > 0.0
    ensures var after := EvaluateAlerts(b, spent).record;
      FlagAt(after, t) != FlagAt(b, t) ==> Armed(FlagAt(b, t)) && FlagAt(after, t) == Some("yes")
    ensures FlagAt(b, t) == Some("yes") ==> FlagAt(EvaluateAlerts(b, spent).record, t) == Some("yes")
  {
  }

  /** Spending at or past the limit fires every armed level in one pass. */
  lemma JumpFiresAll(b: BudgetRecord, spent: real)
    requires Value(b.amount) > 0.0 && spent >= Value(b.amount)
    requires Armed(b.alerted50) && Armed(b.alerted80) && Armed(b.alertedExceeded)
    ensures EvaluateAlerts(b, spent).fired == [Fifty, Eighty, Hundred]
  {
    var limit := Value(b.amount);
    assert spent * 100.0 >= 100.0 * limit;
    assert Reached(spent, limit, Fifty) && Reached(spent, limit, Eighty) && Reached(spent, limit, Hundred);
  }

  /** A budget of 1000 with no alert given: spending 950 fires the 50% and 80%
      alerts, and spending 1200 afterwards fires only the exceeded alert. */
  lemma ThousandBudgetExample()
    ensures var b := BudgetRecord(Decimal(1000, 0), Some("no"), Some("no"), Some("no"));
      var first := EvaluateAlerts(b, 950.0);
      && first.fired == [Fifty, Eighty]
      && EvaluateAlerts(first.record, 1200.0).fired == [Hundred]
  {
    var b := BudgetRecord(Decimal(1000, 0), Some("no"), Some("no"), Some("no"));
    assert Value(b.amount) == 1000.0;
    var first := EvaluateAlerts(b, 950.0);
    assert !Reached(950.0, 1000.0, Hundred);
    assert first.fired == [Fifty, Eighty];
    assert FlagAt(first.record, Hundred) == Some("no");
  }

  /** The record as the rewritten file reads it back: the amount in float form,
      and each flag as written, a missing one as an empty field. */
  function Reread(r: BudgetRecord): BudgetRecord
  {
    BudgetRecord(Canonical(r.amount), Some(NoneAsEmpty(r.alerted50)), Some(NoneAsEmpty(r.alerted80)),
                 Some(NoneAsEmpty(r.alertedExceeded)))
  }

  /** When alerts fire, the file then reads the evaluated record. */
  lemma AlertsWriteBack(budgets: Table, username: string, month: string, spent: real)
    requires Headed(budgets)
    requires CheckBudgetAlerts(budgets, username, month, spent).fired != []
    ensures var b := ReadUserBudget(budgets, username, month).value;
      ReadUserBudget(CheckBudgetAlerts(budgets, username, month, spent).budgets, username, month)
      == Some(Reread(EvaluateAlerts(b, spent).record))
  {
    var b := ReadUserBudget(budgets, username, month).value;
    var e := EvaluateAlerts(b, spent);
    ReadAfterWrite(budgets, username, month, b.amount, NoneAsEmpty(e.record.alerted50),
                   NoneAsEmpty(e.record.alerted80), NoneAsEmpty(e.record.alertedExceeded));
  }

  /** An evaluated record, written and read back, has nothing left to fire at
      the same spending. */
  lemma NothingLeftToFire(b: BudgetRecord, spent: real)
    requires Value(b.amount) > 0.0
    ensures EvaluateAlerts(Reread(EvaluateAlerts(b, spent).record), spent).fired == []
  {
    var e := EvaluateAlerts(b, spent);
    var b2 := Reread(e.record);
    assert Value(b2.amount) == Value(b.amount);
    forall t: Threshold ensures !Armed(FlagAt(b2, t)) || !Reached(spent, Value(b2.amount), t) {
      assert FlagAt(b2, t) == Some(NoneAsEmpty(FlagAt(e.record, t)));
      if t !in e.fired && Reached(spent, Value(b.amount), t) {
        assert !Armed(FlagAt(b, t));
      }
    }
  }

  /** Checking twice at the same spending changes nothing the second time. */
  lemma AlertsIdempotent(budgets: Table, username: string, month: string, spent: real)
    requires Headed(budgets)
    ensures var once := CheckBudgetAlerts(budgets, username, month, spent);
      CheckBudgetAlerts(once.budgets, username, month, spent) == AlertOutcome(once.budgets, [])
  {
    var once := CheckBudgetAlerts(budgets, username, month, spent);
    if once.fired != [] {
      var b := ReadUserBudget(budgets, username, month).value;
      AlertsWriteBack(budgets, username, month, spent);
      NothingLeftToFire(b, spent);
    }
  }

  /** The check keeps the budget amount, never clears a "yes" flag, and leaves
      every other user's and month's budget as it was. */
  lemma AlertsKeepBudget(budgets: Table, username: string, month: string, spent: real, t: Threshold,
                         otherUser: string, otherMonth: string)
    requires Headed(budgets)
    requires ReadUserBudget(budgets, username, month).Some?
    ensures var before := ReadUserBudget(budgets, username, month).value;
      var after := ReadUserBudget(CheckBudgetAlerts(budgets, username, month, spent).budgets, username, month);
      && after.Some?
      && Value(after.value.amount) == Value(before.amount)
      && (FlagAt(before, t) == Some("yes") ==> FlagAt(after.value, t) == Some("yes"))
    ensures (otherUser, otherMonth) != (username, month) ==>
      ReadUserBudget(CheckBudgetAlerts(budgets, username, month, spent).budgets, otherUser, otherMonth)
      == ReadUserBudget(budgets, otherUser, otherMonth)
  {
    var b := ReadUserBudget(budgets, username, month).value;
    var o := CheckBudgetAlerts(budgets, username, month, spent);
    if o.fired != [] {
      var e := EvaluateAlerts(b, spent);
      AlertsWriteBack(budgets, username, month, spent);
      FlagsOnlyRise(b, spent, t);
      assert FlagAt(Reread(e.record), t) == Some(NoneAsEmpty(FlagAt(e.record, t)));
      if (otherUser, otherMonth) != (username, month) {
        WriteKeepsOtherBudgets(budgets, username, month, b.amount, NoneAsEmpty(e.record.alerted50),
                               NoneAsEmpty(e.record.alerted80), NoneAsEmpty(e.record.alertedExceeded),
                               otherUser, otherMonth);
      }
    }
  }

  /** With every flag armed, exactly the levels reached fire. */
  lemma ArmedFiresReached(b: BudgetRecord, spent: real, t: Threshold)
    requires Value(b.amount) > 0.0
    requires Armed(b.alerted50) && Armed(b.alerted80) && Armed(b.alertedExceeded)
    ensures t in EvaluateAlerts(b, spent).fired <==> Reached(spent, Value(b.amount), t)
  {
    assert Armed(FlagAt(b, t));
  }

  /** Setting a budget again re-arms every alert: the next check fires each
      level the spending has reached. */
  lemma SetBudgetRearms(budgets: Table, username: string, month: string, amount: Decimal, spent: real, t: Threshold)
    requires Value(amount) > 0.0
    requires Headed(budgets)
    ensures var reset := SetOrUpdateBudget(budgets, username, month, amount);
      t in CheckBudgetAlerts(reset, username, month, spent).fired <==> Reached(spent, Value(amount), t)
  {
    var reset := SetOrUpdateBudget(budgets, username, month, amount);
    var b := ReadUserBudget(reset, username, month).value;
    ArmedFiresReached(b, spent, t);
  }
}
