/** The savings ledger `savings.csv`: every user's goals under `SavingsHeader`,
    read row by row with malformed rows skipped, and rewritten per user with
    every other user's rows kept. */
module Savings {
  import opened Wrappers
  import opened Text
  import opened Numbers
  import opened Records

  /** One goal as `get_user_savings_goals` returns it. The name and the
      creation date are `None` when the column is absent or the row stops
      before it. */
  datatype Goal = Goal(
    id: int,
    name: Option<string>,
    target: Decimal,
    current: Decimal,
    createdOn: Option<string>)

  /** `int(row.get(key, "0"))`: `None` where `int` raises. */
  function IntField(c: Cell): Option<int>
  {
    match GetOr(c, "0")
    case None => None
    case Some(t) => ToInt(t)
  }

  /** `float(row.get(key, "0"))`: `None` where `float` raises. */
  function FloatField(c: Cell): Option<Decimal>
  {
    match GetOr(c, "0")
    case None => None
    case Some(t) => ToFloat(t)
  }

  /** The goal of one row; `None` when one of the three conversions raises and
      the `except: pass` skips the row. */
  function ParseGoal(header: Row, row: Row): (r: Option<Goal>)
    ensures r.Some? <==>
      && IntField(Lookup(header, row, "goal_id")).Some?
      && FloatField(Lookup(header, row, "target_amount")).Some?
      && FloatField(Lookup(header, row, "current_amount")).Some?
  {
    var id := IntField(Lookup(header, row, "goal_id"));
    var target := FloatField(Lookup(header, row, "target_amount"));
    var current := FloatField(Lookup(header, row, "current_amount"));
    if id.Some? && target.Some? && current.Some? then
      Some(Goal(id.value, Get(Lookup(header, row, "goal_name")), target.value, current.value,
                Get(Lookup(header, row, "created_on"))))
    else None
  }

  /** `row.get("username") == username`. */
  predicate Owned(header: Row, row: Row, username: string)
  {
    Lookup(header, row, "username") == Val(username)
  }

  /** The goal a row contributes for the user: none when the row is another
      user's or is skipped. */
  function RowGoals(header: Row, row: Row, username: string): (goals: seq<Goal>)
    ensures |goals| <= 1
  {
    if Owned(header, row, username) && ParseGoal(header, row).Some? then [ParseGoal(header, row).value] else []
  }

  /** The goals of the user's rows among `rows`, in file order. */
  function GoalsFrom(header: Row, rows: Table, username: string): (goals: seq<Goal>)
    ensures |goals| <= |rows|
  {
    if |rows| == 0 then []
    else
      RowGoals(header, rows[0], username) + GoalsFrom(header, rows[1..], username)
  }

  /** The goals of rows `a` then `b` are those of `a` then those of `b`. */
  lemma {:induction false} GoalsFromConcat(header: Row, a: Table, b: Table, username: string)
    ensures GoalsFrom(header, a + b, username) == GoalsFrom(header, a, username) + GoalsFrom(header, b, username)
  {
    if |a| > 0 {
      assert (a + b)[0] == a[0];
      assert (a + b)[1..] == a[1..] + b;
      GoalsFromConcat(header, a[1..], b, username);
      assert GoalsFrom(header, a + b, username) == RowGoals(header, a[0], username) + GoalsFrom(header, a[1..] + b, username);
    } else {
      assert a + b == b;
    }
  }

  /** `get_user_savings_goals`: a missing or empty file has no goals. */
  function GetUserSavingsGoals(savings: Table, username: string): (goals: seq<Goal>)
    ensures |savings| == 0 ==> goals == []
  {
    if |savings| == 0 then [] else GoalsFrom(savings[0], savings[1..], username)
  }

  /** A goal is read exactly when one of the rows is the user's and parses to it. */
  lemma {:induction false} GoalsFromMembers(header: Row, rows: Table, username: string)
    ensures forall g :: g in GoalsFrom(header, rows, username) <==>
      exists row | row in rows :: Owned(header, row, username) && ParseGoal(header, row) == Some(g)
  {
    if |rows| > 0 {
      GoalsFromMembers(header, rows[1..], username);
      assert forall row | row in rows :: row == rows[0] || row in rows[1..];
    }
  }

  /** The user's goals are exactly the goals of the user's data rows that parse,
      under the file's own header. */
  lemma UserGoalsAreParsedRows(savings: Table, username: string)
    requires |savings| > 0
    ensures forall g :: g in GetUserSavingsGoals(savings, username) <==>
      exists row | row in savings[1..] :: Owned(savings[0], row, username) && ParseGoal(savings[0], row) == Some(g)
  {
    GoalsFromMembers(savings[0], savings[1..], username);
  }

  /** The rows of other users the writer keeps: non-empty rows whose first
      field is not the user. */
  function OtherRows(rows: Table, username: string): (r: Table)
    ensures |r| <= |rows|
  {
    if |rows| == 0 then []
    else (if |rows[0]| > 0 && rows[0][0] != username then [rows[0]] else []) + OtherRows(rows[1..], username)
  }

  /** The writer keeps exactly the non-empty rows of other users. */
  lemma {:induction false} OtherRowsMembers(rows: Table, username: string)
    ensures forall x :: x in OtherRows(rows, username) <==> x in rows && |x| > 0 && x[0] != username
  {
    if |rows| > 0 {
      OtherRowsMembers(rows[1..], username);
      assert forall x | x in rows :: x == rows[0] || x in rows[1..];
    }
  }

  /** The kept rows keep their order: filtering distributes over concatenation. */
  lemma {:induction false} OtherRowsConcat(a: Table, b: Table, username: string)
    ensures OtherRows(a + b, username) == OtherRows(a, username) + OtherRows(b, username)
  {
    if |a| > 0 {
      assert (a + b)[0] == a[0];
      assert (a + b)[1..] == a[1..] + b;
      OtherRowsConcat(a[1..], b, username);
    } else {
      assert a + b == b;
    }
  }

  /** The row `write_user_savings_goals` writes for a goal; `None` is written
      as an empty field. */
  function GoalRow(username: string, g: Goal): Row
  {
    [username, FormatInt(g.id), NoneAsEmpty(g.name), FormatFloat(g.target), FormatFloat(g.current),
     NoneAsEmpty(g.createdOn)]
  }

  function GoalRows(username: string, goals: seq<Goal>): (rows: Table)
    ensures |rows| == |goals|
    ensures forall i | 0 <= i < |goals| :: rows[i] == GoalRow(username, goals[i])
  {
    if |goals| == 0 then [] else [GoalRow(username, goals[0])] + GoalRows(username, goals[1..])
  }

  /** `write_user_savings_goals`: the header row is kept, or written when the
      file is missing or empty; every other user's non-empty row is kept in
      order, the user's old rows are dropped, and the goals are appended. */
  function WriteUserSavingsGoals(savings: Table, username: string, goals: seq<Goal>): (r: Table)
    ensures |r| > 0 && r[0] == if |savings| == 0 then SavingsHeader else savings[0]
  {
    var header := if |savings| == 0 then SavingsHeader else savings[0];
    var data := OtherRows(DataRows(savings), username) + GoalRows(username, goals);
    [header] + data
  }

  /** The data rows of a write: the kept rows, then the goal rows. */
  lemma WrittenRows(savings: Table, username: string, goals: seq<Goal>)
    ensures WriteUserSavingsGoals(savings, username, goals)[1..]
         == OtherRows(DataRows(savings), username) + GoalRows(username, goals)
  {
    var header := if |savings| == 0 then SavingsHeader else savings[0];
    var data := OtherRows(DataRows(savings), username) + GoalRows(username, goals);
    assert ([header] + data)[1..] == data;
  }

  /** A file the ledger wrote: missing or empty, or headed by the standard header. */
  predicate Headed(savings: Table)
  {
    |savings| == 0 || savings[0] == SavingsHeader
  }

  /** A goal as the rewritten file reads it back: the amounts in float form,
      and the name and date as written, `None` as an empty field. */
  function Reread(g: Goal): Goal
  {
    Goal(g.id, Some(NoneAsEmpty(g.name)), Canonical(g.target), Canonical(g.current), Some(NoneAsEmpty(g.createdOn)))
  }

  function RereadAll(goals: seq<Goal>): (r: seq<Goal>)
    ensures |r| == |goals|
    ensures forall i | 0 <= i < |goals| :: r[i] == Reread(goals[i])
  {
    if |goals| == 0 then [] else [Reread(goals[0])] + RereadAll(goals[1..])
  }

  /** A goal row is owned by its user only. */
  lemma GoalRowOwner(username: string, g: Goal, other: string)
    ensures Owned(SavingsHeader, GoalRow(username, g), other) <==> other == username
  {
    StandardHeadersDistinct();
    LookupColumn(SavingsHeader, GoalRow(username, g), 0);
  }

  /** A goal row reads back as the goal, in the form the file stores it. */
  lemma ParseGoalRow(username: string, g: Goal)
    ensures ParseGoal(SavingsHeader, GoalRow(username, g)) == Some(Reread(g))
  {
    var row := GoalRow(username, g);
    GoalRowFields(username, g);
    IntFieldOfFormat(g.id);
    FloatFieldOfFormat(g.target);
    FloatFieldOfFormat(g.current);
    ParseGoalOf(SavingsHeader, row, g.id, Canonical(g.target), Canonical(g.current));
  }

  lemma IntFieldOfFormat(n: int)
    ensures IntField(Val(FormatInt(n))) == Some(n)
  {
    ToIntRoundTrip(n);
  }

  lemma FloatFieldOfFormat(d: Decimal)
    ensures FloatField(Val(FormatFloat(d))) == Some(Canonical(d))
  {
    FloatTextRoundTrip(d);
  }

  /** A row whose three conversions succeed gives the goal they make. */
  lemma ParseGoalOf(header: Row, row: Row, id: int, target: Decimal, current: Decimal)
    requires IntField(Lookup(header, row, "goal_id")) == Some(id)
    requires FloatField(Lookup(header, row, "target_amount")) == Some(target)
    requires FloatField(Lookup(header, row, "current_amount")) == Some(current)
    ensures ParseGoal(header, row)
      == Some(Goal(id, Get(Lookup(header, row, "goal_name")), target, current, Get(Lookup(header, row, "created_on"))))
  {
  }

  lemma GoalRowFields(username: string, g: Goal)
    ensures var row := GoalRow(username, g);
      && Lookup(SavingsHeader, row, "goal_id") == Val(FormatInt(g.id))
      && Lookup(SavingsHeader, row, "goal_name") == Val(NoneAsEmpty(g.name))
      && Lookup(SavingsHeader, row, "target_amount") == Val(FormatFloat(g.target))
      && Lookup(SavingsHeader, row, "current_amount") == Val(FormatFloat(g.current))
      && Lookup(SavingsHeader, row, "created_on") == Val(NoneAsEmpty(g.createdOn))
  {
    var row := GoalRow(username, g);
    StandardHeadersDistinct();
    LookupColumn(SavingsHeader, row, 1);
    LookupColumn(SavingsHeader, row, 2);
    LookupColumn(SavingsHeader, row, 3);
    LookupColumn(SavingsHeader, row, 4);
    LookupColumn(SavingsHeader, row, 5);
  }

  /** The written goal rows read back, for their user, as the goals in order,
      and for any other user as nothing. */
  lemma {:induction false} GoalRowsReadBack(username: string, goals: seq<Goal>, other: string)
    ensures GoalsFrom(SavingsHeader, GoalRows(username, goals), username) == RereadAll(goals)
    ensures other != username ==> GoalsFrom(SavingsHeader, GoalRows(username, goals), other) == []
  {
    if |goals| > 0 {
      var rows := GoalRows(username, goals);
      assert rows[1..] == GoalRows(username, goals[1..]);
      ParseGoalRow(username, goals[0]);
      GoalRowOwner(username, goals[0], username);
      GoalRowOwner(username, goals[0], other);
      GoalRowsReadBack(username, goals[1..], other);
      assert RereadAll(goals) == [Reread(goals[0])] + RereadAll(goals[1..]);
    }
  }

  lemma GoalsFromSingle(header: Row, row: Row, username: string)
    ensures GoalsFrom(header, [row], username) == RowGoals(header, row, username)
  {
    assert [row][1..] == [];
  }

  lemma OtherRowsSingle(row: Row, username: string)
    ensures OtherRows([row], username) == if |row| > 0 && row[0] != username then [row] else []
  {
    assert [row][1..] == [];
  }

  /** The goals read from the kept rows: those of the first row, if kept, then those of the rest. */
  lemma OtherRowsStep(rows: Table, username: string, reader: string)
    requires |rows| > 0
    ensures GoalsFrom(SavingsHeader, OtherRows(rows, username), reader)
         == GoalsFrom(SavingsHeader, OtherRows([rows[0]], username), reader)
          + GoalsFrom(SavingsHeader, OtherRows(rows[1..], username), reader)
  {
    assert rows == [rows[0]] + rows[1..];
    OtherRowsConcat([rows[0]], rows[1..], username);
    GoalsFromConcat(SavingsHeader, OtherRows([rows[0]], username), OtherRows(rows[1..], username), reader);
  }

  /** Under the standard header no kept row belongs to the writing user. */
  lemma {:induction false} OtherRowsHideUser(rows: Table, username: string)
    ensures GoalsFrom(SavingsHeader, OtherRows(rows, username), username) == []
  {
    if |rows| > 0 {
      var row := rows[0];
      OtherRowsStep(rows, username, username);
      OtherRowsHideUser(rows[1..], username);
      OtherRowsSingle(row, username);
      if |row| > 0 && row[0] != username {
        StandardHeadersDistinct();
        LookupColumn(SavingsHeader, row, 0);
        GoalsFromSingle(SavingsHeader, row, username);
      }
    }
  }

  /** Under the standard header the dropped rows belong to no other user, so
      every other user's goals are unaffected. */
  lemma {:induction false} OtherRowsKeepOthers(rows: Table, username: string, other: string)
    requires other != username
    ensures GoalsFrom(SavingsHeader, OtherRows(rows, username), other) == GoalsFrom(SavingsHeader, rows, other)
  {
    if |rows| > 0 {
      var row := rows[0];
      OtherRowsStep(rows, username, other);
      OtherRowsKeepOthers(rows[1..], username, other);
      OtherRowsSingle(row, username);
      assert rows == [row] + rows[1..];
      GoalsFromConcat(SavingsHeader, [row], rows[1..], other);
      if !(|row| > 0 && row[0] != username) {
        StandardHeadersDistinct();
        LookupColumn(SavingsHeader, row, 0);
        GoalsFromSingle(SavingsHeader, row, other);
      }
    }
  }

  /** Reading right after a write gives the written goals, in order, as the
      file stores them. */
  lemma ReadAfterWrite(savings: Table, username: string, goals: seq<Goal>)
    requires Headed(savings)
    ensures GetUserSavingsGoals(WriteUserSavingsGoals(savings, username, goals), username) == RereadAll(goals)
  {
    var after := WriteUserSavingsGoals(savings, username, goals);
    var kept := OtherRows(DataRows(savings), username);
    WrittenRows(savings, username, goals);
    GoalsFromConcat(SavingsHeader, kept, GoalRows(username, goals), username);
    OtherRowsHideUser(DataRows(savings), username);
    GoalRowsReadBack(username, goals, username);
  }

  /** A write leaves every other user's goals as they were. */
  lemma WriteKeepsOtherUsers(savings: Table, username: string, goals: seq<Goal>, other: string)
    requires Headed(savings)
    requires other != username
    ensures GetUserSavingsGoals(WriteUserSavingsGoals(savings, username, goals), other)
         == GetUserSavingsGoals(savings, other)
  {
    var kept := OtherRows(DataRows(savings), username);
    WrittenRows(savings, username, goals);
    GoalsFromConcat(SavingsHeader, kept, GoalRows(username, goals), other);
    OtherRowsKeepOthers(DataRows(savings), username, other);
    GoalRowsReadBack(username, goals, other);
  }

  /** The largest id of a non-empty goal list. */
  function MaxId(goals: seq<Goal>): (m: int)
    requires |goals| > 0
    ensures forall g | g in goals :: g.id <= m
    ensures exists g | g in goals :: g.id == m
  {
    if |goals| == 1 then goals[0].id
    else
      var rest := MaxId(goals[1..]);
      assert forall g | g in goals :: g == goals[0] || g in goals[1..];
      if goals[0].id >= rest then goals[0].id else rest
  }

  /** The id `create_savings_goal` gives: 1 for the first goal, otherwise one
      more than the largest existing id. */
  function NextGoalId(goals: seq<Goal>): (id: int)
    ensures |goals| == 0 ==> id == 1
    ensures forall g | g in goals :: g.id < id
    ensures |goals| > 0 ==> exists g | g in goals :: g.id + 1 == id
  {
    if |goals| == 0 then 1 else MaxId(goals) + 1
  }

  /** The goal `create_savings_goal` appends: nothing saved yet, created today. */
  function NewGoal(goals: seq<Goal>, name: string, target: Decimal, today: string): Goal
  {
    Goal(NextGoalId(goals), Some(name), target, Decimal(0, 1), Some(today))
  }

  /** `create_savings_goal`: the name is the stripped text typed and the target
      the positive number the prompt loop accepts. Read back, the user's goals
      are the earlier ones, then the new goal: an id no earlier goal has, the
      name, the target, nothing saved yet, and the day's date. */
  function CreateSavingsGoal(savings: Table, username: string, name: string, target: Decimal, today: string): (r: Table)
    requires Value(target) > 0.0
    ensures Headed(savings) ==>
      var before := GetUserSavingsGoals(savings, username);
      var after := GetUserSavingsGoals(r, username);
      && |after| == |before| + 1
      && after[..|before|] == RereadAll(before)
      && after[|before|].id == NextGoalId(before)
      && (forall g | g in before :: g.id != after[|before|].id)
      && after[|before|].name == Some(name)
      && Value(after[|before|].target) == Value(target)
      && Value(after[|before|].current) == 0.0
      && after[|before|].createdOn == Some(today)
  {
    var goals := GetUserSavingsGoals(savings, username);
    var g := NewGoal(goals, name, target, today);
    if Headed(savings) then
      ReadAfterWrite(savings, username, goals + [g]);
      AppendedRereads(goals, g);
      WriteUserSavingsGoals(savings, username, goals + [g])
    else WriteUserSavingsGoals(savings, username, goals + [g])
  }

  /** Rereading a list with one goal appended. */
  lemma AppendedRereads(before: seq<Goal>, g: Goal)
    ensures var after := RereadAll(before + [g]);
      && |after| == |before| + 1
      && after[..|before|] == RereadAll(before)
      && after[|before|] == Reread(g)
  {
    var after := RereadAll(before + [g]);
    assert after[..|before|] == RereadAll(before);
  }

  /** Why a top-up or a deletion leaves the file alone. */
  datatype SavingsError = NoGoals | GoalNotFound

  /** The position of the first goal with the id: the one the selection loop stops at. */
  function FindGoal(goals: seq<Goal>, id: int): (r: Option<nat>)
    ensures r.None? <==> forall g | g in goals :: g.id != id
    ensures r.Some? ==> (r.value < |goals| && goals[r.value].id == id
      && forall j | 0 <= j < r.value :: goals[j].id != id)
  {
    if |goals| == 0 then None
    else if goals[0].id == id then Some(0)
    else
      assert forall g | g in goals :: g == goals[0] || g in goals[1..];
      match FindGoal(goals[1..], id)
      case None => None
      case Some(k) => Some(k + 1)
  }

  /** The goals after a top-up of the goal at `i`. */
  function TopUp(goals: seq<Goal>, i: nat, amount: Decimal): seq<Goal>
    requires i < |goals|
  {
    goals[i := goals[i].(current := Add(goals[i].current, amount))]
  }

  /** `add_money_to_savings`: the id is the integer typed and the amount the
      positive number the prompt loop accepts. */
  function AddMoneyToSavings(savings: Table, username: string, goalId: int, amount: Decimal): (r: Result<Table, SavingsError>)
    requires Value(amount) > 0.0
    ensures var goals := GetUserSavingsGoals(savings, username);
      r == Err(NoGoals) <==> goals == []
    ensures var goals := GetUserSavingsGoals(savings, username);
      r == Err(GoalNotFound) <==> goals != [] && forall g | g in goals :: g.id != goalId
    ensures var goals := GetUserSavingsGoals(savings, username);
      r.Ok? ==> (FindGoal(goals, goalId).Some?
        && r.value == WriteUserSavingsGoals(savings, username, TopUp(goals, FindGoal(goals, goalId).value, amount)))
  {
    var goals := GetUserSavingsGoals(savings, username);
    if goals == [] then Err(NoGoals)
    else match FindGoal(goals, goalId)
      case None => Err(GoalNotFound)
      case Some(i) => Ok(WriteUserSavingsGoals(savings, username, TopUp(goals, i, amount)))
  }

  /** A top-up raises the first goal with the id by exactly the amount and
      leaves every goal's id, name, target and date, and every other goal's
      savings, as they were; read back, the goals are the topped-up list. */
  lemma TopUpReadsBack(savings: Table, username: string, goalId: int, amount: Decimal)
    requires Value(amount) > 0.0
    requires Headed(savings)
    requires AddMoneyToSavings(savings, username, goalId, amount).Ok?
    ensures var before := GetUserSavingsGoals(savings, username);
      var after := GetUserSavingsGoals(AddMoneyToSavings(savings, username, goalId, amount).value, username);
      var i := FindGoal(before, goalId).value;
      && after == RereadAll(TopUp(before, i, amount))
      && |after| == |before|
      && Value(after[i].current) == Value(before[i].current) + Value(amount)
      && (forall j | 0 <= j < |before| :: after[j].id == before[j].id && Value(after[j].target) == Value(before[j].target))
      && (forall j | 0 <= j < |before| ::
            after[j].name == Reread(before[j]).name && after[j].createdOn == Reread(before[j]).createdOn)
      && (forall j | 0 <= j < |before| && j != i :: Value(after[j].current) == Value(before[j].current))
  {
    var before := GetUserSavingsGoals(savings, username);
    var i := FindGoal(before, goalId).value;
    ReadAfterWrite(savings, username, TopUp(before, i, amount));
    ToppedRereads(before, i, amount);
  }

  /** Rereading a list after a top-up of the goal at `i`. */
  lemma ToppedRereads(before: seq<Goal>, i: nat, amount: Decimal)
    requires i < |before|
    ensures var after := RereadAll(TopUp(before, i, amount));
      && |after| == |before|
      && Value(after[i].current) == Value(before[i].current) + Value(amount)
      && (forall j | 0 <= j < |before| :: after[j].id == before[j].id && Value(after[j].target) == Value(before[j].target))
      && (forall j | 0 <= j < |before| ::
            after[j].name == Reread(before[j]).name && after[j].createdOn == Reread(before[j]).createdOn)
      && (forall j | 0 <= j < |before| && j != i :: Value(after[j].current) == Value(before[j].current))
  {
  }

  /** The goals without any goal carrying the id. */
  function WithoutId(goals: seq<Goal>, id: int): (r: seq<Goal>)
    ensures forall g :: g in r <==> g in goals && g.id != id
    ensures (forall g | g in goals :: g.id != id) ==> r == goals
  {
    if |goals| == 0 then []
    else
      var rest := WithoutId(goals[1..], id);
      assert forall g | g in goals :: g == goals[0] || g in goals[1..];
      if goals[0].id == id then rest
      else
        assert goals == [goals[0]] + goals[1..];
        [goals[0]] + rest
  }

  /** Dropping the goals with the id keeps the rest in order: it distributes
      over concatenation, and a single goal is kept exactly when its id differs. */
  lemma {:induction false} WithoutIdConcat(a: seq<Goal>, b: seq<Goal>, id: int)
    ensures WithoutId(a + b, id) == WithoutId(a, id) + WithoutId(b, id)
    ensures |a| == 1 ==> WithoutId(a, id) == if a[0].id == id then [] else a
  {
    if |a| > 0 {
      assert (a + b)[0] == a[0];
      assert (a + b)[1..] == a[1..] + b;
      WithoutIdConcat(a[1..], b, id);
    } else {
      assert a + b == b;
    }
  }

  /** `delete_savings_goal`: the id is the integer typed. */
  function DeleteSavingsGoal(savings: Table, username: string, goalId: int): (r: Result<Table, SavingsError>)
    ensures r.Err? <==> GetUserSavingsGoals(savings, username) == []
    ensures r.Err? ==> r.error == NoGoals
    ensures var goals := GetUserSavingsGoals(savings, username);
      r.Ok? ==> r.value == WriteUserSavingsGoals(savings, username, WithoutId(goals, goalId))
  {
    var goals := GetUserSavingsGoals(savings, username);
    if goals == [] then Err(NoGoals)
    else Ok(WriteUserSavingsGoals(savings, username, WithoutId(goals, goalId)))
  }

  /** After a deletion the user's goals read back as the goals without the id,
      in order: none has the id, and every goal with another id is still there,
      as the file stores it. */
  lemma DeletionRemovesId(savings: Table, username: string, goalId: int)
    requires Headed(savings)
    requires DeleteSavingsGoal(savings, username, goalId).Ok?
    ensures var before := GetUserSavingsGoals(savings, username);
      var after := GetUserSavingsGoals(DeleteSavingsGoal(savings, username, goalId).value, username);
      && after == RereadAll(WithoutId(before, goalId))
      && (forall g | g in after :: g.id != goalId)
      && (forall g | g in before && g.id != goalId :: Reread(g) in after)
  {
    var before := GetUserSavingsGoals(savings, username);
    ReadAfterWrite(savings, username, WithoutId(before, goalId));
    KeptRereads(before, goalId);
  }

  /** Rereading a list after the goals with the id are dropped. */
  lemma KeptRereads(before: seq<Goal>, id: int)
    ensures var after := RereadAll(WithoutId(before, id));
      && (forall g | g in after :: g.id != id)
      && (forall g | g in before && g.id != id :: Reread(g) in after)
  {
    var kept := WithoutId(before, id);
    var after := RereadAll(kept);
    forall g | g in after ensures g.id != id {
      var j :| 0 <= j < |after| && after[j] == g;
      assert kept[j] in kept;
    }
    forall g | g in before && g.id != id ensures Reread(g) in after {
      var j :| 0 <= j < |kept| && kept[j] == g;
      assert after[j] == Reread(g);
    }
  }

  /** Deleting an id no goal has rewrites the user's goals unchanged. */
  lemma DeletingAbsentIdKeepsGoals(savings: Table, username: string, goalId: int)
    requires Headed(savings)
    requires forall g | g in GetUserSavingsGoals(savings, username) :: g.id != goalId
    requires DeleteSavingsGoal(savings, username, goalId).Ok?
    ensures GetUserSavingsGoals(DeleteSavingsGoal(savings, username, goalId).value, username)
         == RereadAll(GetUserSavingsGoals(savings, username))
  {
    ReadAfterWrite(savings, username, GetUserSavingsGoals(savings, username));
  }

  /** Ids are not reserved: with goals 1 and 2, deleting 2 and creating a goal
      gives the new goal id 2 again. */
  lemma DeletedNewestIdIsReused(today: string)
    ensures var one := Goal(1, Some("Phone"), Decimal(500, 0), Decimal(0, 1), Some(today));
      var two := Goal(2, Some("Trip"), Decimal(900, 0), Decimal(0, 1), Some(today));
      NextGoalId(WithoutId([one, two], 2)) == 2
  {
    var one := Goal(1, Some("Phone"), Decimal(500, 0), Decimal(0, 1), Some(today));
    var two := Goal(2, Some("Trip"), Decimal(900, 0), Decimal(0, 1), Some(today));
    assert WithoutId([one, two], 2) == [one];
  }
}
