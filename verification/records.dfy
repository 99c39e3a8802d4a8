/** The record store: every ledger file as the rows `csv.reader` yields, the
    column lookup `csv.DictReader` performs, and the header repair each
    `initialize_*_file` runs at start-up. A missing file reads as no rows. */
module Records {
  import opened Wrappers
  import opened Text

  type Row = seq<string>
  type Table = seq<Row>

  const PasswordHeader: Row := ["username", "password"]
  const UserdataHeader: Row := ["First Name", "Last Name", "Age", "Email", "Username"]
  const ExpenseHeader: Row := ["date", "amount", "category", "description", "payment_mode"]
  const BudgetHeader: Row := ["username", "month", "budget_amount", "alerted_50", "alerted_80", "alerted_exceeded"]
  const SavingsHeader: Row := ["username", "goal_id", "goal_name", "target_amount", "current_amount", "created_on"]

  /** What `DictReader` yields for one key of one row: the key is not a column
      (`row[key]` raises, `row.get(key, d)` gives `d`), the row is too short to
      reach the column (the value is `None`), or the field's text. */
  datatype Cell = Missing | Null | Val(text: string)

  /** `dict(zip(header, row))` padded with `None`: the last column named `key` wins. */
  function Lookup(header: Row, row: Row, key: string): (c: Cell)
    ensures c.Missing? <==> key !in header
    ensures c.Val? ==> exists j | 0 <= j < |header| && j < |row| :: header[j] == key && row[j] == c.text
  {
    match LastIndexOf(header, key)
    case None => Missing
    case Some(j) => if j < |row| then Val(row[j]) else Null
  }

  predicate DistinctColumns(header: Row)
  {
    forall i, j | 0 <= i < j < |header| :: header[i] != header[j]
  }

  /** Under a header with distinct column names, a lookup reads the column's position. */
  lemma LookupColumn(header: Row, row: Row, j: nat)
    requires DistinctColumns(header) && j < |header|
    ensures Lookup(header, row, header[j]) == if j < |row| then Val(row[j]) else Null
  {
    var k := LastIndexOf(header, header[j]).value;
    assert k == j;
  }

  lemma StandardHeadersDistinct()
    ensures DistinctColumns(PasswordHeader) && DistinctColumns(UserdataHeader)
    ensures DistinctColumns(ExpenseHeader) && DistinctColumns(BudgetHeader)
    ensures DistinctColumns(SavingsHeader)
  {
  }

  /** The data rows: everything after the header row. */
  function DataRows(table: Table): (rows: Table)
    ensures |table| > 0 ==> table == [table[0]] + rows
    ensures |table| == 0 ==> rows == []
  {
    if |table| == 0 then [] else table[1..]
  }

  /** `row.get(key, fallback)`: the fallback when the file has no such column,
      `None` when the row stops before it. */
  function GetOr(c: Cell, fallback: string): Option<string>
  {
    match c
    case Missing => Some(fallback)
    case Null => None
    case Val(s) => Some(s)
  }

  /** `row.get(key)`: `None` when the column is absent or the row stops before it. */
  function Get(c: Cell): Option<string>
  {
    match c
    case Val(s) => Some(s)
    case _ => None
  }

  /** `None` as `csv.writer` writes it: an empty field. */
  function NoneAsEmpty(o: Option<string>): string
  {
    match o
    case None => ""
    case Some(s) => s
  }

  predicate Blank(line: string) { Strip(line) == "" }

  function CountNonBlank(lines: seq<string>): nat
  {
    if |lines| == 0 then 0 else (if Blank(lines[0]) then 0 else 1) + CountNonBlank(lines[1..])
  }

  /** The rows the repair writes back: each non-blank line, stripped and split on commas. */
  function KeptRows(lines: seq<string>): (r: Table)
    ensures |r| == CountNonBlank(lines)
  {
    if |lines| == 0 then []
    else (if Blank(lines[0]) then [] else [Split(Strip(lines[0]), ',')]) + KeptRows(lines[1..])
  }

  /** Line `i`, when not blank, lands right after the non-blank lines before it. */
  lemma {:induction false} KeptRowPosition(lines: seq<string>, i: nat)
    requires i < |lines| && !Blank(lines[i])
    ensures CountNonBlank(lines[..i]) < |KeptRows(lines)|
    ensures KeptRows(lines)[CountNonBlank(lines[..i])] == Split(Strip(lines[i]), ',')
  {
    var head := if Blank(lines[0]) then [] else [Split(Strip(lines[0]), ',')];
    assert KeptRows(lines) == head + KeptRows(lines[1..]);
    if i > 0 {
      KeptRowPosition(lines[1..], i - 1);
      assert lines[..i][1..] == lines[1..][..i - 1];
      assert CountNonBlank(lines[..i]) == |head| + CountNonBlank(lines[1..][..i - 1]);
    }
  }

  lemma KeptRowPositions(lines: seq<string>)
    ensures forall i | 0 <= i < |lines| && !Blank(lines[i]) ::
      CountNonBlank(lines[..i]) < |KeptRows(lines)| && KeptRows(lines)[CountNonBlank(lines[..i])] == Split(Strip(lines[i]), ',')
  {
    forall i | 0 <= i < |lines| && !Blank(lines[i])
      ensures CountNonBlank(lines[..i]) < |KeptRows(lines)| && KeptRows(lines)[CountNonBlank(lines[..i])] == Split(Strip(lines[i]), ',')
    {
      KeptRowPosition(lines, i);
    }
  }

  /** `initialize_*_file` on a file's lines: `None` when the file is left as it
      is, or the rows it is rewritten to. A missing file reads as no lines. */
  function RepairHeader(header: Row, lines: seq<string>): (r: Option<Table>)
    ensures r.None? <==> |lines| > 0 && Split(Strip(lines[0]), ',') == header
    ensures r.Some? ==> |r.value| == 1 + CountNonBlank(lines) && r.value[0] == header
    ensures |lines| == 0 ==> r == Some([header])
  {
    if |lines| == 0 then Some([header])
    else if Split(Strip(lines[0]), ',') == header then None
    else Some([header] + KeptRows(lines))
  }

  /** A rewrite keeps every non-blank line, the old first line included, in its
      original order: line `i` becomes row `1 + (non-blank lines before it)`. */
  lemma RepairKeepsLines(header: Row, lines: seq<string>)
    requires RepairHeader(header, lines).Some?
    ensures var rows := RepairHeader(header, lines).value;
      forall i | 0 <= i < |lines| && !Blank(lines[i]) ::
        1 + CountNonBlank(lines[..i]) < |rows| && rows[1 + CountNonBlank(lines[..i])] == Split(Strip(lines[i]), ',')
  {
    KeptRowPositions(lines);
  }

  /** The lines `csv.writer` writes for rows whose fields hold no comma or quote. */
  function Render(table: Table): (lines: seq<string>)
    ensures |lines| == |table|
    ensures forall i | 0 <= i < |table| :: lines[i] == Join(table[i], ',')
  {
    if |table| == 0 then [] else [Join(table[0], ',')] + Render(table[1..])
  }

  /** A header the repair can read back: comma-free names, no blanks at either end of its line. */
  predicate CleanHeader(header: Row)
  {
    && |header| >= 1
    && (forall i | 0 <= i < |header| :: ',' !in header[i])
    && |header[0]| > 0 && !IsSpace(header[0][0])
    && var last := header[|header| - 1]; |last| > 0 && !IsSpace(last[|last| - 1])
  }

  /** A joined line ends with the last field. */
  lemma {:induction false} JoinEnd(fields: seq<string>, sep: char)
    requires |fields| >= 1 && |fields[|fields| - 1]| > 0
    ensures var line := Join(fields, sep); var last := fields[|fields| - 1];
      |line| > 0 && line[|line| - 1] == last[|last| - 1]
  {
    if |fields| > 1 {
      JoinEnd(fields[1..], sep);
    }
  }

  lemma StandardHeadersClean()
    ensures CleanHeader(PasswordHeader) && CleanHeader(UserdataHeader)
    ensures CleanHeader(ExpenseHeader) && CleanHeader(BudgetHeader)
    ensures CleanHeader(SavingsHeader)
  {
    AccountHeadersClean();
    ExpenseHeaderClean();
    BudgetHeaderClean();
    SavingsHeaderClean();
  }

  lemma AccountHeadersClean()
    ensures CleanHeader(PasswordHeader) && CleanHeader(UserdataHeader)
  {
  }

  lemma ExpenseHeaderClean() ensures CleanHeader(ExpenseHeader) { }

  lemma BudgetHeaderClean() ensures CleanHeader(BudgetHeader) { }

  lemma SavingsHeaderClean() ensures CleanHeader(SavingsHeader) { }

  /** A file whose first row is the header is left alone by the repair. */
  lemma {:induction false} RepairKeepsHeadedFile(header: Row, table: Table)
    requires CleanHeader(header)
    requires |table| > 0 && table[0] == header
    ensures RepairHeader(header, Render(table)).None?
  {
    var line := Join(header, ',');
    JoinEnd(header, ',');
    assert line[0] == header[0][0];
    assert Render(table)[0] == line;
    assert TrimLeft(line) == line;
    assert TrimRight(line) == line;
    SplitJoin(header, ',');
  }

  /** Repairing twice is repairing once: the rewritten file passes the next start-up untouched. */
  lemma RepairIsIdempotent(header: Row, lines: seq<string>)
    requires CleanHeader(header)
    requires RepairHeader(header, lines).Some?
    ensures RepairHeader(header, Render(RepairHeader(header, lines).value)).None?
  {
    RepairKeepsHeadedFile(header, RepairHeader(header, lines).value);
  }
}
