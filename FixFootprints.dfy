/** The footprint column fix: when a table has both an `NBots` and an
    `Instance` column, every row's instance becomes `f"{Instance}r{NBots}"`;
    otherwise the table is left alone and only a warning is given. */
module FixFootprints {
  import opened Naming

  /** A cell as read from the `;`-separated file: text or an integer. */
  datatype Cell = Str(s: string) | Int(i: int)

  /** A table: its column names and one map per row from column name to cell. */
  datatype Table = Table(columns: seq<string>, rows: seq<map<string, Cell>>)

  /** What the script does with one file. */
  datatype Outcome = Rewritten(table: Table) | MissingColumns

  const InstanceColumn: string := "Instance"
  const NBotsColumn: string := "NBots"

  /** Every row has exactly the table's columns, as in a data frame. */
  predicate WellFormed(t: Table) {
    forall r :: r in t.rows ==> r.Keys == set c | c in t.columns
  }

  /** `str(cell)` as the f-string renders it. */
  function CellText(c: Cell): string {
    match c
    case Str(s) => s
    case Int(i) => IntToString(i)
  }

  /** The new cell of one row: `f"{row['Instance']}r{row['NBots']}"`. */
  function FixedInstance(row: map<string, Cell>): Cell
    requires InstanceColumn in row && NBotsColumn in row
  {
    Str(CellText(row[InstanceColumn]) + "r" + CellText(row[NBotsColumn]))
  }

  /** The rewrite of one file. It happens exactly when both columns exist;
      then the row count, the row order, the columns and every cell outside
      `Instance` are kept, and each instance gets "r" and the bot count
      appended. */
  function Fix(t: Table): (out: Outcome)
    requires WellFormed(t)
    ensures out.Rewritten? <==> InstanceColumn in t.columns && NBotsColumn in t.columns
    ensures out.Rewritten? ==>
      && out.table.columns == t.columns
      && |out.table.rows| == |t.rows|
      && WellFormed(out.table)
      && forall i :: 0 <= i < |t.rows| ==>
           && InstanceColumn in t.rows[i] && NBotsColumn in t.rows[i]
           && out.table.rows[i][InstanceColumn] ==
                Str(CellText(t.rows[i][InstanceColumn]) + "r" + CellText(t.rows[i][NBotsColumn]))
           && forall c :: c in t.rows[i] && c != InstanceColumn ==>
                c in out.table.rows[i] && out.table.rows[i][c] == t.rows[i][c]
  {
    if InstanceColumn in t.columns && NBotsColumn in t.columns then
      assert forall i :: 0 <= i < |t.rows| ==> t.rows[i] in t.rows;
      Rewritten(Table(t.columns, seq(|t.rows|, i requires 0 <= i < |t.rows| =>
        t.rows[i][InstanceColumn := FixedInstance(t.rows[i])])))
    else
      MissingColumns
  }

  /** Stripping the last 'r' from a rewritten instance gives back the old
      instance text: an integer bot count prints without an 'r'. */
  lemma FixStripsBack(t: Table, i: nat)
    requires WellFormed(t) && i < |t.rows|
    requires Fix(t).Rewritten?
    requires NBotsColumn in t.rows[i] && t.rows[i][NBotsColumn].Int?
    ensures InstanceColumn in t.rows[i]
    ensures StripSuffix(CellText(Fix(t).table.rows[i][InstanceColumn])) == CellText(t.rows[i][InstanceColumn])
  {
    var row := t.rows[i];
    StripAppended(CellText(row[InstanceColumn]), IntToString(row[NBotsColumn].i));
  }
}
