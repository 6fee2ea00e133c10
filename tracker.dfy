/**
 * The view state of the finance tracker window: which table is shown (expenses or
 * earnings), the selected record, the two mode-switch buttons, the money entry, and the
 * rendered record list with its total label. The database is passed in as the contents
 * of its two tables; the queries on it are functions of those contents.
 */
module Tracker {
  import opened Options
  import opened Money

  /** The two record tables; the window shows one of them at a time. */
  datatype ViewMode = Expenses | Earnings

  /** The table a mode switch goes to. */
  function Other(mode: ViewMode): (r: ViewMode)
    ensures r != mode
  {
    match mode
    case Expenses => Earnings
    case Earnings => Expenses
  }

  /** Switching twice comes back to the table shown before. */
  lemma OtherTwice(mode: ViewMode)
    ensures Other(Other(mode)) == mode
  {
  }

  /** A row as the store returns it: `(id, name, money, date)`; money may be NULL. */
  datatype StoredRow = StoredRow(id: int, name: string, money: Option<int>, date: string)

  /** A row as the record list shows it, the money formatted. */
  datatype ShownRow = ShownRow(id: int, name: string, money: string, date: string)

  /** The contents of the two tables of the database, each in the order `SELECT *` returns. */
  datatype Store = Store(expenses: seq<StoredRow>, earnings: seq<StoredRow>) {
    /** `SELECT * FROM {mode}`. */
    function Table(mode: ViewMode): seq<StoredRow> {
      match mode
      case Expenses => expenses
      case Earnings => earnings
    }
  }

  /** SQL addition for `SUM`: NULL values are skipped. */
  function AddNullable(a: Option<int>, b: Option<int>): Option<int> {
    match (a, b)
    case (None, _) => b
    case (_, None) => a
    case (Some(x), Some(y)) => Some(x + y)
  }

  /** `SELECT SUM(money)`: NULL when no row has a money value, else the sum of those values. */
  function SqlSum(rows: seq<StoredRow>): Option<int> {
    if rows == [] then None else AddNullable(rows[0].money, SqlSum(rows[1..]))
  }

  /** Sum of the non-NULL money values, an independent reading of `SUM`. */
  function MoneyTotal(rows: seq<StoredRow>): int {
    if rows == [] then 0
    else (if rows[0].money.Some? then rows[0].money.value else 0) + MoneyTotal(rows[1..])
  }

  /**
   * `SUM` is NULL exactly when every money value is NULL (an empty table in particular);
   * otherwise it is the total of the non-NULL values.
   */
  lemma {:induction false} SqlSumNullIff(rows: seq<StoredRow>)
    ensures SqlSum(rows) == None <==> forall i :: 0 <= i < |rows| ==> rows[i].money == None
    ensures MoneyTotal(rows) == if SqlSum(rows).Some? then SqlSum(rows).value else 0
  {
    if rows != [] {
      SqlSumNullIff(rows[1..]);
      assert forall i :: 1 <= i < |rows| ==> rows[i] == rows[1..][i - 1];
    }
  }

  /** How a stored row is shown: same id, name and date, the cents formatted as money. */
  function Shown(row: StoredRow): ShownRow {
    ShownRow(row.id, row.name, FormatFromCents(row.money), row.date)
  }

  /** The total label: "Kopā: " and the formatted sum (NULL for an empty table shows 0.00). */
  function TotalLabel(total: Option<int>): string {
    "Kopā: " + FormatFromCents(total)
  }

  /** A table with no rows sums to NULL, and its total shows as zero. */
  lemma EmptyTotalShowsZero()
    ensures SqlSum([]) == None && TotalLabel(SqlSum([])) == "Kopā: 0.00"
  {
  }

  class FinanceTracker {
    var viewMode: ViewMode
    var selectedRecord: Option<int>
    /** Whether the "show expenses" button can be pressed. */
    var expensesSwitchEnabled: bool
    /** Whether the "show earnings" button can be pressed. */
    var earningsSwitchEnabled: bool
    var moneyEntry: string
    var rows: seq<ShownRow>
    var totalText: string

    /** The button leading to the shown table is disabled, the other one enabled. */
    ghost predicate Valid()
      reads this
    {
      expensesSwitchEnabled == (viewMode == Earnings) &&
      earningsSwitchEnabled == (viewMode == Expenses)
    }

    /** The list shows exactly `stored`, in order, and the label shows its `SUM`. */
    ghost predicate Shows(stored: seq<StoredRow>)
      reads this
    {
      |rows| == |stored| &&
      (forall i :: 0 <= i < |stored| ==> rows[i] == Shown(stored[i])) &&
      totalText == TotalLabel(SqlSum(stored))
    }

    /**
     * The window as it opens: expenses shown, nothing selected, the expenses button
     * disabled, the entry prefilled with "1.23", and the expenses table rendered.
     */
    constructor (store: Store)
      ensures Valid()
      ensures viewMode == Expenses && selectedRecord == None && moneyEntry == "1.23"
      ensures Shows(store.expenses)
    {
      viewMode := Expenses;
      selectedRecord := None;
      expensesSwitchEnabled := false;
      earningsSwitchEnabled := true;
      moneyEntry := "1.23";
      new;
      RefreshView(store);
    }

    /**
     * `switch_view_state`: clear the selection, show the other table, swap which button is
     * enabled, and render the new table of `store`.
     */
    method SwitchViewState(store: Store)
      modifies this`viewMode, this`selectedRecord, this`expensesSwitchEnabled,
        this`earningsSwitchEnabled, this`rows, this`totalText
      ensures viewMode == Other(old(viewMode)) && selectedRecord == None
      ensures Valid()
      ensures Shows(store.Table(viewMode))
      ensures moneyEntry == old(moneyEntry)
    {
      selectedRecord := None;
      if viewMode == Expenses {
        viewMode := Earnings;
        expensesSwitchEnabled := true;
        earningsSwitchEnabled := false;
      } else {
        viewMode := Expenses;
        expensesSwitchEnabled := false;
        earningsSwitchEnabled := true;
      }
      RefreshView(store);
    }

    /**
     * `select_record`: the focused row of the list (`None` when no row has the focus) gives
     * its id as the selection; with no focused row the selection stays as it was.
     */
    method SelectRecord(focus: Option<nat>)
      requires focus.Some? ==> focus.value < |rows|
      modifies this`selectedRecord
      ensures selectedRecord == if focus.Some? then Some(rows[focus.value].id) else old(selectedRecord)
    {
      if focus.Some? {
        selectedRecord := Some(rows[focus.value].id);
      }
    }

    /**
     * `refresh_view`: the rows and the `SUM` of the shown table are queried, the label is
     * set, the old rows are dropped and every stored row is appended in order.
     */
    method RefreshView(store: Store)
      modifies this`rows, this`totalText
      ensures Shows(store.Table(viewMode))
    {
      var stored := store.Table(viewMode);
      var total := SqlSum(stored);
      totalText := "Kopā: " + FormatFromCents(total);
      rows := [];
      for i := 0 to |stored|
        invariant totalText == TotalLabel(SqlSum(stored))
        invariant |rows| == i
        invariant forall j :: 0 <= j < i ==> rows[j] == Shown(stored[j])
      {
        var row := stored[i];
        rows := rows + [ShownRow(row.id, row.name, FormatFromCents(row.money), row.date)];
      }
    }

    /**
     * `on_validate_money_entry`: when the entry loses focus, text that is not a valid
     * amount is cleared and `false` returned; valid text is kept and `true` returned.
     */
    method OnValidateMoneyEntry() returns (ok: bool)
      modifies this`moneyEntry
      ensures ok == ValidateDecimal(old(moneyEntry))
      ensures moneyEntry == if ok then old(moneyEntry) else ""
    {
      ok := ValidateDecimal(moneyEntry);
      if !ok {
        moneyEntry := "";
      }
    }
  }

  /** Switching twice shows the first table again, with nothing selected and buttons consistent. */
  method SwitchTwice(t: FinanceTracker, store: Store)
    modifies t
    ensures t.viewMode == old(t.viewMode) && t.selectedRecord == None && t.Valid()
    ensures t.Shows(store.Table(old(t.viewMode)))
    ensures t.moneyEntry == old(t.moneyEntry)
  {
    t.SwitchViewState(store);
    t.SwitchViewState(store);
    OtherTwice(old(t.viewMode));
  }
}
