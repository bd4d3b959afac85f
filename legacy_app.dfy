/**
 * The balance-update rules of the legacy single-screen application in
 * src/ynab_updater/screens.py (`UpdaterApp.on_account_balance_update`,
 * `UpdaterApp.on_update_all_pressed`) and its row widget in
 * src/ynab_updater/widgets.py (`AccountRow`). Notifications, logging,
 * the confirmation dialog and the YNAB request are not modelled: the
 * user's answer and whether the request succeeded are parameters, and
 * the transactions sent are recorded in `sent`.
 */
module LegacyApp {
  import opened Wrappers
  import opened Text
  import opened Config
  import opened LegacyCodec

  /** The fields of a YNAB account the screen reads and writes. */
  datatype LedgerAccount = LedgerAccount(name: string, balance: int)

  /** Why a single update stops before the confirmation dialog. */
  datatype Refusal = NotReady | AccountMissing | InvalidFormat | NoAdjustmentNeeded

  /** One entry of `updates_to_make`: id, name, current balance, new balance, adjustment. */
  datatype PlannedUpdate = PlannedUpdate(accountId: string, accountName: string, currentBalance: int,
                                         newBalance: int, adjustment: int)

  /** A transaction payload sent to YNAB; the date is always today and the payee always the same. */
  datatype Transaction = Transaction(accountId: string, amount: int, cleared: ClearedStatus, memo: string)

  /** What the bulk update reads from one row: its account and the text in its input. */
  datatype RowInput = RowInput(accountId: string, input: string)

  /** The message a row posts when its Update button is pressed. */
  datatype BalanceUpdate = BalanceUpdate(accountId: string, newBalanceText: string)

  // ------------------------------------------------------------ the single update

  /**
   * `on_account_balance_update` up to the confirmation dialog: refused
   * while the screen is loading or unconfigured, for an unknown account,
   * for text the legacy parser rejects and for an unchanged balance.
   */
  function PlanSingle(ready: bool, accounts: map<string, LedgerAccount>, accountId: string, text: string)
    : (r: Result<PlannedUpdate, Refusal>)
    ensures r.Success? <==> && ready && accountId in accounts && LegacyParse(text).Some?
                            && LegacyParse(text).value != accounts[accountId].balance
    ensures r == Failure(NotReady) <==> !ready
    ensures r == Failure(AccountMissing) <==> ready && accountId !in accounts
    ensures r == Failure(InvalidFormat) <==> ready && accountId in accounts && LegacyParse(text).None?
    ensures r.Success? ==> && r.value.accountId == accountId
                           && r.value.accountName == accounts[accountId].name
                           && r.value.currentBalance == accounts[accountId].balance
                           && Some(r.value.newBalance) == LegacyParse(text)
                           && r.value.adjustment == r.value.newBalance - r.value.currentBalance
                           && r.value.adjustment != 0
  {
    if !ready then Failure(NotReady)
    else if accountId !in accounts then Failure(AccountMissing)
    else
      match LegacyParse(text)
      case None => Failure(InvalidFormat)
      case Some(newBalance) =>
        var account := accounts[accountId];
        var adjustment := newBalance - account.balance;
        if adjustment == 0 then Failure(NoAdjustmentNeeded)
        else Success(PlannedUpdate(accountId, account.name, account.balance, newBalance, adjustment))
  }

  /** On a ready screen, a whole-cent balance as the row shows it, typed back in, asks for no adjustment. */
  lemma ShownBalanceNeedsNoAdjustment(accounts: map<string, LedgerAccount>, accountId: string)
    requires accountId in accounts && accounts[accountId].balance % 10 == 0
    ensures PlanSingle(true, accounts, accountId, LegacyFormatDefault(accounts[accountId].balance))
            == Failure(NoAdjustmentNeeded)
  {
    LegacyRoundTripExact(accounts[accountId].balance, "$", true);
  }

  /**
   * A balance with a fraction of a cent is shown cut to whole cents, so the
   * shown text typed back in asks to adjust the balance to the cut amount.
   */
  lemma ShownSubCentBalanceIsAdjusted(accounts: map<string, LedgerAccount>, accountId: string)
    requires accountId in accounts && accounts[accountId].balance % 10 != 0
    ensures var r := PlanSingle(true, accounts, accountId, LegacyFormatDefault(accounts[accountId].balance));
            r.Success? && r.value.newBalance == TruncatedToCents(accounts[accountId].balance)
  {
    LegacyRoundTrip(accounts[accountId].balance, "$", true);
  }

  /** Once an update is applied, asking for the same balance again asks for no adjustment. */
  lemma ReplanAfterApplyIsRefused(accounts: map<string, LedgerAccount>, accountId: string, text: string)
    requires PlanSingle(true, accounts, accountId, text).Success?
    ensures var u := PlanSingle(true, accounts, accountId, text).value;
            PlanSingle(true, Apply(accounts, u), accountId, text) == Failure(NoAdjustmentNeeded)
  {
  }

  /** `account.balance = new_bal` for an account still known to the screen. */
  function Apply(accounts: map<string, LedgerAccount>, u: PlannedUpdate): (r: map<string, LedgerAccount>)
    ensures r.Keys == accounts.Keys
    ensures forall id :: id in r ==> r[id].name == accounts[id].name
    ensures u.accountId in accounts ==> r[u.accountId].balance == u.newBalance
    ensures forall id :: id in r && id != u.accountId ==> r[id] == accounts[id]
  {
    if u.accountId in accounts then accounts[u.accountId := accounts[u.accountId].(balance := u.newBalance)]
    else accounts
  }

  // ------------------------------------------------------------ collecting the bulk update

  /** An update that moves a known account from its balance to a different one. */
  predicate PlannedFrom(accounts: map<string, LedgerAccount>, u: PlannedUpdate)
  {
    && u.accountId in accounts
    && u.accountName == accounts[u.accountId].name
    && u.currentBalance == accounts[u.accountId].balance
    && u.adjustment == u.newBalance - u.currentBalance
    && u.adjustment != 0
  }

  /** The rule of `on_update_all_pressed` for one row: blank input, unknown account, bad text or no change give nothing. */
  function Plan(accounts: map<string, LedgerAccount>, row: RowInput): (r: Option<PlannedUpdate>)
    ensures r.Some? ==> && r.value.accountId == row.accountId && PlannedFrom(accounts, r.value)
                        && LegacyParse(Strip(row.input, WHITESPACE)) == Some(r.value.newBalance)
  {
    var text := Strip(row.input, WHITESPACE);
    if text == [] || row.accountId !in accounts then None
    else
      match LegacyParse(text)
      case None => None
      case Some(newBalance) =>
        var account := accounts[row.accountId];
        var adjustment := newBalance - account.balance;
        if adjustment != 0 then Some(PlannedUpdate(row.accountId, account.name, account.balance, newBalance, adjustment))
        else None
  }

  lemma StripTwice(s: string)
    ensures Strip(Strip(s, WHITESPACE), WHITESPACE) == Strip(s, WHITESPACE)
  {
    StripUnchanged(Strip(s, WHITESPACE), WHITESPACE);
  }

  /**
   * The bulk rule of a row agrees with the single-update rule on the
   * row's trimmed text: the two handlers accept the same rows and plan
   * the same adjustment.
   */
  lemma PlanAgreesWithSingle(accounts: map<string, LedgerAccount>, row: RowInput)
    ensures var single := PlanSingle(true, accounts, row.accountId, Strip(row.input, WHITESPACE));
            && (Plan(accounts, row).Some? <==> single.Success?)
            && (single.Success? ==> Plan(accounts, row) == Some(single.value))
  {
    var text := Strip(row.input, WHITESPACE);
    if text == [] {
      assert AllIn(text, WHITESPACE);
      LegacyParseBlank(text);
    } else {
      StripTwice(row.input);
      assert LegacyParse(text) == ParseCleaned(Remove(text, SYMBOL_CHARS));
    }
  }

  /** `updates_to_make`: the planned updates of the rows, in row order. */
  function Collected(accounts: map<string, LedgerAccount>, rows: seq<RowInput>): (r: seq<PlannedUpdate>)
    ensures |r| <= |rows|
    ensures forall k :: 0 <= k < |r| ==> PlannedFrom(accounts, r[k])
    decreases |rows|
  {
    if rows == [] then []
    else
      var front := Collected(accounts, rows[..|rows| - 1]);
      var last := rows[|rows| - 1];
      assert forall i :: 0 <= i < |rows| - 1 ==> rows[..|rows| - 1][i] == rows[i];
      match Plan(accounts, last)
      case None => front
      case Some(u) => front + [u]
  }

  /** Every row whose rule gives an update is in the collection. */
  lemma {:induction false} CollectedComplete(accounts: map<string, LedgerAccount>, rows: seq<RowInput>, i: int)
    requires 0 <= i < |rows| && Plan(accounts, rows[i]).Some?
    ensures Plan(accounts, rows[i]).value in Collected(accounts, rows)
    decreases |rows|
  {
    if i < |rows| - 1 {
      var front := rows[..|rows| - 1];
      assert front[i] == rows[i];
      CollectedComplete(accounts, front, i);
    }
  }

  /** Every collected update is the rule's result for one of the rows. */
  lemma {:induction false} CollectedSound(accounts: map<string, LedgerAccount>, rows: seq<RowInput>, k: int)
    requires 0 <= k < |Collected(accounts, rows)|
    ensures exists i :: 0 <= i < |rows| && Plan(accounts, rows[i]) == Some(Collected(accounts, rows)[k])
    decreases |rows|
  {
    var front := rows[..|rows| - 1];
    var c := Collected(accounts, front);
    var u := Collected(accounts, rows)[k];
    if k < |c| {
      CollectedSound(accounts, front, k);
      assert u == c[k];
      var i :| 0 <= i < |front| && Plan(accounts, front[i]) == Some(c[k]);
      assert rows[i] == front[i];
    } else {
      assert Plan(accounts, rows[|rows| - 1]) == Some(u);
    }
  }

  /** "No accounts have new balances entered" exactly when no row's rule gives an update. */
  lemma {:induction false} CollectedEmpty(accounts: map<string, LedgerAccount>, rows: seq<RowInput>)
    ensures Collected(accounts, rows) == [] <==> forall i :: 0 <= i < |rows| ==> Plan(accounts, rows[i]).None?
  {
    if Collected(accounts, rows) == [] {
      forall i | 0 <= i < |rows| ensures Plan(accounts, rows[i]).None? {
        if Plan(accounts, rows[i]).Some? {
          CollectedComplete(accounts, rows, i);
        }
      }
    } else {
      CollectedSound(accounts, rows, 0);
    }
  }

  /** The loop of `on_update_all_pressed` that fills `updates_to_make`. */
  method CollectUpdates(accounts: map<string, LedgerAccount>, rows: seq<RowInput>) returns (updates: seq<PlannedUpdate>)
    ensures updates == Collected(accounts, rows)
  {
    updates := [];
    var i := 0;
    while i < |rows|
      invariant 0 <= i <= |rows|
      invariant updates == Collected(accounts, rows[..i])
    {
      assert rows[..i + 1][..i] == rows[..i];
      var planned := Plan(accounts, rows[i]);
      if planned.Some? {
        updates := updates + [planned.value];
      }
      i := i + 1;
    }
    assert rows[..|rows|] == rows;
  }

  // ------------------------------------------------------------ applying the bulk update

  /** The payloads of `create_transactions`, one per update, in order. */
  function Payloads(updates: seq<PlannedUpdate>, cleared: ClearedStatus, memo: string): (r: seq<Transaction>)
    ensures |r| == |updates|
    ensures forall k :: 0 <= k < |r| ==> r[k] == Transaction(updates[k].accountId, updates[k].adjustment, cleared, memo)
  {
    seq(|updates|, k requires 0 <= k < |updates| => Transaction(updates[k].accountId, updates[k].adjustment, cleared, memo))
  }

  /** The accounts after `account.balance = new_bal` for each update in turn. */
  function AppliedAll(accounts: map<string, LedgerAccount>, updates: seq<PlannedUpdate>): (r: map<string, LedgerAccount>)
    ensures r.Keys == accounts.Keys
    decreases |updates|
  {
    if updates == [] then accounts
    else Apply(AppliedAll(accounts, updates[..|updates| - 1]), updates[|updates| - 1])
  }

  /** Whether some update is for account `id`. */
  predicate Touched(updates: seq<PlannedUpdate>, id: string)
  {
    exists k :: 0 <= k < |updates| && updates[k].accountId == id
  }

  /** A row's balance after `row.update_balance(new_bal)` for each update in turn. */
  function BalanceAfter(updates: seq<PlannedUpdate>, id: string, before: int): (b: int)
    ensures !Touched(updates, id) ==> b == before
    decreases |updates|
  {
    if updates == [] then before
    else if updates[|updates| - 1].accountId == id then updates[|updates| - 1].newBalance
    else
      var front := updates[..|updates| - 1];
      assert forall k :: 0 <= k < |front| ==> front[k] == updates[k];
      BalanceAfter(front, id, before)
  }

  lemma TouchedSnoc(updates: seq<PlannedUpdate>, u: PlannedUpdate, id: string)
    ensures Touched(updates + [u], id) <==> Touched(updates, id) || u.accountId == id
  {
    var s := updates + [u];
    if Touched(updates, id) {
      var k :| 0 <= k < |updates| && updates[k].accountId == id;
      assert s[k] == updates[k];
    }
    if Touched(s, id) && u.accountId != id {
      var k :| 0 <= k < |s| && s[k].accountId == id;
      assert k < |updates| && updates[k] == s[k];
    }
    assert s[|updates|] == u;
  }

  /** The inputs after the rows of the updated accounts are cleared. */
  function ClearedInputs(rows: seq<RowInput>, updates: seq<PlannedUpdate>): (r: seq<RowInput>)
    ensures |r| == |rows|
    ensures forall i :: 0 <= i < |r| ==>
              r[i] == if Touched(updates, rows[i].accountId) then RowInput(rows[i].accountId, "") else rows[i]
  {
    seq(|rows|, i requires 0 <= i < |rows| =>
      if Touched(updates, rows[i].accountId) then RowInput(rows[i].accountId, "") else rows[i])
  }

  /** No two rows show the same account: a row is found by the id `account-row-<id>`. */
  predicate DistinctIds(rows: seq<RowInput>)
  {
    forall i, j :: 0 <= i < j < |rows| ==> rows[i].accountId != rows[j].accountId
  }

  /** Applying one update to the accounts changes nothing another row's rule reads. */
  lemma ApplyKeepsOtherPlan(accounts: map<string, LedgerAccount>, u: PlannedUpdate, row: RowInput)
    requires row.accountId != u.accountId
    ensures Plan(Apply(accounts, u), row) == Plan(accounts, row)
  {
    var after := Apply(accounts, u);
    assert row.accountId in after <==> row.accountId in accounts;
    if row.accountId in accounts {
      assert after[row.accountId] == accounts[row.accountId];
    }
  }

  /** Applying updates for other accounts changes nothing a row's rule reads. */
  lemma {:induction false} AppliedAllKeepsOtherPlan(accounts: map<string, LedgerAccount>, updates: seq<PlannedUpdate>,
                                                    row: RowInput)
    requires !Touched(updates, row.accountId)
    ensures Plan(AppliedAll(accounts, updates), row) == Plan(accounts, row)
    decreases |updates|
  {
    if updates != [] {
      var front := updates[..|updates| - 1];
      assert updates == front + [updates[|updates| - 1]];
      TouchedSnoc(front, updates[|updates| - 1], row.accountId);
      AppliedAllKeepsOtherPlan(accounts, front, row);
      ApplyKeepsOtherPlan(AppliedAll(accounts, front), updates[|updates| - 1], row);
    }
  }

  /**
   * A confirmed bulk update leaves nothing to update: the rows it
   * touched are cleared, and every other row's rule still gives nothing.
   */
  lemma NothingLeftToUpdate(accounts: map<string, LedgerAccount>, rows: seq<RowInput>)
    ensures var updates := Collected(accounts, rows);
            Collected(AppliedAll(accounts, updates), ClearedInputs(rows, updates)) == []
  {
    var updates := Collected(accounts, rows);
    var after := AppliedAll(accounts, updates);
    var cleared := ClearedInputs(rows, updates);
    forall i | 0 <= i < |cleared| ensures Plan(after, cleared[i]).None? {
      RowAfterUpdate(accounts, rows, i);
    }
    CollectedEmpty(after, cleared);
  }

  /** One row after the bulk update: cleared if it was updated, otherwise still asking for nothing. */
  lemma RowAfterUpdate(accounts: map<string, LedgerAccount>, rows: seq<RowInput>, i: int)
    requires 0 <= i < |rows|
    ensures var updates := Collected(accounts, rows);
            Plan(AppliedAll(accounts, updates), ClearedInputs(rows, updates)[i]).None?
  {
    var updates := Collected(accounts, rows);
    var row := ClearedInputs(rows, updates)[i];
    if Touched(updates, rows[i].accountId) {
      EmptyInputPlansNothing(AppliedAll(accounts, updates), row);
    } else {
      PlanTouches(accounts, rows, i);
      AppliedAllKeepsOtherPlan(accounts, updates, rows[i]);
    }
  }

  lemma EmptyInputPlansNothing(accounts: map<string, LedgerAccount>, row: RowInput)
    requires row.input == []
    ensures Plan(accounts, row).None?
  {
    StripEmpty(row.input);
  }

  /** A row whose rule gives an update has its account among the collected updates. */
  lemma PlanTouches(accounts: map<string, LedgerAccount>, rows: seq<RowInput>, i: int)
    requires 0 <= i < |rows|
    ensures Plan(accounts, rows[i]).Some? ==> Touched(Collected(accounts, rows), rows[i].accountId)
  {
    if Plan(accounts, rows[i]).Some? {
      CollectedComplete(accounts, rows, i);
      var updates := Collected(accounts, rows);
      var k :| 0 <= k < |updates| && updates[k] == Plan(accounts, rows[i]).value;
      assert updates[k].accountId == rows[i].accountId;
    }
  }

  lemma StripEmpty(s: string)
    requires s == []
    ensures Strip(s, WHITESPACE) == []
  {
  }

  // ------------------------------------------------------------ the row widget

  lemma WholeCentsKept(m: int)
    ensures m % 10 == 0 ==> TruncatedToCents(m) == m
  {
    if m % 10 == 0 {
      WholeTens(m);
    }
  }

  /** `AccountRow` of widgets.py: an account's balance label and the input for its new balance. */
  class LegacyRow {
    const accountId: string
    const accountName: string
    var balance: int
    /** The text in the row's input field. */
    var input: string

    constructor(accountId: string, accountName: string, currentBalance: int)
      ensures this.accountId == accountId && this.accountName == accountName
      ensures balance == currentBalance && input == ""
    {
      this.accountId := accountId;
      this.accountName := accountName;
      balance := currentBalance;
      input := "";
    }

    /** The balance label, `format_currency` with its defaults: it reads back as the balance cut to whole cents. */
    function BalanceLabel(): (shown: string)
      reads this
      ensures LegacyParse(shown) == Some(TruncatedToCents(balance))
      ensures balance % 10 == 0 ==> LegacyParse(shown) == Some(balance)
    {
      LegacyRoundTrip(balance, "$", true);
      WholeCentsKept(balance);
      LegacyFormatDefault(balance)
    }

    /** `new_balance_input_value`: the input without its outer whitespace, which reads as the input does. */
    function NewBalanceInputValue(): (text: string)
      reads this
      ensures LegacyParse(text) == LegacyParse(input)
      ensures text == Strip(text, WHITESPACE)
    {
      StripTwice(input);
      Strip(input, WHITESPACE)
    }

    /** What the bulk update reads from this row. */
    function Reading(): (r: RowInput)
      reads this
      ensures r.accountId == accountId && r.input == input
    {
      RowInput(accountId, input)
    }

    /**
     * `on_button_pressed` for the row's Update button: a non-blank input
     * is posted trimmed and the input cleared; a blank one posts nothing.
     */
    method PressUpdate() returns (message: Option<BalanceUpdate>)
      modifies this
      ensures balance == old(balance)
      ensures old(Strip(input, WHITESPACE)) == [] ==> message == None && input == old(input)
      ensures old(Strip(input, WHITESPACE)) != [] ==>
                message == Some(BalanceUpdate(accountId, old(Strip(input, WHITESPACE)))) && input == ""
    {
      var text := Strip(input, WHITESPACE);
      if text != [] {
        message := Some(BalanceUpdate(accountId, text));
        input := "";
      } else {
        message := None;
      }
    }

    /** `update_balance` */
    method UpdateBalance(newBalance: int)
      modifies this
      ensures balance == newBalance && input == old(input)
    {
      balance := newBalance;
    }
  }

  /** The readings of the rows, in order. */
  function Readings(rows: seq<LegacyRow>): (r: seq<RowInput>)
    reads rows
    ensures |r| == |rows|
    ensures forall i :: 0 <= i < |rows| ==> r[i] == RowInput(rows[i].accountId, rows[i].input)
  {
    seq(|rows|, i requires 0 <= i < |rows| reads rows => RowInput(rows[i].accountId, rows[i].input))
  }

  /** The index of the row of account `id`, `query_one("#account-row-<id>")`. */
  function RowIndex(rows: seq<LegacyRow>, id: string): (k: int)
    ensures -1 <= k < |rows|
    ensures k >= 0 ==> rows[k].accountId == id
    ensures k < 0 ==> forall i :: 0 <= i < |rows| ==> rows[i].accountId != id
    decreases |rows|
  {
    if rows == [] then -1
    else if rows[|rows| - 1].accountId == id then |rows| - 1
    else RowIndex(rows[..|rows| - 1], id)
  }

  // ------------------------------------------------------------ the screen

  /** The parts of `UpdaterApp` the two update handlers read and change. */
  class MainScreen {
    /** `selected_budget_id` and `ynab_handler` are both set. */
    const configured: bool
    const cleared: ClearedStatus
    const memo: string
    /** The mounted rows, one per account. */
    const rows: seq<LegacyRow>
    /** `accounts_data` */
    var accounts: map<string, LedgerAccount>
    /** `is_loading` */
    var loading: bool
    /** The transactions created, oldest first. */
    var sent: seq<Transaction>

    constructor(configured: bool, cleared: ClearedStatus, memo: string, rows: seq<LegacyRow>,
                accounts: map<string, LedgerAccount>)
      requires DistinctIds(Readings(rows))
      ensures this.configured == configured && this.cleared == cleared && this.memo == memo
      ensures this.rows == rows && this.accounts == accounts && !loading && sent == []
      ensures Valid()
    {
      this.configured := configured;
      this.cleared := cleared;
      this.memo := memo;
      this.rows := rows;
      this.accounts := accounts;
      loading := false;
      sent := [];
    }

    /** No two rows show the same account. */
    predicate Valid()
    {
      forall i, j :: 0 <= i < j < |rows| ==> rows[i].accountId != rows[j].accountId
    }

    /** Neither loading nor unconfigured. */
    predicate Ready()
      reads this
    {
      !loading && configured
    }

    /**
     * `on_account_balance_update` and its confirmation callback for the
     * account of `row`: the planned update is sent only when the user
     * confirms and YNAB accepts it, and then the row and the screen take
     * the new balance.
     */
    method UpdateSingle(row: LegacyRow, text: string, confirmed: bool, accepted: bool)
      returns (r: Result<PlannedUpdate, Refusal>)
      requires row in rows
      modifies this, row
      ensures r == PlanSingle(old(Ready()), old(accounts), row.accountId, text)
      ensures !(r.Success? && confirmed && accepted) ==>
                && accounts == old(accounts) && sent == old(sent) && loading == old(loading)
                && row.balance == old(row.balance)
      ensures r.Success? && confirmed && accepted ==>
                && sent == old(sent) + [Transaction(row.accountId, r.value.adjustment, cleared, memo)]
                && accounts == Apply(old(accounts), r.value)
                && row.balance == r.value.newBalance
                && !loading
      ensures row.input == old(row.input)
    {
      r := PlanSingle(Ready(), accounts, row.accountId, text);
      if r.Success? && confirmed {
        loading := true;
        if accepted {
          sent := sent + [Transaction(row.accountId, r.value.adjustment, cleared, memo)];
          row.UpdateBalance(r.value.newBalance);
          accounts := Apply(accounts, r.value);
        }
        loading := false;
      }
    }

    /**
     * `on_update_all_pressed` and its confirmation callback: the updates
     * collected from the rows are sent in one request when the user
     * confirms and YNAB accepts them; then every updated row takes its
     * new balance and is cleared, and so is the screen's copy of the
     * account, after which no row asks for an update.
     */
    method UpdateAll(confirmed: bool, accepted: bool) returns (updates: seq<PlannedUpdate>, applied: bool)
      requires Valid()
      modifies this, rows
      ensures updates == if old(Ready()) then Collected(old(accounts), old(Readings(rows))) else []
      ensures applied <==> updates != [] && confirmed && accepted
      ensures !applied ==>
                && accounts == old(accounts) && sent == old(sent) && loading == old(loading)
                && forall i :: 0 <= i < |rows| ==> rows[i].balance == old(rows[i].balance) && rows[i].input == old(rows[i].input)
      ensures applied ==>
                && sent == old(sent) + Payloads(updates, cleared, memo)
                && accounts == AppliedAll(old(accounts), updates)
                && Readings(rows) == ClearedInputs(old(Readings(rows)), updates)
                && (forall i :: 0 <= i < |rows| ==>
                      rows[i].balance == BalanceAfter(updates, rows[i].accountId, old(rows[i].balance)))
                && Collected(accounts, Readings(rows)) == []
                && !loading
    {
      updates := [];
      applied := false;
      if Ready() {
        var readings := Readings(rows);
        updates := CollectUpdates(accounts, readings);
        applied := updates != [] && confirmed && accepted;
        if applied {
          EveryUpdateHasRow(rows, accounts, readings);
          SendAll(updates, readings);
        }
      }
    }

    /**
     * The confirmed branch of the bulk callback: every planned update
     * becomes a transaction, the rows and accounts take the new
     * balances, and afterwards no row has anything left to update.
     */
    method SendAll(updates: seq<PlannedUpdate>, readings: seq<RowInput>)
      requires Valid() && readings == Readings(rows) && updates == Collected(accounts, readings)
      requires forall k :: 0 <= k < |updates| ==> RowIndex(rows, updates[k].accountId) >= 0
      modifies this, rows
      ensures sent == old(sent) + Payloads(updates, cleared, memo)
      ensures accounts == AppliedAll(old(accounts), updates)
      ensures Readings(rows) == ClearedInputs(readings, updates)
      ensures forall i :: 0 <= i < |rows| ==> rows[i].balance == BalanceAfter(updates, rows[i].accountId, old(rows[i].balance))
      ensures Collected(accounts, Readings(rows)) == [] && !loading
    {
      loading := true;
      sent := sent + Payloads(updates, cleared, memo);
      ApplyToRows(updates, readings);
      NothingLeftToUpdate(old(accounts), readings);
      loading := false;
    }

    /**
     * The loop of the bulk callback over the updates: the row of each
     * account takes the new balance and an empty input, and so does the
     * screen's copy of the account.
     */
    method ApplyToRows(updates: seq<PlannedUpdate>, readings: seq<RowInput>)
      requires Valid() && readings == Readings(rows)
      requires forall k :: 0 <= k < |updates| ==> RowIndex(rows, updates[k].accountId) >= 0
      modifies this, rows
      ensures sent == old(sent) && loading == old(loading)
      ensures accounts == AppliedAll(old(accounts), updates)
      ensures Readings(rows) == ClearedInputs(readings, updates)
      ensures forall i :: 0 <= i < |rows| ==> rows[i].balance == BalanceAfter(updates, rows[i].accountId, old(rows[i].balance))
    {
      ghost var before := Balances(rows);
      RowsAfterStart(rows, readings);
      var j := 0;
      while j < |updates|
        invariant 0 <= j <= |updates|
        invariant sent == old(sent) && loading == old(loading)
        invariant accounts == AppliedAll(old(accounts), updates[..j])
        invariant RowsAfter(rows, updates[..j], before, readings)
      {
        var u := updates[j];
        PrefixSnoc(updates, j);
        AppliedAllSnoc(old(accounts), updates[..j], u);
        ApplyOne(updates[..j], u, before, readings);
        j := j + 1;
      }
      PrefixWhole(updates);
      RowsAfterEnd(rows, updates, before, readings);
    }

    /** One turn of the bulk callback's loop. */
    method ApplyOne(ghost done: seq<PlannedUpdate>, u: PlannedUpdate, ghost before: seq<int>, ghost readings: seq<RowInput>)
      requires Valid() && RowIndex(rows, u.accountId) >= 0 && RowsAfter(rows, done, before, readings)
      modifies this, rows
      ensures RowsAfter(rows, done + [u], before, readings)
      ensures accounts == Apply(old(accounts), u) && sent == old(sent) && loading == old(loading)
    {
      var k := RowIndex(rows, u.accountId);
      TakeUpdate(rows[k], u);
      forall i | 0 <= i < |rows|
        ensures rows[i].balance == BalanceAfter(done + [u], rows[i].accountId, before[i])
        ensures rows[i].input == (if Touched(done + [u], rows[i].accountId) then "" else readings[i].input)
      {
        BalanceAfterSnoc(done, u, rows[i].accountId, before[i]);
        TouchedSnoc(done, u, rows[i].accountId);
        if i != k {
          assert rows[i].accountId != rows[k].accountId;
          assert rows[i].balance == old(rows[i].balance) && rows[i].input == old(rows[i].input);
        }
      }
    }

    /** `row.update_balance(new_bal)`, the input cleared, and `account.balance = new_bal`. */
    method TakeUpdate(row: LegacyRow, u: PlannedUpdate)
      requires row.accountId == u.accountId
      modifies this, row
      ensures row.balance == u.newBalance && row.input == ""
      ensures accounts == Apply(old(accounts), u)
      ensures sent == old(sent) && loading == old(loading)
    {
      row.UpdateBalance(u.newBalance);
      row.input := "";
      accounts := Apply(accounts, u);
    }
  }

  /** The rows' balances, in order. */
  function Balances(rows: seq<LegacyRow>): (r: seq<int>)
    reads rows
    ensures |r| == |rows| && forall i :: 0 <= i < |rows| ==> r[i] == rows[i].balance
  {
    seq(|rows|, i requires 0 <= i < |rows| reads rows => rows[i].balance)
  }

  /** The rows' balances and inputs after the updates `done`, from balances `before` and inputs `readings`. */
  ghost predicate RowsAfter(rows: seq<LegacyRow>, done: seq<PlannedUpdate>, before: seq<int>, readings: seq<RowInput>)
    reads rows
  {
    && |before| == |rows| && |readings| == |rows|
    && (forall i :: 0 <= i < |rows| ==> readings[i].accountId == rows[i].accountId)
    && (forall i :: 0 <= i < |rows| ==> rows[i].balance == BalanceAfter(done, rows[i].accountId, before[i]))
    && (forall i :: 0 <= i < |rows| ==>
          rows[i].input == if Touched(done, rows[i].accountId) then "" else readings[i].input)
  }

  lemma RowsAfterStart(rows: seq<LegacyRow>, readings: seq<RowInput>)
    requires readings == Readings(rows)
    ensures RowsAfter(rows, [], Balances(rows), readings)
  {
  }

  lemma RowsAfterEnd(rows: seq<LegacyRow>, updates: seq<PlannedUpdate>, before: seq<int>, readings: seq<RowInput>)
    requires RowsAfter(rows, updates, before, readings)
    ensures Readings(rows) == ClearedInputs(readings, updates)
    ensures forall i :: 0 <= i < |rows| ==> rows[i].balance == BalanceAfter(updates, rows[i].accountId, before[i])
  {
    ReadingsCleared(Readings(rows), readings, updates);
  }

  /** Every collected update is for an account some row shows. */
  lemma EveryUpdateHasRow(rows: seq<LegacyRow>, accounts: map<string, LedgerAccount>, readings: seq<RowInput>)
    requires |readings| == |rows| && forall i :: 0 <= i < |rows| ==> readings[i].accountId == rows[i].accountId
    ensures var updates := Collected(accounts, readings);
            forall k :: 0 <= k < |updates| ==> RowIndex(rows, updates[k].accountId) >= 0
  {
    var updates := Collected(accounts, readings);
    forall k | 0 <= k < |updates| ensures RowIndex(rows, updates[k].accountId) >= 0 {
      CollectedSound(accounts, readings, k);
      var i :| 0 <= i < |readings| && Plan(accounts, readings[i]) == Some(updates[k]);
      assert rows[i].accountId == updates[k].accountId;
    }
  }

  lemma PrefixSnoc<T>(s: seq<T>, j: int)
    requires 0 <= j < |s|
    ensures s[..j + 1] == s[..j] + [s[j]]
  {
  }

  lemma PrefixWhole<T>(s: seq<T>)
    ensures s[..|s|] == s
  {
  }

  lemma AppliedAllSnoc(accounts: map<string, LedgerAccount>, updates: seq<PlannedUpdate>, u: PlannedUpdate)
    ensures AppliedAll(accounts, updates + [u]) == Apply(AppliedAll(accounts, updates), u)
  {
    assert (updates + [u])[..|updates|] == updates;
  }

  lemma BalanceAfterSnoc(updates: seq<PlannedUpdate>, u: PlannedUpdate, id: string, before: int)
    ensures BalanceAfter(updates + [u], id, before) == if u.accountId == id then u.newBalance else BalanceAfter(updates, id, before)
  {
    assert (updates + [u])[..|updates|] == updates;
  }

  /** Readings that match the cleared rows one by one are the cleared inputs. */
  lemma ReadingsCleared(after: seq<RowInput>, readings: seq<RowInput>, updates: seq<PlannedUpdate>)
    requires |after| == |readings|
    requires forall i :: 0 <= i < |after| ==> after[i].accountId == readings[i].accountId
    requires forall i :: 0 <= i < |after| ==>
               after[i].input == if Touched(updates, readings[i].accountId) then "" else readings[i].input
    ensures after == ClearedInputs(readings, updates)
  {
  }
}
