/**
 * The configuration records of src/ynab_updater/config.py and the
 * `AppConfig` selection, lookup and merge logic. Loading, saving and
 * validation of the JSON file are not modelled.
 */
module Config {
  import opened Wrappers

  /** `ClearedStatus` */
  datatype ClearedStatus = Cleared | Uncleared | Reconciled

  /** `CurrencyFormat`: how a budget writes amounts. */
  datatype CurrencyFormat = CurrencyFormat(
    decimalDigits: nat,
    decimalSeparator: string,
    groupSeparator: string,
    symbolFirst: bool,
    currencySymbol: string)

  /** `AccountConfig` */
  datatype AccountConfig = AccountConfig(id: string, name: string)

  /** `Account`: a known account and whether the user tracks it. */
  datatype Account = Account(config: AccountConfig, selected: bool)

  /** `BudgetConfig` */
  datatype BudgetConfig = BudgetConfig(id: string, name: string, currencyFormat: CurrencyFormat)

  /** `Budget`: a known budget and whether it is the one in use. */
  datatype Budget = Budget(config: BudgetConfig, selected: bool)

  /** The `ConfigError`s of `selected_budget`. */
  datatype ConfigError = NoSelectedBudgets | MoreThanOneSelectedBudget

  /** The `ValueError`s of `budget_by_id` and `account_by_id`. */
  datatype LookupError = NotFound(id: string) | MoreThanOneFound(id: string)

  // ------------------------------------------------------------ budgets

  /** `[b.config for b in budgets if b.selected]` */
  function SelectedBudgetConfigs(budgets: seq<Budget>): (r: seq<BudgetConfig>)
    ensures |r| <= |budgets|
    ensures forall c :: c in r ==> Budget(c, true) in budgets
  {
    if budgets == [] then []
    else (if budgets[0].selected then [budgets[0].config] else []) + SelectedBudgetConfigs(budgets[1..])
  }

  /** The filter keeps list order: filtering a concatenation concatenates the filtered parts. */
  lemma {:induction false} SelectedBudgetConfigsAppend(a: seq<Budget>, b: seq<Budget>)
    ensures SelectedBudgetConfigs(a + b) == SelectedBudgetConfigs(a) + SelectedBudgetConfigs(b)
  {
    if a == [] {
      assert a + b == b;
    } else {
      assert (a + b)[0] == a[0] && (a + b)[1..] == a[1..] + b;
      SelectedBudgetConfigsAppend(a[1..], b);
    }
  }

  /** `has_selected_budget` */
  predicate HasSelectedBudget(budgets: seq<Budget>)
  {
    |SelectedBudgetConfigs(budgets)| != 0
  }

  /** `i` is the only selected budget. */
  predicate OnlySelected(budgets: seq<Budget>, i: int)
  {
    0 <= i < |budgets| && budgets[i].selected && forall j :: 0 <= j < |budgets| && j != i ==> !budgets[j].selected
  }

  /** `selected_budget`: the one selected budget, or why there is not exactly one. */
  function SelectedBudget(budgets: seq<Budget>): (r: Result<BudgetConfig, ConfigError>)
    ensures r == Failure(NoSelectedBudgets) <==> !HasSelectedBudget(budgets)
    ensures r.Success? <==> |SelectedBudgetConfigs(budgets)| == 1
    ensures r.Success? ==> r.value == SelectedBudgetConfigs(budgets)[0]
  {
    var selected := SelectedBudgetConfigs(budgets);
    if |selected| == 0 then Failure(NoSelectedBudgets)
    else if |selected| == 1 then Success(selected[0])
    else Failure(MoreThanOneSelectedBudget)
  }

  /**
   * The selected configs are empty exactly when no budget is selected,
   * and a single one exactly when one budget alone is selected.
   */
  lemma {:induction false} SelectedBudgetConfigsProperties(budgets: seq<Budget>)
    ensures SelectedBudgetConfigs(budgets) == [] <==> forall i :: 0 <= i < |budgets| ==> !budgets[i].selected
    ensures |SelectedBudgetConfigs(budgets)| == 1 <==> exists i :: OnlySelected(budgets, i)
    ensures forall i :: OnlySelected(budgets, i) ==> SelectedBudgetConfigs(budgets) == [budgets[i].config]
  {
    if budgets != [] {
      var tail := budgets[1..];
      SelectedBudgetConfigsProperties(tail);
      forall i | 0 <= i < |tail| ensures tail[i] == budgets[i + 1] {}
      if budgets[0].selected {
        if |SelectedBudgetConfigs(budgets)| == 1 {
          assert OnlySelected(budgets, 0);
        }
        forall i | OnlySelected(budgets, i) ensures SelectedBudgetConfigs(budgets) == [budgets[i].config] {
          assert i == 0;
        }
      } else {
        if exists i :: OnlySelected(budgets, i) {
          var i :| OnlySelected(budgets, i);
          assert OnlySelected(tail, i - 1);
        }
        if exists i :: OnlySelected(tail, i) {
          var i :| OnlySelected(tail, i);
          assert OnlySelected(budgets, i + 1);
        }
        forall i | OnlySelected(budgets, i) ensures SelectedBudgetConfigs(budgets) == [budgets[i].config] {
          assert OnlySelected(tail, i - 1);
        }
      }
    }
  }

  /** `has_selected_budget` holds exactly when some budget is selected. */
  lemma HasSelectedBudgetIff(budgets: seq<Budget>)
    ensures HasSelectedBudget(budgets) <==> exists i :: 0 <= i < |budgets| && budgets[i].selected
  {
    SelectedBudgetConfigsProperties(budgets);
  }

  /**
   * `selected_budget` succeeds exactly when one budget alone is selected,
   * and returns that budget's config.
   */
  lemma SelectedBudgetUnique(budgets: seq<Budget>)
    ensures SelectedBudget(budgets).Success? <==> exists i :: OnlySelected(budgets, i)
    ensures forall i :: OnlySelected(budgets, i) ==> SelectedBudget(budgets) == Success(budgets[i].config)
  {
    SelectedBudgetConfigsProperties(budgets);
  }

  lemma {:induction false} NoneSelected(budgets: seq<Budget>)
    requires forall j :: 0 <= j < |budgets| ==> !budgets[j].selected
    ensures SelectedBudgetConfigs(budgets) == []
  {
    if budgets != [] {
      NoneSelected(budgets[1..]);
    }
  }

  /** `ynab_budgets`: the configs of all known budgets. */
  function BudgetConfigs(budgets: seq<Budget>): (r: seq<BudgetConfig>)
    ensures |r| == |budgets| && forall i :: 0 <= i < |budgets| ==> r[i] == budgets[i].config
  {
    seq(|budgets|, i requires 0 <= i < |budgets| => budgets[i].config)
  }

  /** The budget list `add_budgets_from_api` builds: every budget from the API, unselected. */
  function FreshBudgets(incoming: seq<BudgetConfig>): (r: seq<Budget>)
    ensures |r| == |incoming| && forall i :: 0 <= i < |incoming| ==> r[i] == Budget(incoming[i], false)
  {
    seq(|incoming|, i requires 0 <= i < |incoming| => Budget(incoming[i], false))
  }

  /** After budgets are fetched none is selected, so `selected_budget` fails until the user picks one. */
  lemma FreshBudgetsUnselected(incoming: seq<BudgetConfig>)
    ensures BudgetConfigs(FreshBudgets(incoming)) == incoming
    ensures SelectedBudget(FreshBudgets(incoming)) == Failure(NoSelectedBudgets)
  {
    var r := FreshBudgets(incoming);
    NoneSelected(r);
  }

  /** `budget_by_id`: the single budget with that id. */
  function BudgetById(budgets: seq<Budget>, id: string): (r: Result<Budget, LookupError>)
    ensures r == Failure(NotFound(id)) <==> forall i :: 0 <= i < |budgets| ==> budgets[i].config.id != id
    ensures r.Success? <==> exists i :: OnlyBudgetWithId(budgets, id, i)
    ensures forall i :: OnlyBudgetWithId(budgets, id, i) ==> r == Success(budgets[i])
    ensures r.Failure? ==> r.error.id == id
  {
    var matching := BudgetsWithId(budgets, id);
    BudgetsWithIdProperties(budgets, id);
    if |matching| == 0 then Failure(NotFound(id))
    else if |matching| > 1 then Failure(MoreThanOneFound(id))
    else Success(matching[0])
  }

  predicate OnlyBudgetWithId(budgets: seq<Budget>, id: string, i: int)
  {
    0 <= i < |budgets| && budgets[i].config.id == id
    && forall j :: 0 <= j < |budgets| && j != i ==> budgets[j].config.id != id
  }

  /** `[b for b in budgets if b.config.id == id]` */
  function BudgetsWithId(budgets: seq<Budget>, id: string): (r: seq<Budget>)
    ensures forall b :: b in r ==> b in budgets && b.config.id == id
  {
    if budgets == [] then []
    else (if budgets[0].config.id == id then [budgets[0]] else []) + BudgetsWithId(budgets[1..], id)
  }

  lemma {:induction false} BudgetsWithIdProperties(budgets: seq<Budget>, id: string)
    ensures BudgetsWithId(budgets, id) == [] <==> forall i :: 0 <= i < |budgets| ==> budgets[i].config.id != id
    ensures |BudgetsWithId(budgets, id)| == 1 <==> exists i :: OnlyBudgetWithId(budgets, id, i)
    ensures forall i :: OnlyBudgetWithId(budgets, id, i) ==> BudgetsWithId(budgets, id) == [budgets[i]]
  {
    if budgets != [] {
      var tail := budgets[1..];
      BudgetsWithIdProperties(tail, id);
      forall i | 0 <= i < |tail| ensures tail[i] == budgets[i + 1] {}
      if budgets[0].config.id == id {
        if |BudgetsWithId(budgets, id)| == 1 {
          assert OnlyBudgetWithId(budgets, id, 0);
        }
        forall i | OnlyBudgetWithId(budgets, id, i) ensures BudgetsWithId(budgets, id) == [budgets[i]] {
          assert i == 0;
        }
      } else {
        if exists i :: OnlyBudgetWithId(budgets, id, i) {
          var i :| OnlyBudgetWithId(budgets, id, i);
          assert OnlyBudgetWithId(tail, id, i - 1);
        }
        if exists i :: OnlyBudgetWithId(tail, id, i) {
          var i :| OnlyBudgetWithId(tail, id, i);
          assert OnlyBudgetWithId(budgets, id, i + 1);
        }
        forall i | OnlyBudgetWithId(budgets, id, i) ensures BudgetsWithId(budgets, id) == [budgets[i]] {
          assert OnlyBudgetWithId(tail, id, i - 1);
        }
      }
    }
  }

  // ------------------------------------------------------------ accounts

  /** `selected_accounts`: `[a.config for a in accounts if a.selected]` */
  function SelectedAccountConfigs(accounts: seq<Account>): (r: seq<AccountConfig>)
    ensures |r| <= |accounts|
    ensures forall c :: c in r ==> Account(c, true) in accounts
  {
    if accounts == [] then []
    else (if accounts[0].selected then [accounts[0].config] else []) + SelectedAccountConfigs(accounts[1..])
  }

  /** The filter keeps list order: filtering a concatenation concatenates the filtered parts. */
  lemma {:induction false} SelectedAccountConfigsAppend(a: seq<Account>, b: seq<Account>)
    ensures SelectedAccountConfigs(a + b) == SelectedAccountConfigs(a) + SelectedAccountConfigs(b)
  {
    if a == [] {
      assert a + b == b;
    } else {
      assert (a + b)[0] == a[0] && (a + b)[1..] == a[1..] + b;
      SelectedAccountConfigsAppend(a[1..], b);
    }
  }

  /** `has_selected_accounts` holds exactly when some account is selected. */
  lemma {:induction false} HasSelectedAccountsIff(accounts: seq<Account>)
    ensures |SelectedAccountConfigs(accounts)| > 0 <==> exists i :: 0 <= i < |accounts| && accounts[i].selected
  {
    if accounts != [] {
      HasSelectedAccountsIff(accounts[1..]);
      if !accounts[0].selected && exists i :: 0 <= i < |accounts| && accounts[i].selected {
        var i :| 0 <= i < |accounts| && accounts[i].selected;
        assert accounts[1..][i - 1].selected;
      }
    }
  }

  /** The ids of the known accounts. */
  function AccountIds(accounts: seq<Account>): (ids: set<string>)
    ensures forall i :: 0 <= i < |accounts| ==> accounts[i].config.id in ids
    ensures forall id :: id in ids ==> exists i :: 0 <= i < |accounts| && accounts[i].config.id == id
  {
    set i | 0 <= i < |accounts| :: accounts[i].config.id
  }

  /**
   * What `add_accounts_from_api` appends: in input order, every incoming
   * account whose id was not known before the call, unselected.
   */
  function NewAccounts(incoming: seq<AccountConfig>, known: set<string>): (r: seq<Account>)
    ensures |r| <= |incoming|
    ensures forall k :: 0 <= k < |r| ==> !r[k].selected && r[k].config.id !in known && r[k].config in incoming
    ensures forall x :: x in incoming && x.id !in known ==> Account(x, false) in r
  {
    if incoming == [] then []
    else
      var front, last := incoming[..|incoming| - 1], incoming[|incoming| - 1];
      assert incoming == front + [last];
      NewAccounts(front, known) + (if last.id in known then [] else [Account(last, false)])
  }

  /** Within one batch nothing is deduplicated: an unknown id given twice is appended twice. */
  lemma NewAccountsKeepsRepeats(x: AccountConfig, known: set<string>)
    requires x.id !in known
    ensures NewAccounts([x, x], known) == [Account(x, false), Account(x, false)]
  {
    assert [x, x][..1] == [x];
    assert [x][..0] == [];
  }

  /** Fetching accounts never changes which accounts are selected. */
  lemma NewAccountsKeepSelection(accounts: seq<Account>, incoming: seq<AccountConfig>)
    ensures SelectedAccountConfigs(accounts + NewAccounts(incoming, AccountIds(accounts)))
            == SelectedAccountConfigs(accounts)
  {
    var added := NewAccounts(incoming, AccountIds(accounts));
    SelectedAccountConfigsAppend(accounts, added);
    NoAccountSelected(added);
  }

  lemma {:induction false} NoAccountSelected(accounts: seq<Account>)
    requires forall j :: 0 <= j < |accounts| ==> !accounts[j].selected
    ensures SelectedAccountConfigs(accounts) == []
  {
    if accounts != [] {
      NoAccountSelected(accounts[1..]);
    }
  }

  /** `account_by_id`: the single account with that id. */
  function AccountById(accounts: seq<Account>, id: string): (r: Result<Account, LookupError>)
    ensures r == Failure(NotFound(id)) <==> forall i :: 0 <= i < |accounts| ==> accounts[i].config.id != id
    ensures r.Success? <==> exists i :: OnlyAccountWithId(accounts, id, i)
    ensures forall i :: OnlyAccountWithId(accounts, id, i) ==> r == Success(accounts[i])
    ensures r.Failure? ==> r.error.id == id
  {
    var matching := AccountsWithId(accounts, id);
    AccountsWithIdProperties(accounts, id);
    if |matching| == 0 then Failure(NotFound(id))
    else if |matching| > 1 then Failure(MoreThanOneFound(id))
    else Success(matching[0])
  }

  predicate OnlyAccountWithId(accounts: seq<Account>, id: string, i: int)
  {
    0 <= i < |accounts| && accounts[i].config.id == id
    && forall j :: 0 <= j < |accounts| && j != i ==> accounts[j].config.id != id
  }

  /** `[a for a in accounts if a.config.id == id]` */
  function AccountsWithId(accounts: seq<Account>, id: string): (r: seq<Account>)
    ensures forall a :: a in r ==> a in accounts && a.config.id == id
  {
    if accounts == [] then []
    else (if accounts[0].config.id == id then [accounts[0]] else []) + AccountsWithId(accounts[1..], id)
  }

  lemma {:induction false} AccountsWithIdProperties(accounts: seq<Account>, id: string)
    ensures AccountsWithId(accounts, id) == [] <==> forall i :: 0 <= i < |accounts| ==> accounts[i].config.id != id
    ensures |AccountsWithId(accounts, id)| == 1 <==> exists i :: OnlyAccountWithId(accounts, id, i)
    ensures forall i :: OnlyAccountWithId(accounts, id, i) ==> AccountsWithId(accounts, id) == [accounts[i]]
  {
    if accounts != [] {
      var tail := accounts[1..];
      AccountsWithIdProperties(tail, id);
      forall i | 0 <= i < |tail| ensures tail[i] == accounts[i + 1] {}
      if accounts[0].config.id == id {
        if |AccountsWithId(accounts, id)| == 1 {
          assert OnlyAccountWithId(accounts, id, 0);
        }
        forall i | OnlyAccountWithId(accounts, id, i) ensures AccountsWithId(accounts, id) == [accounts[i]] {
          assert i == 0;
        }
      } else {
        if exists i :: OnlyAccountWithId(accounts, id, i) {
          var i :| OnlyAccountWithId(accounts, id, i);
          assert OnlyAccountWithId(tail, id, i - 1);
        }
        if exists i :: OnlyAccountWithId(tail, id, i) {
          var i :| OnlyAccountWithId(tail, id, i);
          assert OnlyAccountWithId(accounts, id, i + 1);
        }
        forall i | OnlyAccountWithId(accounts, id, i) ensures AccountsWithId(accounts, id) == [accounts[i]] {
          assert OnlyAccountWithId(tail, id, i - 1);
        }
      }
    }
  }

  // ------------------------------------------------------------ the configuration object

  /**
   * `AppConfig`. Each `cached_property` is a field holding `None` until
   * it is first read; from then on it answers from the cache, even after
   * the lists change, until `refresh` drops it.
   */
  class AppConfig {
    var apiKey: Option<string>
    var budgets: seq<Budget>
    var accounts: seq<Account>
    var adjustmentMemo: string
    var clearedStatus: ClearedStatus

    var hasSelectedBudgetCache: Option<bool>
    var ynabBudgetsCache: Option<seq<BudgetConfig>>
    var selectedBudgetCache: Option<BudgetConfig>
    var selectedAccountsCache: Option<seq<AccountConfig>>
    var hasSelectedAccountsCache: Option<bool>

    /** No caches filled yet. */
    predicate Fresh()
      reads this
    {
      hasSelectedBudgetCache.None? && ynabBudgetsCache.None? && selectedBudgetCache.None?
      && selectedAccountsCache.None? && hasSelectedAccountsCache.None?
    }

    /** `AppConfig()`: no key, no budgets or accounts, cleared adjustments and the default memo. */
    constructor (defaultMemo: string)
      ensures apiKey == None && budgets == [] && accounts == []
      ensures adjustmentMemo == defaultMemo && clearedStatus == Cleared
      ensures Fresh()
    {
      apiKey := None;
      budgets := [];
      accounts := [];
      adjustmentMemo := defaultMemo;
      clearedStatus := Cleared;
      hasSelectedBudgetCache := None;
      ynabBudgetsCache := None;
      selectedBudgetCache := None;
      selectedAccountsCache := None;
      hasSelectedAccountsCache := None;
    }

    /** `has_selected_budget` */
    method GetHasSelectedBudget() returns (b: bool)
      modifies this`hasSelectedBudgetCache
      ensures b == if old(hasSelectedBudgetCache).Some? then old(hasSelectedBudgetCache).value else HasSelectedBudget(budgets)
      ensures hasSelectedBudgetCache == Some(b)
    {
      if hasSelectedBudgetCache.None? {
        hasSelectedBudgetCache := Some(HasSelectedBudget(budgets));
      }
      b := hasSelectedBudgetCache.value;
    }

    /** `ynab_budgets` */
    method GetYnabBudgets() returns (r: seq<BudgetConfig>)
      modifies this`ynabBudgetsCache
      ensures r == if old(ynabBudgetsCache).Some? then old(ynabBudgetsCache).value else BudgetConfigs(budgets)
      ensures ynabBudgetsCache == Some(r)
    {
      if ynabBudgetsCache.None? {
        ynabBudgetsCache := Some(BudgetConfigs(budgets));
      }
      r := ynabBudgetsCache.value;
    }

    /** `selected_budget`: a raised error is not cached. */
    method GetSelectedBudget() returns (r: Result<BudgetConfig, ConfigError>)
      modifies this`selectedBudgetCache
      ensures r == if old(selectedBudgetCache).Some? then Success(old(selectedBudgetCache).value) else SelectedBudget(budgets)
      ensures selectedBudgetCache == if r.Success? then Some(r.value) else None
    {
      if selectedBudgetCache.Some? {
        r := Success(selectedBudgetCache.value);
      } else {
        r := SelectedBudget(budgets);
        if r.Success? {
          selectedBudgetCache := Some(r.value);
        }
      }
    }

    /** `selected_accounts` */
    method GetSelectedAccounts() returns (r: seq<AccountConfig>)
      modifies this`selectedAccountsCache
      ensures r == if old(selectedAccountsCache).Some? then old(selectedAccountsCache).value else SelectedAccountConfigs(accounts)
      ensures selectedAccountsCache == Some(r)
    {
      if selectedAccountsCache.None? {
        selectedAccountsCache := Some(SelectedAccountConfigs(accounts));
      }
      r := selectedAccountsCache.value;
    }

    /** `has_selected_accounts`: computed from (and so filling) the `selected_accounts` cache. */
    method GetHasSelectedAccounts() returns (b: bool)
      modifies this`selectedAccountsCache, this`hasSelectedAccountsCache
      ensures old(hasSelectedAccountsCache).Some? ==> b == old(hasSelectedAccountsCache).value && unchanged(this`selectedAccountsCache)
      ensures old(hasSelectedAccountsCache).None? ==>
                selectedAccountsCache.Some? && b == (|selectedAccountsCache.value| > 0)
                && selectedAccountsCache.value == if old(selectedAccountsCache).Some? then old(selectedAccountsCache).value else SelectedAccountConfigs(accounts)
      ensures hasSelectedAccountsCache == Some(b)
    {
      if hasSelectedAccountsCache.None? {
        var selected := GetSelectedAccounts();
        hasSelectedAccountsCache := Some(|selected| > 0);
      }
      b := hasSelectedAccountsCache.value;
    }

    /** `is_valid`: a key and a selected budget; without a key the budget cache is not consulted. */
    method IsValid() returns (b: bool)
      modifies this`hasSelectedBudgetCache
      ensures apiKey.None? ==> !b && unchanged(this`hasSelectedBudgetCache)
      ensures apiKey.Some? ==> b == (if old(hasSelectedBudgetCache).Some? then old(hasSelectedBudgetCache).value else HasSelectedBudget(budgets))
                               && hasSelectedBudgetCache == Some(b)
    {
      if apiKey.None? {
        b := false;
      } else {
        b := GetHasSelectedBudget();
      }
    }

    /** `refresh`: drops three of the five caches; saving the file is not modelled. */
    method Refresh()
      modifies this`selectedBudgetCache, this`selectedAccountsCache, this`hasSelectedBudgetCache
      ensures selectedBudgetCache.None? && selectedAccountsCache.None? && hasSelectedBudgetCache.None?
    {
      selectedBudgetCache := None;
      selectedAccountsCache := None;
      hasSelectedBudgetCache := None;
    }

    /** `add_budgets_from_api`: the budget list is replaced; no cache is touched. */
    method AddBudgetsFromApi(incoming: seq<BudgetConfig>)
      modifies this`budgets
      ensures budgets == FreshBudgets(incoming)
    {
      budgets := FreshBudgets(incoming);
    }

    /** `add_accounts_from_api`: unknown accounts are appended, unselected; no cache is touched. */
    method AddAccountsFromApi(incoming: seq<AccountConfig>)
      modifies this`accounts
      ensures accounts == old(accounts) + NewAccounts(incoming, AccountIds(old(accounts)))
    {
      var ids := AccountIds(accounts);
      var i := 0;
      while i < |incoming|
        invariant 0 <= i <= |incoming|
        invariant accounts == old(accounts) + NewAccounts(incoming[..i], ids)
      {
        assert incoming[..i + 1][..i] == incoming[..i];
        if incoming[i].id !in ids {
          accounts := accounts + [Account(incoming[i], false)];
        }
        i := i + 1;
      }
      assert incoming[..|incoming|] == incoming;
    }

    /** Appending an account directly to the list, as callers of `AppConfig` do. */
    method AppendAccount(a: Account)
      modifies this`accounts
      ensures accounts == old(accounts) + [a]
    {
      accounts := accounts + [a];
    }
  }

  /**
   * The cache stays stale until `refresh`: a fresh configuration reads
   * no selected accounts, keeps reading none after a selected account is
   * appended, and reads the new account after `refresh`.
   */
  method StaleUntilRefresh() returns (before: seq<AccountConfig>, stale: seq<AccountConfig>, after: seq<AccountConfig>)
    ensures before == [] && stale == []
    ensures after == [AccountConfig("1", "Test Account")]
  {
    var config := new AppConfig("");
    before := config.GetSelectedAccounts();
    config.AppendAccount(Account(AccountConfig("1", "Test Account"), true));
    config.AppendAccount(Account(AccountConfig("2", "Test Account 2"), false));
    stale := config.GetSelectedAccounts();
    config.Refresh();
    after := config.GetSelectedAccounts();
    var accs := [Account(AccountConfig("1", "Test Account"), true), Account(AccountConfig("2", "Test Account 2"), false)];
    assert config.accounts == accs;
    assert accs[1..][1..] == [];
  }
}
