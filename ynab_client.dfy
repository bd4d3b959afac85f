/**
 * The pure parts of src/ynab_updater/ynab_client.py: net-worth
 * arithmetic of `NetWorthResult`, the cleared-status mapping, the
 * closed-account filter and the guards on empty input. Balances are
 * integers; ratios are exact reals.
 */
module YnabClient {
  import opened Wrappers
  import opened Config

  /** `AccountBalance` */
  datatype AccountBalance = AccountBalance(accountName: string, balance: int)

  /** `NetWorthResult`: balances by kind. */
  datatype NetWorthResult = NetWorthResult(cash: seq<AccountBalance>, debt: seq<AccountBalance>, assets: seq<AccountBalance>)

  /** `RelativeNetWorth`: one cash account and its share of the net worth. */
  datatype RelativeNetWorth = RelativeNetWorth(account: string, balance: int, ratio: real)

  /** `__total_balance` */
  function TotalBalance(accounts: seq<AccountBalance>): int
  {
    if accounts == [] then 0 else accounts[0].balance + TotalBalance(accounts[1..])
  }

  lemma {:induction false} TotalBalanceAppend(a: seq<AccountBalance>, b: seq<AccountBalance>)
    ensures TotalBalance(a + b) == TotalBalance(a) + TotalBalance(b)
  {
    if a == [] {
      assert a + b == b;
    } else {
      assert (a + b)[0] == a[0] && (a + b)[1..] == a[1..] + b;
      TotalBalanceAppend(a[1..], b);
    }
  }

  /** `net_wroth`: cash and assets count for, debt against. */
  function NetWorth(r: NetWorthResult): int
  {
    TotalBalance(r.cash) + TotalBalance(r.assets) - TotalBalance(r.debt)
  }

  /**
   * Each account moves the net worth by its own balance: up for a cash
   * or asset account, down for a debt.
   */
  lemma NetWorthAddAccount(r: NetWorthResult, a: AccountBalance)
    ensures NetWorth(r.(cash := r.cash + [a])) == NetWorth(r) + a.balance
    ensures NetWorth(r.(assets := r.assets + [a])) == NetWorth(r) + a.balance
    ensures NetWorth(r.(debt := r.debt + [a])) == NetWorth(r) - a.balance
  {
    TotalBalanceAppend(r.cash, [a]);
    TotalBalanceAppend(r.assets, [a]);
    TotalBalanceAppend(r.debt, [a]);
    assert TotalBalance([a]) == a.balance + TotalBalance([]);
  }

  /** With no accounts at all the net worth is zero. */
  lemma NetWorthEmpty()
    ensures NetWorth(NetWorthResult([], [], [])) == 0
  {
  }

  /** The division by zero `relative_net_worth` would raise. */
  datatype ZeroDivisionError = ZeroDivisionError

  /** One entry per cash account, in order, its ratio being its share of `total`. */
  function CashShares(cash: seq<AccountBalance>, total: int): (r: seq<RelativeNetWorth>)
    requires total != 0
    ensures |r| == |cash|
    ensures forall i :: 0 <= i < |cash| ==>
              && r[i].account == cash[i].accountName && r[i].balance == cash[i].balance
              && r[i].ratio * (total as real) == cash[i].balance as real
  {
    if cash == [] then []
    else
      var ratio := cash[0].balance as real / total as real;
      [RelativeNetWorth(cash[0].accountName, cash[0].balance, ratio)] + CashShares(cash[1..], total)
  }

  /**
   * `relative_net_worth`: the shares of the cash accounts. The division
   * happens only once there is a cash account, so a zero net worth fails
   * only then.
   */
  function RelativeNetWorthOf(r: NetWorthResult): (result: Result<seq<RelativeNetWorth>, ZeroDivisionError>)
    ensures result.Failure? <==> r.cash != [] && NetWorth(r) == 0
    ensures result.Success? ==> |result.value| == |r.cash|
    ensures result.Success? ==> forall i :: 0 <= i < |r.cash| ==>
              && result.value[i].account == r.cash[i].accountName
              && result.value[i].balance == r.cash[i].balance
              && result.value[i].ratio * (NetWorth(r) as real) == r.cash[i].balance as real
  {
    if r.cash == [] then Success([])
    else if NetWorth(r) == 0 then Failure(ZeroDivisionError)
    else Success(CashShares(r.cash, NetWorth(r)))
  }

  function RatioSum(entries: seq<RelativeNetWorth>): real
  {
    if entries == [] then 0.0 else entries[0].ratio + RatioSum(entries[1..])
  }

  lemma {:induction false} CashSharesSum(cash: seq<AccountBalance>, total: int)
    requires total != 0
    ensures RatioSum(CashShares(cash, total)) == TotalBalance(cash) as real / total as real
  {
    if cash != [] {
      CashSharesSum(cash[1..], total);
      var shares := CashShares(cash, total);
      assert shares[1..] == CashShares(cash[1..], total);
      var t := total as real;
      var x, rest := cash[0].balance as real, TotalBalance(cash[1..]) as real;
      assert x / t + rest / t == (x + rest) / t;
    }
  }

  /** The ratios add up to the cash share of the net worth. */
  lemma RatiosSumToCashShare(r: NetWorthResult)
    requires RelativeNetWorthOf(r).Success?
    ensures NetWorth(r) != 0 ==> RatioSum(RelativeNetWorthOf(r).value) == TotalBalance(r.cash) as real / NetWorth(r) as real
    ensures NetWorth(r) == 0 ==> RelativeNetWorthOf(r).value == []
  {
    if r.cash != [] {
      CashSharesSum(r.cash, NetWorth(r));
    }
  }

  /** When all accounts are cash, the ratios sum to one. */
  lemma AllCashRatiosSumToOne(cash: seq<AccountBalance>)
    requires TotalBalance(cash) != 0
    ensures var r := NetWorthResult(cash, [], []);
            RelativeNetWorthOf(r).Success? && RatioSum(RelativeNetWorthOf(r).value) == 1.0
  {
    var r := NetWorthResult(cash, [], []);
    assert NetWorth(r) == TotalBalance(cash);
    RatiosSumToCashShare(r);
    WholeShare(TotalBalance(cash) as real);
  }

  lemma WholeShare(t: real)
    requires t != 0.0
    ensures t / t == 1.0
  {
  }

  // ------------------------------------------------------------ cleared status

  /** The SDK's `TransactionClearedStatus`. */
  datatype TransactionClearedStatus = SdkCleared | SdkUncleared | SdkReconciled

  /** `_get_cleared_enum`: the same-named SDK status. */
  function ClearedEnum(status: ClearedStatus): TransactionClearedStatus
  {
    match status
    case Cleared => SdkCleared
    case Uncleared => SdkUncleared
    case Reconciled => SdkReconciled
  }

  /** The inverse mapping, from the SDK back to the configuration. */
  function FromSdk(status: TransactionClearedStatus): ClearedStatus
  {
    match status
    case SdkCleared => Cleared
    case SdkUncleared => Uncleared
    case SdkReconciled => Reconciled
  }

  /** `_get_cleared_enum` is a bijection: no status is lost and none is confused with another. */
  lemma ClearedEnumBijective(c: ClearedStatus, t: TransactionClearedStatus)
    ensures FromSdk(ClearedEnum(c)) == c
    ensures ClearedEnum(FromSdk(t)) == t
  {
  }

  // ------------------------------------------------------------ accounts and guards

  /** The fields of a YNAB account that matter here. */
  datatype YnabAccount = YnabAccount(id: string, name: string, closed: bool, balance: int)

  /** The filter of `get_accounts`: the accounts that are not closed, in order. */
  function OpenAccounts(accounts: seq<YnabAccount>): (r: seq<YnabAccount>)
    ensures |r| <= |accounts|
    ensures forall a :: a in r <==> a in accounts && !a.closed
  {
    if accounts == [] then []
    else (if accounts[0].closed then [] else [accounts[0]]) + OpenAccounts(accounts[1..])
  }

  /** The filter keeps order: filtering a concatenation concatenates the filtered parts. */
  lemma {:induction false} OpenAccountsAppend(a: seq<YnabAccount>, b: seq<YnabAccount>)
    ensures OpenAccounts(a + b) == OpenAccounts(a) + OpenAccounts(b)
  {
    if a == [] {
      assert a + b == b;
    } else {
      assert (a + b)[0] == a[0] && (a + b)[1..] == a[1..] + b;
      OpenAccountsAppend(a[1..], b);
    }
  }

  /** With no closed account the filter changes nothing. */
  lemma {:induction false} OpenAccountsAllOpen(accounts: seq<YnabAccount>)
    requires forall i :: 0 <= i < |accounts| ==> !accounts[i].closed
    ensures OpenAccounts(accounts) == accounts
  {
    if accounts != [] {
      OpenAccountsAllOpen(accounts[1..]);
    }
  }

  /** The `YNABClientError`s and `ValueError`s raised before any request. */
  datatype ClientError = NoTransactions | EmptyApiKey

  /** The guard of `create_transactions`: an empty list is refused before a payload is built. */
  function TransactionsPayload<T>(transactions: seq<T>): (r: Result<seq<T>, ClientError>)
    ensures r.Failure? <==> transactions == []
    ensures r.Failure? ==> r.error == NoTransactions
    ensures r.Success? ==> r.value == transactions
  {
    if transactions == [] then Failure(NoTransactions) else Success(transactions)
  }

  /** The guard of `YnabHandler`: an empty key is refused; the key is kept otherwise. */
  function HandlerKey(apiKey: string): (r: Result<string, ClientError>)
    ensures r.Failure? <==> apiKey == []
    ensures r.Failure? ==> r.error == EmptyApiKey
    ensures r.Success? ==> r.value == apiKey
  {
    if apiKey == [] then Failure(EmptyApiKey) else Success(apiKey)
  }
}
