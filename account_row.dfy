/**
 * The account row of src/ynab_updater/widgets/account_row.py: the
 * balance a row holds, the text typed into its input, and the
 * adjustment it sends when the user confirms a new balance. Widgets,
 * notifications and the confirmation dialog are not modelled: the
 * user's answer to the dialog and the account YNAB returns are
 * parameters, and the transactions created are recorded in `sent`.
 */
module AccountRows {
  import opened Wrappers
  import opened Text
  import opened Config
  import opened CurrencyParse
  import opened CurrencyFormatting
  import opened CurrencyRoundTrip

  /** `AccountUpdate` without its back reference to the row. */
  datatype AccountUpdate = AccountUpdate(accountId: string, accountName: string, oldBalance: int, newBalance: int)

  /** The adjustment transaction `create_transaction` is asked for. */
  datatype Adjustment = Adjustment(accountId: string, amount: int, cleared: ClearedStatus, memo: string)

  datatype RowError = AccountNotFound(accountId: string)

  /** The empty input never parses, so a cleared row needs no update. */
  lemma EmptyInputDoesNotParse()
    ensures ParseMilliunits("") == None
  {
  }

  /** Blank text never parses. */
  lemma BlankDoesNotParse(s: string)
    requires s == []
    ensures ParseMilliunits(s).None?
  {
    EmptyInputDoesNotParse();
  }

  /** Trimming whitespace never changes what a value parses to. */
  lemma TrimmedInputParsesAlike(s: string)
    ensures ParseMilliunits(Strip(s, WHITESPACE)) == ParseMilliunits(s)
  {
    TrimmedCleanup(s);
    ParseReadsCleanup(Strip(s, WHITESPACE), s);
  }

  /** Whitespace is among what the cleanup deletes. */
  lemma TrimmedCleanup(s: string)
    ensures Cleanup(Strip(s, WHITESPACE)) == Cleanup(s)
  {
    StripThenKeep(s, WHITESPACE, CURRENCY_CHARS);
    CleanupReadsKept(Strip(s, WHITESPACE), s);
  }

  /**
   * For a readable format the formatted balance reads back: exactly at three
   * or more decimal digits, rounded to the shown digits below that.
   */
  lemma FormatReadsBack(value: int, format: CurrencyFormat)
    ensures Readable(format) && format.decimalDigits >= 3 ==> ParseMilliunits(FormatBalance(value, format)) == Some(value)
    ensures Readable(format) && format.decimalDigits <= 3 ==>
              ParseMilliunits(FormatBalance(value, format)) == Some(RoundedBalance(value, format.decimalDigits))
  {
    if Readable(format) && format.decimalDigits >= 3 {
      RoundTrip(value, format);
    }
    if Readable(format) && format.decimalDigits <= 3 {
      RoundTripRounded(value, format);
    }
  }

  /** A row whose input holds its own balance label needs no update. */
  lemma OwnBalanceNeedsNoUpdate(row: AccountRow)
    requires Readable(row.format) && row.format.decimalDigits >= 3
    requires row.inputValue == row.Balance()
    ensures !row.NeedsUpdate() && row.GetAccountUpdate().None?
  {
  }

  /**
   * With fewer decimal digits the label shows the balance rounded, so the
   * label typed back asks for an update exactly when the rounding changed
   * the balance, and then for the rounded balance.
   */
  lemma OwnRoundedBalanceUpdate(row: AccountRow)
    requires Readable(row.format) && row.format.decimalDigits <= 3
    requires row.inputValue == row.Balance()
    ensures row.NeedsUpdate() <==> RoundedBalance(row.balanceMilliunits, row.format.decimalDigits) != row.balanceMilliunits
    ensures row.GetAccountUpdate().Some? ==>
              row.GetAccountUpdate().value.newBalance == RoundedBalance(row.balanceMilliunits, row.format.decimalDigits)
  {
  }

  /** The typed text, trimmed, parsed to milliunits. */
  function InputMilliunits(input: string): (parsed: Option<int>)
    ensures parsed == ParseMilliunits(input)
  {
    TrimmedInputParsesAlike(input);
    ParseMilliunits(Strip(input, WHITESPACE))
  }

  /** Whether typed text asks for a balance other than `balance`. */
  predicate InputNeedsUpdate(input: string, balance: int)
  {
    match InputMilliunits(input)
    case None => false
    case Some(newBalance) => newBalance != balance
  }

  /** A cleared input asks for nothing. */
  lemma ClearedInputNeedsNoUpdate(input: string, balance: int)
    requires input == []
    ensures !InputNeedsUpdate(input, balance)
  {
    EmptyInputDoesNotParse();
  }

  class AccountRow {
    const accountId: string
    const format: CurrencyFormat
    const config: AppConfig
    var accountName: string
    var balanceMilliunits: int
    /** The text in the row's input field. */
    var inputValue: string
    /** Whether the balance label shows its loading indicator. */
    var loading: bool
    /** The adjustment transactions created from this row, oldest first. */
    var sent: seq<Adjustment>

    constructor(accountId: string, accountName: string, currentBalance: int, format: CurrencyFormat, config: AppConfig)
      ensures this.accountId == accountId && this.accountName == accountName
      ensures this.format == format && this.config == config
      ensures balanceMilliunits == currentBalance && inputValue == "" && !loading && sent == []
    {
      this.accountId := accountId;
      this.accountName := accountName;
      this.format := format;
      this.config := config;
      balanceMilliunits := currentBalance;
      inputValue := "";
      loading := false;
      sent := [];
    }

    /**
     * `compute_balance`: the label text. For a readable format it reads back
     * as the balance at three or more decimal digits, and as the balance
     * rounded to the shown digits below that.
     */
    function Balance(): (shown: string)
      reads this
      ensures Readable(format) && format.decimalDigits >= 3 ==> ParseMilliunits(shown) == Some(balanceMilliunits)
      ensures Readable(format) && format.decimalDigits <= 3 ==>
                ParseMilliunits(shown) == Some(RoundedBalance(balanceMilliunits, format.decimalDigits))
    {
      FormatReadsBack(balanceMilliunits, format);
      FormatBalance(balanceMilliunits, format)
    }

    /** `new_balance_input_value` */
    function NewBalanceInputValue(): string
      reads this
    {
      Strip(inputValue, WHITESPACE)
    }

    /** `new_balance_input_milliunits`: the input parsed as typed, trimmed or not. */
    function NewBalanceInputMilliunits(): (parsed: Option<int>)
      reads this
      ensures parsed == ParseMilliunits(inputValue)
    {
      InputMilliunits(inputValue)
    }

    /** `needs_update` */
    predicate NeedsUpdate()
      reads this
    {
      InputNeedsUpdate(inputValue, balanceMilliunits)
    }

    /** `account_update`: present exactly when an update is needed, from the row's balance to the typed one. */
    function GetAccountUpdate(): (u: Option<AccountUpdate>)
      reads this
      ensures u.None? <==> !NeedsUpdate()
      ensures u.None? <==> (ParseMilliunits(inputValue).None? || ParseMilliunits(inputValue) == Some(balanceMilliunits))
      ensures u.Some? ==> && u.value.oldBalance == balanceMilliunits
                          && ParseMilliunits(inputValue) == Some(u.value.newBalance)
                          && u.value.newBalance != u.value.oldBalance
                          && u.value.accountId == accountId && u.value.accountName == accountName
    {
      if NeedsUpdate() then Some(AccountUpdate(accountId, accountName, balanceMilliunits, NewBalanceInputMilliunits().value))
      else None
    }

    /**
     * `update_balance`: with a balance, the row takes it; without one,
     * the row takes the balance YNAB reports for the account (`fetched`),
     * or fails with AccountNotFound and keeps loading.
     */
    method UpdateBalance(newBalance: Option<int>, fetched: Option<int>) returns (err: Option<RowError>)
      modifies this
      ensures inputValue == old(inputValue) && sent == old(sent) && accountName == old(accountName)
      ensures newBalance.Some? ==> err.None? && balanceMilliunits == newBalance.value && !loading
      ensures newBalance.None? && fetched.Some? ==> err.None? && balanceMilliunits == fetched.value && !loading
      ensures newBalance.None? && fetched.None? ==>
                err == Some(AccountNotFound(accountId)) && balanceMilliunits == old(balanceMilliunits) && loading
    {
      loading := true;
      err := None;
      if newBalance.None? {
        if fetched.None? {
          err := Some(AccountNotFound(accountId));
          return;
        }
        balanceMilliunits := fetched.value;
        loading := false;
        return;
      }
      balanceMilliunits := newBalance.value;
      loading := false;
    }

    /** `update_input_balance` */
    method UpdateInputBalance(newBalance: string)
      modifies this
      ensures inputValue == newBalance
      ensures balanceMilliunits == old(balanceMilliunits) && sent == old(sent) && loading == old(loading)
      ensures accountName == old(accountName)
    {
      inputValue := newBalance;
    }

    /**
     * `push_new_balance` with the user's answer to the confirmation
     * dialog. Text that does not parse changes nothing.
     */
    method PushNewBalance(balance: string, accept: bool)
      modifies this
      ensures accountName == old(accountName)
      ensures ParseMilliunits(balance).None? ==>
                && inputValue == old(inputValue) && balanceMilliunits == old(balanceMilliunits)
                && sent == old(sent) && loading == old(loading)
      ensures ParseMilliunits(balance).Some? ==> Pushed(ParseMilliunits(balance).value, accept)
    {
      var parsed := ParseMilliunits(balance);
      PushParsedBalance(parsed, accept);
    }

    /**
     * The rest of `push_new_balance` once the text is parsed: the
     * confirmation dialog's answer goes to `push_to_ynab`.
     */
    method PushParsedBalance(parsed: Option<int>, accept: bool)
      modifies this
      ensures accountName == old(accountName)
      ensures parsed.None? ==>
                && inputValue == old(inputValue) && balanceMilliunits == old(balanceMilliunits)
                && sent == old(sent) && loading == old(loading)
      ensures parsed.Some? ==> Pushed(parsed.value, accept)
    {
      if parsed.Some? {
        var newBalance := parsed.value;
        var adjustmentAmount := newBalance - balanceMilliunits;
        PushToYnab(accept, newBalance, adjustmentAmount);
      }
    }

    /**
     * `on_button_pressed` for the row's Update button: a blank input
     * changes nothing; otherwise the label starts loading and the
     * trimmed input is pushed, so text that does not parse leaves the
     * label loading.
     */
    method PressUpdate(accept: bool)
      modifies this
      ensures accountName == old(accountName)
      ensures old(NewBalanceInputValue()) == [] ==>
                && inputValue == old(inputValue) && balanceMilliunits == old(balanceMilliunits)
                && sent == old(sent) && loading == old(loading)
      ensures old(NewBalanceInputValue()) != [] && ParseMilliunits(old(NewBalanceInputValue())).None? ==>
                && inputValue == old(inputValue) && balanceMilliunits == old(balanceMilliunits)
                && sent == old(sent) && loading
      ensures ParseMilliunits(old(NewBalanceInputValue())).Some? ==>
                Pushed(ParseMilliunits(old(NewBalanceInputValue())).value, accept)
    {
      var text := NewBalanceInputValue();
      if text != [] {
        var parsed := ParseMilliunits(text);
        LoadAndPush(parsed, accept);
      } else {
        BlankDoesNotParse(text);
      }
    }

    /**
     * The state once the dialog has been answered for `newBalance`: the
     * input is cleared (so the row needs no update, by
     * `ClearedInputNeedsNoUpdate`) and the label no longer loading; a confirmation
     * has sent the difference from the old balance and taken the new
     * one, a refusal has changed neither.
     */
    twostate predicate Pushed(newBalance: int, accept: bool)
      reads this, config
    {
      && inputValue == "" && !loading
      && (accept ==> && balanceMilliunits == newBalance
                     && sent == old(sent) + [Adjustment(accountId, newBalance - old(balanceMilliunits),
                                                        config.clearedStatus, config.adjustmentMemo)])
      && (!accept ==> balanceMilliunits == old(balanceMilliunits) && sent == old(sent))
    }

    /** The non-blank branch of `on_button_pressed`: the label starts loading and the parsed input is pushed. */
    method LoadAndPush(parsed: Option<int>, accept: bool)
      modifies this
      ensures accountName == old(accountName)
      ensures parsed.None? ==>
                && inputValue == old(inputValue) && balanceMilliunits == old(balanceMilliunits)
                && sent == old(sent) && loading
      ensures parsed.Some? ==> Pushed(parsed.value, accept)
    {
      loading := true;
      PushParsedBalance(parsed, accept);
    }

    /**
     * `push_to_ynab`: a confirmation sends the adjustment and takes the
     * new balance; any answer clears the input, after which the row
     * needs no update (`ClearedInputNeedsNoUpdate`), and stops the
     * loading indicator.
     */
    method PushToYnab(accept: bool, newBalance: int, adjustmentAmount: int)
      modifies this
      ensures accountName == old(accountName)
      ensures inputValue == "" && !loading
      ensures accept ==>
                && balanceMilliunits == newBalance
                && sent == old(sent) + [Adjustment(accountId, adjustmentAmount, config.clearedStatus, config.adjustmentMemo)]
      ensures !accept ==> balanceMilliunits == old(balanceMilliunits) && sent == old(sent)
    {
      if !accept {
        loading := false;
        inputValue := "";
        return;
      }
      sent := sent + [Adjustment(accountId, adjustmentAmount, config.clearedStatus, config.adjustmentMemo)];
      balanceMilliunits := newBalance;
      loading := false;
      inputValue := "";
    }
  }
}
