# ynab-updater in Dafny

ynab-updater is a terminal application that keeps the balances of
tracked YNAB accounts up to date. The user types an account's current
real-world balance into that account's row. The application works out
the difference from the balance YNAB holds and, once the user confirms,
creates an adjustment transaction for that difference. This project
models the application's core and proves properties of the model. The
core covers:

- reading and writing money: the current codec of `utils.py` and the
  older one of `screens.py` / `widgets.py`;
- the account row, which works out what to update and pushes the
  adjustment;
- the configuration, with its selection, lookup, merge and caching
  rules;
- the net-worth arithmetic of the YNAB client;
- the net-worth view, which groups and sorts accounts by category;
- the widget-id helpers.

The modules follow the source files:

| module | file | form |
|---|---|---|
| `Text` | Python string operations used by the codecs (`strip`, `lstrip`, `re.sub` with a class, `replace`, `split`, `ljust`, `int` of digits, a regex's `.*`) | functions and lemmas |
| `Sequences` | Python `sorted` with a key (a stable insertion sort), `sum`, `itertools.groupby` | functions and lemmas |
| `CurrencyParse` | `utils.py` `parse_currency_to_milliunits` and its three helpers | functions and lemmas |
| `CurrencyFormatting` | `utils.py` `format_balance` | functions and lemmas |
| `CurrencyRoundTrip` | `utils.py`: the parser reads back what the formatter writes | lemmas |
| `LegacyCodec` | `screens.py` `parse_currency_to_milliunits`, `widgets.py` `format_currency` | functions and lemmas |
| `Config` | `config.py`, records and rules, and `AppConfig` as a class whose cached properties are fields | functions, lemmas, a class |
| `YnabClient` | the pure parts of `ynab_client.py` | functions and lemmas |
| `NetWorthView` | `widgets/net_worth.py` | functions, two loop methods, lemmas |
| `AccountRows` | `widgets/account_row.py`, the row as a class | a class and lemmas |
| `LegacyApp` | the two balance-update handlers of `screens.py` and the row of `widgets.py` | classes, functions, lemmas |
| `WidgetIds` | `modals/utils.py` | functions and lemmas |

Modelling choices:

- **Milliunits.** Amounts are integers counted in milliunits, 1/1000 of
  a currency unit, as YNAB stores them.
- **Exact decimals instead of `float`.** The codec of `utils.py` goes
  through Python's binary `float`. Here it reads the exact decimal the
  text denotes. `f"{x:.3f}"` is then rounding to the nearest milliunit,
  half away from zero (`CurrencyParse.MagnitudeRoundsHalfUp`).
  `format_balance` formats `value / 1000` with `decimal_digits` digits.
  With three or more digits this is exact. With fewer it rounds half to
  even on the exact quotient.
- **The user and YNAB are parameters.** The user's answer to a
  confirmation dialog and whether YNAB accepted a request are method
  parameters. The transactions a row or the screen creates are recorded
  in a `sent` field.
- **Python's `float()` grammar.** Only the part of it the cleaned
  alphabet (digits, `.`, `,`, `+`, `-`) can reach is modelled. That
  part is an optional sign, then digits with `_` separators (PEP 515)
  and at most one point. The `,` become `_` before `float()` reads the
  text.

How the cleanup and the sign step interact:

- The sign step `_remove_plus_minus_signs_beginning` rejects text that
  holds both a `+` and a `-` (`src/ynab_updater/utils.py:77-79`), and
  `tests/test_utils.py:51` expects it to reject `"+-10"`.
  `CurrencyParse.RemoveSigns` fails on it too. The whole parse runs the
  cleanup first, and the cleanup's `strip(".,+")`
  (`src/ynab_updater/utils.py:101`) removes the leading `+`. So
  `parse_currency_to_milliunits("+-10")` reads `-10`, as
  `CurrencyParse.ParseLeadingPlusDropped` states.

## Model

| member | source | states |
|---|---|---|
| `CurrencyParse.Cleanup` | src/ynab_updater/utils.py:94-101 | The cleaned text holds only digits, points, commas and signs. It neither starts nor ends with `.`, `,` or `+`. Text whose kept characters start with a point gets a leading `0`. |
| `CurrencyParse.CleanupIdempotent` | src/ynab_updater/utils.py:94-101 | Cleaning cleaned text changes nothing. |
| `CurrencyParse.CleanupIgnoresOtherChars` | src/ynab_updater/utils.py:95 | Only characters of the currency class `[\d\.,+\-]` influence the cleaned value. |
| `CurrencyParse.CleanupReadsKept` | src/ynab_updater/utils.py:95 | Two texts that keep the same currency characters clean alike. |
| `CurrencyParse.CleanupLeadingPoint` | src/ynab_updater/utils.py:94-101 | Points opening the text, and any commas right behind them, become `0.`: `.5` and `..,5` clean to `0.5`. |
| `CurrencyParse.CleanupTrailingEdge` | src/ynab_updater/utils.py:94-101 | Points, commas and pluses behind number text are stripped: `5.` cleans to `5` and `1.5.` to `1.5`. |
| `CurrencyParse.RemoveSigns` | src/ynab_updater/utils.py:71-91 | The result fails exactly when the text holds both `+` and `-`. Otherwise its characters come from the input, and it holds no line break: the regex's `.*` stops at one. It never starts with `+` or whitespace, and a leading `-` is not followed by another sign. |
| `CurrencyParse.RemoveSignsShape` | src/ynab_updater/utils.py:81-91 | Without mixed signs, the result is one `-` if the leading run of signs and blanks holds a minus, followed by the rest of the line. |
| `CurrencyParse.RemoveSignsIdempotent` | src/ynab_updater/utils.py:71-91 | Sign normalisation is a normal form: applying it to its own result changes nothing. |
| `CurrencyParse.UnsignedFloat` | src/ynab_updater/utils.py:66 | What `float()` accepts after an optional sign yields two digit strings, the integer part and the fraction. |
| `CurrencyParse.FloatLiteral` | src/ynab_updater/utils.py:66 | An accepted literal is negative exactly when it starts with `-`. Its parts are digit strings. |
| `CurrencyParse.FloatLiteralUnderscores` | src/ynab_updater/utils.py:66 | Whatever `float()` accepts has each `_` between two digits. |
| `CurrencyParse.StringValueToFloat` | src/ynab_updater/utils.py:64-68 | On success every comma of the input stood between two digits, the parts are digits, and the sign is that of a leading `-`. |
| `CurrencyParse.MagnitudeExact` | src/ynab_updater/utils.py:34-35 | With at most three fraction digits the conversion to milliunits is exact. |
| `CurrencyParse.MagnitudeRoundsHalfUp` | src/ynab_updater/utils.py:34-35 | `f"{x:.3f}"` gives the milliunit count `m` with `m - 1/2 <= 1000 * x < m + 1/2`: nearest, halves away from zero. |
| `CurrencyParse.ParseMilliunits` | src/ynab_updater/utils.py:22-38 | `parse_currency_to_milliunits`. Its contract is held by the lemmas below: `ParseGroupedText` (what it reads), `ParseIgnoresNoise`, `ParseLeadingPlusDropped`, `ParseLeadingPoint`, `ParseTrailingEdge` (what it skips), `ParseRejectsMixedSigns`, `ParseNeedsDigit`, `ParseRejectsTwoPoints` (when it gives `None`), and `MagnitudeExact` and `MagnitudeRoundsHalfUp` (how a long fraction becomes milliunits). |
| `CurrencyParse.ParseGroupedText` | src/ynab_updater/utils.py:22-38 | A sign, digit groups joined by commas and a fraction parse to the decimal they denote, the groups concatenated. |
| `CurrencyParse.ParseIgnoresNoise` | src/ynab_updater/utils.py:24 | Symbols, letters and spaces never change the outcome. |
| `CurrencyParse.ParseRejectsMixedSigns` | src/ynab_updater/utils.py:77-79 | Both signs in the cleaned text give `None`. |
| `CurrencyParse.ParseNeedsDigit` | src/ynab_updater/utils.py:26-38 | Text with no digit and no point, such as `abc`, `$`, `-` or the empty text, gives `None`. |
| `CurrencyParse.ParseRejectsTwoPoints` | src/ynab_updater/utils.py:31-38 | Two points in the cleaned text, as in `1.2.3`, give `None`. |
| `CurrencyParse.ParseLeadingPlusDropped` | src/ynab_updater/utils.py:101 | A `+` in front of a negative number is stripped by the cleanup, so `+-10` reads as `-10`. |
| `CurrencyParse.CleanupUnchanged` | src/ynab_updater/utils.py:94-101 | Currency text with no `.`, `,` or `+` at its ends is already clean. |
| `CurrencyParse.ParseLeadingPoint` | src/ynab_updater/utils.py:22-38 | A number that opens with a point reads as if `0` stood before it. `.5` is 500 milliunits, the value of `0.5`. |
| `CurrencyParse.ParseTrailingEdge` | src/ynab_updater/utils.py:22-38 | Points, commas and pluses after number text do not change its value: `5.` and `5,` read as 5000 milliunits. |
| `CurrencyFormatting.RoundHalfEven` | src/ynab_updater/utils.py:44 | The quotient is within half of `n / d`, and a tie gives the even neighbour. |
| `CurrencyFormatting.FractionDigits` | src/ynab_updater/utils.py:44 | Exactly `dd` digits, reading as `n mod 10^dd`. |
| `CurrencyFormatting.Chunks` | src/ynab_updater/utils.py:44 | The thousands groups of `,` formatting: they concatenate back to the digits, the first holds one to three digits and the others three each. |
| `CurrencyFormatting.GroupedPositions` | src/ynab_updater/utils.py:44 | In the grouped integer part every fourth character from the right is a comma and every other a digit. |
| `CurrencyFormatting.FixedPointParts` | src/ynab_updater/utils.py:44 | `f"{v:,.{dd}f}"` is a sign if negative, the grouped integer digits and an optional fraction. |
| `CurrencyFormatting.FormatDigitsExact` | src/ynab_updater/utils.py:42-44 | With at least three decimal digits the digits shown, read as one number, are `abs(value) * 10^(dd - 3)`. |
| `CurrencyFormatting.MinusZeroExactly` | src/ynab_updater/utils.py:46-48 | The text `-0` arises exactly for a negative value that rounds to zero at zero decimal digits. |
| `CurrencyFormatting.SwapIsSimultaneous` | src/ynab_updater/utils.py:50-55 | The three chained `replace` calls act as one simultaneous substitution of both separators, as long as the decimal separator does not contain the placeholder text. |
| `CurrencyFormatting.FormatBalance` | src/ynab_updater/utils.py:41-61 | `format_balance`. Its contract is held by `FormatBalanceLayout` (the layout), `FixedPointParts` and `FormatDigitsExact` (the digits), `MinusZeroExactly` (the `-0` fix), `SwapIsSimultaneous` (the separator swap), and `CurrencyRoundTrip.RoundTrip` and `CurrencyRoundTrip.RoundTripRounded` (it reads back). |
| `CurrencyFormatting.FormatBalanceLayout` | src/ynab_updater/utils.py:41-61 | `format_balance` produces the reference layout: grouped integer part, decimal separator and digits, a minus before everything including a leading symbol, and the symbol on the configured side. |
| `CurrencyRoundTrip.ParseFormatted` | src/ynab_updater/utils.py:22-61 | Parsing a readable display gives the digits it shows, with its sign. |
| `CurrencyRoundTrip.RoundTrip` | src/ynab_updater/utils.py:22-61 | With a `.` decimal separator, separators and symbol free of currency characters, and at least three decimal digits, the parser reads back the exact balance. |
| `CurrencyRoundTrip.RoundedBalance` | src/ynab_updater/utils.py:44 | The displayed amount in milliunits: a multiple of `10^(3 - dd)` within half a step of the balance, with the balance's sign. |
| `CurrencyRoundTrip.RoundTripRounded` | src/ynab_updater/utils.py:22-61 | For a readable format with at most three decimal digits, the parser reads back the balance rounded to those digits. |
| `LegacyCodec.LegacyParse` | src/ynab_updater/screens.py:28-56 | Every result is a whole number of cents: whole units in thousands and cents in tens. |
| `LegacyCodec.IntLiteral` | src/ynab_updater/screens.py:41-46 | Once the outer whitespace is gone, `int()` succeeds exactly on digits, or on a `+` or `-` followed by digits. It gives their value, negated after a `-`. Whitespace between the sign and the digits is rejected. |
| `LegacyCodec.ParseInt` | src/ynab_updater/screens.py:41-46 | Python's `int()` on a string. Its contract is held by `ParseIntStrips`, `ParseIntPadded` and `ParseIntBlank` (outer whitespace), and `ParseIntDigits`, `ParseIntMinus` and `ParseIntBlankAfterSign` (what the literal may hold). |
| `LegacyCodec.ParseIntStrips` | src/ynab_updater/screens.py:41-46 | `int()` reads what `strip()` leaves of its argument: whitespace at either end is skipped. |
| `LegacyCodec.ParseIntPadded` | src/ynab_updater/screens.py:41-46 | Whitespace of any length on either side of a literal does not change what `int()` makes of it. |
| `LegacyCodec.ParseIntBlank` | src/ynab_updater/screens.py:41-46 | `int()` of blank text, the empty text included, fails. |
| `LegacyCodec.ParseIntDigits` | src/ynab_updater/screens.py:41-46 | `int()` of digits is their value. |
| `LegacyCodec.ParseIntMinus` | src/ynab_updater/screens.py:41-46 | A text that starts with `-` gives a number no greater than zero, or fails. |
| `LegacyCodec.ParseIntBlankAfterSign` | src/ynab_updater/screens.py:41-46 | `int("- 5")` fails: a sign followed by whitespace and then digits is not a number. |
| `LegacyCodec.CentsTextValue` | src/ynab_updater/screens.py:43-44 | The cents are the first two fraction digits, zero padded; later digits are dropped. |
| `LegacyCodec.LegacyParseDecimal` | src/ynab_updater/screens.py:28-56 | A signed decimal reads as its whole units times 1000 plus its truncated cents times 10. Anything behind a second point is ignored. |
| `LegacyCodec.LegacyParseWhole` | src/ynab_updater/screens.py:45-50 | A signed whole amount reads as its units times 1000. |
| `LegacyCodec.LegacyParseBlank` | src/ynab_updater/screens.py:31-56 | Blank text, the empty text included, does not parse. |
| `LegacyCodec.LegacyParseSymbolsOnly` | src/ynab_updater/screens.py:31-56 | Text made of `$` and `,` alone does not parse. |
| `LegacyCodec.LegacyParseSignOnly` | src/ynab_updater/screens.py:34-51 | A `-` alone does not parse. |
| `LegacyCodec.LegacyParseLeadingPoint` | src/ynab_updater/screens.py:39-41 | A point with no whole units before it is rejected, because `int("")` raises. |
| `LegacyCodec.LegacyParseSecondPoint` | src/ynab_updater/screens.py:40-44 | `1.2.3` reads as 1.20 units. |
| `LegacyCodec.LegacyParseLetters` | src/ynab_updater/screens.py:46-51 | `abc` is rejected. |
| `LegacyCodec.LegacyParseBlankAfterSymbol` | src/ynab_updater/screens.py:29-50 | Whitespace after a leading `$` survives the cleanup and is skipped by `int()`. So `"$ 5"` reads as 5000 milliunits and `"$ -5"` as -5000. |
| `LegacyCodec.LegacyParseBlankAfterSign` | src/ynab_updater/screens.py:29-50 | Whitespace between the `-` and a `$` survives the cleanup and is skipped by `int()`. So `"- $5"` reads as -5000 milliunits. |
| `LegacyCodec.LegacyParseBlankInCents` | src/ynab_updater/screens.py:29-50 | A blank opening the cents is skipped by `int()`. So `"1. 5"` reads as 1050 milliunits. |
| `LegacyCodec.LegacyFormat` | src/ynab_updater/widgets.py:9-27 | `format_currency`. Its contract is held by `LegacyFormatShape` and `LegacyFormatSubCent` (the text depends only on sign and whole cents), and `LegacyRoundTrip` and `LegacyRoundTripExact` (it reads back). |
| `LegacyCodec.LegacyFormatShape` | src/ynab_updater/widgets.py:9-27 | The output depends only on the sign and the truncated cents, and the `-` comes first whatever side the symbol is on. |
| `LegacyCodec.LegacyFormatSubCent` | src/ynab_updater/widgets.py:12-27 | An amount below one cent shows as zero but keeps its minus. |
| `LegacyCodec.TruncatedToCents` | src/ynab_updater/widgets.py:13-18 | The amount cut toward zero to whole cents: a multiple of 10, less than a cent from the amount, of the same sign. |
| `LegacyCodec.LegacyRoundTrip` | src/ynab_updater/widgets.py:9-27 | A formatted amount parses back to the amount truncated to whole cents, for any symbol made of `$` and `,`. |
| `LegacyCodec.LegacyRoundTripExact` | src/ynab_updater/widgets.py:9-27 | Amounts in whole cents survive the round trip unchanged. |
| `Config.SelectedBudgetConfigs` | src/ynab_updater/config.py:97 | Every selected config comes from a selected budget, and there are no more of them than budgets. `SelectedBudgetConfigsProperties` and `SelectedBudgetConfigsAppend` say more. |
| `Config.SelectedBudgetConfigsAppend` | src/ynab_updater/config.py:97 | The selection filter keeps order: the filter of a concatenation is the concatenation of the filters. |
| `Config.SelectedBudget` | src/ynab_updater/config.py:95-104 | Fails with `NoSelectedBudgets` exactly when no budget is selected. Succeeds exactly when one budget alone is selected, and returns its config. Otherwise the error is `MoreThanOneSelectedBudget`. |
| `Config.SelectedBudgetConfigsProperties` | src/ynab_updater/config.py:97-104 | The selected configs are empty exactly when none is selected, and a single one exactly when one budget alone is. |
| `Config.SelectedBudgetUnique` | src/ynab_updater/config.py:95-104 | `selected_budget` succeeds exactly when some index is the only selected budget, and returns that budget's config. |
| `Config.HasSelectedBudget` | src/ynab_updater/config.py:87-89 | `has_selected_budget`. Stated by `HasSelectedBudgetIff`. |
| `Config.HasSelectedBudgetIff` | src/ynab_updater/config.py:87-89 | `has_selected_budget` holds exactly when some budget is selected. |
| `Config.BudgetConfigs` | src/ynab_updater/config.py:91-93 | One config per budget, in order. |
| `Config.FreshBudgets` | src/ynab_updater/config.py:143-144 | Every budget from the API, in order, unselected. |
| `Config.FreshBudgetsUnselected` | src/ynab_updater/config.py:143-144 | After budgets are fetched, `ynab_budgets` lists them and `selected_budget` fails with `NoSelectedBudgets`. |
| `Config.BudgetById` | src/ynab_updater/config.py:155-164 | `NotFound` exactly when no budget has the id. Success exactly when one budget alone has it, and then that budget. The error always names the id. |
| `Config.BudgetsWithId` | src/ynab_updater/config.py:156-164 | Every match is a budget of the list with that id. `BudgetsWithIdProperties` says more. |
| `Config.BudgetsWithIdProperties` | src/ynab_updater/config.py:156-164 | The matches are empty exactly when no budget has the id, and one only when a single budget has it. |
| `Config.NoneSelected` | src/ynab_updater/config.py:97 | With no budget selected the filter is empty. |
| `Config.SelectedAccountConfigs` | src/ynab_updater/config.py:106-108 | Every selected config comes from a selected account, and there are no more of them than accounts. |
| `Config.NoAccountSelected` | src/ynab_updater/config.py:106-108 | With no account selected the filter is empty. |
| `Config.SelectedAccountConfigsAppend` | src/ynab_updater/config.py:106-108 | The account filter keeps order over concatenation. |
| `Config.HasSelectedAccountsIff` | src/ynab_updater/config.py:110-112 | `has_selected_accounts` holds exactly when some account is selected. |
| `Config.AccountIds` | src/ynab_updater/config.py:147 | Exactly the ids of the known accounts. |
| `Config.NewAccounts` | src/ynab_updater/config.py:146-153 | Only incoming accounts with an id unknown before the call are appended, each unselected, and each such account is appended. |
| `Config.NewAccountsKeepsRepeats` | src/ynab_updater/config.py:147-153 | The known ids are computed once, so an unknown account given twice in one batch is appended twice. |
| `Config.NewAccountsKeepSelection` | src/ynab_updater/config.py:146-153 | Fetching accounts never changes which accounts are selected. |
| `Config.AccountById` | src/ynab_updater/config.py:166-175 | `NotFound` exactly when no account has the id. Success exactly when one account alone has it, and then that account. |
| `Config.AccountsWithId` | src/ynab_updater/config.py:167-175 | Every match is an account of the list with that id. `AccountsWithIdProperties` says more. |
| `Config.AccountsWithIdProperties` | src/ynab_updater/config.py:167-175 | The matches are empty exactly when no account has the id, and one only when a single account has it. |
| `Config.AppConfig.constructor` | src/ynab_updater/config.py:76-81 | No key, no budgets or accounts, the memo default, `Cleared`, and no cache filled. |
| `Config.AppConfig.GetHasSelectedBudget` | src/ynab_updater/config.py:87-89 | Answers from the cache when it is filled, else computes and caches. |
| `Config.AppConfig.GetYnabBudgets` | src/ynab_updater/config.py:91-93 | Answers from the cache when it is filled, else computes and caches. |
| `Config.AppConfig.GetSelectedBudget` | src/ynab_updater/config.py:95-104 | Answers from the cache when it is filled. Else it computes, and caches only a success: a raised error is not cached. |
| `Config.AppConfig.GetSelectedAccounts` | src/ynab_updater/config.py:106-108 | Answers from the cache when it is filled, else computes and caches. |
| `Config.AppConfig.GetHasSelectedAccounts` | src/ynab_updater/config.py:110-112 | Computed from the cached `selected_accounts`, which it fills when empty. |
| `Config.AppConfig.IsValid` | src/ynab_updater/config.py:124-126 | False without a key, and then the budget cache is not touched. With a key, the cached or computed `has_selected_budget`. |
| `Config.AppConfig.Refresh` | src/ynab_updater/config.py:132-141 | Drops the `selected_budget`, `selected_accounts` and `has_selected_budget` caches. |
| `Config.AppConfig.AddBudgetsFromApi` | src/ynab_updater/config.py:143-144 | The budget list becomes the fresh budgets. No cache is touched. |
| `Config.AppConfig.AddAccountsFromApi` | src/ynab_updater/config.py:146-153 | The account list grows by exactly the new accounts. No cache is touched. |
| `Config.AppConfig.AppendAccount` | tests/test_config.py:90-91 | Appending to the account list directly, as the test does. |
| `Config.StaleUntilRefresh` | tests/test_config.py:85-97 | A fresh configuration reads no selected accounts. It still reads none after a selected account is appended, and reads that account after `refresh`. |
| `YnabClient.TotalBalance` | src/ynab_updater/ynab_client.py:51-52 | `__total_balance`: the sum of the balances. Stated by `TotalBalanceAppend`. |
| `YnabClient.TotalBalanceAppend` | src/ynab_updater/ynab_client.py:51-52 | The total of a concatenation is the sum of the totals. |
| `YnabClient.NetWorth` | src/ynab_updater/ynab_client.py:54-59 | `net_wroth`: cash and assets minus debt. Stated by `NetWorthAddAccount` and `NetWorthEmpty`. |
| `YnabClient.NetWorthAddAccount` | src/ynab_updater/ynab_client.py:54-59 | A cash or asset account raises the net worth by its balance, a debt account lowers it by its balance. |
| `YnabClient.NetWorthEmpty` | src/ynab_updater/ynab_client.py:54-59 | No accounts, net worth zero. |
| `YnabClient.CashShares` | src/ynab_updater/ynab_client.py:64-71 | One entry per cash account, in order, with its name, balance and ratio `balance / total`. |
| `YnabClient.RelativeNetWorthOf` | src/ynab_updater/ynab_client.py:61-72 | Fails exactly when there is a cash account and the net worth is zero: the division only happens once there is a cash account. Otherwise one share per cash account. |
| `YnabClient.CashSharesSum` | src/ynab_updater/ynab_client.py:64-71 | The ratios add up to the cash total over the divisor. |
| `YnabClient.RatiosSumToCashShare` | src/ynab_updater/ynab_client.py:61-72 | The ratios sum to the cash share of the net worth. |
| `YnabClient.AllCashRatiosSumToOne` | src/ynab_updater/ynab_client.py:61-72 | When every account is cash and the total is non-zero, the ratios sum to one. |
| `YnabClient.ClearedEnum` | src/ynab_updater/ynab_client.py:92-100 | `_get_cleared_enum`, from the configured status to the SDK's. Stated by `ClearedEnumBijective`. |
| `YnabClient.FromSdk` | src/ynab_updater/ynab_client.py:92-100 | The inverse of `_get_cleared_enum`. `ClearedEnumBijective` proves the two undo each other. |
| `YnabClient.ClearedEnumBijective` | src/ynab_updater/ynab_client.py:92-102 | The status mapping is a bijection onto the SDK's statuses. |
| `YnabClient.OpenAccounts` | src/ynab_updater/ynab_client.py:126 | Exactly the accounts that are not closed. |
| `YnabClient.OpenAccountsAppend` | src/ynab_updater/ynab_client.py:126 | The filter keeps order over concatenation. |
| `YnabClient.OpenAccountsAllOpen` | src/ynab_updater/ynab_client.py:126 | With no closed account the filter changes nothing. |
| `YnabClient.TransactionsPayload` | src/ynab_updater/ynab_client.py:201-205 | An empty list is refused with `NoTransactions`, and any other list is sent as given. |
| `YnabClient.HandlerKey` | src/ynab_updater/ynab_client.py:80-82 | An empty key is refused with `EmptyApiKey`, and any other key is kept. |
| `Sequences.Insert` | src/ynab_updater/widgets/net_worth.py:76 | Inserting adds exactly the new element. |
| `Sequences.InsertSorted` | src/ynab_updater/widgets/net_worth.py:76 | Insertion into a sorted sequence keeps it sorted. |
| `Sequences.SortBy` | src/ynab_updater/widgets/net_worth.py:76 | `sorted` returns a permutation of its input. |
| `Sequences.SortBySorted` | src/ynab_updater/widgets/net_worth.py:76 | `sorted` with a total preorder returns its input in order. |
| `Sequences.SortByStable` | src/ynab_updater/widgets/net_worth.py:76 | `sorted` is stable: for every key, the elements with that key come out in the order they went in. |
| `Sequences.InsertStable` | src/ynab_updater/widgets/net_worth.py:76 | Inserting into a sorted sequence puts the new element behind every element with the same key. |
| `Sequences.SumOfPermutation` | src/ynab_updater/widgets/net_worth.py:83 | An integer sum does not depend on the order of its terms. |
| `Sequences.RealSumOfPermutation` | src/ynab_updater/widgets/net_worth.py:82 | A ratio sum does not depend on the order of its terms. |
| `Sequences.Runs` | src/ynab_updater/widgets/net_worth.py:79 | `groupby` yields one non-empty run per stretch, and none for empty input. |
| `Sequences.RunsProperties` | src/ynab_updater/widgets/net_worth.py:79 | The runs put back together give the input. Each run has one key, and neighbouring runs have different keys. |
| `Sequences.RunsDistinct` | src/ynab_updater/widgets/net_worth.py:79 | On input where each key forms one stretch, every key heads exactly one run. |
| `Sequences.RunHeadsSorted` | src/ynab_updater/widgets/net_worth.py:152 | The runs of sorted input start in sorted order. |
| `NetWorthView.Groups` | src/ynab_updater/widgets/net_worth.py:75-91 | `AssetsLiabilities.groups`, the reference definition. Its contract is held by `GroupsOf` (the loop computes it), `GroupsAtMostOnce`, `GroupsByRatio`, `GroupsSumByCategory` and `GroupsKeepTotal`. |
| `NetWorthView.AggregateRuns` | src/ynab_updater/widgets/net_worth.py:78-85 | The loop appends the aggregate of each run, in order. |
| `NetWorthView.GroupsOf` | src/ynab_updater/widgets/net_worth.py:75-91 | `groups` as written computes the reference `Groups`. |
| `NetWorthView.SortedByCategoryClustered` | src/ynab_updater/widgets/net_worth.py:76 | Sorting by category puts each category in one stretch. |
| `NetWorthView.CategoryRuns` | src/ynab_updater/widgets/net_worth.py:76-85 | After the sort by category there is one run per category. Each run holds only its category, and no two aggregates share a category. |
| `NetWorthView.GroupsAtMostOnce` | src/ynab_updater/widgets/net_worth.py:75-91 | `groups()` yields each category at most once. |
| `NetWorthView.GroupsByRatio` | src/ynab_updater/widgets/net_worth.py:87-91 | `groups()` yields the categories largest summed ratio first. |
| `NetWorthView.GroupsSumByCategory` | src/ynab_updater/widgets/net_worth.py:75-91 | A category's group holds the sums of its entries' balances and ratios: nothing is dropped or counted twice. |
| `NetWorthView.GroupsKeepTotal` | src/ynab_updater/widgets/net_worth.py:75-91 | All groups' balances add up to the total of all entries. |
| `NetWorthView.Lookup` | src/ynab_updater/widgets/net_worth.py:60 | The dictionary lookup: a group of that category, or nothing exactly when no group has it. |
| `NetWorthView.Card` | src/ynab_updater/widgets/net_worth.py:60-63 | `data.get(category, (0.0, 0))`. Stated by `CardIsSum`. |
| `NetWorthView.CardIsSum` | src/ynab_updater/widgets/net_worth.py:60-63 | With at most one group per category, the card shows that category's sums, `(0.0, 0)` when it is absent. |
| `NetWorthView.Overview` | src/ynab_updater/widgets/net_worth.py:29-34 | Four cards, in the order Assets, Savings, Cash, Debt. |
| `NetWorthView.OverviewShowsCategoryTotals` | src/ynab_updater/widgets/net_worth.py:59-73 | Every card shows its category's summed ratio and balance. A category without entries shows 0 and 0. |
| `NetWorthView.OrderKey` | src/ynab_updater/widgets/net_worth.py:123-129 | The position in `CATEGORY_ORDER`, or 99 exactly for the other categories. |
| `NetWorthView.SortAccounts` | src/ynab_updater/widgets/net_worth.py:98-99 | `_sort_accounts`. Stated by `SortAccountsOrder` and `SortAccountsClustered`. |
| `NetWorthView.SortAccountsOrder` | src/ynab_updater/widgets/net_worth.py:98-99 | `_sort_accounts` returns a permutation ordered by category position, then by ratio from the largest. |
| `NetWorthView.SortAccountsClustered` | src/ynab_updater/widgets/net_worth.py:98-99 | With known categories, each category forms one stretch of the sorted accounts. |
| `NetWorthView.BreakdownNodes` | src/ynab_updater/widgets/net_worth.py:150-160 | The tree of `AccountsBreakdown.update`, one node per category run. Stated by `BreakdownOneNodePerCategory`. |
| `NetWorthView.BreakdownOneNodePerCategory` | src/ynab_updater/widgets/net_worth.py:150-160 | With known categories the tree has one node per category, in `CATEGORY_ORDER`, each holding only its own accounts, and all accounts appear. |
| `AccountRows.EmptyInputDoesNotParse` | src/ynab_updater/utils.py:27-29 | The empty input does not parse. |
| `AccountRows.TrimmedInputParsesAlike` | src/ynab_updater/widgets/account_row.py:176-177 | Trimming whitespace never changes what the input parses to. |
| `AccountRows.FormatReadsBack` | src/ynab_updater/widgets/account_row.py:81-82 | For a readable format (a `.` decimal separator, and separators and symbol without currency characters) the formatted balance reads back: exactly at three or more decimal digits, as `RoundedBalance`, the balance rounded to the shown digits, below that. |
| `AccountRows.InputMilliunits` | src/ynab_updater/widgets/account_row.py:171-177 | The trimmed input parses as the input itself does. |
| `AccountRows.OwnBalanceNeedsNoUpdate` | src/ynab_updater/widgets/account_row.py:88-106 | For a readable format with three or more decimal digits, a row whose input holds its own balance label needs no update. |
| `AccountRows.OwnRoundedBalanceUpdate` | src/ynab_updater/widgets/account_row.py:81-106 | For a readable format with at most three decimal digits, a row whose input holds its own balance label needs an update exactly when rounding to the shown digits changed the balance, and the update is to the rounded balance. |
| `AccountRows.InputNeedsUpdate` | src/ynab_updater/widgets/account_row.py:88-93 | The rule of `needs_update` on an input and a balance. Stated by `ClearedInputNeedsNoUpdate`, `OwnBalanceNeedsNoUpdate` and `OwnRoundedBalanceUpdate`. |
| `AccountRows.ClearedInputNeedsNoUpdate` | src/ynab_updater/widgets/account_row.py:143 | After the input is cleared, the row needs no update. |
| `AccountRows.AccountRow.constructor` | src/ynab_updater/widgets/account_row.py:44-61 | The row holds its account, format, configuration and balance, with an empty input, no loading and nothing sent. |
| `AccountRows.AccountRow.Balance` | src/ynab_updater/widgets/account_row.py:81-82 | For a readable format the label reads back as the balance at three or more decimal digits, and as `RoundedBalance`, the balance rounded to the shown digits, below that. |
| `AccountRows.AccountRow.NewBalanceInputMilliunits` | src/ynab_updater/widgets/account_row.py:175-177 | The trimmed input parses as the input itself does. |
| `AccountRows.AccountRow.NeedsUpdate` | src/ynab_updater/widgets/account_row.py:88-93 | `needs_update`. `GetAccountUpdate` states it: true exactly when the input parses to a balance other than the row's. |
| `AccountRows.AccountRow.GetAccountUpdate` | src/ynab_updater/widgets/account_row.py:95-106 | Present exactly when the input parses to a balance other than the row's, from the row's balance to the typed one. |
| `AccountRows.AccountRow.UpdateBalance` | src/ynab_updater/widgets/account_row.py:108-125 | A given balance is taken. Without one, the balance YNAB reports is taken; if YNAB has no such account it fails with `AccountNotFound` and keeps loading. |
| `AccountRows.AccountRow.UpdateInputBalance` | src/ynab_updater/widgets/account_row.py:160-161 | Only the input changes. |
| `AccountRows.AccountRow.PushNewBalance` | src/ynab_updater/widgets/account_row.py:127-158 | Text that does not parse changes nothing. Otherwise the answer goes to `push_to_ynab`. |
| `AccountRows.AccountRow.PushParsedBalance` | src/ynab_updater/widgets/account_row.py:128-158 | Nothing parsed changes nothing. A parsed balance, once confirmed, sends the difference from the old balance with the configured status and memo and is taken. A refusal changes neither. Either answer clears the input and stops loading. |
| `AccountRows.AccountRow.LoadAndPush` | src/ynab_updater/widgets/account_row.py:75-79 | The label starts loading. Text that does not parse leaves it loading, and a parsed balance is pushed. |
| `AccountRows.AccountRow.PushToYnab` | src/ynab_updater/widgets/account_row.py:140-156 | A confirmation sends the given adjustment with the configured status and memo and takes the new balance. A refusal keeps both. Any answer clears the input and stops loading. |
| `AccountRows.AccountRow.PressUpdate` | src/ynab_updater/widgets/account_row.py:72-79 | A blank input changes nothing. Text that does not parse leaves the label loading. A parsed balance is pushed. |
| `LegacyApp.PlanSingle` | src/ynab_updater/screens.py:504-548 | Refused exactly when the screen is loading or unconfigured, when the account is unknown, when the text does not parse, or when the balance is unchanged, in that order. Otherwise it plans the adjustment from the current to the new balance. |
| `LegacyApp.ShownBalanceNeedsNoAdjustment` | src/ynab_updater/screens.py:540-548 | On a ready screen, a whole-cent balance (a multiple of 10 milliunits) shown by the row and typed back in asks for no adjustment. |
| `LegacyApp.ShownSubCentBalanceIsAdjusted` | src/ynab_updater/screens.py:540-548 | On a ready screen, a balance with a fraction of a cent, shown by the row and typed back in, plans an adjustment to the balance cut to whole cents. |
| `LegacyApp.ReplanAfterApplyIsRefused` | src/ynab_updater/screens.py:592-596 | Once an update is applied, asking for the same balance again asks for no adjustment. |
| `LegacyApp.Apply` | src/ynab_updater/screens.py:595-596 | Only the updated account's balance changes. |
| `LegacyApp.Plan` | src/ynab_updater/screens.py:631-656 | A row's bulk rule gives an update only for a known account whose balance changes. |
| `LegacyApp.PlanAgreesWithSingle` | src/ynab_updater/screens.py:504-656 | The bulk rule and the single-update rule accept the same rows, on the row's trimmed text, and plan the same adjustment. |
| `LegacyApp.EmptyInputPlansNothing` | src/ynab_updater/screens.py:631-635 | A row with an empty input gives no update. |
| `LegacyApp.Collected` | src/ynab_updater/screens.py:627-656 | The collected updates are at most one per row, and each is what a row's rule plans. |
| `LegacyApp.CollectedComplete` | src/ynab_updater/screens.py:627-656 | Every row whose rule gives an update is collected. |
| `LegacyApp.CollectedSound` | src/ynab_updater/screens.py:627-656 | Every collected update comes from one of the rows. |
| `LegacyApp.CollectedEmpty` | src/ynab_updater/screens.py:659-661 | "No accounts have new balances entered" exactly when no row's rule gives an update. |
| `LegacyApp.CollectUpdates` | src/ynab_updater/screens.py:627-656 | The loop collects the planned updates of the rows in row order. |
| `LegacyApp.Payloads` | src/ynab_updater/screens.py:673-685 | One payload per update, in order, with its adjustment and the configured status and memo. |
| `LegacyApp.AppliedAll` | src/ynab_updater/screens.py:699-708 | The accounts after each update in turn, with the same ids. Stated further by `AppliedAllKeepsOtherPlan`, `NothingLeftToUpdate` and `RowAfterUpdate`. |
| `LegacyApp.ApplyKeepsOtherPlan` | src/ynab_updater/screens.py:699-708 | Applying one update changes nothing another row's rule reads. |
| `LegacyApp.AppliedAllKeepsOtherPlan` | src/ynab_updater/screens.py:699-708 | Applying updates for other accounts changes nothing a row's rule reads. |
| `LegacyApp.NothingLeftToUpdate` | src/ynab_updater/screens.py:669-722 | After a confirmed bulk update, the touched rows are cleared and no row's rule gives anything. |
| `LegacyApp.RowAfterUpdate` | src/ynab_updater/screens.py:699-708 | A row after the bulk update is cleared if it was updated, and otherwise still asks for nothing. |
| `LegacyApp.EveryUpdateHasRow` | src/ynab_updater/screens.py:699-702 | Every collected update is for an account some row shows. |
| `LegacyApp.LegacyRow.constructor` | src/ynab_updater/widgets.py:80-89 | The row holds its account and balance, with an empty input. |
| `LegacyApp.LegacyRow.BalanceLabel` | src/ynab_updater/widgets.py:87 | The label reads back as the balance cut to whole cents, and as the balance itself when it is whole cents. |
| `LegacyApp.LegacyRow.NewBalanceInputValue` | src/ynab_updater/widgets.py:110-113 | The trimmed input reads as the input does. |
| `LegacyApp.LegacyRow.Reading` | src/ynab_updater/screens.py:631-635 | What the bulk rule reads from the row: its account id and its input. |
| `LegacyApp.LegacyRow.PressUpdate` | src/ynab_updater/widgets.py:97-103 | A non-blank input is posted trimmed and then cleared. A blank input posts nothing. |
| `LegacyApp.LegacyRow.UpdateBalance` | src/ynab_updater/widgets.py:105-108 | The row takes the new balance and keeps its input. |
| `LegacyApp.MainScreen.constructor` | src/ynab_updater/screens.py:87-91 | The screen holds its rows and accounts, is not loading and has sent nothing. |
| `LegacyApp.MainScreen.UpdateSingle` | src/ynab_updater/screens.py:504-612 | The plan is the single-update rule. Only a confirmed and accepted plan sends its adjustment, after which the row and the screen take the new balance. |
| `LegacyApp.MainScreen.UpdateAll` | src/ynab_updater/screens.py:614-727 | The updates are those collected from the rows. They are sent in one request only if confirmed and accepted; then every updated row takes its balance and is cleared, and no row asks for an update. |
| `LegacyApp.MainScreen.SendAll` | src/ynab_updater/screens.py:671-708 | The payloads are appended to what was sent. The accounts and rows take the new balances, the updated inputs are cleared, and nothing is left to collect. |
| `LegacyApp.MainScreen.ApplyToRows` | src/ynab_updater/screens.py:699-708 | The loop gives every updated row and account its new balance and clears the row's input. |
| `LegacyApp.MainScreen.ApplyOne` | src/ynab_updater/screens.py:699-708 | One loop step: afterwards every row shows its starting balance after the updates applied so far and this one, and the rows of updated accounts have an empty input. The accounts take the update through `Apply`. |
| `LegacyApp.MainScreen.TakeUpdate` | src/ynab_updater/screens.py:701-706 | One row takes the new balance and an empty input, and so does the screen's copy of the account. |
| `WidgetIds.GenerateWidgetId` | src/ynab_updater/modals/utils.py:4-8 | The prefix, a hyphen, then the base id. |
| `WidgetIds.ExtractBaseId` | src/ynab_updater/modals/utils.py:11-16 | Present exactly for a non-empty id that starts with `prefix-`, and then the rest of the id. |
| `WidgetIds.ExtractGenerated` | src/ynab_updater/modals/utils.py:4-16 | Every base id, the empty one too, comes back out of the widget id made from it. |
| `WidgetIds.GenerateExtracted` | src/ynab_updater/modals/utils.py:4-16 | Every id that yields a base id is the widget id made from it. |
| `WidgetIds.GenerateInjective` | src/ynab_updater/modals/utils.py:4-8 | Different base ids under one prefix give different widget ids. |

## Left out

- Floating point. `float()`, `value / 1000` and `f"{x:.Nf}"` work on binary floats in the source. Here they work on the exact decimal, so results differ where binary rounding does (ties and more than about fifteen significant digits) and where a double overflows.
- CurrencyFormatting.FormatBalance: with fewer than three decimal digits it rounds half to even on the exact quotient, while Python rounds the nearest binary double. The two part on ties. For a balance of 15 milliunits at two decimal digits, 0.015 is stored just below the tie, so Python shows `0.01`; the model rounds the exact tie to even and shows `0.02`.
- CurrencyParse.ParseMilliunits: float overflow is not modelled. A literal beyond the double range, such as `1` followed by 309 zeros, becomes `inf` in `float()`; `f"{inf:.3f}"` is `inf` and `int("inf")` raises `ValueError`, so the source returns `None`. The model has unbounded integers and returns the exact milliunits.
- CurrencyFormatting.FormatBalance: float overflow is not modelled. `value / 1000` raises `OverflowError` once the balance is beyond about 1.8e311 milliunits; the model formats every integer.
- AccountRows.FormatReadsBack, AccountRows.AccountRow.Balance: the read-back is stated for readable formats only; at fewer than three decimal digits it gives the rounded balance (`RoundedBalance`), not the balance.
- AccountRows.OwnBalanceNeedsNoUpdate: stated for readable formats with three or more decimal digits. Below three digits `AccountRows.OwnRoundedBalanceUpdate` gives the exact rule; for other formats no claim is made.
- LegacyApp.ShownBalanceNeedsNoAdjustment: stated for a ready screen and a whole-cent balance. A sub-cent balance is `LegacyApp.ShownSubCentBalanceIsAdjusted`; a screen that is not ready refuses with `NotReady` by the contract of `LegacyApp.PlanSingle`.
- Account balances (`AccountBalance`) are floats in the source and integers here. Ratios are exact reals.
- YnabClient.RelativeNetWorthOf: Python's ZeroDivisionError on a zero net worth is the `Failure` branch. Float results such as `inf` are not modelled.
- Unicode. The regex class `\d`, `str.strip()`, `lstrip()` and `int()` accept Unicode digits and whitespace. The model uses ASCII digits and the ASCII and control whitespace listed in `Text.WHITESPACE`. Underscores inside `int()` are not modelled.
- CurrencyFormatting.FormatBalance: `decimal_digits` is a `nat`. Negative precision raises in Python and is not modelled.
- CurrencyRoundTrip.RoundTrip, CurrencyRoundTrip.RoundTripRounded, AccountRows.FormatReadsBack, AccountRows.AccountRow.Balance, AccountRows.OwnBalanceNeedsNoUpdate: stated only for readable formats, meaning a `.` decimal separator and separators and symbol without currency characters. Other formats, such as `,` as the decimal separator, do not read back, and the lemmas make no claim about them.
- Text formatting shown to the user is not modelled: `update_balance_text`, `bulk_update_balance_text`, `create_bulk_update_prompt`, the percentage labels, emoji and column widths of the net-worth view, and `css_id`. It only builds display strings.
- I/O: the YNAB SDK, HTTP requests and their exceptions, the Textual UI (widgets, queries, notifications, modal screens), logging, and loading and saving the JSON configuration. Their outcomes are parameters or left out.
- Concurrency: the `@work` thread of `update_balance_from_ynab` and async callbacks run as plain calls. What YNAB reports for the account is a parameter.
- LegacyApp.MainScreen.UpdateSingle, LegacyApp.MainScreen.UpdateAll: `set_loading(True)` and `set_loading(False)` around the request are collapsed. The screen is not loading after the call, and the loading state in between is not modelled.
- LegacyApp.MainScreen.UpdateAll: `query_one` on a missing row raises `NoMatches` in the source. The model requires every row to be present and the rows' account ids to be distinct (`DistinctIds`), as the `#account-row-<id>` ids are.
- Net-worth entries: `net_worth.py` reads `type` from the items of `relative_net_worth` but `ynab_client.py` builds them without it. The view works on abstract entries (account, category, balance, ratio) instead.
- NetWorthView.Groups: the `NetworthType` enum is its `.value` string. The sort key is that string, compared by code points.
- AccountRows.AccountRow.PushToYnab: `!needs_update` after the input is cleared is the separate lemma `AccountRows.ClearedInputNeedsNoUpdate`, not part of the method's contract.
- AccountRows.AccountRow.PressUpdate: the button-id check (`event.button.id == f"update-{id}"`) and `event.stop()` are not modelled. Only the row's own Update button is considered.
- The other source files (`update_logic.py`, `app.py`, `modals.py`, the screens and widgets not named above, `cli.py`) are not part of this model.
