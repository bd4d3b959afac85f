/**
 * The net-worth view of src/ynab_updater/widgets/net_worth.py: the
 * per-category overview cards (`AssetsLiabilities.groups` and
 * `update`) and the per-account breakdown (`_sort_accounts` and the
 * grouping in `AccountsBreakdown.update`). Widgets, labels and
 * percentages are not modelled.
 */
module NetWorthView {
  import opened Wrappers
  import opened Text
  import opened Sequences

  /** One account's line of the relative net worth: name, category, balance and share. */
  datatype Entry = Entry(account: string, category: string, balance: int, ratio: real)

  /** One aggregated category: `(group, ratio_sum, balance_sum)`. */
  datatype Group = Group(category: string, ratio: real, balance: int)

  function EntryCategory(e: Entry): string { e.category }
  function EntryBalance(e: Entry): int { e.balance }
  function EntryRatio(e: Entry): real { e.ratio }
  function GroupBalance(g: Group): int { g.balance }
  function GroupRatio(g: Group): real { g.ratio }

  /** The part of an entry's balance that belongs to category `c`. */
  function EntryBalanceIn(c: string): Entry -> int { (e: Entry) => if e.category == c then e.balance else 0 }
  function EntryRatioIn(c: string): Entry -> real { (e: Entry) => if e.category == c then e.ratio else 0.0 }
  function BalanceIn(c: string): Group -> int { (g: Group) => if g.category == c then g.balance else 0 }
  function RatioIn(c: string): Group -> real { (g: Group) => if g.category == c then g.ratio else 0.0 }
  function CountIn(c: string): Group -> int { (g: Group) => if g.category == c then 1 else 0 }

  // ------------------------------------------------------------ groups()

  /** The sort key of `groups`: the category's text. */
  function CategoryLe(a: Entry, b: Entry): bool { LexLe(a.category, b.category) }

  /** The sort of the aggregated groups: by summed ratio, largest first. */
  function RatioDescending(a: Group, b: Group): bool { a.ratio >= b.ratio }

  /** The totals of one run of `groupby`. */
  function Aggregate(run: seq<Entry>): Group
    requires run != []
  {
    Group(run[0].category, RealSumOf(run, EntryRatio), SumOf(run, EntryBalance))
  }

  function Aggregated(runs: seq<seq<Entry>>): (r: seq<Group>)
    requires forall k :: 0 <= k < |runs| ==> runs[k] != []
    ensures |r| == |runs|
  {
    if runs == [] then [] else [Aggregate(runs[0])] + Aggregated(runs[1..])
  }

  /** `AssetsLiabilities.groups`: sort by category, aggregate each run, sort by summed ratio. */
  function Groups(entries: seq<Entry>): seq<Group>
  {
    var byCategory := SortBy(entries, CategoryLe);
    var runs := Runs(byCategory, EntryCategory);
    SortBy(Aggregated(runs), RatioDescending)
  }

  /** The loop of `groups` that appends one aggregated tuple per run. */
  method AggregateRuns(runs: seq<seq<Entry>>) returns (aggregated: seq<Group>)
    requires forall k :: 0 <= k < |runs| ==> runs[k] != []
    ensures aggregated == Aggregated(runs)
  {
    aggregated := [];
    var i := 0;
    while i < |runs|
      invariant 0 <= i <= |runs|
      invariant |aggregated| == i
      invariant forall k :: 0 <= k < i ==> aggregated[k] == Aggregate(runs[k])
    {
      aggregated := aggregated + [Aggregate(runs[i])];
      i := i + 1;
    }
    forall k | 0 <= k < |runs| ensures aggregated[k] == Aggregated(runs)[k] {
      AggregatedAt(runs, k);
    }
  }

  /** `AssetsLiabilities.groups` as written: sort, group, aggregate in a loop, sort. */
  method GroupsOf(entries: seq<Entry>) returns (groups: seq<Group>)
    ensures groups == Groups(entries)
  {
    var sortedByType := SortBy(entries, CategoryLe);
    var runs := Runs(sortedByType, EntryCategory);
    var aggregated := AggregateRuns(runs);
    groups := SortBy(aggregated, RatioDescending);
  }

  lemma CategoryLePreorder()
    ensures TotalPreorder(CategoryLe)
  {
    forall a, b ensures CategoryLe(a, b) || CategoryLe(b, a) {
      LexLeTotal(a.category, b.category);
    }
    forall a, b, c | CategoryLe(a, b) && CategoryLe(b, c) ensures CategoryLe(a, c) {
      LexLeTransitive(a.category, b.category, c.category);
    }
  }

  lemma RatioDescendingPreorder()
    ensures TotalPreorder(RatioDescending)
  {
  }

  /** Sorting by category puts each category in one stretch. */
  lemma SortedByCategoryClustered(s: seq<Entry>)
    requires SortedBy(s, CategoryLe)
    ensures Clustered(s, EntryCategory)
  {
    forall i, j, m | 0 <= i < j < m < |s| && EntryCategory(s[i]) == EntryCategory(s[m])
      ensures EntryCategory(s[j]) == EntryCategory(s[i])
    {
      assert CategoryLe(s[i], s[j]) && CategoryLe(s[j], s[m]);
      LexLeAntisymmetric(s[i].category, s[j].category);
    }
  }

  lemma {:induction false} AggregatedAt(runs: seq<seq<Entry>>, k: int)
    requires forall k :: 0 <= k < |runs| ==> runs[k] != []
    requires 0 <= k < |runs|
    ensures Aggregated(runs)[k] == Aggregate(runs[k])
  {
    if k > 0 {
      AggregatedAt(runs[1..], k - 1);
    }
  }

  /** The runs of the category-sorted entries: one per category, with their totals. */
  lemma CategoryRuns(entries: seq<Entry>)
    ensures var runs := Runs(SortBy(entries, CategoryLe), EntryCategory);
            && Flatten(runs) == SortBy(entries, CategoryLe)
            && (forall k, i :: 0 <= k < |runs| && 0 <= i < |runs[k]| ==> runs[k][i].category == runs[k][0].category)
            && (forall k, l :: 0 <= k < l < |runs| ==> Aggregated(runs)[k].category != Aggregated(runs)[l].category)
  {
    var sorted := SortBy(entries, CategoryLe);
    var runs := Runs(sorted, EntryCategory);
    CategoryLePreorder();
    SortBySorted(entries, CategoryLe);
    SortedByCategoryClustered(sorted);
    RunsProperties(sorted, EntryCategory);
    RunsDistinct(sorted, EntryCategory);
    forall k, l | 0 <= k < l < |runs| ensures Aggregated(runs)[k].category != Aggregated(runs)[l].category {
      AggregatedAt(runs, k);
      AggregatedAt(runs, l);
    }
  }

  /** A run of one category contributes to that category only. */
  lemma {:induction false} UniformRunSums(run: seq<Entry>, c: string)
    requires run != [] && forall i :: 0 <= i < |run| ==> run[i].category == run[0].category
    ensures SumOf(run, EntryBalanceIn(c)) == if run[0].category == c then SumOf(run, EntryBalance) else 0
    ensures RealSumOf(run, EntryRatioIn(c)) == if run[0].category == c then RealSumOf(run, EntryRatio) else 0.0
  {
    if |run| > 1 {
      UniformRunSums(run[1..], c);
    }
  }

  lemma {:induction false} AggregatedSums(runs: seq<seq<Entry>>, c: string)
    requires forall k :: 0 <= k < |runs| ==> runs[k] != []
    requires forall k, i :: 0 <= k < |runs| && 0 <= i < |runs[k]| ==> runs[k][i].category == runs[k][0].category
    ensures SumOf(Aggregated(runs), BalanceIn(c)) == SumOf(Flatten(runs), EntryBalanceIn(c))
    ensures RealSumOf(Aggregated(runs), RatioIn(c)) == RealSumOf(Flatten(runs), EntryRatioIn(c))
    ensures SumOf(Aggregated(runs), GroupBalance) == SumOf(Flatten(runs), EntryBalance)
  {
    if runs != [] {
      AggregatedSums(runs[1..], c);
      UniformRunSums(runs[0], c);
      SumOfAppend(runs[0], Flatten(runs[1..]), EntryBalanceIn(c));
      RealSumOfAppend(runs[0], Flatten(runs[1..]), EntryRatioIn(c));
      SumOfAppend(runs[0], Flatten(runs[1..]), EntryBalance);
    }
  }

  /** Groups with distinct categories hold each category at most once. */
  lemma {:induction false} DistinctAtMostOnce(gs: seq<Group>, c: string)
    requires forall k, l :: 0 <= k < l < |gs| ==> gs[k].category != gs[l].category
    ensures SumOf(gs, CountIn(c)) <= 1
  {
    if gs != [] {
      var tail := gs[1..];
      DistinctAtMostOnce(tail, c);
      if gs[0].category == c {
        assert forall k :: 0 <= k < |tail| ==> tail[k].category != c by {
          forall k | 0 <= k < |tail| ensures tail[k].category != c {
            assert tail[k] == gs[k + 1];
          }
        }
        Absent(tail, c);
      }
    }
  }

  /** A category no group has counts, and sums, to nothing. */
  lemma {:induction false} Absent(gs: seq<Group>, c: string)
    requires forall k :: 0 <= k < |gs| ==> gs[k].category != c
    ensures SumOf(gs, CountIn(c)) == 0 && SumOf(gs, BalanceIn(c)) == 0 && RealSumOf(gs, RatioIn(c)) == 0.0
  {
    if gs != [] {
      Absent(gs[1..], c);
    }
  }

  lemma {:induction false} CountNotNegative(gs: seq<Group>, c: string)
    ensures SumOf(gs, CountIn(c)) >= 0
  {
    if gs != [] {
      CountNotNegative(gs[1..], c);
    }
  }

  lemma {:induction false} CountZero(gs: seq<Group>, c: string)
    requires SumOf(gs, CountIn(c)) == 0
    ensures forall k :: 0 <= k < |gs| ==> gs[k].category != c
  {
    if gs != [] {
      CountNotNegative(gs[1..], c);
      CountZero(gs[1..], c);
      forall k | 1 <= k < |gs| ensures gs[k].category != c {
        assert gs[k] == gs[1..][k - 1];
      }
    }
  }

  /** `groups()` yields each category at most once. */
  lemma GroupsAtMostOnce(entries: seq<Entry>, c: string)
    ensures SumOf(Groups(entries), CountIn(c)) <= 1
  {
    var runs := Runs(SortBy(entries, CategoryLe), EntryCategory);
    CategoryRuns(entries);
    DistinctAtMostOnce(Aggregated(runs), c);
    SumOfPermutation(Groups(entries), Aggregated(runs), CountIn(c));
  }

  /** `groups()` yields the categories largest summed ratio first. */
  lemma GroupsByRatio(entries: seq<Entry>)
    ensures forall i, j :: 0 <= i < j < |Groups(entries)| ==> Groups(entries)[i].ratio >= Groups(entries)[j].ratio
  {
    var runs := Runs(SortBy(entries, CategoryLe), EntryCategory);
    RatioDescendingPreorder();
    SortBySorted(Aggregated(runs), RatioDescending);
  }

  /**
   * The group of a category holds the sums over that category's entries:
   * summed by category, nothing is dropped or counted twice.
   */
  lemma GroupsSumByCategory(entries: seq<Entry>, c: string)
    ensures SumOf(Groups(entries), BalanceIn(c)) == SumOf(entries, EntryBalanceIn(c))
    ensures RealSumOf(Groups(entries), RatioIn(c)) == RealSumOf(entries, EntryRatioIn(c))
  {
    var sorted := SortBy(entries, CategoryLe);
    var runs := Runs(sorted, EntryCategory);
    CategoryRuns(entries);
    AggregatedSums(runs, c);
    SumOfPermutation(Groups(entries), Aggregated(runs), BalanceIn(c));
    RealSumOfPermutation(Groups(entries), Aggregated(runs), RatioIn(c));
    SumOfPermutation(sorted, entries, EntryBalanceIn(c));
    RealSumOfPermutation(sorted, entries, EntryRatioIn(c));
  }

  /** All groups' balances together are the total of all entries. */
  lemma GroupsKeepTotal(entries: seq<Entry>)
    ensures SumOf(Groups(entries), GroupBalance) == SumOf(entries, EntryBalance)
  {
    var sorted := SortBy(entries, CategoryLe);
    var runs := Runs(sorted, EntryCategory);
    CategoryRuns(entries);
    AggregatedSums(runs, "");
    SumOfPermutation(Groups(entries), Aggregated(runs), GroupBalance);
    SumOfPermutation(sorted, entries, EntryBalance);
  }

  // ------------------------------------------------------------ update()

  /** The categories with a card, in display order. */
  const CARD_CATEGORIES: seq<string> := ["Assets", "Savings", "Cash", "Debt"]

  /** `{group.value: (ratio, balance) for …}[c]`: a later group with the same key wins. */
  function Lookup(gs: seq<Group>, c: string): (r: Option<Group>)
    ensures r.Some? ==> r.value in gs && r.value.category == c
    ensures r.None? <==> forall k :: 0 <= k < |gs| ==> gs[k].category != c
  {
    if gs == [] then None
    else if gs[|gs| - 1].category == c then Some(gs[|gs| - 1])
    else
      var r := Lookup(gs[..|gs| - 1], c);
      assert forall k :: 0 <= k < |gs| - 1 ==> gs[..|gs| - 1][k] == gs[k];
      r
  }

  /** `data.get(category, (0.0, 0))` */
  function Card(gs: seq<Group>, c: string): (real, int)
  {
    match Lookup(gs, c)
    case None => (0.0, 0)
    case Some(g) => (g.ratio, g.balance)
  }

  lemma {:induction false} CardIsSum(gs: seq<Group>, c: string)
    requires SumOf(gs, CountIn(c)) <= 1
    ensures Card(gs, c) == (RealSumOf(gs, RatioIn(c)), SumOf(gs, BalanceIn(c)))
  {
    if gs != [] {
      var front, last := gs[..|gs| - 1], gs[|gs| - 1];
      assert gs == front + [last];
      SnocSums(front, last, c);
      CountNotNegative(front, c);
      if last.category == c {
        CountZero(front, c);
        Absent(front, c);
      } else {
        CardIsSum(front, c);
      }
    }
  }

  /** One more group adds its own share to each of the category's sums. */
  lemma SnocSums(front: seq<Group>, last: Group, c: string)
    ensures SumOf(front + [last], CountIn(c)) == SumOf(front, CountIn(c)) + CountIn(c)(last)
    ensures SumOf(front + [last], BalanceIn(c)) == SumOf(front, BalanceIn(c)) + BalanceIn(c)(last)
    ensures RealSumOf(front + [last], RatioIn(c)) == RealSumOf(front, RatioIn(c)) + RatioIn(c)(last)
  {
    SumOfAppend(front, [last], CountIn(c));
    SumOfAppend(front, [last], BalanceIn(c));
    RealSumOfAppend(front, [last], RatioIn(c));
    assert [last][1..] == [];
  }

  /** The four cards of `AssetsLiabilities.update`: category, ratio and balance. */
  function Overview(entries: seq<Entry>): (cards: seq<(string, real, int)>)
    ensures |cards| == |CARD_CATEGORIES|
    ensures forall i :: 0 <= i < |cards| ==> cards[i].0 == CARD_CATEGORIES[i]
  {
    var gs := Groups(entries);
    seq(|CARD_CATEGORIES|, i requires 0 <= i < |CARD_CATEGORIES| => (CARD_CATEGORIES[i], Card(gs, CARD_CATEGORIES[i]).0, Card(gs, CARD_CATEGORIES[i]).1))
  }

  /**
   * Every card shows the sums over its category's entries; a category
   * without entries shows ratio 0 and balance 0.
   */
  lemma OverviewShowsCategoryTotals(entries: seq<Entry>, i: int)
    requires 0 <= i < |CARD_CATEGORIES|
    ensures var c := CARD_CATEGORIES[i];
            Overview(entries)[i] == (c, RealSumOf(entries, EntryRatioIn(c)), SumOf(entries, EntryBalanceIn(c)))
  {
    var c := CARD_CATEGORIES[i];
    GroupsAtMostOnce(entries, c);
    CardIsSum(Groups(entries), c);
    GroupsSumByCategory(entries, c);
  }

  lemma {:induction false} NoEntriesOfCategory(entries: seq<Entry>, c: string)
    requires forall k :: 0 <= k < |entries| ==> entries[k].category != c
    ensures SumOf(entries, EntryBalanceIn(c)) == 0 && RealSumOf(entries, EntryRatioIn(c)) == 0.0
  {
    if entries != [] {
      NoEntriesOfCategory(entries[1..], c);
    }
  }

  // ------------------------------------------------------------ the accounts breakdown

  /** `AccountsBreakdown.CATEGORY_ORDER` */
  const CATEGORY_ORDER: seq<string> := ["Assets", "Savings", "Cash", "Debt"]

  /** `order_map.get(category, 99)`: the position in CATEGORY_ORDER, 99 for other categories. */
  function OrderKey(category: string): (k: nat)
    ensures k == 99 <==> category !in CATEGORY_ORDER
    ensures k != 99 ==> k < |CATEGORY_ORDER| && CATEGORY_ORDER[k] == category
  {
    if category == "Assets" then 0
    else if category == "Savings" then 1
    else if category == "Cash" then 2
    else if category == "Debt" then 3
    else 99
  }

  /** The key of `_sort_accounts`: `(order_map.get(type, 99), -ratio)`. */
  function AccountOrderLe(a: Entry, b: Entry): bool
  {
    OrderKey(a.category) < OrderKey(b.category)
    || (OrderKey(a.category) == OrderKey(b.category) && -a.ratio <= -b.ratio)
  }

  /** `_sort_accounts` */
  function SortAccounts(entries: seq<Entry>): seq<Entry>
  {
    SortBy(entries, AccountOrderLe)
  }

  lemma AccountOrderPreorder()
    ensures TotalPreorder(AccountOrderLe)
  {
  }

  /**
   * `_sort_accounts` reorders the entries by category position, then by
   * ratio from the largest.
   */
  lemma SortAccountsOrder(entries: seq<Entry>)
    ensures multiset(SortAccounts(entries)) == multiset(entries)
    ensures var s := SortAccounts(entries);
            forall i, j :: 0 <= i < j < |s| ==>
              OrderKey(s[i].category) <= OrderKey(s[j].category)
              && (OrderKey(s[i].category) == OrderKey(s[j].category) ==> s[i].ratio >= s[j].ratio)
  {
    AccountOrderPreorder();
    SortBySorted(entries, AccountOrderLe);
  }

  /**
   * When every category is one of CATEGORY_ORDER, each category forms
   * one stretch of the sorted accounts.
   */
  lemma SortAccountsClustered(entries: seq<Entry>)
    requires forall k :: 0 <= k < |entries| ==> entries[k].category in CATEGORY_ORDER
    ensures Clustered(SortAccounts(entries), EntryCategory)
  {
    var s := SortAccounts(entries);
    SortAccountsOrder(entries);
    forall i | 0 <= i < |s| ensures s[i].category in CATEGORY_ORDER {
      assert s[i] in multiset(entries);
    }
    forall i, j, m | 0 <= i < j < m < |s| && EntryCategory(s[i]) == EntryCategory(s[m])
      ensures EntryCategory(s[j]) == EntryCategory(s[i])
    {
      assert OrderKey(s[j].category) == OrderKey(s[i].category);
    }
  }

  /** The tree of `AccountsBreakdown.update`: one node per run of a category in the sorted accounts. */
  function BreakdownNodes(entries: seq<Entry>): seq<seq<Entry>>
  {
    Runs(SortAccounts(entries), EntryCategory)
  }

  /**
   * With the four known categories the tree has one node per category,
   * nodes in CATEGORY_ORDER order, each holding only its category's
   * accounts, and all accounts appear.
   */
  lemma BreakdownOneNodePerCategory(entries: seq<Entry>)
    requires forall k :: 0 <= k < |entries| ==> entries[k].category in CATEGORY_ORDER
    ensures var nodes := BreakdownNodes(entries);
            && Flatten(nodes) == SortAccounts(entries)
            && (forall k, i :: 0 <= k < |nodes| && 0 <= i < |nodes[k]| ==> nodes[k][i].category == nodes[k][0].category)
            && (forall k, l :: 0 <= k < l < |nodes| ==> OrderKey(nodes[k][0].category) < OrderKey(nodes[l][0].category))
  {
    var s := SortAccounts(entries);
    var nodes: seq<seq<Entry>> := BreakdownNodes(entries);
    SortAccountsClustered(entries);
    RunsProperties(s, EntryCategory);
    RunsDistinct(s, EntryCategory);
    SortAccountsOrder(entries);
    SortBySorted(entries, AccountOrderLe);
    RunHeadsSorted(s, EntryCategory, AccountOrderLe);
    forall k: int, l: int | 0 <= k < l < |nodes| ensures OrderKey(nodes[k][0].category) < OrderKey(nodes[l][0].category) {
      assert nodes[k][0] in multiset(entries) && nodes[l][0] in multiset(entries);
    }
  }
}
