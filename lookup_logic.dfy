/**
 * The list-building and selection rules of the completion popup (LookupImpl), apart
 * from Swing: which rows the list shows and in what order, which row is preferred,
 * how much of a common prefix can be filled in, and the text a completion leaves.
 *
 * Whether an item suits the typed prefix (case-insensitive prefix or camel-humps
 * pattern) and how the preference policy compares two items are parameters.
 */
module LookupLogic {
  import opened Wrappers

  /** MAX_PREFERRED_COUNT: the cap on the preferred section at the top of the list. */
  const MaxPreferredCount: nat := 5

  /** The resource key of the text shown when nothing suits. */
  const NoSuggestionsKey: string := "completion.no.suggestions"

  /** The object behind a lookup item, as far as the popup distinguishes it. */
  datatype ItemObject =
    | PsiObject(valid: bool)                  // a PSI element, which may have become invalid
    | DeferredValue(acceptsSelection: bool)   // a DeferredUserLookupValue and its handleUserSelection answer
    | PlainObject(text: string)

  /**
   * A LookupItem: `id` stands for the Java object's identity, `emptyItem` for the
   * EMPTY_ITEM_ATTRIBUTE being set.
   */
  datatype LookupItem = LookupItem(id: nat, obj: ItemObject, lookupString: string, allLookupStrings: seq<string>, emptyItem: bool)

  /** The row updateList shows when nothing suits. */
  const Placeholder: LookupItem := LookupItem(0, PlainObject(NoSuggestionsKey), "", [""], true)

  /** The match test on one lookup string against the prefix (prefix ignoring case, or camel humps). */
  type Matcher = (string, string) -> bool

  /** LookupItemPreferencePolicy.compare, after setPrefix: negative when the first item is preferred. */
  type Comparator = (string, LookupItem, LookupItem) -> int

  /** suits: some lookup string of the item matches the prefix. */
  predicate Suits(item: LookupItem, prefix: string, matches: Matcher)
  {
    exists k | 0 <= k < |item.allLookupStrings| :: matches(item.allLookupStrings[k], prefix)
  }

  /**
   * The loop of suits: scan the item's lookup strings in order and stop at the first one
   * that matches the prefix.
   */
  method SuitsScan(item: LookupItem, prefix: string, matches: Matcher) returns (r: bool)
    ensures r <==> exists k | 0 <= k < |item.allLookupStrings| :: matches(item.allLookupStrings[k], prefix)
  {
    for k := 0 to |item.allLookupStrings|
      invariant forall j | 0 <= j < k :: !matches(item.allLookupStrings[j], prefix)
    {
      if matches(item.allLookupStrings[k], prefix) {
        return true;
      }
    }
    return false;
  }

  // ---------------------------------------------------------------------------
  // updateList

  /** The suitable items of a group, in group order. */
  function SuitableIn(xs: seq<LookupItem>, prefix: string, matches: Matcher): seq<LookupItem>
  {
    if |xs| == 0 then []
    else SuitableIn(xs[..|xs| - 1], prefix, matches)
         + (if Suits(xs[|xs| - 1], prefix, matches) then [xs[|xs| - 1]] else [])
  }

  /**
   * The preferred section: the suitable items of whole weight groups, in key order,
   * until the next group would take the section past `budget`; that group and every
   * later one are left out.
   */
  function PreferredSection(groups: seq<seq<LookupItem>>, budget: nat, prefix: string, matches: Matcher): seq<LookupItem>
  {
    if |groups| == 0 then []
    else
      var suitable := SuitableIn(groups[0], prefix, matches);
      if |suitable| > budget then []
      else suitable + PreferredSection(groups[1..], budget - |suitable|, prefix, matches)
  }

  /** The items of myItems, in order, that suit and are not in `first`. */
  function Remaining(xs: seq<LookupItem>, first: seq<LookupItem>, prefix: string, matches: Matcher): seq<LookupItem>
  {
    if |xs| == 0 then []
    else Remaining(xs[..|xs| - 1], first, prefix, matches)
         + (if xs[|xs| - 1] !in first && Suits(xs[|xs| - 1], prefix, matches) then [xs[|xs| - 1]] else [])
  }

  /** The rows updateList puts in the list model. */
  function ListModel(items: seq<LookupItem>, groups: seq<seq<LookupItem>>, prefix: string, matches: Matcher): seq<LookupItem>
  {
    var preferred := PreferredSection(groups, MaxPreferredCount, prefix, matches);
    var rows := preferred + Remaining(items, preferred, prefix, matches);
    if |rows| == 0 then [Placeholder] else rows
  }

  /** How many whole groups the preferred section takes. */
  function PreferredGroupCount(groups: seq<seq<LookupItem>>, budget: nat, prefix: string, matches: Matcher): nat
  {
    if |groups| == 0 then 0
    else
      var suitable := SuitableIn(groups[0], prefix, matches);
      if |suitable| > budget then 0
      else 1 + PreferredGroupCount(groups[1..], budget - |suitable|, prefix, matches)
  }

  /** The suitable items of every group, concatenated in key order. */
  function AllSuitable(groups: seq<seq<LookupItem>>, prefix: string, matches: Matcher): seq<LookupItem>
  {
    if |groups| == 0 then [] else SuitableIn(groups[0], prefix, matches) + AllSuitable(groups[1..], prefix, matches)
  }

  lemma {:induction false} SuitableInMembers(xs: seq<LookupItem>, prefix: string, matches: Matcher)
    ensures forall x :: x in SuitableIn(xs, prefix, matches) <==> x in xs && Suits(x, prefix, matches)
  {
    if |xs| > 0 {
      SuitableInMembers(xs[..|xs| - 1], prefix, matches);
      assert xs == xs[..|xs| - 1] + [xs[|xs| - 1]];
    }
  }

  /**
   * The preferred section takes whole groups and stops at the first group that would
   * overflow (the `break`): it is the suitable items of the first k groups, the (k+1)-th
   * group would not fit, and it never exceeds the budget.
   */
  lemma {:induction false} PreferredSectionShape(groups: seq<seq<LookupItem>>, budget: nat, prefix: string, matches: Matcher)
    ensures PreferredGroupCount(groups, budget, prefix, matches) <= |groups|
    ensures var k := PreferredGroupCount(groups, budget, prefix, matches);
      && PreferredSection(groups, budget, prefix, matches) == AllSuitable(groups[..k], prefix, matches)
      && (k < |groups| ==>
            |PreferredSection(groups, budget, prefix, matches)| + |SuitableIn(groups[k], prefix, matches)| > budget)
    ensures |PreferredSection(groups, budget, prefix, matches)| <= budget
  {
    if |groups| > 0 {
      var suitable := SuitableIn(groups[0], prefix, matches);
      if |suitable| <= budget {
        var rest := groups[1..];
        PreferredSectionShape(rest, budget - |suitable|, prefix, matches);
        var k := PreferredGroupCount(rest, budget - |suitable|, prefix, matches);
        assert groups[..k + 1][0] == groups[0];
        assert groups[..k + 1][1..] == rest[..k];
        if k + 1 < |groups| {
          assert groups[k + 1] == rest[k];
        }
      }
    }
  }

  /** All weight groups are drawn from myItems (initWeightMap groups myItems). */
  ghost predicate GroupsDrawnFrom(groups: seq<seq<LookupItem>>, items: seq<LookupItem>)
  {
    forall g | 0 <= g < |groups| :: forall x | x in groups[g] :: x in items
  }

  /** Every preferred item is a suitable item of myItems. */
  lemma {:induction false} PreferredMembers(groups: seq<seq<LookupItem>>, budget: nat, items: seq<LookupItem>, prefix: string, matches: Matcher)
    requires GroupsDrawnFrom(groups, items)
    ensures forall x | x in PreferredSection(groups, budget, prefix, matches) :: x in items && Suits(x, prefix, matches)
  {
    if |groups| > 0 {
      var suitable := SuitableIn(groups[0], prefix, matches);
      SuitableInMembers(groups[0], prefix, matches);
      if |suitable| <= budget {
        assert forall g | 0 <= g < |groups[1..]| :: groups[1..][g] == groups[g + 1];
        PreferredMembers(groups[1..], budget - |suitable|, items, prefix, matches);
      }
    }
  }

  /** The remaining section is exactly the suitable items of myItems that are not preferred. */
  lemma {:induction false} RemainingMembers(xs: seq<LookupItem>, first: seq<LookupItem>, prefix: string, matches: Matcher)
    ensures forall x :: x in Remaining(xs, first, prefix, matches) <==> x in xs && x !in first && Suits(x, prefix, matches)
  {
    if |xs| > 0 {
      RemainingMembers(xs[..|xs| - 1], first, prefix, matches);
      assert xs == xs[..|xs| - 1] + [xs[|xs| - 1]];
    }
  }

  /** The remaining section keeps myItems order: filtering commutes with concatenation. */
  lemma {:induction false} RemainingKeepsOrder(xs: seq<LookupItem>, ys: seq<LookupItem>, first: seq<LookupItem>, prefix: string, matches: Matcher)
    ensures Remaining(xs + ys, first, prefix, matches) == Remaining(xs, first, prefix, matches) + Remaining(ys, first, prefix, matches)
  {
    if |ys| > 0 {
      RemainingKeepsOrder(xs, ys[..|ys| - 1], first, prefix, matches);
      assert (xs + ys)[..|xs + ys| - 1] == xs + ys[..|ys| - 1];
    } else {
      assert xs + ys == xs;
    }
  }

  /**
   * The preferred section is capped at MAX_PREFERRED_COUNT, the remaining section repeats
   * no preferred item, and apart from the placeholder the list shows exactly the items
   * of myItems that suit the prefix.
   */
  lemma ListModelShowsSuitable(items: seq<LookupItem>, groups: seq<seq<LookupItem>>, prefix: string, matches: Matcher)
    requires GroupsDrawnFrom(groups, items)
    ensures var preferred := PreferredSection(groups, MaxPreferredCount, prefix, matches);
      && |preferred| <= MaxPreferredCount
      && (forall x | x in Remaining(items, preferred, prefix, matches) :: x !in preferred)
      && (forall x | x in preferred + Remaining(items, preferred, prefix, matches) :: x in items && Suits(x, prefix, matches))
    ensures forall x | x != Placeholder ::
      x in ListModel(items, groups, prefix, matches) <==> x in items && Suits(x, prefix, matches)
  {
    var preferred := PreferredSection(groups, MaxPreferredCount, prefix, matches);
    PreferredSectionShape(groups, MaxPreferredCount, prefix, matches);
    PreferredMembers(groups, MaxPreferredCount, items, prefix, matches);
    RemainingMembers(items, preferred, prefix, matches);
  }

  /** The list holds the placeholder alone exactly when no item of myItems suits the prefix. */
  lemma ListModelPlaceholderIff(items: seq<LookupItem>, groups: seq<seq<LookupItem>>, prefix: string, matches: Matcher)
    requires GroupsDrawnFrom(groups, items)
    requires forall i | 0 <= i < |items| :: !items[i].emptyItem
    ensures ListModel(items, groups, prefix, matches) == [Placeholder]
      <==> forall i | 0 <= i < |items| :: !Suits(items[i], prefix, matches)
  {
    var preferred := PreferredSection(groups, MaxPreferredCount, prefix, matches);
    var rest := Remaining(items, preferred, prefix, matches);
    PreferredMembers(groups, MaxPreferredCount, items, prefix, matches);
    RemainingMembers(items, preferred, prefix, matches);
    if exists i | 0 <= i < |items| :: Suits(items[i], prefix, matches) {
      var i :| 0 <= i < |items| && Suits(items[i], prefix, matches);
      assert items[i] in preferred + rest;
      assert items[i] != Placeholder;
    } else {
      if |preferred| > 0 {
        SomeItemSuits(preferred, items, prefix, matches);
      }
      if |rest| > 0 {
        SomeItemSuits(rest, items, prefix, matches);
      }
    }
  }

  /** A non-empty section drawn from the suitable items of myItems shows that some item suits. */
  lemma SomeItemSuits(section: seq<LookupItem>, items: seq<LookupItem>, prefix: string, matches: Matcher)
    requires |section| > 0
    requires forall j | 0 <= j < |section| :: section[j] in items && Suits(section[j], prefix, matches)
    ensures exists i | 0 <= i < |items| :: Suits(items[i], prefix, matches)
  {
    assert section[0] in items;
    var i :| 0 <= i < |items| && items[i] == section[0];
  }

  // ---------------------------------------------------------------------------
  // doSelectMostPreferableItem

  /** An item the selection considers: anything but a PSI element that is no longer valid. */
  predicate Considered(item: LookupItem)
  {
    !(item.obj.PsiObject? && !item.obj.valid)
  }

  predicate Less(compare: Comparator, prefix: string, a: LookupItem, b: LookupItem)
  {
    compare(prefix, a, b) < 0
  }

  /** The comparator, on the given items, is a strict weak order (what a Comparator must be). */
  ghost predicate StrictWeakOrder(compare: Comparator, prefix: string, items: seq<LookupItem>)
  {
    && (forall i | 0 <= i < |items| :: !Less(compare, prefix, items[i], items[i]))
    && (forall i, j, k | 0 <= i < |items| && 0 <= j < |items| && 0 <= k < |items| ::
          Less(compare, prefix, items[i], items[j]) && Less(compare, prefix, items[j], items[k]) ==>
          Less(compare, prefix, items[i], items[k]))
    && (forall i, j, k | 0 <= i < |items| && 0 <= j < |items| && 0 <= k < |items| ::
          Less(compare, prefix, items[i], items[k]) ==>
          Less(compare, prefix, items[i], items[j]) || Less(compare, prefix, items[j], items[k]))
  }

  /**
   * What doSelectMostPreferableItem promises of its answer r: -1 without a policy or
   * when no item is considered; otherwise a considered item that no later considered item
   * beats; and, when the comparator is a strict weak order, the first item that no
   * considered item beats.
   */
  ghost predicate IsMostPreferable(policy: Option<Comparator>, prefix: string, items: seq<LookupItem>, r: int)
  {
    && (policy.None? ==> r == -1)
    && (policy.Some? ==> (r == -1 <==> forall i | 0 <= i < |items| :: !Considered(items[i])))
    && (r != -1 ==>
          && 0 <= r < |items| && Considered(items[r])
          && (forall j | r < j < |items| && Considered(items[j]) :: !Less(policy.value, prefix, items[j], items[r]))
          && (StrictWeakOrder(policy.value, prefix, items) ==>
                && (forall j | 0 <= j < |items| && Considered(items[j]) :: !Less(policy.value, prefix, items[j], items[r]))
                && (forall j | 0 <= j < r && Considered(items[j]) :: Less(policy.value, prefix, items[r], items[j]))))
  }

  /** doSelectMostPreferableItem: a first-minimum scan that skips invalid PSI elements. */
  method DoSelectMostPreferableItem(policy: Option<Comparator>, prefix: string, items: seq<LookupItem>) returns (r: int)
    ensures IsMostPreferable(policy, prefix, items, r)
  {
    if policy.None? {
      return -1;
    }
    var compare := policy.value;
    var prefItem: Option<LookupItem> := None;
    var prefItemIndex := -1;
    for i := 0 to |items|
      invariant prefItem.None? <==> prefItemIndex == -1
      invariant prefItem.None? <==> forall j | 0 <= j < i :: !Considered(items[j])
      invariant prefItem.Some? ==>
        && 0 <= prefItemIndex < i && Considered(items[prefItemIndex]) && prefItem.value == items[prefItemIndex]
        && (forall j | prefItemIndex < j < i && Considered(items[j]) :: !Less(compare, prefix, items[j], items[prefItemIndex]))
      invariant prefItem.Some? && StrictWeakOrder(compare, prefix, items) ==>
        && (forall j | 0 <= j < i && Considered(items[j]) :: !Less(compare, prefix, items[j], items[prefItemIndex]))
        && (forall j | 0 <= j < prefItemIndex && Considered(items[j]) :: Less(compare, prefix, items[prefItemIndex], items[j]))
    {
      var item := items[i];
      if !Considered(item) {
        continue;
      }
      if prefItem.None? {
        prefItem := Some(item);
        prefItemIndex := i;
      } else {
        var d := compare(prefix, item, prefItem.value);
        if d < 0 {
          prefItem := Some(item);
          prefItemIndex := i;
        }
      }
    }
    r := if prefItem.Some? then prefItemIndex else -1;
  }

  // ---------------------------------------------------------------------------
  // fillInCommonPrefix

  /** The first position at or after k where a and b differ or one of them ends. */
  function AgreeUpTo(a: string, b: string, k: nat): (r: nat)
    requires k <= |a| && k <= |b|
    ensures k <= r <= |a| && r <= |b|
    decreases |a| - k
  {
    if k == |a| || k == |b| || a[k] != b[k] then k else AgreeUpTo(a, b, k + 1)
  }

  /** AgreeUpTo stops at the first disagreement: a and b agree from k up to it and differ there. */
  lemma {:induction false} AgreeUpToStopsAtDifference(a: string, b: string, k: nat)
    requires k <= |a| && k <= |b|
    ensures var r := AgreeUpTo(a, b, k);
      && (forall j | k <= j < r :: a[j] == b[j])
      && (r < |a| && r < |b| ==> a[r] != b[r])
    decreases |a| - k
  {
    if !(k == |a| || k == |b| || a[k] != b[k]) {
      AgreeUpToStopsAtDifference(a, b, k + 1);
    }
  }

  /** The longest common prefix of two strings. */
  function CommonPrefix(a: string, b: string): string
  {
    a[..AgreeUpTo(a, b, 0)]
  }

  /** CommonPrefix is a prefix of both strings, and every common prefix is a prefix of it. */
  lemma CommonPrefixLongest(a: string, b: string, q: string)
    ensures CommonPrefix(a, b) <= a && CommonPrefix(a, b) <= b
    ensures q <= a && q <= b ==> q <= CommonPrefix(a, b)
  {
    AgreeUpToStopsAtDifference(a, b, 0);
    var n := AgreeUpTo(a, b, 0);
    assert a[..n] == b[..n];
  }

  lemma PrefixTransitive(a: string, b: string, c: string)
    requires a <= b && b <= c
    ensures a <= c
  {
    assert a == b[..|a|] && b == c[..|b|];
    assert c[..|b|][..|a|] == c[..|a|];
  }

  lemma PrefixAntisymmetric(a: string, b: string)
    requires a <= b && b <= a
    ensures a == b
  {
  }

  /** Every lookup string is at least as long as the typed prefix. */
  predicate LongEnough(model: seq<LookupItem>, n: nat)
  {
    forall i | 0 <= i < |model| :: n <= |model[i].lookupString|
  }

  /** The part of a lookup string after the typed prefix of length n. */
  function Suffix(item: LookupItem, n: nat): string
  {
    if n <= |item.lookupString| then item.lookupString[n..] else []
  }

  /** The part of a lookup string that the typed prefix of length n covers. */
  function Head(item: LookupItem, n: nat): string
  {
    if n <= |item.lookupString| then item.lookupString[..n] else item.lookupString
  }

  /** The common prefix the scan holds after the items 0..i-1: their suffixes folded with CommonPrefix. */
  function CommonPrefixUpTo(model: seq<LookupItem>, n: nat, i: nat): string
    requires 0 < i <= |model|
  {
    if i == 1 then Suffix(model[0], n) else CommonPrefix(CommonPrefixUpTo(model, n, i - 1), Suffix(model[i - 1], n))
  }

  /**
   * CommonPrefixUpTo is the longest common prefix: a prefix of the suffix of every item
   * 0..i-1, and every string that is a prefix of all of them is a prefix of it.
   */
  lemma {:induction false} CommonPrefixUpToLongest(model: seq<LookupItem>, n: nat, i: nat, q: string)
    requires 0 < i <= |model|
    ensures forall j | 0 <= j < i :: CommonPrefixUpTo(model, n, i) <= Suffix(model[j], n)
    ensures (forall j | 0 <= j < i :: q <= Suffix(model[j], n)) ==> q <= CommonPrefixUpTo(model, n, i)
  {
    if i > 1 {
      CommonPrefixUpToLongest(model, n, i - 1, q);
      var p0 := CommonPrefixUpTo(model, n, i - 1);
      var p := CommonPrefix(p0, Suffix(model[i - 1], n));
      assert CommonPrefixUpTo(model, n, i) == p;
      CommonPrefixLongest(p0, Suffix(model[i - 1], n), q);
      forall j | 0 <= j < i - 1 ensures p <= Suffix(model[j], n) {
        PrefixTransitive(p, p0, Suffix(model[j], n));
      }
    }
  }

  /** The common prefix only shrinks as the scan goes on. */
  lemma {:induction false} CommonPrefixUpToShrinks(model: seq<LookupItem>, n: nat, i: nat, k: nat)
    requires 0 < i <= k <= |model|
    ensures CommonPrefixUpTo(model, n, k) <= CommonPrefixUpTo(model, n, i)
  {
    if i < k {
      CommonPrefixUpToShrinks(model, n, i, k - 1);
      var p0 := CommonPrefixUpTo(model, n, k - 1);
      var p := CommonPrefix(p0, Suffix(model[k - 1], n));
      assert CommonPrefixUpTo(model, n, k) == p;
      CommonPrefixLongest(p0, Suffix(model[k - 1], n), p);
      PrefixTransitive(p, p0, CommonPrefixUpTo(model, n, i));
    }
  }

  /** Item j (j > 0) goes on past the common prefix of the items 0..j. */
  predicate StrictAt(model: seq<LookupItem>, n: nat, j: nat)
    requires 0 < j < |model|
  {
    |Suffix(model[j], n)| > |CommonPrefixUpTo(model, n, j + 1)|
  }

  /** Some item among 1..i-1 goes on past the common prefix of the items up to it. */
  predicate StrictBefore(model: seq<LookupItem>, n: nat, i: nat)
    requires i <= |model|
  {
    exists j | 0 < j < i :: StrictAt(model, n, j)
  }

  /** The covered part of the lookup strings of items 0..i-1 when they all agree on it. */
  function AgreedHead(model: seq<LookupItem>, n: nat, i: nat): Option<string>
    requires 0 < i <= |model|
  {
    if forall j | 0 <= j < i :: Head(model[j], n) == Head(model[0], n) then Some(Head(model[0], n)) else None
  }

  /** StrictBefore, accumulated one row at a time as the scan does. */
  function StrictSoFar(model: seq<LookupItem>, n: nat, i: nat): bool
    requires i <= |model|
  {
    if i <= 1 then false else StrictSoFar(model, n, i - 1) || StrictAt(model, n, i - 1)
  }

  /** AgreedHead, accumulated one row at a time as the scan does. */
  function AgreedSoFar(model: seq<LookupItem>, n: nat, i: nat): Option<string>
    requires 0 < i <= |model|
  {
    if i == 1 then Some(Head(model[0], n))
    else
      var agreed := AgreedSoFar(model, n, i - 1);
      if agreed != Some(Head(model[i - 1], n)) then None else agreed
  }

  lemma {:induction false} StrictSoFarMeansStrictBefore(model: seq<LookupItem>, n: nat, i: nat)
    requires i <= |model|
    ensures StrictSoFar(model, n, i) == StrictBefore(model, n, i)
  {
    if i > 1 {
      StrictSoFarMeansStrictBefore(model, n, i - 1);
      if StrictBefore(model, n, i - 1) {
        var j :| 0 < j < i - 1 && StrictAt(model, n, j);
        assert 0 < j < i && StrictAt(model, n, j);
      }
    }
  }

  lemma {:induction false} AgreedSoFarMeansAgreedHead(model: seq<LookupItem>, n: nat, i: nat)
    requires 0 < i <= |model|
    ensures AgreedSoFar(model, n, i) == AgreedHead(model, n, i)
  {
    if i > 1 {
      AgreedSoFarMeansAgreedHead(model, n, i - 1);
    }
  }

  /** None of the rows 0..i-1 is the placeholder, accumulated as the scan goes. */
  predicate NoPlaceholderBefore(model: seq<LookupItem>, i: nat)
    requires i <= |model|
  {
    i == 0 || (!model[i - 1].emptyItem && NoPlaceholderBefore(model, i - 1))
  }

  lemma {:induction false} NoPlaceholderBeforeMeansNone(model: seq<LookupItem>, i: nat)
    requires i <= |model|
    ensures NoPlaceholderBefore(model, i) <==> forall j | 0 <= j < i :: !model[j].emptyItem
  {
    if i > 0 {
      NoPlaceholderBeforeMeansNone(model, i - 1);
    }
  }

  /** What the scan of fillInCommonPrefix finds. */
  datatype PrefixScan =
    | Abort     // the placeholder is listed, or the common prefix shrank to nothing
    | NoItems   // the list model has no rows
    | Common(commonPrefix: string, subprefix: Option<string>, isStrict: bool)

  /**
   * The outcome of the scan, stated directly: the common prefix of the suffixes of all
   * rows; the covered part of the lookup strings when every row agrees on it (the case
   * correction); and whether some row goes on past the common prefix of the rows up to it.
   */
  function CommonPrefixOutcome(model: seq<LookupItem>, n: nat): PrefixScan
  {
    if |model| == 0 then NoItems
    else if exists i | 0 <= i < |model| :: model[i].emptyItem then Abort
    else
      var cp := CommonPrefixUpTo(model, n, |model|);
      if |model| >= 2 && |cp| == 0 then Abort
      else Common(cp, AgreedHead(model, n, |model|), StrictBefore(model, n, |model|))
  }

  /**
   * Whether the scan finds the list strict depends on the order of its rows: a row is only
   * compared with the common prefix of the rows up to it. With the prefix empty, rows
   * "abc", "ab" leave isStrict false, while "ab", "abc" set it.
   */
  lemma StrictnessDependsOnOrder()
    ensures var abc := LookupItem(1, PlainObject(""), "abc", ["abc"], false);
      var ab := LookupItem(2, PlainObject(""), "ab", ["ab"], false);
      && CommonPrefixOutcome([abc, ab], 0) == Common("ab", Some(""), false)
      && CommonPrefixOutcome([ab, abc], 0) == Common("ab", Some(""), true)
  {
    var abc := LookupItem(1, PlainObject(""), "abc", ["abc"], false);
    var ab := LookupItem(2, PlainObject(""), "ab", ["ab"], false);
    assert Suffix(abc, 0) == "abc" && Suffix(ab, 0) == "ab";
    assert AgreeUpTo("abc", "ab", 0) == 2;
    assert AgreeUpTo("ab", "abc", 0) == 2;
    assert CommonPrefixUpTo([abc, ab], 0, 2) == "ab";
    assert CommonPrefixUpTo([ab, abc], 0, 2) == "ab";
    assert !StrictAt([abc, ab], 0, 1);
    assert StrictAt([ab, abc], 0, 1);
  }

  /**
   * The scan loop of fillInCommonPrefix: stops at the placeholder, shrinks the common
   * prefix one character at a time until the next suffix starts with it, and gives up
   * when it is empty; on the way it records whether the rows agree on the covered part
   * and whether any row goes past the common prefix.
   */
  method CommonPrefixScan(model: seq<LookupItem>, n: nat) returns (r: PrefixScan)
    ensures r == CommonPrefixOutcome(model, n)
  {
    var commonPrefix: Option<string> := None;
    var subprefix: Option<string> := None;
    var isStrict := false;
    for i := 0 to |model|
      invariant NoPlaceholderBefore(model, i)
      invariant commonPrefix.None? <==> i == 0
      invariant i > 0 ==> commonPrefix == Some(CommonPrefixUpTo(model, n, i))
      invariant i >= 2 ==> |commonPrefix.value| > 0
      invariant i > 0 ==> subprefix == AgreedSoFar(model, n, i)
      invariant isStrict == StrictSoFar(model, n, i)
    {
      var item := model[i];
      if item.emptyItem {
        return Abort;
      }
      if commonPrefix.None? {
        commonPrefix := Some(Suffix(item, n));
        subprefix := Some(Head(item, n));
      } else {
        var cp, sub, strict := ScanRow(model, n, i, commonPrefix.value, subprefix, isStrict);
        if |cp| == 0 {
          CommonPrefixUpToShrinks(model, n, i + 1, |model|);
          return Abort;
        }
        commonPrefix, subprefix, isStrict := Some(cp), sub, strict;
      }
    }
    if commonPrefix.None? {
      return NoItems;
    }
    NoPlaceholderBeforeMeansNone(model, |model|);
    StrictSoFarMeansStrictBefore(model, n, |model|);
    AgreedSoFarMeansAgreedHead(model, n, |model|);
    return Common(commonPrefix.value, subprefix, isStrict);
  }

  /**
   * One later row of the scan: shrinks the common prefix to the part the row's suffix
   * starts with, and, while something is left, notes whether the row goes past it and
   * whether its covered part still agrees.
   */
  method ScanRow(model: seq<LookupItem>, n: nat, i: nat, commonPrefix: string, subprefix: Option<string>, isStrict: bool)
    returns (cp: string, sub: Option<string>, strict: bool)
    requires 0 < i < |model|
    requires commonPrefix == CommonPrefixUpTo(model, n, i)
    requires subprefix == AgreedSoFar(model, n, i) && isStrict == StrictSoFar(model, n, i)
    ensures cp == CommonPrefixUpTo(model, n, i + 1)
    ensures |cp| > 0 ==> sub == AgreedSoFar(model, n, i + 1) && strict == StrictSoFar(model, n, i + 1)
  {
    var string1 := Head(model[i], n);
    var string2 := Suffix(model[i], n);
    cp := ShrinkCommonPrefix(commonPrefix, string2);
    ScanStep(model, n, i, cp);
    sub, strict := subprefix, isStrict;
    if |cp| > 0 {
      if |string2| > |cp| {
        strict := true;
      }
      if subprefix != Some(string1) {
        sub := None;
      }
    }
  }

  /** How the common prefix, the agreed covered part and the strictness flag change at row i. */
  lemma ScanStep(model: seq<LookupItem>, n: nat, i: nat, cp: string)
    requires 0 < i < |model|
    requires cp == CommonPrefix(CommonPrefixUpTo(model, n, i), Suffix(model[i], n))
    ensures cp == CommonPrefixUpTo(model, n, i + 1)
    ensures StrictSoFar(model, n, i + 1) == (StrictSoFar(model, n, i) || |Suffix(model[i], n)| > |cp|)
    ensures AgreedSoFar(model, n, i + 1) ==
      if AgreedSoFar(model, n, i) != Some(Head(model[i], n)) then None else AgreedSoFar(model, n, i)
  {
  }

  /**
   * The inner loop of the scan: drops the last character of the common prefix until the
   * suffix of the next row starts with it or nothing is left.
   */
  method ShrinkCommonPrefix(commonPrefix: string, suffix: string) returns (cp: string)
    ensures cp == CommonPrefix(commonPrefix, suffix)
  {
    cp := commonPrefix;
    CommonPrefixLongest(commonPrefix, suffix, cp);
    while |cp| > 0
      invariant cp <= commonPrefix
      invariant CommonPrefix(commonPrefix, suffix) <= cp
    {
      if cp <= suffix {
        CommonPrefixLongest(commonPrefix, suffix, cp);
        PrefixAntisymmetric(cp, CommonPrefix(commonPrefix, suffix));
        break;
      }
      CommonPrefixLongest(commonPrefix, suffix, cp[..|cp| - 1]);
      cp := cp[..|cp| - 1];
    }
  }

  /**
   * What fillInCommonPrefix fills in is a prefix of the part of every row's lookup
   * string after the typed prefix, and the longest such prefix; it is empty only when a
   * single row is listed.
   */
  lemma CommonPrefixSharedByAll(model: seq<LookupItem>, n: nat, q: string)
    requires CommonPrefixOutcome(model, n).Common?
    ensures forall i | 0 <= i < |model| ::
      !model[i].emptyItem && CommonPrefixOutcome(model, n).commonPrefix <= Suffix(model[i], n)
    ensures (forall i | 0 <= i < |model| :: q <= Suffix(model[i], n)) ==> q <= CommonPrefixOutcome(model, n).commonPrefix
    ensures |CommonPrefixOutcome(model, n).commonPrefix| == 0 ==> |model| == 1
  {
    CommonPrefixUpToLongest(model, n, |model|, q);
  }

  /**
   * When every row agrees on the covered part, the text fillInCommonPrefix leaves in the
   * document (that part, case-corrected, followed by the common prefix) starts every
   * row's lookup string.
   */
  lemma CorrectedTextStartsEveryRow(model: seq<LookupItem>, n: nat)
    requires LongEnough(model, n)
    requires CommonPrefixOutcome(model, n).Common? && CommonPrefixOutcome(model, n).subprefix.Some?
    ensures forall i | 0 <= i < |model| ::
      CommonPrefixOutcome(model, n).subprefix.value + CommonPrefixOutcome(model, n).commonPrefix <= model[i].lookupString
  {
    var scan := CommonPrefixOutcome(model, n);
    CommonPrefixUpToLongest(model, n, |model|, []);
    forall i | 0 <= i < |model|
      ensures scan.subprefix.value + scan.commonPrefix <= model[i].lookupString
    {
      var ls := model[i].lookupString;
      assert scan.subprefix.value == ls[..n];
      assert scan.commonPrefix <= ls[n..];
      assert ls == ls[..n] + ls[n..];
    }
  }

  // ---------------------------------------------------------------------------
  // Selection bookkeeping

  /** The first row equal to x, or -1 (how a list finds an item to select). */
  function FirstIndex(xs: seq<LookupItem>, x: LookupItem): (r: int)
    ensures -1 <= r < |xs|
    ensures r == -1 <==> x !in xs
    ensures r >= 0 ==> xs[r] == x && forall j | 0 <= j < r :: xs[j] != x
  {
    if |xs| == 0 then -1
    else if xs[0] == x then 0
    else
      var k := FirstIndex(xs[1..], x);
      if k == -1 then -1 else k + 1
  }

  // ---------------------------------------------------------------------------
  // Document edits of finishLookup

  /** Document.insertString. */
  function InsertString(text: string, offset: nat, s: string): (r: string)
    requires offset <= |text|
    ensures |r| == |text| + |s|
  {
    text[..offset] + s + text[offset..]
  }

  /** Document.deleteString. */
  function DeleteString(text: string, start: nat, end: nat): (r: string)
    requires start <= end <= |text|
    ensures |r| == |text| - (end - start)
  {
    text[..start] + text[end..]
  }

  /** Document.replaceString. */
  function ReplaceString(text: string, start: nat, end: nat, s: string): (r: string)
    requires start <= end <= |text|
    ensures |r| == |text| - (end - start) + |s|
  {
    text[..start] + s + text[end..]
  }

  /**
   * The two edits of finishLookup: when the lookup string starts with the prefix, insert
   * the rest of it after the prefix; otherwise delete the prefix (when non-empty) and
   * insert the whole lookup string at the lookup start.
   */
  function CompletedText(text: string, lookupStart: nat, prefix: string, s: string): (r: string)
    requires lookupStart + |prefix| <= |text|
    ensures |r| == |text| - |prefix| + |s|
    ensures r[..lookupStart] == text[..lookupStart]
    ensures r[lookupStart + |s|..] == text[lookupStart + |prefix|..]
    ensures prefix <= s ==> r[lookupStart..lookupStart + |s|] == text[lookupStart..lookupStart + |prefix|] + s[|prefix|..]
    ensures !(prefix <= s) ==> r[lookupStart..lookupStart + |s|] == s
  {
    if prefix <= s then
      var end := lookupStart + |prefix|;
      var r := InsertString(text, end, s[|prefix|..]);
      assert r[lookupStart..lookupStart + |s|] == text[lookupStart..end] + s[|prefix|..];
      r
    else
      var cleared := if |prefix| > 0 then DeleteString(text, lookupStart, lookupStart + |prefix|) else text;
      assert cleared[..lookupStart] == text[..lookupStart];
      assert cleared[lookupStart..] == text[lookupStart + |prefix|..];
      InsertString(cleared, lookupStart, s)
  }

  /**
   * When the document holds the prefix at the lookup start, both edits come to the same
   * thing: the prefix is replaced by the lookup string.
   */
  lemma CompletionReplacesPrefix(text: string, lookupStart: nat, prefix: string, s: string)
    requires lookupStart + |prefix| <= |text|
    requires text[lookupStart..lookupStart + |prefix|] == prefix
    ensures CompletedText(text, lookupStart, prefix, s) == text[..lookupStart] + s + text[lookupStart + |prefix|..]
  {
    var end := lookupStart + |prefix|;
    if prefix <= s {
      assert s == prefix + s[|prefix|..];
      assert text[..end] == text[..lookupStart] + prefix;
    } else {
      var cleared := DeleteString(text, lookupStart, end);
      assert cleared[..lookupStart] == text[..lookupStart];
      assert cleared[lookupStart..] == text[end..];
    }
  }

  /**
   * When the document's text at the lookup start differs in case from the prefix, the
   * branch that keeps the prefix keeps the document's characters: "ABx" completed with
   * prefix "ab" and lookup string "abc" gives "ABcx", not "abcx".
   */
  lemma CompletionKeepsDocumentCase()
    ensures CompletedText("ABx", 0, "ab", "abc") == "ABcx"
    ensures CompletedText("ABx", 0, "ab", "abc")[..3] != "abc"
  {
    assert "ab" <= "abc";
    assert "abc"[2..] == "c";
    var r := CompletedText("ABx", 0, "ab", "abc");
    assert r[..3][0] == 'A' != "abc"[0];
  }
}
