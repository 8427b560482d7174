/**
 * `createMultiFilter` (app.js): the state behind the country, competition
 * and broadcaster pickers. Its items are the options in server order; its
 * selection is a JavaScript `Set` of ids, which iterates in insertion
 * order, so it is a duplicate-free sequence here.
 */
module MultiFilter {
  import opened Wrappers
  import opened JsText

  /** A selectable option: the `{ id, name }` records of `/countries`, `/competitions`, `/broadcasters`. */
  datatype Item = Item(id: int, name: string)

  predicate NoDuplicates(s: seq<int>) {
    forall i, j :: 0 <= i < j < |s| ==> s[i] != s[j]
  }

  // ---------------------------------------------------------------------
  // The insertion-ordered set

  /** `set.add(x)`: a new element goes to the end; a present one stays where it is. */
  function Add(s: seq<int>, x: int): seq<int> {
    if x in s then s else s + [x]
  }

  /** `set.delete(x)`. */
  function Delete(s: seq<int>, x: int): (r: seq<int>)
    ensures x !in r
    ensures forall y :: y != x ==> (y in r <==> y in s)
    ensures NoDuplicates(s) ==> NoDuplicates(r)
    ensures x !in s ==> r == s
    ensures IsSubsequence(r, s)
    ensures NoDuplicates(s) ==> forall i :: 0 <= i < |s| && s[i] == x ==> r == s[..i] + s[i + 1..]
  {
    FilterKeepsNoDuplicates(s, Other(x));
    FilterIsSubsequence(s, Other(x));
    DeleteClosesGap(s, x);
    if x !in s then FilterKeepsAll(s, Other(x)); s else Filter(s, Other(x))
  }

  lemma DeleteClosesGap(s: seq<int>, x: int)
    ensures NoDuplicates(s) ==> forall i :: 0 <= i < |s| && s[i] == x ==> Filter(s, Other(x)) == s[..i] + s[i + 1..]
  {
    if NoDuplicates(s) {
      forall i | 0 <= i < |s| && s[i] == x
        ensures Filter(s, Other(x)) == s[..i] + s[i + 1..]
      {
        DeleteAt(s, x, i);
      }
    }
  }

  /** In a duplicate-free sequence, deleting the element at `i` closes the gap and leaves the rest in order. */
  lemma DeleteAt(s: seq<int>, x: int, i: int)
    requires NoDuplicates(s) && 0 <= i < |s| && s[i] == x
    ensures Filter(s, Other(x)) == s[..i] + s[i + 1..]
  {
    var before, after := s[..i], s[i + 1..];
    assert s == before + [x] + after;
    forall k | 0 <= k < |before| ensures Other(x)(before[k]) {
      assert s[k] == before[k];
    }
    forall k | 0 <= k < |after| ensures Other(x)(after[k]) {
      assert s[i + 1 + k] == after[k];
    }
    FilterDropsOne(before, x, after, Other(x));
  }

  /** Filtering out one element, and nothing around it, closes the gap it leaves. */
  lemma FilterDropsOne<T>(before: seq<T>, x: T, after: seq<T>, p: T -> bool)
    requires forall k :: 0 <= k < |before| ==> p(before[k])
    requires forall k :: 0 <= k < |after| ==> p(after[k])
    requires !p(x)
    ensures Filter(before + [x] + after, p) == before + after
  {
    assert Filter([x], p) == [] by {
      assert [x][1..] == [];
    }
    FilterConcat(before, [x], p);
    FilterKeepsAll(before, p);
    assert Filter(before + [x], p) == before;
    FilterConcat(before + [x], after, p);
    FilterKeepsAll(after, p);
  }

  /** The test `delete` keeps the elements by. */
  function Other(x: int): int -> bool {
    y => y != x
  }

  /** The selection after `toggleSelection(id)`. */
  function Toggled(s: seq<int>, id: int): seq<int> {
    if id in s then Delete(s, id) else s + [id]
  }

  /** `xs.forEach(id => set.add(id))`. */
  function AddAll(s: seq<int>, xs: seq<int>): seq<int> {
    if xs == [] then s else Add(AddAll(s, xs[..|xs| - 1]), xs[|xs| - 1])
  }

  function Ids(items: seq<Item>): set<int> {
    set k | 0 <= k < |items| :: items[k].id
  }

  /** The selection `setItems(items, pruneMissing, restoreIds)` leaves. */
  function SelectionAfterSetItems(selected: seq<int>, items: seq<Item>, pruneMissing: bool, restoreIds: seq<int>): seq<int> {
    var seeded := if |restoreIds| > 0 && |selected| == 0 then AddAll(selected, restoreIds) else selected;
    if pruneMissing then Filter(seeded, id => id in Ids(items)) else seeded
  }

  // ---------------------------------------------------------------------
  // Derived views

  /** The search text as `renderOptions` uses it: trimmed, then lower-cased. */
  function NormalizedQuery(searchText: string): string {
    Lower(Trim(searchText))
  }

  predicate MatchesQuery(item: Item, query: string) {
    query == "" || Includes(Lower(item.name), query)
  }

  /** The items `renderOptions` shows for a search text. */
  function VisibleItems(items: seq<Item>, searchText: string): seq<Item> {
    var query := NormalizedQuery(searchText);
    Filter(items, item => MatchesQuery(item, query))
  }

  /** One rendered `.option-item`: its text, its `data-id` attribute if any, and whether it is marked selected. */
  datatype OptionRow = OptionRow(text: string, dataId: Option<int>, isSelected: bool)

  const NoResultsText := "No results"

  function ItemRows(visible: seq<Item>, selected: seq<int>): (rows: seq<OptionRow>)
    ensures |rows| == |visible|
    ensures forall k :: 0 <= k < |visible| ==>
      rows[k] == OptionRow(visible[k].name, Some(visible[k].id), visible[k].id in selected)
  {
    if visible == [] then []
    else [OptionRow(visible[0].name, Some(visible[0].id), visible[0].id in selected)] + ItemRows(visible[1..], selected)
  }

  /** The rows of the options list: one per visible item, or the single "No results" row. */
  function OptionRows(items: seq<Item>, selected: seq<int>, searchText: string): seq<OptionRow> {
    var visible := VisibleItems(items, searchText);
    if |visible| == 0 then [OptionRow(NoResultsText, None, false)] else ItemRows(visible, selected)
  }

  /** The items `renderPills` shows: in item order, those whose id is selected. */
  function PillItems(items: seq<Item>, selected: seq<int>): seq<Item> {
    Filter(items, (item: Item) => item.id in selected)
  }

  // ---------------------------------------------------------------------
  // The filter object

  class MultiSelectFilter {
    var items: seq<Item>
    var selected: seq<int>
    /** How many times `onChange` has been called. */
    var changeNotifications: nat

    ghost predicate Valid()
      reads this
    {
      NoDuplicates(selected)
    }

    constructor ()
      ensures Valid()
      ensures items == [] && selected == [] && changeNotifications == 0
    {
      items := [];
      selected := [];
      changeNotifications := 0;
    }

    /** `getSelectedIds()`: the selection in insertion order, not sorted. */
    function SelectedIds(): (r: seq<int>)
      reads this
      ensures Valid() ==> NoDuplicates(r)
    {
      selected
    }

    /** What `renderOptions` shows when the search box holds `searchText`. */
    function Options(searchText: string): (r: seq<OptionRow>)
      reads this
      ensures VisibleItems(items, searchText) == [] <==> r == [OptionRow(NoResultsText, None, false)]
      ensures forall k :: 0 <= k < |r| && r[k].dataId.None? ==> r[k].text == NoResultsText
    {
      OptionRowsSpec(items, selected, searchText);
      OptionRows(items, selected, searchText)
    }

    /** What `renderPills` shows. */
    function Pills(): (r: seq<Item>)
      reads this
      ensures forall it :: it in r <==> it in items && it.id in selected
      ensures IsSubsequence(r, items)
    {
      PillItemsSpec(items, selected);
      PillItems(items, selected)
    }

    /** `toggleSelection(id)`: flips `id`, then re-renders and calls `onChange` once. */
    method Toggle(id: int)
      requires Valid()
      modifies this
      ensures Valid()
      ensures items == old(items)
      ensures selected == Toggled(old(selected), id)
      ensures changeNotifications == old(changeNotifications) + 1
    {
      if id in selected {
        selected := Delete(selected, id);
      } else {
        selected := selected + [id];
      }
      changeNotifications := changeNotifications + 1;
    }

    /**
     * `setItems(items, pruneMissing, restoreIds)`: replaces the items
     * (`items || []`), seeds an empty selection from `restoreIds`, prunes
     * ids absent from the items when asked, and never calls `onChange`.
     */
    method SetItems(newItems: Option<seq<Item>>, pruneMissing: bool, restoreIds: seq<int>)
      requires Valid()
      modifies this
      ensures Valid()
      ensures items == newItems.GetOr([])
      ensures selected == SelectionAfterSetItems(old(selected), items, pruneMissing, restoreIds)
      ensures changeNotifications == old(changeNotifications)
    {
      var newList := newItems.GetOr([]);
      var current := selected;
      if |restoreIds| > 0 && |current| == 0 {
        for i := 0 to |restoreIds|
          invariant current == AddAll(selected, restoreIds[..i])
          invariant NoDuplicates(current)
          invariant changeNotifications == old(changeNotifications)
        {
          assert restoreIds[..i + 1][..i] == restoreIds[..i];
          current := Add(current, restoreIds[i]);
        }
        assert restoreIds[..|restoreIds|] == restoreIds;
      }
      if pruneMissing {
        var valid := Ids(newList);
        var kept: seq<int> := [];
        for i := 0 to |current|
          invariant kept == Filter(current[..i], id => id in valid)
          invariant changeNotifications == old(changeNotifications)
        {
          FilterSnoc(current, i, id => id in valid);
          if current[i] in valid {
            kept := kept + [current[i]];
          }
        }
        assert current[..|current|] == current;
        FilterKeepsNoDuplicates(current, id => id in valid);
        current := kept;
      }
      items := newList;
      selected := current;
    }

    /**
     * A click on an option row: ignored when its text is "No results";
     * otherwise the id read from `data-id` is toggled (`Number(null)` is 0).
     */
    method ClickOption(row: OptionRow)
      requires Valid()
      modifies this
      ensures Valid()
      ensures items == old(items)
      ensures row.text == NoResultsText ==> selected == old(selected) && changeNotifications == old(changeNotifications)
      ensures row.text != NoResultsText ==> selected == Toggled(old(selected), row.dataId.GetOr(0))
      ensures row.text != NoResultsText ==> changeNotifications == old(changeNotifications) + 1
    {
      if row.text == NoResultsText {
        return;
      }
      var id := row.dataId.GetOr(0);
      Toggle(id);
    }

    /**
     * A click on the remove button of a pill: the pill's id is toggled,
     * which takes it out of the selection, since only selected items have pills.
     */
    method ClickPill(pill: Item)
      requires Valid() && pill in Pills()
      modifies this
      ensures Valid()
      ensures items == old(items)
      ensures selected == Delete(old(selected), pill.id) && pill.id !in selected
      ensures changeNotifications == old(changeNotifications) + 1
    {
      PillItemsSpec(items, selected);
      Toggle(pill.id);
    }
  }

  // ---------------------------------------------------------------------
  // Properties of the selection

  lemma {:induction false} FilterKeepsNoDuplicates(s: seq<int>, p: int -> bool)
    ensures NoDuplicates(s) ==> NoDuplicates(Filter(s, p))
  {
    if s != [] {
      FilterKeepsNoDuplicates(s[1..], p);
    }
  }

  /** Toggling flips the membership of exactly `id` and keeps the selection duplicate-free. */
  lemma ToggleFlipsOnlyId(s: seq<int>, id: int)
    requires NoDuplicates(s)
    ensures id in Toggled(s, id) <==> id !in s
    ensures forall x :: x != id ==> (x in Toggled(s, id) <==> x in s)
    ensures NoDuplicates(Toggled(s, id))
  {
  }

  /** `ToggleFlipsOnlyId` for one element. */
  lemma ToggleMembership(s: seq<int>, id: int, x: int)
    requires NoDuplicates(s)
    ensures x in Toggled(s, id) <==> (if x == id then x !in s else x in s)
    ensures NoDuplicates(Toggled(s, id))
  {
    ToggleFlipsOnlyId(s, id);
  }

  /**
   * Toggling twice restores membership. An absent id leaves the selection
   * exactly as it was; a present one moves to the end, as a `Set` that
   * deletes and re-adds it does.
   */
  lemma ToggleTwice(s: seq<int>, id: int)
    requires NoDuplicates(s)
    ensures forall x :: x in Toggled(Toggled(s, id), id) <==> x in s
    ensures id !in s ==> Toggled(Toggled(s, id), id) == s
    ensures id in s ==> Toggled(Toggled(s, id), id) == Delete(s, id) + [id]
  {
    if id !in s {
      DeleteLast(s, id);
    }
  }

  lemma DeleteLast(s: seq<int>, id: int)
    requires id !in s
    ensures Delete(s + [id], id) == s
  {
    FilterConcat(s, [id], Other(id));
    FilterKeepsAll(s, Other(id));
    assert [id][1..] == [];
  }

  lemma {:induction false} AddAllMembers(s: seq<int>, xs: seq<int>)
    requires NoDuplicates(s)
    ensures NoDuplicates(AddAll(s, xs))
    ensures forall x :: x in AddAll(s, xs) <==> x in s || x in xs
  {
    if xs != [] {
      var init := xs[..|xs| - 1];
      AddAllMembers(s, init);
      assert xs == init + [xs[|xs| - 1]];
    }
  }

  /**
   * `setItems` restores from `restoreIds` only into an empty selection and
   * only when there is something to restore; a live selection is never
   * overwritten, only pruned when asked.
   */
  lemma SetItemsSeeding(selected: seq<int>, items: seq<Item>, pruneMissing: bool, restoreIds: seq<int>)
    requires NoDuplicates(selected)
    ensures |selected| > 0 && !pruneMissing ==> SelectionAfterSetItems(selected, items, pruneMissing, restoreIds) == selected
    ensures |selected| > 0 && pruneMissing ==>
      SelectionAfterSetItems(selected, items, pruneMissing, restoreIds) == Filter(selected, id => id in Ids(items))
    ensures restoreIds == [] ==> SelectionAfterSetItems(selected, items, false, restoreIds) == selected
    ensures |selected| == 0 ==> forall x ::
      x in SelectionAfterSetItems(selected, items, false, restoreIds) <==> x in restoreIds
  {
    AddAllMembers(selected, restoreIds);
  }

  /**
   * With `pruneMissing`, every selected id is an id of the new items, and
   * every id that was (or was restored) selected and is still an item
   * survives, in the same relative order.
   */
  lemma SetItemsPrunes(selected: seq<int>, items: seq<Item>, restoreIds: seq<int>)
    requires NoDuplicates(selected)
    ensures var seeded := if |restoreIds| > 0 && |selected| == 0 then AddAll(selected, restoreIds) else selected;
      var after := SelectionAfterSetItems(selected, items, true, restoreIds);
      && (forall x :: x in after ==> x in Ids(items))
      && (forall x :: x in seeded && x in Ids(items) ==> x in after)
      && IsSubsequence(after, seeded)
      && NoDuplicates(after)
  {
    var seeded := if |restoreIds| > 0 && |selected| == 0 then AddAll(selected, restoreIds) else selected;
    AddAllMembers(selected, restoreIds);
    FilterIsSubsequence(seeded, id => id in Ids(items));
    FilterKeepsNoDuplicates(seeded, id => id in Ids(items));
  }

  /**
   * Without `pruneMissing` the selection is the old (or restored) one,
   * ids that the new items lack included, as in the first `loadFilters`.
   */
  lemma SetItemsWithoutPruning(selected: seq<int>, items: seq<Item>, restoreIds: seq<int>, x: int)
    requires NoDuplicates(selected)
    requires x in selected && x !in Ids(items)
    ensures x in SelectionAfterSetItems(selected, items, false, restoreIds)
    ensures NoDuplicates(SelectionAfterSetItems(selected, items, false, restoreIds))
  {
  }

  // ---------------------------------------------------------------------
  // Properties of the views

  /**
   * The visible options: all items for an empty (or blank) query; otherwise
   * exactly the items whose lower-cased name contains the trimmed,
   * lower-cased query, in item order.
   */
  lemma VisibleItemsSpec(items: seq<Item>, searchText: string)
    ensures NormalizedQuery(searchText) == "" ==> VisibleItems(items, searchText) == items
    ensures forall it :: it in VisibleItems(items, searchText) <==>
      it in items && MatchesQuery(it, NormalizedQuery(searchText))
    ensures IsSubsequence(VisibleItems(items, searchText), items)
  {
    var query := NormalizedQuery(searchText);
    var p := (item: Item) => MatchesQuery(item, query);
    var visible := VisibleItems(items, searchText);
    assert visible == Filter(items, p);
    if query == "" {
      FilterKeepsAll(items, p);
    }
    FilterMembers(items, p);
    assert forall it :: it in visible <==> it in items && p(it);
    FilterIsSubsequence(items, p);
  }

  /** A search text that is only whitespace shows every item. */
  lemma BlankQueryShowsAll(items: seq<Item>, searchText: string)
    requires forall k :: 0 <= k < |searchText| ==> IsJsWhiteSpace(searchText[k])
    ensures VisibleItems(items, searchText) == items
  {
    TrimOfBlank(searchText);
    VisibleItemsSpec(items, searchText);
  }

  /**
   * The options list: the "No results" row, which carries no id, exactly
   * when nothing is visible; otherwise one row per visible item with its name and id.
   */
  lemma OptionRowsSpec(items: seq<Item>, selected: seq<int>, searchText: string)
    ensures var rows := OptionRows(items, selected, searchText);
      && (VisibleItems(items, searchText) == [] <==> rows == [OptionRow(NoResultsText, None, false)])
      && (forall k :: 0 <= k < |rows| && rows[k].dataId.None? ==> rows[k].text == NoResultsText)
  {
    var visible := VisibleItems(items, searchText);
    var rows := OptionRows(items, selected, searchText);
    if visible != [] {
      assert rows == ItemRows(visible, selected);
      assert rows[0].dataId.Some?;
    }
  }

  /** Clicking the "No results" row changes nothing and notifies nobody. */
  method ClickNoResults(f: MultiSelectFilter)
    requires f.Valid()
    modifies f
    ensures f.selected == old(f.selected) && f.changeNotifications == old(f.changeNotifications)
  {
    f.ClickOption(OptionRow(NoResultsText, None, false));
  }

  /**
   * The pills: items in item order whose id is selected; a selected id with
   * no item makes no pill, and an item is a pill exactly when its id is selected.
   */
  lemma PillItemsSpec(items: seq<Item>, selected: seq<int>)
    ensures forall it :: it in PillItems(items, selected) <==> it in items && it.id in selected
    ensures IsSubsequence(PillItems(items, selected), items)
    ensures forall id :: id in selected && id !in Ids(items) ==>
      forall it :: it in PillItems(items, selected) ==> it.id != id
  {
    FilterIsSubsequence(items, (item: Item) => item.id in selected);
    forall id, it | id in selected && id !in Ids(items) && it in PillItems(items, selected)
      ensures it.id != id
    {
      var k :| 0 <= k < |items| && items[k] == it;
      assert items[k].id in Ids(items);
    }
  }

  /** A sequence of toggles, replayed on a filter: membership is the parity of each id's toggles. */
  function ToggleAll(s: seq<int>, ids: seq<int>): seq<int>
    decreases |ids|
  {
    if ids == [] then s else ToggleAll(Toggled(s, ids[0]), ids[1..])
  }

  function Count(ids: seq<int>, x: int): nat {
    if ids == [] then 0 else (if ids[0] == x then 1 else 0) + Count(ids[1..], x)
  }

  /** `x` occurs an odd number of times in `ids`. */
  predicate OddCount(ids: seq<int>, x: int) {
    if ids == [] then false else (ids[0] == x) != OddCount(ids[1..], x)
  }

  lemma {:induction false} OddCountIsParity(ids: seq<int>, x: int)
    ensures OddCount(ids, x) <==> Count(ids, x) % 2 == 1
  {
    if ids != [] {
      OddCountIsParity(ids[1..], x);
    }
  }

  lemma {:induction false} ToggleAllKeepsNoDuplicates(s: seq<int>, ids: seq<int>)
    requires NoDuplicates(s)
    ensures NoDuplicates(ToggleAll(s, ids))
    decreases |ids|
  {
    if ids != [] {
      ToggleFlipsOnlyId(s, ids[0]);
      ToggleAllKeepsNoDuplicates(Toggled(s, ids[0]), ids[1..]);
    }
  }

  lemma {:induction false} ToggleAllOdd(s: seq<int>, ids: seq<int>, x: int)
    requires NoDuplicates(s)
    ensures x in ToggleAll(s, ids) <==> ((x in s) != OddCount(ids, x))
    decreases |ids|
  {
    if ids != [] {
      ToggleMembership(s, ids[0], x);
      ToggleAllOdd(Toggled(s, ids[0]), ids[1..], x);
    }
  }

  /** After a sequence of toggles an id is selected exactly when it started selected and was toggled an even number of times, or the other way round. */
  lemma ToggleAllParity(s: seq<int>, ids: seq<int>, x: int)
    requires NoDuplicates(s)
    ensures x in ToggleAll(s, ids) <==> (x in s <==> Count(ids, x) % 2 == 0)
  {
    ToggleAllOdd(s, ids, x);
    OddCountIsParity(ids, x);
  }
}
