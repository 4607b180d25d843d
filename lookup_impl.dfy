/**
 * The completion popup (LookupImpl) as state: the list it shows, the selected row, the
 * typed prefix, and the editor whose document and caret it edits. Swing, listeners and
 * screen geometry are not part of this model.
 */
module Lookup {
  import opened Wrappers
  import opened LookupLogic

  /** The editor's selection: none, or the range [start, end). */
  datatype Selection = NoSelection | Selected(start: nat, end: nat)

  /** What the popup reads and edits of an Editor: the document text, the caret and the selection. */
  class Editor {
    var text: string
    var caret: nat
    var selection: Selection

    ghost predicate Valid()
      reads this
    {
      && caret <= |text|
      && (selection.Selected? ==> selection.start <= selection.end <= |text|)
    }

    constructor (text: string, caret: nat, selection: Selection)
      requires caret <= |text|
      requires selection.Selected? ==> selection.start <= selection.end <= |text|
      ensures Valid()
      ensures this.text == text && this.caret == caret && this.selection == selection
    {
      this.text := text;
      this.caret := caret;
      this.selection := selection;
    }

    /** Document.insertString. */
    method InsertString(offset: nat, s: string)
      requires offset <= |text|
      modifies this`text
      ensures text == LookupLogic.InsertString(old(text), offset, s)
    {
      text := LookupLogic.InsertString(text, offset, s);
    }

    /** Document.deleteString. */
    method DeleteString(start: nat, end: nat)
      requires start <= end <= |text|
      modifies this`text
      ensures text == LookupLogic.DeleteString(old(text), start, end)
    {
      text := LookupLogic.DeleteString(text, start, end);
    }

    /** Document.replaceString. */
    method ReplaceString(start: nat, end: nat, s: string)
      requires start <= end <= |text|
      modifies this`text
      ensures text == LookupLogic.ReplaceString(old(text), start, end, s)
    {
      text := LookupLogic.ReplaceString(text, start, end, s);
    }

    /** CaretModel.moveToOffset. */
    method MoveCaret(offset: nat)
      modifies this`caret
      ensures caret == offset
    {
      caret := offset;
    }

    /** SelectionModel.removeSelection. */
    method RemoveSelection()
      modifies this`selection
      ensures selection == NoSelection
    {
      selection := NoSelection;
    }

    /**
     * EditorModificationUtil.insertStringAtCaret: the string replaces the selection when
     * there is one and goes in at the caret otherwise; the caret ends just after it and
     * the selection is removed.
     */
    method InsertStringAtCaret(s: string)
      requires Valid()
      modifies this
      ensures Valid()
      ensures text == InsertedAtCaret(old(text), old(caret), old(selection), s)
      ensures caret == CaretAfterInsert(old(caret), old(selection), s)
      ensures selection == NoSelection
    {
      if selection.Selected? {
        ReplaceString(selection.start, selection.end, s);
        MoveCaret(selection.start + |s|);
      } else {
        InsertString(caret, s);
        MoveCaret(caret + |s|);
      }
      RemoveSelection();
    }
  }

  class LookupImpl {
    /** myItems. */
    const items: seq<LookupItem>
    /** The lists of myItemsMap, in key order (initWeightMap). */
    const weightGroups: seq<seq<LookupItem>>
    /** myItemPreferencePolicy; None for a null policy. */
    const policy: Option<Comparator>
    /** The match test behind suits. */
    const matches: Matcher
    const editor: Editor
    /** myInitialPrefix. */
    const initialPrefix: string

    /** myPrefix. */
    var prefix: string
    /** myPreferredItemsCount. */
    var preferredCount: nat
    /** The rows of the list model. */
    var listModel: seq<LookupItem>
    /** The selected row of the list; -1 when nothing is selected. */
    var selected: int
    /** myIndex: the row doSelectMostPreferableItem chose last. */
    var index: int

    /** What holds from construction on, before the list is first filled. */
    ghost predicate Wellformed()
      reads this, editor
    {
      && editor.Valid()
      && GroupsDrawnFrom(weightGroups, items)
      && (forall i | 0 <= i < |items| :: !items[i].emptyItem)
      && -1 <= selected < |listModel|
    }

    ghost predicate Valid()
      reads this, editor
    {
      && Wellformed()
      && 0 < |listModel|
      && preferredCount <= MaxPreferredCount
    }

    /** JList.getSelectedValue. */
    function SelectedValue(): (r: Option<LookupItem>)
      reads this
      requires -1 <= selected < |listModel|
      ensures r.None? <==> selected == -1
      ensures r.Some? ==> r.value in listModel && r.value == listModel[selected]
    {
      if selected == -1 then None else Some(listModel[selected])
    }

    /**
     * The constructor: a null prefix becomes the empty string, the list is built, and the
     * most preferable row is selected.
     */
    constructor (editor: Editor, items: seq<LookupItem>, prefix: Option<string>, policy: Option<Comparator>,
                 weightGroups: seq<seq<LookupItem>>, matches: Matcher)
      requires editor.Valid()
      requires GroupsDrawnFrom(weightGroups, items)
      requires forall i | 0 <= i < |items| :: !items[i].emptyItem
      ensures Valid()
      ensures this.editor == editor && this.items == items && this.policy == policy
      ensures this.weightGroups == weightGroups && this.matches == matches
      ensures this.prefix == initialPrefix == (if prefix.None? then "" else prefix.value)
      ensures listModel == ListModel(items, weightGroups, this.prefix, matches)
      ensures preferredCount == |PreferredSection(weightGroups, MaxPreferredCount, this.prefix, matches)|
      ensures IsMostPreferable(policy, this.prefix, listModel, index)
      ensures (exists i | 0 <= i < |items| :: Suits(items[i], this.prefix, matches)) ==>
        selected == if index >= 0 then index else 0
      ensures (forall i | 0 <= i < |items| :: !Suits(items[i], this.prefix, matches)) ==>
        && listModel == [Placeholder] && selected == (if index >= 0 then index else -1)
        && GetCurrentItem().None?
    {
      var p := if prefix.None? then "" else prefix.value;
      this.editor := editor;
      this.items := items;
      this.policy := policy;
      this.weightGroups := weightGroups;
      this.matches := matches;
      this.prefix := p;
      initialPrefix := p;
      preferredCount := 0;
      listModel := [];
      selected := -1;
      index := 0;
      new;
      UpdateList();
      SelectMostPreferableItem();
    }

    /**
     * updateList: rebuilds the list for the current prefix. When nothing suits, the list
     * holds the placeholder and nothing is selected; otherwise the most preferable row is
     * selected, or else the row that was selected before, or else the first row.
     */
    method UpdateList()
      requires Wellformed()
      modifies this`preferredCount, this`listModel, this`selected, this`index
      ensures Valid()
      ensures listModel == ListModel(items, weightGroups, prefix, matches)
      ensures preferredCount == |PreferredSection(weightGroups, MaxPreferredCount, prefix, matches)|
      ensures (forall i | 0 <= i < |items| :: !Suits(items[i], prefix, matches)) ==>
        listModel == [Placeholder] && selected == -1 && index == old(index)
      ensures (exists i | 0 <= i < |items| :: Suits(items[i], prefix, matches)) ==>
        && IsMostPreferable(policy, prefix, listModel, index)
        && selected == (if index >= 0 then index
                        else if old(SelectedValue()).None? || FirstIndex(listModel, old(SelectedValue()).value) == -1 then 0
                        else FirstIndex(listModel, old(SelectedValue()).value))
    {
      var oldSelected := SelectedValue();
      ListModelShowsSuitable(items, weightGroups, prefix, matches);
      ListModelPlaceholderIff(items, weightGroups, prefix, matches);
      var preferred := PreferredSection(weightGroups, MaxPreferredCount, prefix, matches);
      preferredCount := |preferred|;
      var rows := preferred + Remaining(items, preferred, prefix, matches);
      var isEmpty := |rows| == 0;
      listModel := if isEmpty then [Placeholder] else rows;
      selected := -1;
      if !isEmpty {
        SomeItemSuits(rows, items, prefix, matches);
        SelectMostPreferableItem();
        if index >= 0 {
          selected := index;
        } else {
          var found := if oldSelected.None? then -1 else FirstIndex(listModel, oldSelected.value);
          selected := if found == -1 then 0 else found;
        }
      }
    }

    /** selectMostPreferableItem: myIndex gets the most preferable row, which is selected when there is one. */
    method SelectMostPreferableItem()
      requires Valid()
      modifies this`index, this`selected
      ensures Valid()
      ensures IsMostPreferable(policy, prefix, listModel, index)
      ensures selected == if index >= 0 then index else old(selected)
    {
      index := DoSelectMostPreferableItem(policy, prefix, listModel);
      if index >= 0 {
        selected := index;
      }
    }

    /** getCurrentItem: the selected row, except that the placeholder counts as no item. */
    function GetCurrentItem(): (r: Option<LookupItem>)
      reads this
      requires -1 <= selected < |listModel|
      ensures r.Some? ==> r.value in listModel && !r.value.emptyItem && r == SelectedValue()
      ensures SelectedValue().Some? && !SelectedValue().value.emptyItem ==> r == SelectedValue()
      ensures listModel == [Placeholder] ==> r.None?
    {
      var item := SelectedValue();
      if item.Some? && item.value.emptyItem then None else item
    }

    /**
     * calcLookupStart: where the typed prefix begins, counted back from the selection start
     * or the caret. When the prefix was typed just before that anchor, the lookup start is
     * where the document holds it.
     */
    function CalcLookupStart(): (r: int)
      reads this, editor
      ensures r + |prefix| == if editor.selection.Selected? then editor.selection.start else editor.caret
      ensures var anchor := if editor.selection.Selected? then editor.selection.start else editor.caret;
        |prefix| <= anchor <= |editor.text| && editor.text[anchor - |prefix|..anchor] == prefix ==>
          0 <= r && r + |prefix| <= |editor.text| && editor.text[r..r + |prefix|] == prefix
    {
      (if editor.selection.Selected? then editor.selection.start else editor.caret) - |prefix|
    }

    /**
     * fillInCommonPrefix: when the rows share more than the typed prefix (or a unique
     * name is to be completed), corrects the case of the typed prefix if every row agrees
     * on it, inserts the common prefix at the caret and extends myPrefix by it.
     */
    method FillInCommonPrefix(toCompleteUniqueName: bool) returns (r: bool)
      requires Valid()
      requires forall i | 0 <= i < |listModel| :: listModel[i].emptyItem || |prefix| <= |listModel[i].lookupString|
      requires CalcLookupStart() >= 0
      modifies this`prefix, editor
      ensures Valid()
      ensures var scan := CommonPrefixOutcome(listModel, |old(prefix)|);
        r <==> scan.Common? && (scan.isStrict || toCompleteUniqueName)
      ensures !r ==>
        && prefix == old(prefix)
        && editor.text == old(editor.text) && editor.caret == old(editor.caret) && editor.selection == old(editor.selection)
      ensures r ==>
        var scan := CommonPrefixOutcome(listModel, |old(prefix)|);
        var lookupStart := old(CalcLookupStart());
        && prefix == old(prefix) + scan.commonPrefix
        && editor.text == InsertedAtCaret(CaseCorrected(old(editor.text), lookupStart, scan.subprefix),
                                          old(editor.caret), old(editor.selection), scan.commonPrefix)
        && editor.caret == CaretAfterInsert(old(editor.caret), old(editor.selection), scan.commonPrefix)
        && editor.selection == NoSelection
    {
      var scan := CommonPrefixScan(listModel, |prefix|);
      if !scan.Common? {
        return false;
      }
      if !scan.isStrict && !toCompleteUniqueName {
        return false;
      }
      CommonPrefixSharedByAll(listModel, |prefix|, []);
      if scan.subprefix.Some? {
        assert scan.subprefix.value == Head(listModel[0], |prefix|);
      }
      InsertCommonPrefix(scan.subprefix, scan.commonPrefix);
      return true;
    }

    /**
     * The command fillInCommonPrefix runs: replace the typed prefix by the agreed covered
     * part, if any, extend myPrefix and insert the common prefix at the caret.
     */
    method InsertCommonPrefix(subprefix: Option<string>, commonPrefix: string)
      requires Valid()
      requires CalcLookupStart() >= 0
      requires subprefix.Some? ==> |subprefix.value| == |prefix|
      modifies this`prefix, editor
      ensures Valid()
      ensures prefix == old(prefix) + commonPrefix
      ensures editor.text == InsertedAtCaret(CaseCorrected(old(editor.text), old(CalcLookupStart()), subprefix),
                                             old(editor.caret), old(editor.selection), commonPrefix)
      ensures editor.caret == CaretAfterInsert(old(editor.caret), old(editor.selection), commonPrefix)
      ensures editor.selection == NoSelection
    {
      if subprefix.Some? {
        var lookupStart := CalcLookupStart();
        editor.ReplaceString(lookupStart, lookupStart + |subprefix.value|, subprefix.value);
      }
      prefix := prefix + commonPrefix;
      editor.InsertStringAtCaret(commonPrefix);
    }

    /**
     * finishLookup, its document edit: with a chosen row (selected, not the placeholder,
     * not a deferred value that declines), deletes the selection, replaces the typed
     * prefix at the lookup start by the row's lookup string, and puts the caret after it.
     */
    method FinishLookup() returns (chosen: Option<LookupItem>)
      requires Valid()
      requires CalcLookupStart() >= 0
      modifies editor
      ensures Valid()
      ensures var item := old(SelectedValue());
        chosen.Some? <==> item.Some? && !item.value.emptyItem && item.value.obj != DeferredValue(false)
      ensures chosen.Some? ==> chosen == old(SelectedValue())
      ensures chosen.None? ==>
        editor.text == old(editor.text) && editor.caret == old(editor.caret) && editor.selection == old(editor.selection)
      ensures chosen.Some? ==>
        var lookupStart := old(CalcLookupStart());
        && editor.text == CompletedText(WithoutSelection(old(editor.text), old(editor.selection)), lookupStart, prefix, chosen.value.lookupString)
        && editor.caret == lookupStart + |chosen.value.lookupString|
        && editor.selection == NoSelection
    {
      var item := SelectedValue();
      if item.None? || (item.value.obj.DeferredValue? && !item.value.obj.acceptsSelection) || item.value.emptyItem {
        return None;
      }
      InsertLookupString(item.value.lookupString);
      chosen := item;
    }

    /**
     * The write action finishLookup runs: move the caret to the lookup start, delete the
     * selection, put the lookup string in place of the typed prefix (insert the rest of it
     * when it starts with the prefix, otherwise delete the prefix and insert all of it),
     * and leave the caret after it with no selection.
     */
    method InsertLookupString(s: string)
      requires Valid()
      requires CalcLookupStart() >= 0
      modifies editor
      ensures Valid()
      ensures editor.text == CompletedText(WithoutSelection(old(editor.text), old(editor.selection)), old(CalcLookupStart()), prefix, s)
      ensures editor.caret == old(CalcLookupStart()) + |s|
      ensures editor.selection == NoSelection
    {
      var lookupStart := CalcLookupStart();
      editor.MoveCaret(lookupStart);
      if editor.selection.Selected? {
        editor.DeleteString(editor.selection.start, editor.selection.end);
      }
      ghost var cleared := editor.text;
      if prefix <= s {
        editor.InsertString(lookupStart + |prefix|, s[|prefix|..]);
      } else {
        if |prefix| > 0 {
          editor.DeleteString(lookupStart, lookupStart + |prefix|);
        }
        editor.InsertString(lookupStart, s);
      }
      assert editor.text == CompletedText(cleared, lookupStart, prefix, s);
      editor.MoveCaret(lookupStart + |s|);
      editor.RemoveSelection();
    }
  }

  /** The document with the selected range, if any, deleted. */
  function WithoutSelection(text: string, selection: Selection): (r: string)
    requires selection.Selected? ==> selection.start <= selection.end <= |text|
    ensures selection.Selected? ==> |r| == |text| - (selection.end - selection.start)
    ensures selection.Selected? ==>
      r[..selection.start] == text[..selection.start] && r[selection.start..] == text[selection.end..]
    ensures selection.NoSelection? ==> r == text
  {
    if selection.Selected? then LookupLogic.DeleteString(text, selection.start, selection.end) else text
  }

  /** The document after the case correction: the typed prefix replaced by the agreed covered part. */
  function CaseCorrected(text: string, lookupStart: int, subprefix: Option<string>): (r: string)
    requires subprefix.Some? ==> 0 <= lookupStart && lookupStart + |subprefix.value| <= |text|
    ensures |r| == |text|
    ensures subprefix.Some? ==> r[lookupStart..lookupStart + |subprefix.value|] == subprefix.value
    ensures subprefix.Some? ==>
      && r[..lookupStart] == text[..lookupStart]
      && r[lookupStart + |subprefix.value|..] == text[lookupStart + |subprefix.value|..]
    ensures subprefix.None? ==> r == text
  {
    if subprefix.Some? then LookupLogic.ReplaceString(text, lookupStart, lookupStart + |subprefix.value|, subprefix.value) else text
  }

  /** The document after insertStringAtCaret. */
  function InsertedAtCaret(text: string, caret: nat, selection: Selection, s: string): (r: string)
    requires caret <= |text|
    requires selection.Selected? ==> selection.start <= selection.end <= |text|
  {
    if selection.Selected? then LookupLogic.ReplaceString(text, selection.start, selection.end, s)
    else LookupLogic.InsertString(text, caret, s)
  }

  /** The caret after insertStringAtCaret: just after the inserted string. */
  function CaretAfterInsert(caret: nat, selection: Selection, s: string): nat
  {
    (if selection.Selected? then selection.start else caret) + |s|
  }
}
