/**
 * The editor's tab (document) list: the `tabs` array of records, the
 * `activeKey` naming the selected tab, the key whose title is being edited
 * and the confirmation flag raised before the last tab is closed.
 */
module TabStore {
  import opened Wrappers
  import opened JsText

  datatype Tab = Tab(key: JsString, title: JsString, content: JsString, aiPercentage: int, wordCount: nat)

  datatype Store = Store(
    tabs: seq<Tab>,
    activeKey: JsString,
    editingKey: Option<JsString>,
    confirmVisible: bool)

  /** The tab-bar actions the editable tab strip reports. */
  datatype TabEdit = AddAction | RemoveAction(target: JsString)

  /** "New Tab " */
  function NewTabPrefix(): JsString { Ascii("New Tab ") }

  /** "Tab " */
  function TabPrefix(): JsString { Ascii("Tab ") }

  /** The key `handleConfirmRemoveLastTab` resets `activeKey` to: "1". */
  function FirstKey(): JsString { Ascii("1") }

  predicate DistinctKeys(tabs: seq<Tab>) {
    forall i, j :: 0 <= i < j < |tabs| ==> tabs[i].key != tabs[j].key
  }

  predicate HasKey(tabs: seq<Tab>, key: JsString) {
    exists i :: 0 <= i < |tabs| && tabs[i].key == key
  }

  // ---------------------------------------------------------------------
  // updateTabContent
  // ---------------------------------------------------------------------

  /**
   * `updateTabContent(key, newContent)`: the tab with that key gets the new
   * content and its word count; nothing else in the list changes. The word
   * count is the number of words in the new content, or 1 for a blank one.
   */
  function UpdateTabContent(tabs: seq<Tab>, key: JsString, newContent: JsString): (r: seq<Tab>)
    ensures |r| == |tabs|
    ensures forall i :: 0 <= i < |tabs| ==>
      && r[i].key == tabs[i].key
      && r[i].title == tabs[i].title
      && r[i].aiPercentage == tabs[i].aiPercentage
    ensures forall i :: 0 <= i < |tabs| && tabs[i].key != key ==> r[i] == tabs[i]
    ensures forall i :: 0 <= i < |tabs| && tabs[i].key == key ==>
      && r[i].content == newContent
      && r[i].wordCount == if Words(newContent) == 0 then 1 else Words(newContent)
  {
    WordCountIsWords(newContent);
    seq(|tabs|, i requires 0 <= i < |tabs| =>
      if tabs[i].key == key then tabs[i].(content := newContent, wordCount := WordCount(newContent))
      else tabs[i])
  }

  // ---------------------------------------------------------------------
  // handleAddTab
  // ---------------------------------------------------------------------

  /** The record a new tab starts as. */
  function NewTab(key: JsString): Tab {
    Tab(key, NewTabPrefix() + key, [], 0, 0)
  }

  /**
   * `handleAddTab` as written: appends a blank tab keyed `String(tabs.length + 1)`
   * and makes it active. The key is not checked against the existing ones.
   */
  function AddTab(s: Store): (r: Store)
    ensures |r.tabs| == |s.tabs| + 1 && r.tabs[..|s.tabs|] == s.tabs
    ensures var t := r.tabs[|s.tabs|];
      && AllDigits(t.key) && DigitsValue(t.key) == |s.tabs| + 1 && t.key[0] != 0x30
      && t.title == NewTabPrefix() + t.key
      && t.content == [] && t.aiPercentage == 0 && t.wordCount == 0
    ensures r.activeKey == r.tabs[|s.tabs|].key
    ensures r.editingKey == s.editingKey && r.confirmVisible == s.confirmVisible
  {
    var key := DecimalString(|s.tabs| + 1);
    DecimalRoundTrip(|s.tabs| + 1);
    s.(tabs := s.tabs + [NewTab(key)], activeKey := key)
  }

  /** The number a key stands for when it is a decimal numeral, 0 otherwise. */
  function KeyNumber(key: JsString): nat {
    if AllDigits(key) then DigitsValue(key) else 0
  }

  /** The largest number any key of the list stands for. */
  function MaxKeyNumber(tabs: seq<Tab>): (m: nat)
    ensures forall i :: 0 <= i < |tabs| ==> KeyNumber(tabs[i].key) <= m
  {
    if |tabs| == 0 then 0
    else
      var rest := MaxKeyNumber(tabs[1..]);
      var here := KeyNumber(tabs[0].key);
      if here < rest then rest else here
  }

  /** The number the corrected `handleAddTab` keys its new tab with. */
  function FreshKeyNumber(tabs: seq<Tab>): nat {
    (if |tabs| < MaxKeyNumber(tabs) then MaxKeyNumber(tabs) else |tabs|) + 1
  }

  /**
   * `handleAddTab` with the key collision removed: the new key is one past
   * both the list length and every numeric key in use, so it names no
   * existing tab. The new tab is otherwise the one `AddTab` appends.
   */
  function AddTabFresh(s: Store): (r: Store)
    ensures |r.tabs| == |s.tabs| + 1 && r.tabs[..|s.tabs|] == s.tabs
    ensures r.tabs[|s.tabs|] == NewTab(r.activeKey)
    ensures !HasKey(s.tabs, r.activeKey)
    ensures DistinctKeys(s.tabs) ==> DistinctKeys(r.tabs)
    ensures r.editingKey == s.editingKey && r.confirmVisible == s.confirmVisible
  {
    var n := FreshKeyNumber(s.tabs);
    var key := DecimalString(n);
    DecimalRoundTrip(n);
    assert KeyNumber(key) == n;
    var r := s.(tabs := s.tabs + [NewTab(key)], activeKey := key);
    assert r.tabs[..|s.tabs|] == s.tabs;
    r
  }

  /**
   * While the keys are still "1", "2", ... in order (no tab was ever
   * removed), the corrected add and the add as written agree.
   */
  lemma AddTabFreshAgreesWithoutRemovals(s: Store)
    requires forall i :: 0 <= i < |s.tabs| ==> s.tabs[i].key == DecimalString(i + 1)
    ensures AddTabFresh(s) == AddTab(s)
  {
    forall i | 0 <= i < |s.tabs|
      ensures KeyNumber(s.tabs[i].key) <= |s.tabs|
    {
      DecimalRoundTrip(i + 1);
    }
    assert MaxKeyNumber(s.tabs) <= |s.tabs| by { MaxKeyNumberBound(s.tabs, |s.tabs|); }
  }

  lemma {:induction false} MaxKeyNumberBound(tabs: seq<Tab>, bound: nat)
    requires forall i :: 0 <= i < |tabs| ==> KeyNumber(tabs[i].key) <= bound
    ensures MaxKeyNumber(tabs) <= bound
    decreases |tabs|
  {
    if |tabs| > 0 {
      MaxKeyNumberBound(tabs[1..], bound);
    }
  }

  // ---------------------------------------------------------------------
  // handleRemoveTab
  // ---------------------------------------------------------------------

  /** The index of the last tab carrying `key`, which the `forEach` ends on. */
  function LastIndexOf(tabs: seq<Tab>, key: JsString): (r: Option<nat>)
    ensures r.Some? ==> r.value < |tabs| && tabs[r.value].key == key
    ensures r.Some? ==> forall j :: r.value < j < |tabs| ==> tabs[j].key != key
    ensures r.None? <==> !HasKey(tabs, key)
  {
    if |tabs| == 0 then None
    else if tabs[|tabs| - 1].key == key then Some(|tabs| - 1)
    else
      var r := LastIndexOf(tabs[..|tabs| - 1], key);
      assert forall j :: 0 <= j < |tabs| - 1 ==> tabs[..|tabs| - 1][j] == tabs[j];
      r
  }

  /** The tabs whose key differs from `key`, in their original order. */
  function WithoutKey(tabs: seq<Tab>, key: JsString): (r: seq<Tab>)
    ensures |r| <= |tabs|
    ensures forall t :: t in r ==> t in tabs && t.key != key
    ensures !HasKey(tabs, key) ==> r == tabs
  {
    if |tabs| == 0 then []
    else if tabs[0].key == key then WithoutKey(tabs[1..], key)
    else
      var rest := WithoutKey(tabs[1..], key);
      assert !HasKey(tabs, key) ==> !HasKey(tabs[1..], key) by {
        if !HasKey(tabs, key) {
          forall j | 0 <= j < |tabs| - 1 ensures tabs[1..][j].key != key {
            assert tabs[1..][j] == tabs[j + 1];
          }
        }
      }
      assert !HasKey(tabs, key) ==> [tabs[0]] + tabs[1..] == tabs;
      [tabs[0]] + rest
  }

  /** The filter keeps a single tab exactly when its key differs. */
  lemma WithoutKeyOne(t: Tab, key: JsString)
    ensures WithoutKey([t], key) == if t.key == key then [] else [t]
  {
    assert [t][1..] == [];
  }

  /** The filter works tab by tab: filtering two lists joined is joining the filtered lists. */
  lemma {:induction false} WithoutKeyAppend(a: seq<Tab>, b: seq<Tab>, key: JsString)
    ensures WithoutKey(a + b, key) == WithoutKey(a, key) + WithoutKey(b, key)
    decreases |a|
  {
    if |a| == 0 {
      assert a + b == b;
    } else {
      assert (a + b)[0] == a[0];
      assert (a + b)[1..] == a[1..] + b;
      WithoutKeyAppend(a[1..], b, key);
    }
  }

  /** With distinct keys the filter takes out exactly the one tab at `i`. */
  lemma WithoutUniqueKey(tabs: seq<Tab>, i: nat)
    requires DistinctKeys(tabs) && i < |tabs|
    ensures WithoutKey(tabs, tabs[i].key) == tabs[..i] + tabs[i + 1..]
  {
    KeyOnlyAt(tabs, i);
    WithoutMiddle(tabs[..i], tabs[i], tabs[i + 1..], tabs[i].key);
    SplitAround(tabs, i);
  }

  lemma SplitAround(tabs: seq<Tab>, i: nat)
    requires i < |tabs|
    ensures tabs == tabs[..i] + ([tabs[i]] + tabs[i + 1..])
  {
  }

  /** With distinct keys, no tab before or after position `i` carries its key. */
  lemma KeyOnlyAt(tabs: seq<Tab>, i: nat)
    requires DistinctKeys(tabs) && i < |tabs|
    ensures !HasKey(tabs[..i], tabs[i].key) && !HasKey(tabs[i + 1..], tabs[i].key)
  {
    var key := tabs[i].key;
    var before, after := tabs[..i], tabs[i + 1..];
    forall j | 0 <= j < |before| ensures before[j].key != key {
      assert before[j] == tabs[j];
    }
    forall j | 0 <= j < |after| ensures after[j].key != key {
      assert after[j] == tabs[i + 1 + j];
    }
  }

  /** Between two stretches without the key, the filter drops exactly the one tab that has it. */
  lemma WithoutMiddle(before: seq<Tab>, t: Tab, after: seq<Tab>, key: JsString)
    requires !HasKey(before, key) && !HasKey(after, key) && t.key == key
    ensures WithoutKey(before + ([t] + after), key) == before + after
  {
    WithoutKeyAppend(before, [t] + after, key);
    WithoutKeyAppend([t], after, key);
    WithoutKeyOne(t, key);
    assert [] + after == after;
  }

  /**
   * `handleRemoveTab(targetKey)`. The tabs carrying the key are filtered
   * out. When the removed key was active and tabs remain, the new active
   * key is taken at index `lastIndex = i - 1` of the filtered list (`i` the
   * last position of the target), or index 0 when `lastIndex` is negative or
   * unset. `None` is the TypeError thrown when `newTabs[lastIndex]` is
   * undefined; the handler then stops before any state is set.
   */
  function RemoveTab(s: Store, target: JsString): (r: Option<Store>)
    ensures r.Some? ==>
      && r.value.tabs == WithoutKey(s.tabs, target)
      && r.value.editingKey == s.editingKey
      && r.value.confirmVisible == s.confirmVisible
    ensures r.Some? && (s.activeKey != target || |WithoutKey(s.tabs, target)| == 0) ==>
      r.value.activeKey == s.activeKey
    ensures r.Some? && s.activeKey == target && |r.value.tabs| > 0 ==>
      HasKey(r.value.tabs, r.value.activeKey)
    ensures r.None? ==> s.activeKey == target && HasKey(s.tabs, target)
  {
    var remaining := WithoutKey(s.tabs, target);
    if |remaining| > 0 && s.activeKey == target then
      match LastIndexOf(s.tabs, target)
      case Some(i) =>
        if i >= 1 then
          if i - 1 < |remaining| then Some(s.(tabs := remaining, activeKey := remaining[i - 1].key))
          else None
        else Some(s.(tabs := remaining, activeKey := remaining[0].key))
      case None => Some(s.(tabs := remaining, activeKey := remaining[0].key))
    else Some(s.(tabs := remaining))
  }

  /**
   * With distinct keys, removing the tab at `i` never throws. It takes out
   * exactly that tab; if it was active and others remain, the tab before it
   * becomes active (the new first tab when it was first); otherwise the
   * active key is kept, even when the list is now empty.
   */
  lemma RemovePresentTab(s: Store, i: nat)
    requires DistinctKeys(s.tabs) && i < |s.tabs|
    ensures RemoveTab(s, s.tabs[i].key).Some?
    ensures RemoveTab(s, s.tabs[i].key).value.tabs == s.tabs[..i] + s.tabs[i + 1..]
    ensures RemoveTab(s, s.tabs[i].key).value.activeKey ==
      if s.activeKey != s.tabs[i].key || |s.tabs| == 1 then s.activeKey
      else if i > 0 then s.tabs[i - 1].key
      else s.tabs[1].key
  {
    var target := s.tabs[i].key;
    assert LastIndexOf(s.tabs, target) == Some(i) by {
      var r := LastIndexOf(s.tabs, target);
      assert r.Some?;
      assert r.value == i;
    }
    WithoutUniqueKey(s.tabs, i);
    var remaining := s.tabs[..i] + s.tabs[i + 1..];
    assert |remaining| == |s.tabs| - 1;
    if i >= 1 {
      assert remaining[i - 1] == s.tabs[i - 1];
    } else if |s.tabs| > 1 {
      assert remaining[0] == s.tabs[1];
    }
  }

  /**
   * Removing a key no tab carries leaves the list as it is; if that key was
   * the active one, the first tab becomes active.
   */
  lemma RemoveAbsentTab(s: Store, target: JsString)
    requires !HasKey(s.tabs, target)
    ensures RemoveTab(s, target) == Some(s.(activeKey :=
      if s.activeKey == target && |s.tabs| > 0 then s.tabs[0].key else s.activeKey))
  {
  }

  /**
   * The tab context menu's "Close Tab" calls the removal without the
   * last-tab guard: closing the only tab leaves no tabs, and the active key
   * still names the tab that was closed.
   */
  lemma CloseOnlyTabDirectly(s: Store)
    requires |s.tabs| == 1
    ensures RemoveTab(s, s.tabs[0].key) == Some(s.(tabs := []))
  {
    RemovePresentTab(s, 0);
  }

  // ---------------------------------------------------------------------
  // handleTabTitleChange
  // ---------------------------------------------------------------------

  /**
   * `handleTabTitleChange(targetKey, newTitle)`: the matching tab takes the
   * new title, or "Tab <key>" when the new title is the empty string; a
   * title of blanks is kept as typed. Title editing ends.
   */
  function TabTitleChange(s: Store, target: JsString, newTitle: JsString): (r: Store)
    ensures |r.tabs| == |s.tabs|
    ensures forall i :: 0 <= i < |s.tabs| ==>
      r.tabs[i] == s.tabs[i].(title := r.tabs[i].title)
    ensures forall i :: 0 <= i < |s.tabs| && s.tabs[i].key != target ==> r.tabs[i] == s.tabs[i]
    ensures forall i :: 0 <= i < |s.tabs| && s.tabs[i].key == target ==>
      && |r.tabs[i].title| > 0
      && (|newTitle| > 0 ==> r.tabs[i].title == newTitle)
      && (|newTitle| == 0 ==> r.tabs[i].title == TabPrefix() + target)
    ensures r.activeKey == s.activeKey && r.confirmVisible == s.confirmVisible
    ensures r.editingKey == None
  {
    var title := if |newTitle| > 0 then newTitle else TabPrefix() + target;
    var tabs := seq(|s.tabs|, i requires 0 <= i < |s.tabs| =>
      if s.tabs[i].key == target then s.tabs[i].(title := title) else s.tabs[i]);
    s.(tabs := tabs, editingKey := None)
  }

  /** Renaming to the same title twice is the same as renaming once. */
  lemma TabTitleChangeIdempotent(s: Store, target: JsString, newTitle: JsString)
    ensures TabTitleChange(TabTitleChange(s, target, newTitle), target, newTitle)
         == TabTitleChange(s, target, newTitle)
  {
    var once := TabTitleChange(s, target, newTitle);
    var twice := TabTitleChange(once, target, newTitle);
    assert twice.tabs == once.tabs;
  }

  // ---------------------------------------------------------------------
  // handleTabsEdit, handleConfirmRemoveLastTab, handleCancelRemoveLastTab
  // ---------------------------------------------------------------------

  /**
   * `handleTabsEdit(targetKey, action)`: "add" adds a tab as `handleAddTab`
   * does; "remove" removes the target only while more than one tab is open,
   * and otherwise just asks for confirmation.
   */
  function TabsEdit(s: Store, edit: TabEdit): (r: Option<Store>)
    ensures edit.RemoveAction? && |s.tabs| <= 1 ==>
      r == Some(s.(confirmVisible := true))
    ensures edit.RemoveAction? && |s.tabs| > 1 ==> r == RemoveTab(s, edit.target)
    ensures edit.AddAction? ==> r == Some(AddTab(s))
  {
    match edit
    case AddAction => Some(AddTab(s))
    case RemoveAction(target) => RemoveGuarded(s, target)
  }

  /** The last-tab guard of the "remove" action. */
  function RemoveGuarded(s: Store, target: JsString): Option<Store> {
    if |s.tabs| > 1 then RemoveTab(s, target) else Some(s.(confirmVisible := true))
  }

  /** The tab-bar actions with the corrected add; removal is unchanged. */
  function TabsEditFresh(s: Store, edit: TabEdit): (r: Option<Store>)
    ensures edit.RemoveAction? ==> r == TabsEdit(s, edit)
    ensures edit.AddAction? ==> r == Some(AddTabFresh(s))
  {
    match edit
    case AddAction => Some(AddTabFresh(s))
    case RemoveAction(target) => RemoveGuarded(s, target)
  }

  /** Confirming the removal of the last tab empties the list and resets the active key to "1". */
  function ConfirmRemoveLastTab(s: Store): (r: Store)
    ensures r.tabs == [] && r.activeKey == FirstKey() && !r.confirmVisible
    ensures r.editingKey == s.editingKey
  {
    s.(tabs := [], activeKey := FirstKey(), confirmVisible := false)
  }

  /** Cancelling only closes the confirmation dialog. */
  function CancelRemoveLastTab(s: Store): (r: Store)
    ensures r == s.(confirmVisible := false)
  {
    s.(confirmVisible := false)
  }

  /**
   * The last-tab guard: closing the only tab leaves the list alone and asks
   * for confirmation; cancelling restores the state as it was before the
   * request, confirming leaves no tabs.
   */
  lemma LastTabGuard(s: Store, target: JsString)
    requires |s.tabs| <= 1 && !s.confirmVisible
    ensures TabsEdit(s, RemoveAction(target)).Some?
    ensures var asked := TabsEdit(s, RemoveAction(target)).value;
      && asked.tabs == s.tabs && asked.confirmVisible
      && CancelRemoveLastTab(asked) == s
      && ConfirmRemoveLastTab(asked).tabs == []
  {
  }

  /**
   * With the corrected add, every tab-bar action keeps the keys distinct,
   * and with distinct keys no action throws.
   */
  lemma TabsEditFreshKeepsKeysDistinct(s: Store, edit: TabEdit)
    requires DistinctKeys(s.tabs)
    ensures TabsEditFresh(s, edit).Some?
    ensures DistinctKeys(TabsEditFresh(s, edit).value.tabs)
  {
    match edit
    case AddAction =>
    case RemoveAction(target) =>
      if |s.tabs| > 1 {
        match LastIndexOf(s.tabs, target)
        case None =>
          RemoveAbsentTab(s, target);
        case Some(i) =>
          RemovePresentTab(s, i);
          DistinctKeysWithout(s.tabs, i);
      }
  }

  /** Taking one tab out keeps the remaining keys distinct. */
  lemma DistinctKeysWithout(tabs: seq<Tab>, i: nat)
    requires DistinctKeys(tabs) && i < |tabs|
    ensures DistinctKeys(tabs[..i] + tabs[i + 1..])
  {
    var rest := tabs[..i] + tabs[i + 1..];
    forall a, b | 0 <= a < b < |rest| ensures rest[a].key != rest[b].key {
      var a' := if a < i then a else a + 1;
      var b' := if b < i then b else b + 1;
      assert rest[a] == tabs[a'] && rest[b] == tabs[b'];
    }
  }

  /** Content updates and renames never touch the keys. */
  lemma EditsKeepKeysDistinct(s: Store, key: JsString, text: JsString)
    requires DistinctKeys(s.tabs)
    ensures DistinctKeys(UpdateTabContent(s.tabs, key, text))
    ensures DistinctKeys(TabTitleChange(s, key, text).tabs)
    ensures DistinctKeys(ConfirmRemoveLastTab(s).tabs)
  {
  }

  // ---------------------------------------------------------------------
  // The key collision of handleAddTab as written
  // ---------------------------------------------------------------------

  function KeyedTab(n: nat): Tab { NewTab(DecimalString(n)) }

  /**
   * Three tabs "1", "2", "3" with "3" active. Closing "1" and then adding a
   * tab with the add as written gives two tabs keyed "3"; closing "3" then
   * filters out both and leaves one tab, while `lastIndex` is 1, so
   * `newTabs[lastIndex]` is undefined and the handler throws. The corrected add picks key "4" instead.
   */
  lemma AddTabCollision()
    ensures var s0 := Store([KeyedTab(1), KeyedTab(2), KeyedTab(3)], DecimalString(3), None, false);
      && RemoveTab(s0, DecimalString(1)).Some?
      && var s1 := RemoveTab(s0, DecimalString(1)).value;
      && s1.tabs == [KeyedTab(2), KeyedTab(3)]
      && AddTab(s1).tabs == [KeyedTab(2), KeyedTab(3), KeyedTab(3)]
      && !DistinctKeys(AddTab(s1).tabs)
      && TabsEdit(s1, AddAction) == Some(AddTab(s1))
      && RemoveTab(AddTab(s1), DecimalString(3)).None?
      && AddTabFresh(s1).activeKey == DecimalString(4)
  {
    var s0 := Store([KeyedTab(1), KeyedTab(2), KeyedTab(3)], DecimalString(3), None, false);
    SmallNumerals();
    var k1 := DecimalString(1);
    assert WithoutKey([KeyedTab(3)], k1) == [KeyedTab(3)];
    assert WithoutKey([KeyedTab(2), KeyedTab(3)], k1) == [KeyedTab(2), KeyedTab(3)];
    assert WithoutKey(s0.tabs, k1) == [KeyedTab(2), KeyedTab(3)];
    AddAfterGap(RemoveTab(s0, k1).value);
  }

  /** After the gap: the next add repeats key "3", and only the corrected add avoids it. */
  lemma AddAfterGap(s1: Store)
    requires s1.tabs == [KeyedTab(2), KeyedTab(3)]
    ensures AddTab(s1).tabs == [KeyedTab(2), KeyedTab(3), KeyedTab(3)]
    ensures !DistinctKeys(AddTab(s1).tabs)
    ensures RemoveTab(AddTab(s1), DecimalString(3)).None?
    ensures AddTabFresh(s1).activeKey == DecimalString(4)
  {
    SmallNumerals();
    var k3 := DecimalString(3);
    var s2 := AddTab(s1);
    assert s2.tabs == [KeyedTab(2), KeyedTab(3), KeyedTab(3)];
    assert s2.tabs[1].key == s2.tabs[2].key;
    assert s2.activeKey == k3;
    assert WithoutKey([KeyedTab(3)], k3) == [];
    assert WithoutKey([KeyedTab(3), KeyedTab(3)], k3) == [];
    assert WithoutKey(s2.tabs, k3) == [KeyedTab(2)];
    assert LastIndexOf(s2.tabs, k3) == Some(2);
    DecimalRoundTrip(2);
    DecimalRoundTrip(3);
    assert MaxKeyNumber(s1.tabs) == 3;
  }

  lemma SmallNumerals()
    ensures DecimalString(1) == [0x31] && DecimalString(2) == [0x32]
    ensures DecimalString(3) == [0x33] && DecimalString(4) == [0x34]
  {
  }
}
