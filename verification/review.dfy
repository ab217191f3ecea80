/**
 * The AI-score round trip of `checkAIScore`: the loading flag per file
 * name, the score map, the review panel (a list of entries keyed by name)
 * and the score copied onto a tab. The network call itself is not modelled:
 * its parsed result arrives as an input, `None` when the request failed.
 */
module Review {
  import opened Wrappers
  import opened JsText
  import TabStore

  datatype Entry = Entry(name: JsString, content: JsString, score: int)

  datatype Scoring = Scoring(
    store: TabStore.Store,
    aiScores: map<JsString, int>,
    panel: seq<Entry>,
    panelVisible: bool,
    loading: map<JsString, bool>)

  predicate UniqueNames(panel: seq<Entry>) {
    forall i, j :: 0 <= i < j < |panel| ==> panel[i].name != panel[j].name
  }

  /** The position of the first entry with that name, as `findIndex` returns it. */
  function FindIndex(panel: seq<Entry>, name: JsString): (r: Option<nat>)
    ensures r.Some? ==> r.value < |panel| && panel[r.value].name == name
    ensures r.Some? ==> forall j :: 0 <= j < r.value ==> panel[j].name != name
    ensures r.None? ==> forall j :: 0 <= j < |panel| ==> panel[j].name != name
  {
    if |panel| == 0 then None
    else if panel[0].name == name then Some(0)
    else match FindIndex(panel[1..], name)
      case None => None
      case Some(i) => Some(i + 1)
  }

  /** The entry a name looks up to. */
  function Lookup(panel: seq<Entry>, name: JsString): Option<Entry> {
    match FindIndex(panel, name)
    case None => None
    case Some(i) => Some(panel[i])
  }

  /**
   * The panel update: an entry with the same name is replaced in place,
   * otherwise the new entry goes at the end.
   */
  function Upsert(panel: seq<Entry>, e: Entry): (r: seq<Entry>)
    ensures FindIndex(panel, e.name).Some? ==>
      && |r| == |panel|
      && r[FindIndex(panel, e.name).value] == e
      && forall j :: 0 <= j < |panel| && j != FindIndex(panel, e.name).value ==> r[j] == panel[j]
    ensures FindIndex(panel, e.name).None? ==> r == panel + [e]
  {
    match FindIndex(panel, e.name)
    case Some(i) => panel[i := e]
    case None => panel + [e]
  }

  /** After the update the name looks up to the new entry. */
  lemma UpsertFindsNew(panel: seq<Entry>, e: Entry)
    ensures Lookup(Upsert(panel, e), e.name) == Some(e)
  {
    var r := Upsert(panel, e);
    match FindIndex(panel, e.name) {
      case Some(i) => FindIndexAgrees(panel, r, e.name, i);
      case None => FindIndexAgrees(panel, r, e.name, |panel|);
    }
  }

  /** Every other name looks up to what it did before: the panel behaves as a map. */
  lemma UpsertKeepsOthers(panel: seq<Entry>, e: Entry, other: JsString)
    requires other != e.name
    ensures Lookup(Upsert(panel, e), other) == Lookup(panel, other)
  {
    var r := Upsert(panel, e);
    match FindIndex(panel, other) {
      case None => NoneIfAbsent(r, other);
      case Some(k) => FindIndexAgrees(panel, r, other, k);
    }
  }

  lemma NoneIfAbsent(panel: seq<Entry>, name: JsString)
    requires forall j :: 0 <= j < |panel| ==> panel[j].name != name
    ensures FindIndex(panel, name) == None
  {
  }

  /** `k` is the first position carrying `name` in `b` if the prefix up to `k` carries the same names. */
  lemma FindIndexAgrees(a: seq<Entry>, b: seq<Entry>, name: JsString, k: nat)
    requires k < |b| && b[k].name == name
    requires k <= |a| && forall j :: 0 <= j < k ==> a[j].name == b[j].name && a[j].name != name
    ensures FindIndex(b, name) == Some(k)
  {
  }

  /** Names that were unique stay unique. */
  lemma UpsertKeepsNamesUnique(panel: seq<Entry>, e: Entry)
    requires UniqueNames(panel)
    ensures UniqueNames(Upsert(panel, e))
  {
    var r := Upsert(panel, e);
    match FindIndex(panel, e.name)
    case Some(i) =>
      forall a, b | 0 <= a < b < |r| ensures r[a].name != r[b].name {
        assert r[a].name == panel[a].name && r[b].name == panel[b].name;
      }
    case None =>
  }

  /** Before the request: the file is marked as loading. */
  function StartScoring(w: Scoring, fileName: JsString): (r: Scoring)
    ensures r == w.(loading := w.loading[fileName := true])
  {
    w.(loading := w.loading[fileName := true])
  }

  /**
   * A request that fails between `StartScoring` and `FinishScoring` leaves
   * everything as it was, with the file marked as not loading.
   */
  lemma FailedRequestChangesNothing(w: Scoring, key: JsString, fileName: JsString, content: JsString)
    ensures FinishScoring(StartScoring(w, fileName), key, fileName, content, None)
         == w.(loading := w.loading[fileName := false])
  {
  }

  /** The score copied onto every tab with the given key. */
  function SetScore(tabs: seq<TabStore.Tab>, key: JsString, score: int): (r: seq<TabStore.Tab>)
    ensures |r| == |tabs|
    ensures forall i :: 0 <= i < |tabs| && tabs[i].key == key ==> r[i] == tabs[i].(aiPercentage := score)
    ensures forall i :: 0 <= i < |tabs| && tabs[i].key != key ==> r[i] == tabs[i]
  {
    seq(|tabs|, i requires 0 <= i < |tabs| =>
      if tabs[i].key == key then tabs[i].(aiPercentage := score) else tabs[i])
  }

  /**
   * The end of `checkAIScore(content, fileName)`. On failure only the
   * loading flag is cleared. On success the score is recorded under the file
   * name, the panel entry for that name is inserted or replaced, the score
   * (not clamped) goes onto the tab whose key is the `activeKey` captured when
   * the request was made, whatever the file name, and the panel is shown.
   */
  function FinishScoring(w: Scoring, capturedActiveKey: JsString, fileName: JsString,
                         content: JsString, response: Option<int>): (r: Scoring)
    ensures r.loading == w.loading[fileName := false]
    ensures response.None? ==> r == w.(loading := r.loading)
    ensures response.Some? ==>
      && r.aiScores == w.aiScores[fileName := response.value]
      && r.panel == Upsert(w.panel, Entry(fileName, content, response.value))
      && Lookup(r.panel, fileName) == Some(Entry(fileName, content, response.value))
      && (forall n :: n != fileName ==> Lookup(r.panel, n) == Lookup(w.panel, n))
      && |r.store.tabs| == |w.store.tabs|
      && (forall i :: 0 <= i < |w.store.tabs| ==>
            r.store.tabs[i].aiPercentage ==
              if w.store.tabs[i].key == capturedActiveKey then response.value else w.store.tabs[i].aiPercentage)
      && (forall i :: 0 <= i < |w.store.tabs| ==>
            r.store.tabs[i] == w.store.tabs[i].(aiPercentage := r.store.tabs[i].aiPercentage))
      && r.store == w.store.(tabs := r.store.tabs)
      && r.panelVisible
  {
    match response
    case None => w.(loading := w.loading[fileName := false])
    case Some(score) =>
      var e := Entry(fileName, content, score);
      forall n | n != fileName ensures Lookup(Upsert(w.panel, e), n) == Lookup(w.panel, n) {
        UpsertKeepsOthers(w.panel, e, n);
      }
      UpsertFindsNew(w.panel, e);
      Scoring(
        w.store.(tabs := SetScore(w.store.tabs, capturedActiveKey, score)),
        w.aiScores[fileName := score],
        Upsert(w.panel, e),
        true,
        w.loading[fileName := false])
  }

  /** A later response for the same file name overwrites the earlier one. */
  lemma LastResponseWins(w: Scoring, key: JsString, fileName: JsString,
                         c1: JsString, s1: int, c2: JsString, s2: int)
    ensures var r := FinishScoring(FinishScoring(w, key, fileName, c1, Some(s1)), key, fileName, c2, Some(s2));
      && r.aiScores[fileName] == s2
      && Lookup(r.panel, fileName) == Some(Entry(fileName, c2, s2))
      && |r.panel| == |FinishScoring(w, key, fileName, c1, Some(s1)).panel|
  {
    var w1 := FinishScoring(w, key, fileName, c1, Some(s1));
    assert FindIndex(w1.panel, fileName).Some? by {
      assert Lookup(w1.panel, fileName).Some?;
    }
  }
}
