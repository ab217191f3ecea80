/**
 * The "Request Anti Detect" transform: one left-to-right pass over the
 * code units of the editor text, where each unit is followed by one
 * invisible mark when its random draw falls below 0.1. `Math.random` is an
 * explicit stream of draws, consumed in the order the handler calls it: one
 * draw per unit, and one more to pick the mark after a hit.
 */
module Obfuscation {
  import opened Wrappers
  import opened JsText
  import TabStore

  /** A unit receives a mark when its draw is below this. */
  const InjectionThreshold: real := 0.1

  /** A non-empty set of marks to draw from, indexed like a JavaScript string. */
  type Alphabet = a: JsString | |a| > 0 witness [0x200B]

  /**
   * Zero-width space, zero-width non-joiner, zero-width joiner, word joiner,
   * function application, invisible times, invisible separator, invisible plus.
   */
  const StandardMarks: Alphabet := [0x200B, 0x200C, 0x200D, 0x2060, 0x2061, 0x2062, 0x2063, 0x2064]

  /** Standard marks, or the AuraCrypt string constant taken as opaque code units. */
  datatype Mode = Standard | AuraCrypt(units: Alphabet)

  function MarksOf(mode: Mode): Alphabet {
    match mode
    case Standard => StandardMarks
    case AuraCrypt(units) => units
  }

  /** Every draw is what `Math.random` returns: a number in [0, 1). */
  predicate ValidDraws(draws: seq<real>) {
    forall i :: 0 <= i < |draws| ==> 0.0 <= draws[i] < 1.0
  }

  /** The index into the alphabet a draw picks: the draw scaled by the length, rounded down. */
  function PickIndex(r: real, n: nat): (k: nat)
    requires 0.0 <= r < 1.0 && n > 0
    ensures k < n
  {
    var m := n as real;
    ScaledBelow(r, m);
    (r * m).Floor
  }

  /** A draw below 1 scales a positive length to something below it. */
  lemma ScaledBelow(r: real, m: real)
    requires 0.0 <= r < 1.0 && m > 0.0
    ensures r * m < m
  {
    var d := 1.0 - r;
    assert d * m > 0.0;
    assert m - r * m == d * m;
  }

  /** The mark placed after one unit, if any. */
  type Decision = Option<CodeUnit>

  function MarkUnits(d: Decision): JsString {
    match d
    case None => []
    case Some(u) => [u]
  }

  /** The number of marks decided on. */
  function Hits(marks: seq<Decision>): (n: nat)
    ensures n <= |marks|
  {
    if |marks| == 0 then 0
    else Hits(marks[..|marks| - 1]) + |MarkUnits(marks[|marks| - 1])|
  }

  /**
   * Where unit `i` stands once the units before it have been handled: both
   * the index of its draw in the stream and its index in the output, since
   * every earlier unit took one draw and one output place, and every earlier
   * mark one more of each.
   */
  function Offset(marks: seq<Decision>, i: nat): nat
    requires i <= |marks|
  {
    i + Hits(marks[..i])
  }

  lemma {:induction false} HitsCons(d: Decision, rest: seq<Decision>)
    ensures Hits([d] + rest) == |MarkUnits(d)| + Hits(rest)
    decreases |rest|
  {
    if |rest| > 0 {
      var all := [d] + rest;
      assert all[..|all| - 1] == [d] + rest[..|rest| - 1];
      HitsCons(d, rest[..|rest| - 1]);
    }
  }

  lemma OffsetCons(d: Decision, rest: seq<Decision>, i: nat)
    requires i < |rest|
    ensures Offset([d] + rest, i + 1) == 1 + |MarkUnits(d)| + Offset(rest, i)
  {
    assert ([d] + rest)[..i + 1] == [d] + rest[..i];
    HitsCons(d, rest[..i]);
  }

  /**
   * How unit `i` reads the stream: it reads the draw at its offset; it gets
   * a mark exactly when that draw is below the threshold, and the mark is
   * the alphabet entry the next draw picks.
   */
  predicate ExplainedAt(marks: seq<Decision>, alphabet: Alphabet, draws: seq<real>, i: nat)
    requires ValidDraws(draws) && i < |marks|
  {
    && Offset(marks, i) + 1 < |draws|
    && (marks[i].Some? <==> draws[Offset(marks, i)] < InjectionThreshold)
    && (marks[i].Some? ==> marks[i].value == alphabet[PickIndex(draws[Offset(marks, i) + 1], |alphabet|)])
  }

  predicate DrawsExplain(marks: seq<Decision>, alphabet: Alphabet, draws: seq<real>)
    requires ValidDraws(draws)
  {
    forall i: nat :: i < |marks| ==> ExplainedAt(marks, alphabet, draws, i)
  }

  /** The decision for the first unit, and how many draws it used. */
  function FirstDecision(alphabet: Alphabet, draws: seq<real>): (r: (Decision, nat))
    requires ValidDraws(draws) && |draws| >= 2
    ensures r.1 == 1 + |MarkUnits(r.0)|
    ensures r.0.Some? <==> draws[0] < InjectionThreshold
    ensures r.0.Some? ==> r.0.value == alphabet[PickIndex(draws[1], |alphabet|)]
  {
    if draws[0] < InjectionThreshold then (Some(alphabet[PickIndex(draws[1], |alphabet|)]), 2)
    else (None, 1)
  }

  /** A later unit reads the stream the way it did before the first unit's draws were put in front. */
  lemma ExplainedAtCons(d: Decision, rest: seq<Decision>, alphabet: Alphabet, draws: seq<real>, used: nat, i: nat)
    requires ValidDraws(draws) && used == 1 + |MarkUnits(d)| && used <= |draws|
    requires i < |rest| && ExplainedAt(rest, alphabet, draws[used..], i)
    ensures ExplainedAt([d] + rest, alphabet, draws, i + 1)
  {
    OffsetCons(d, rest, i);
    var o := Offset(rest, i);
    assert ([d] + rest)[i + 1] == rest[i];
    assert draws[used..][o] == draws[used + o] && draws[used..][o + 1] == draws[used + o + 1];
  }

  lemma DrawsExplainCons(rest: seq<Decision>, alphabet: Alphabet, draws: seq<real>)
    requires ValidDraws(draws) && |draws| >= 2
    requires DrawsExplain(rest, alphabet, draws[FirstDecision(alphabet, draws).1..])
    ensures DrawsExplain([FirstDecision(alphabet, draws).0] + rest, alphabet, draws)
  {
    var (d, used) := FirstDecision(alphabet, draws);
    var marks := [d] + rest;
    forall i: nat | i < |marks| ensures ExplainedAt(marks, alphabet, draws, i) {
      if i == 0 {
        assert marks[..0] == [];
      } else {
        ExplainedAtCons(d, rest, alphabet, draws, used, i - 1);
      }
    }
  }

  /**
   * The random part of the pass: what each unit gets, one decision per
   * unit. There are enough draws when there are two per unit.
   */
  function Decide(text: JsString, alphabet: Alphabet, draws: seq<real>): (marks: seq<Decision>)
    requires ValidDraws(draws) && |draws| >= 2 * |text|
    ensures |marks| == |text|
    decreases |text|
  {
    if |text| == 0 then []
    else
      var (d, used) := FirstDecision(alphabet, draws);
      [d] + Decide(text[1..], alphabet, draws[used..])
  }

  /**
   * Every decision is explained by the stream: unit `i` gets a mark exactly
   * when the draw at its offset is below 0.1, and then the mark the next
   * draw picks from the alphabet.
   */
  lemma {:induction false} DecideExplained(text: JsString, alphabet: Alphabet, draws: seq<real>)
    requires ValidDraws(draws) && |draws| >= 2 * |text|
    ensures DrawsExplain(Decide(text, alphabet, draws), alphabet, draws)
    decreases |text|
  {
    if |text| > 0 {
      var (d, used) := FirstDecision(alphabet, draws);
      DecideExplained(text[1..], alphabet, draws[used..]);
      DrawsExplainCons(Decide(text[1..], alphabet, draws[used..]), alphabet, draws);
    }
  }

  /**
   * Unit `i` of the text sits at its offset in `out`, and its mark, if it
   * has one, right after it.
   */
  predicate PlacedAt(out: JsString, text: JsString, marks: seq<Decision>, i: nat)
    requires |marks| == |text| && i < |text|
  {
    && Offset(marks, i) < |out| && out[Offset(marks, i)] == text[i]
    && (marks[i].Some? ==> Offset(marks, i) + 1 < |out| && out[Offset(marks, i) + 1] == marks[i].value)
  }

  predicate Placed(out: JsString, text: JsString, marks: seq<Decision>)
    requires |marks| == |text|
  {
    forall i: nat :: i < |text| ==> PlacedAt(out, text, marks, i)
  }

  lemma PlacedAtCons(text: JsString, marks: seq<Decision>, rest: JsString, i: nat)
    requires |marks| == |text| > 0 && i < |text| - 1
    requires PlacedAt(rest, text[1..], marks[1..], i)
    ensures PlacedAt([text[0]] + MarkUnits(marks[0]) + rest, text, marks, i + 1)
  {
    var head := [text[0]] + MarkUnits(marks[0]);
    var out := head + rest;
    assert marks == [marks[0]] + marks[1..];
    OffsetCons(marks[0], marks[1..], i);
    assert marks[i + 1] == marks[1..][i] && text[i + 1] == text[1..][i];
    var o := Offset(marks[1..], i);
    assert out[|head| + o] == rest[o];
    if marks[i + 1].Some? {
      assert out[|head| + o + 1] == rest[o + 1];
    }
  }

  lemma PlacedCons(text: JsString, marks: seq<Decision>, rest: JsString)
    requires |marks| == |text| > 0
    requires Placed(rest, text[1..], marks[1..])
    ensures Placed([text[0]] + MarkUnits(marks[0]) + rest, text, marks)
  {
    var out := [text[0]] + MarkUnits(marks[0]) + rest;
    forall i: nat | i < |text| ensures PlacedAt(out, text, marks, i) {
      if i == 0 {
        assert marks[..0] == [];
      } else {
        PlacedAtCons(text, marks, rest, i - 1);
      }
    }
  }

  /** The deterministic part: each unit in order, followed by its mark if it has one. */
  function Weave(text: JsString, marks: seq<Decision>): (out: JsString)
    requires |marks| == |text|
    ensures |out| == |text| + Hits(marks)
    decreases |text|
  {
    if |text| == 0 then []
    else
      HitsCons(marks[0], marks[1..]);
      assert [marks[0]] + marks[1..] == marks;
      [text[0]] + MarkUnits(marks[0]) + Weave(text[1..], marks[1..])
  }

  /**
   * Unit `i` lands at its offset and its mark right after it; with the
   * length, this leaves no room for marks before the first unit or piled up
   * at the end.
   */
  lemma {:induction false} WeavePlaced(text: JsString, marks: seq<Decision>)
    requires |marks| == |text|
    ensures Placed(Weave(text, marks), text, marks)
    decreases |text|
  {
    if |text| > 0 {
      WeavePlaced(text[1..], marks[1..]);
      PlacedCons(text, marks, Weave(text[1..], marks[1..]));
    }
  }

  lemma {:induction false} WeaveAppend(t1: JsString, m1: seq<Decision>, t2: JsString, m2: seq<Decision>)
    requires |m1| == |t1| && |m2| == |t2|
    ensures Weave(t1 + t2, m1 + m2) == Weave(t1, m1) + Weave(t2, m2)
    decreases |t1|
  {
    if |t1| == 0 {
      assert t1 + t2 == t2 && m1 + m2 == m2;
    } else {
      assert (t1 + t2)[1..] == t1[1..] + t2;
      assert (m1 + m2)[1..] == m1[1..] + m2;
      WeaveAppend(t1[1..], m1[1..], t2, m2);
    }
  }

  /** Removes every unit of the alphabet. */
  function StripMarks(s: JsString, alphabet: JsString): (r: JsString)
    ensures forall k :: 0 <= k < |r| ==> r[k] !in alphabet
  {
    if |s| == 0 then []
    else (if s[0] in alphabet then [] else [s[0]]) + StripMarks(s[1..], alphabet)
  }

  /**
   * Inverse of the weave: when the text has no units of the alphabet and the
   * marks come from it, stripping the alphabet from the output gives the
   * text back.
   */
  lemma {:induction false} StripWeave(text: JsString, marks: seq<Decision>, alphabet: JsString)
    requires |marks| == |text|
    requires forall k :: 0 <= k < |text| ==> text[k] !in alphabet
    requires forall k :: 0 <= k < |marks| && marks[k].Some? ==> marks[k].value in alphabet
    ensures StripMarks(Weave(text, marks), alphabet) == text
    decreases |text|
  {
    if |text| > 0 {
      var rest := Weave(text[1..], marks[1..]);
      StripWeave(text[1..], marks[1..], alphabet);
      var head := [text[0]] + MarkUnits(marks[0]);
      assert Weave(text, marks) == head + rest;
      StripAppend(head, rest, alphabet);
      StripUnitAndMark(text[0], marks[0], alphabet);
      assert text == [text[0]] + text[1..];
    }
  }

  lemma StripUnitAndMark(u: CodeUnit, d: Decision, alphabet: JsString)
    requires u !in alphabet
    requires d.Some? ==> d.value in alphabet
    ensures StripMarks([u] + MarkUnits(d), alphabet) == [u]
  {
    var head := [u] + MarkUnits(d);
    assert head[1..] == MarkUnits(d);
    assert StripMarks(MarkUnits(d), alphabet) == [] by {
      if d.Some? {
        var m := MarkUnits(d);
        assert m[0] in alphabet && m[1..] == [];
      }
    }
  }

  lemma {:induction false} StripAppend(a: JsString, b: JsString, alphabet: JsString)
    ensures StripMarks(a + b, alphabet) == StripMarks(a, alphabet) + StripMarks(b, alphabet)
    decreases |a|
  {
    if |a| == 0 {
      assert a + b == b;
    } else {
      assert (a + b)[1..] == a[1..] + b;
      StripAppend(a[1..], b, alphabet);
    }
  }

  /** What the handler hands to `setReplacementStats`. */
  datatype ReplacementStats = ReplacementStats(replacedCount: nat, oldLength: nat, newLength: nat)

  datatype Obfuscated = Obfuscated(output: JsString, stats: ReplacementStats)

  /**
   * The whole pass. Each mark is one code unit, so the new length is the old
   * length plus the number of marks, which is at most the old length; the
   * empty text comes back empty with no marks.
   */
  function Obfuscate(text: JsString, mode: Mode, draws: seq<real>): (r: Obfuscated)
    requires ValidDraws(draws) && |draws| >= 2 * |text|
    ensures r.stats.oldLength == |text| && r.stats.newLength == |r.output|
    ensures r.stats.newLength == r.stats.oldLength + r.stats.replacedCount
    ensures r.stats.replacedCount <= r.stats.oldLength
    ensures |text| == 0 ==> r.output == [] && r.stats.replacedCount == 0
  {
    var marks := Decide(text, MarksOf(mode), draws);
    var out := Weave(text, marks);
    Obfuscated(out, ReplacementStats(Hits(marks), |text|, |out|))
  }

  lemma {:induction false} HitsAllSome(marks: seq<Decision>)
    requires forall i :: 0 <= i < |marks| ==> marks[i].Some?
    ensures Hits(marks) == |marks|
    decreases |marks|
  {
    if |marks| > 0 {
      HitsAllSome(marks[..|marks| - 1]);
    }
  }

  lemma {:induction false} HitsAllNone(marks: seq<Decision>)
    requires forall i :: 0 <= i < |marks| ==> marks[i].None?
    ensures Hits(marks) == 0
    decreases |marks|
  {
    if |marks| > 0 {
      HitsAllNone(marks[..|marks| - 1]);
    }
  }

  /** When every draw is below 0.1, every unit gets a mark: the output is twice as long. */
  lemma EveryDrawHits(text: JsString, mode: Mode, draws: seq<real>)
    requires ValidDraws(draws) && |draws| >= 2 * |text|
    requires forall i :: 0 <= i < |draws| ==> draws[i] < InjectionThreshold
    ensures Obfuscate(text, mode, draws).stats.replacedCount == |text|
    ensures |Obfuscate(text, mode, draws).output| == 2 * |text|
  {
    var alphabet := MarksOf(mode);
    var marks := Decide(text, alphabet, draws);
    DecideExplained(text, alphabet, draws);
    forall i | 0 <= i < |marks| ensures marks[i].Some? {
      assert ExplainedAt(marks, alphabet, draws, i);
    }
    HitsAllSome(marks);
  }

  /** When no draw is below 0.1, the text comes back unchanged. */
  lemma NoDrawHits(text: JsString, mode: Mode, draws: seq<real>)
    requires ValidDraws(draws) && |draws| >= 2 * |text|
    requires forall i :: 0 <= i < |draws| ==> draws[i] >= InjectionThreshold
    ensures Obfuscate(text, mode, draws).output == text
    ensures Obfuscate(text, mode, draws).stats.replacedCount == 0
  {
    var alphabet := MarksOf(mode);
    var marks := Decide(text, alphabet, draws);
    DecideExplained(text, alphabet, draws);
    forall i | 0 <= i < |marks| ensures marks[i].None? {
      assert ExplainedAt(marks, alphabet, draws, i);
    }
    HitsAllNone(marks);
    var out := Weave(text, marks);
    WeavePlaced(text, marks);
    forall i | 0 <= i < |text| ensures out[i] == text[i] {
      assert PlacedAt(out, text, marks, i);
      assert Offset(marks, i) == i by { HitsAllNone(marks[..i]); }
    }
  }

  /**
   * Every unit of the output is either a unit of the text, in its original
   * order, or a mark of the mode's alphabet; stripping the alphabet from the
   * output restores a text that has none of its units.
   */
  lemma ObfuscateRestores(text: JsString, mode: Mode, draws: seq<real>)
    requires ValidDraws(draws) && |draws| >= 2 * |text|
    requires forall k :: 0 <= k < |text| ==> text[k] !in MarksOf(mode)
    ensures StripMarks(Obfuscate(text, mode, draws).output, MarksOf(mode)) == text
  {
    var alphabet := MarksOf(mode);
    var marks := Decide(text, alphabet, draws);
    DecideExplained(text, alphabet, draws);
    forall k | 0 <= k < |marks| && marks[k].Some? ensures marks[k].value in alphabet {
      assert ExplainedAt(marks, alphabet, draws, k);
    }
    StripWeave(text, marks, alphabet);
  }

  /**
   * Unit `i` of the text sits at position `o`, its offset, in the output, and
   * `o` is also where its draw is in the stream. When that draw is below 0.1
   * the next output unit is the mark the following draw picks from the
   * mode's alphabet and the next unit of the text comes two places on;
   * otherwise it comes right after. The first unit is at 0 and the last one
   * (with its mark) ends the output, so no mark goes before the text or piles
   * up after it.
   */
  lemma ObfuscateShape(text: JsString, mode: Mode, draws: seq<real>)
    requires ValidDraws(draws) && |draws| >= 2 * |text|
    ensures var marks := Decide(text, MarksOf(mode), draws);
      var out := Obfuscate(text, mode, draws).output;
      && Offset(marks, 0) == 0 && Offset(marks, |text|) == |out|
      && forall i :: 0 <= i < |text| ==> ShapeAt(text, mode, draws, marks, out, i)
  {
    var alphabet := MarksOf(mode);
    var marks := Decide(text, alphabet, draws);
    var out := Obfuscate(text, mode, draws).output;
    DecideExplained(text, alphabet, draws);
    WeavePlaced(text, marks);
    assert marks[..|text|] == marks;
    forall i | 0 <= i < |text| ensures ShapeAt(text, mode, draws, marks, out, i) {
      assert ExplainedAt(marks, alphabet, draws, i) && PlacedAt(out, text, marks, i);
      WeaveSnoc(text, marks, i);
    }
  }

  /** What `ObfuscateShape` says about unit `i`. */
  predicate ShapeAt(text: JsString, mode: Mode, draws: seq<real>, marks: seq<Decision>, out: JsString, i: nat)
    requires ValidDraws(draws) && |marks| == |text| && i < |text|
  {
    var o := Offset(marks, i);
    && o + 1 < |draws| && o < |out| && out[o] == text[i]
    && (draws[o] < InjectionThreshold ==>
          && Offset(marks, i + 1) == o + 2
          && o + 1 < |out| && out[o + 1] == MarksOf(mode)[PickIndex(draws[o + 1], |MarksOf(mode)|)])
    && (draws[o] >= InjectionThreshold ==> Offset(marks, i + 1) == o + 1)
  }

  /**
   * The handler's loop, written the way the source runs it: a cursor into
   * the draw stream, one draw per unit and one more after a hit. It computes
   * exactly the pass above.
   */
  method InjectMarks(text: JsString, mode: Mode, draws: seq<real>) returns (out: JsString, replacedCount: nat)
    requires ValidDraws(draws) && |draws| >= 2 * |text|
    ensures out == Obfuscate(text, mode, draws).output
    ensures replacedCount == Obfuscate(text, mode, draws).stats.replacedCount
    ensures |out| == |text| + replacedCount
  {
    var alphabet := MarksOf(mode);
    ghost var marks := Decide(text, alphabet, draws);
    DecideExplained(text, alphabet, draws);
    out := [];
    replacedCount := 0;
    var next := 0;
    for k := 0 to |text|
      invariant replacedCount == Hits(marks[..k])
      invariant next == Offset(marks, k)
      invariant out == Weave(text[..k], marks[..k])
    {
      LoopStep(text, alphabet, draws, marks, k, out, replacedCount, next);
      if draws[next] < InjectionThreshold {
        var mark := alphabet[PickIndex(draws[next + 1], |alphabet|)];
        out := out + [text[k], mark];
        replacedCount := replacedCount + 1;
        next := next + 2;
      } else {
        out := out + [text[k]];
        next := next + 1;
      }
    }
    assert text[..|text|] == text && marks[..|text|] == marks;
    ObfuscateIsWeave(text, mode, draws);
  }

  lemma ObfuscateIsWeave(text: JsString, mode: Mode, draws: seq<real>)
    requires ValidDraws(draws) && |draws| >= 2 * |text|
    ensures var marks := Decide(text, MarksOf(mode), draws);
      && Obfuscate(text, mode, draws).output == Weave(text, marks)
      && Obfuscate(text, mode, draws).stats.replacedCount == Hits(marks)
  {
  }

  /** One iteration of the loop: what unit `k` adds to the output, the count and the cursor. */
  lemma LoopStep(text: JsString, alphabet: Alphabet, draws: seq<real>, marks: seq<Decision>, k: nat,
                 out: JsString, count: nat, next: nat)
    requires ValidDraws(draws) && |marks| == |text| && DrawsExplain(marks, alphabet, draws) && k < |text|
    requires count == Hits(marks[..k]) && next == Offset(marks, k) && out == Weave(text[..k], marks[..k])
    ensures next + 1 < |draws|
    ensures draws[next] < InjectionThreshold ==>
      && count + 1 == Hits(marks[..k + 1])
      && next + 2 == Offset(marks, k + 1)
      && out + [text[k], alphabet[PickIndex(draws[next + 1], |alphabet|)]] == Weave(text[..k + 1], marks[..k + 1])
    ensures draws[next] >= InjectionThreshold ==>
      && count == Hits(marks[..k + 1])
      && next + 1 == Offset(marks, k + 1)
      && out + [text[k]] == Weave(text[..k + 1], marks[..k + 1])
  {
    assert ExplainedAt(marks, alphabet, draws, k);
    assert next + 1 < |draws| && (marks[k].Some? <==> draws[next] < InjectionThreshold);
    WeaveSnoc(text, marks, k);
    if draws[next] < InjectionThreshold {
      var mark := alphabet[PickIndex(draws[next + 1], |alphabet|)];
      assert marks[k] == Some(mark);
      assert out + [text[k]] + MarkUnits(marks[k]) == out + [text[k], mark];
    } else {
      assert MarkUnits(marks[k]) == [];
      assert out + [text[k]] + MarkUnits(marks[k]) == out + [text[k]];
    }
  }

  /** Handling one more unit extends the output by the unit and its mark. */
  lemma WeaveSnoc(text: JsString, marks: seq<Decision>, k: nat)
    requires |marks| == |text| && k < |text|
    ensures Weave(text[..k + 1], marks[..k + 1]) == Weave(text[..k], marks[..k]) + [text[k]] + MarkUnits(marks[k])
    ensures Hits(marks[..k + 1]) == Hits(marks[..k]) + |MarkUnits(marks[k])|
  {
    assert marks[..k + 1][..k] == marks[..k];
    assert text[..k + 1] == text[..k] + [text[k]];
    assert marks[..k + 1] == marks[..k] + [marks[k]];
    WeaveAppend(text[..k], marks[..k], [text[k]], [marks[k]]);
    assert Weave([text[k]], [marks[k]]) == [text[k]] + MarkUnits(marks[k]);
  }

  /**
   * `handleRequestAntiDetect`: obfuscates the editor's text and writes the
   * result into the active tab's content, with the statistics shown after.
   */
  function RequestAntiDetect(store: TabStore.Store, editorText: JsString, mode: Mode, draws: seq<real>)
    : (r: (TabStore.Store, ReplacementStats))
    requires ValidDraws(draws) && |draws| >= 2 * |editorText|
    ensures var (s, stats) := r;
      && stats.oldLength == |editorText|
      && stats.newLength == stats.oldLength + stats.replacedCount
      && stats == Obfuscate(editorText, mode, draws).stats
      && s == store.(tabs := TabStore.UpdateTabContent(store.tabs, store.activeKey, Obfuscate(editorText, mode, draws).output))
  {
    var o := Obfuscate(editorText, mode, draws);
    (store.(tabs := TabStore.UpdateTabContent(store.tabs, store.activeKey, o.output)), o.stats)
  }
}
