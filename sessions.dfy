/**
 * The presentation session of js/main.js: it keeps the enabled timers of the
 * current slide and, per label, the time the first timer with that label was
 * seen, so that timers sharing a label count from one start.
 */
module Sessions {
  import opened Wrappers
  import opened Text
  import opened TimeExpression
  import opened Timers

  /**
   * The start times after the labels are visited in order: a label seen for
   * the first time starts at `now`, a known label keeps its start.
   */
  function Seeded(m: map<string, int>, labels: seq<string>, now: int): (r: map<string, int>)
    ensures r.Keys == m.Keys + set l | l in labels
    ensures forall l :: l in m ==> r[l] == m[l]
    ensures forall l :: l in r && l !in m ==> r[l] == now
  {
    if labels == [] then m
    else
      var init := labels[..|labels| - 1];
      var l := labels[|labels| - 1];
      assert labels == init + [l];
      var r0 := Seeded(m, init, now);
      if l in r0 then r0 else r0[l := now]
  }

  /** Seeding labels that are all known changes nothing. */
  lemma {:induction false} SeededKnown(m: map<string, int>, labels: seq<string>, now: int)
    requires forall l :: l in labels ==> l in m
    ensures Seeded(m, labels, now) == m
  {
    var r := Seeded(m, labels, now);
    assert r.Keys == m.Keys;
  }

  /**
   * Rebuilding the timers of a slide later (a slide update) keeps every
   * start time that was already recorded.
   */
  lemma SeededAgain(m: map<string, int>, labels: seq<string>, now: int, later: int)
    ensures Seeded(Seeded(m, labels, now), labels, later) == Seeded(m, labels, now)
  {
    SeededKnown(Seeded(m, labels, now), labels, later);
  }

  /** The keys of `Object.prototype` that the `in` operator sees on a plain object. */
  const InheritedKeys: set<string> := {
    "constructor", "hasOwnProperty", "isPrototypeOf", "propertyIsEnumerable",
    "toLocaleString", "toString", "valueOf", "__proto__",
    "__defineGetter__", "__defineSetter__", "__lookupGetter__", "__lookupSetter__"
  }

  /**
   * Seeding as `initTimers` writes it, with `label in {}` on a plain object:
   * a label that names an inherited property counts as known and gets no
   * start time.
   */
  function SeededAsWritten(m: map<string, int>, labels: seq<string>, now: int): (r: map<string, int>)
    ensures r.Keys == m.Keys + set l | l in labels && l !in InheritedKeys
    ensures forall l :: l in m ==> r[l] == m[l]
    ensures forall l :: l in r && l !in m ==> r[l] == now
  {
    if labels == [] then m
    else
      var init := labels[..|labels| - 1];
      var l := labels[|labels| - 1];
      assert labels == init + [l];
      var r0 := SeededAsWritten(m, init, now);
      if l in r0 || l in InheritedKeys then r0 else r0[l := now]
  }

  /** The directive `[[05:00|toString]]` is enabled, with label toString. */
  lemma InheritedLabelParses(color: string)
    ensures Parse(Tokens("[[", "|", "]]", color), "[[05:00|toString]]") == Expression(true, 300, "toString", color)
  {
    ParseDirective(Tokens("[[", "|", "]]", color), "05:00", "toString", "[[05:00|toString]]");
  }

  /**
   * As written, the label toString never gets a start time, so
   * `updateTimers` reads the inherited method as the start; the corrected
   * seeding records it.
   */
  lemma InheritedLabelNotSeeded(now: int)
    ensures "toString" !in SeededAsWritten(map[], ["toString"], now)
    ensures Seeded(map[], ["toString"], now) == map["toString" := now]
  {
    assert "toString" in InheritedKeys;
  }

  /** A label made of `[0-9a-zA-Z]` is seeded the same either way unless it is an inherited key. */
  lemma {:induction false} SeededAgrees(m: map<string, int>, labels: seq<string>, now: int)
    requires forall l :: l in labels ==> l !in InheritedKeys
    ensures SeededAsWritten(m, labels, now) == Seeded(m, labels, now)
  {
    if labels != [] {
      var init := labels[..|labels| - 1];
      assert labels == init + [labels[|labels| - 1]];
      SeededAgrees(m, init, now);
    }
  }

  /** The positions, in order, of the entries that hold (the filter of `initTimers`). */
  function Positions(oks: seq<bool>): seq<nat>
  {
    if oks == [] then []
    else
      var n := |oks| - 1;
      var r0 := Positions(oks[..n]);
      if oks[n] then r0 + [n] else r0
  }

  /** Every position listed holds, and the positions ascend. */
  lemma {:induction false} PositionsSound(oks: seq<bool>)
    ensures forall k :: 0 <= k < |Positions(oks)| ==> Positions(oks)[k] < |oks| && oks[Positions(oks)[k]]
    ensures forall k, k' :: 0 <= k < k' < |Positions(oks)| ==> Positions(oks)[k] < Positions(oks)[k']
  {
    if oks != [] {
      var n := |oks| - 1;
      PositionsSound(oks[..n]);
      var r0 := Positions(oks[..n]);
      forall k | 0 <= k < |r0| ensures r0[k] < n && oks[r0[k]] {
        assert r0[k] < |oks[..n]| && oks[..n][r0[k]];
      }
    }
  }

  /** Every entry that holds is listed. */
  lemma {:induction false} PositionsComplete(oks: seq<bool>, j: nat)
    requires j < |oks| && oks[j]
    ensures j in Positions(oks)
  {
    var n := |oks| - 1;
    if j < n {
      PositionsComplete(oks[..n], j);
    }
  }

  /** The directive of each text, as a Timer parses it. */
  function Parses(t: Tokens, origs: seq<string>): (r: seq<Expression>)
    ensures |r| == |origs|
  {
    if origs == [] then [] else Parses(t, origs[..|origs| - 1]) + [Parse(t, origs[|origs| - 1])]
  }

  /** Entry j of Parses is the parse of text j. */
  lemma {:induction false} ParsesAt(t: Tokens, origs: seq<string>, j: nat)
    requires j < |origs|
    ensures Parses(t, origs)[j] == Parse(t, origs[j])
  {
    var n := |origs| - 1;
    if j < n {
      ParsesAt(t, origs[..n], j);
      assert origs[..n][j] == origs[j];
    }
  }

  /** Whether each directive is enabled. */
  function Flags(exps: seq<Expression>): seq<bool>
  {
    seq(|exps|, j requires 0 <= j < |exps| => exps[j].ok)
  }

  /** The positions, in order, of the texts whose directive parses. */
  function EnabledIndices(t: Tokens, origs: seq<string>): seq<nat>
  {
    Positions(Flags(Parses(t, origs)))
  }

  /** A position is listed exactly when its text parses; the positions ascend. */
  lemma EnabledIndicesCorrect(t: Tokens, origs: seq<string>)
    ensures forall j :: 0 <= j < |origs| ==> (j in EnabledIndices(t, origs) <==> Parse(t, origs[j]).ok)
    ensures forall j :: j in EnabledIndices(t, origs) ==> j < |origs|
    ensures var r := EnabledIndices(t, origs);
      forall k, k' :: 0 <= k < k' < |r| ==> r[k] < r[k']
  {
    var oks := Flags(Parses(t, origs));
    var r := EnabledIndices(t, origs);
    PositionsSound(oks);
    forall j | 0 <= j < |origs| ensures j in r <==> Parse(t, origs[j]).ok {
      ParsesAt(t, origs, j);
      if oks[j] {
        PositionsComplete(oks, j);
      }
    }
  }

  /** One more entry extends the positions by its own when it holds. */
  lemma PositionsStep(oks: seq<bool>, i: nat)
    requires i < |oks|
    ensures Positions(oks[..i + 1]) == Positions(oks[..i]) + (if oks[i] then [i] else [])
  {
    assert oks[..i + 1][..i] == oks[..i];
  }

  /** The texts the timers would parse, element by element. */
  function Originals(elems: seq<Element>): (r: seq<string>)
    reads elems
    ensures |r| == |elems|
  {
    seq(|elems|, k requires 0 <= k < |elems| reads elems => elems[k].Original())
  }

  /** The timers' labels, in order. */
  function LabelsOf(ts: seq<Timer>): (r: seq<string>)
    ensures |r| == |ts|
  {
    seq(|ts|, k requires 0 <= k < |ts| => ts[k].Label())
  }

  /** No element occurs twice. */
  predicate Distinct(elems: seq<Element>) {
    forall j, j' :: 0 <= j < j' < |elems| ==> elems[j] != elems[j']
  }

  /**
   * `(now - start) / 1000` milliseconds as seconds, truncated by `parseInt`:
   * the integer quotient, rounded toward zero for either sign.
   */
  function ElapsedSeconds(now: int, start: int): (n: int)
    ensures start <= now ==> n == (now - start) / 1000
    ensures now < start ==> n == -((start - now) / 1000)
  {
    var d := now - start;
    var x := d as real / 1000.0;
    var n := Trunc(x);
    if 0 <= d then
      var q := d / 1000;
      assert q * 1000 <= d < q * 1000 + 1000;
      assert q as real <= x < q as real + 1.0;
      n
    else
      var q := -d / 1000;
      assert q * 1000 <= -d < q * 1000 + 1000;
      assert -(q as real) - 1.0 < x <= -(q as real);
      n
  }

  /** A tick at the instant of a rebuild reads 0 seconds for every label that rebuild seeded. */
  lemma SeededTickZero(m: map<string, int>, labels: seq<string>, now: int)
    ensures forall l :: l in Seeded(m, labels, now) && l !in m ==> ElapsedSeconds(now, Seeded(m, labels, now)[l]) == 0
  {
  }

  /**
   * timers are the Timers built on the elements at the positions idx, in
   * order, each holding the directive listed for its position.
   */
  predicate Built(elems: seq<Element>, exps: seq<Expression>, idx: seq<nat>, timers: seq<Timer>) {
    |timers| == |idx| &&
    forall k :: 0 <= k < |idx| ==>
      idx[k] < |elems| && idx[k] < |exps| &&
      timers[k].element == elems[idx[k]] && timers[k].exp == exps[idx[k]]
  }

  lemma BuiltGrow(elems: seq<Element>, exps: seq<Expression>, idx: seq<nat>, timers: seq<Timer>, timer: Timer, i: nat)
    requires Built(elems, exps, idx, timers)
    requires i < |elems| && i < |exps| && timer.element == elems[i] && timer.exp == exps[i]
    ensures Built(elems, exps, idx + [i], timers + [timer])
  {
  }

  /**
   * Built on the parses of the original texts: every timer holds the
   * directive parsed from the original text of its element, and is enabled.
   */
  lemma BuiltParsed(t: Tokens, elems: seq<Element>, origs: seq<string>, timers: seq<Timer>)
    requires Built(elems, Parses(t, origs), EnabledIndices(t, origs), timers)
    ensures forall k :: 0 <= k < |timers| ==>
      var j := EnabledIndices(t, origs)[k];
      j < |elems| && j < |origs| && timers[k].element == elems[j] && timers[k].exp == Parse(t, origs[j]) && timers[k].Enabled()
  {
    var idx := EnabledIndices(t, origs);
    forall k | 0 <= k < |timers|
      ensures idx[k] < |origs| && timers[k].exp == Parse(t, origs[idx[k]]) && timers[k].Enabled()
    {
      ParsesAt(t, origs, idx[k]);
      EnabledIndicesCorrect(t, origs);
      assert idx[k] in idx;
    }
  }

  /**
   * Timers built at the enabled positions are enabled, and on distinct
   * elements they sit on distinct elements.
   */
  lemma BuiltEnabled(elems: seq<Element>, exps: seq<Expression>, timers: seq<Timer>)
    requires Built(elems, exps, Positions(Flags(exps)), timers)
    ensures forall k :: 0 <= k < |timers| ==> timers[k].Enabled()
    ensures Distinct(elems) ==> forall k, k' :: 0 <= k < k' < |timers| ==> timers[k].element != timers[k'].element
  {
    var oks := Flags(exps);
    var idx := Positions(oks);
    PositionsSound(oks);
    forall k | 0 <= k < |timers| ensures timers[k].Enabled() {
      assert oks[idx[k]];
    }
    if Distinct(elems) {
      forall k, k' | 0 <= k < k' < |timers| ensures timers[k].element != timers[k'].element {
        assert idx[k] < idx[k'];
      }
    }
  }

  /** What the first loop of `initTimers` has done once it has passed the first i elements. */
  ghost predicate Passed(t: Tokens, elems: seq<Element>, origs: seq<string>, i: nat, idx: seq<nat>, timers: seq<Timer>)
    reads elems, timers
  {
    i <= |elems| == |origs| &&
    (forall j :: 0 <= j < |elems| ==> elems[j].Original() == origs[j]) &&
    (forall j :: 0 <= j < i ==> elems[j].m2timer.Some?) &&
    idx == Positions(Flags(Parses(t, origs))[..i]) &&
    Built(elems, Parses(t, origs), idx, timers) &&
    (forall k :: 0 <= k < |timers| ==> timers[k].elapsed == -1)
  }

  /** One pass of the first loop of `initTimers`: a Timer on element i, kept when enabled. */
  method BuildOne(t: Tokens, elems: seq<Element>, i: nat, timers: seq<Timer>, ghost origs: seq<string>, ghost idx: seq<nat>)
    returns (timers': seq<Timer>, ghost idx': seq<nat>)
    requires i < |elems| && Passed(t, elems, origs, i, idx, timers)
    modifies {elems[i]}`m2timer
    ensures Passed(t, elems, origs, i + 1, idx', timers')
    ensures forall k :: 0 <= k < |timers'| ==> timers'[k] in timers || fresh(timers'[k])
  {
    var timer := new Timer(elems[i], t);
    ParsesAt(t, origs, i);
    PositionsStep(Flags(Parses(t, origs)), i);
    timers', idx' := timers, idx;
    if timer.Enabled() {
      BuiltGrow(elems, Parses(t, origs), idx, timers, timer, i);
      timers', idx' := timers + [timer], idx + [i];
    }
  }

  /**
   * The first loop of `initTimers`: a Timer on every element (which caches
   * the element's markup), keeping the enabled ones in order.
   */
  method BuildTimers(t: Tokens, elems: seq<Element>) returns (timers: seq<Timer>)
    modifies elems`m2timer
    ensures Built(elems, Parses(t, old(Originals(elems))), EnabledIndices(t, old(Originals(elems))), timers)
    ensures forall k :: 0 <= k < |timers| ==> timers[k].elapsed == -1 && fresh(timers[k])
    ensures forall j :: 0 <= j < |elems| ==>
      elems[j].m2timer == Some(old(elems[j].Original())) &&
      elems[j].innerHTML == old(elems[j].innerHTML) && elems[j].fill == old(elems[j].fill)
  {
    ghost var origs := Originals(elems);
    ghost var idx: seq<nat> := [];
    timers := [];
    var i := 0;
    while i < |elems|
      invariant 0 <= i <= |elems| && Passed(t, elems, origs, i, idx, timers)
      invariant forall k :: 0 <= k < |timers| ==> fresh(timers[k])
    {
      timers, idx := BuildOne(t, elems, i, timers, origs, idx);
      i := i + 1;
    }
    assert Flags(Parses(t, origs))[..i] == Flags(Parses(t, origs));
  }

  /** Seeding one more label: a new one is added with `now`, a known one changes nothing. */
  lemma SeededStep(m: map<string, int>, labels: seq<string>, j: nat, now: int)
    requires j < |labels|
    ensures var r := Seeded(m, labels[..j], now);
      Seeded(m, labels[..j + 1], now) == if labels[j] in r then r else r[labels[j] := now]
  {
    assert labels[..j + 1][..j] == labels[..j];
  }

  /**
   * The second loop of `initTimers`: each label not yet in the map gets the
   * start `now`.
   */
  method Seed(m: map<string, int>, labels: seq<string>, now: int) returns (r: map<string, int>)
    ensures r == Seeded(m, labels, now)
  {
    r := m;
    var j := 0;
    while j < |labels|
      invariant 0 <= j <= |labels|
      invariant r == Seeded(m, labels[..j], now)
    {
      var name := labels[j];
      SeededStep(m, labels, j, now);
      if name in r {
        // a timer with this label has been seen before: keep its start
      } else {
        r := r[name := now];
      }
      j := j + 1;
    }
    assert labels[..j] == labels;
  }

  class Session {
    const tokens: Tokens
    var timers: seq<Timer>
    var monitors: map<string, int>

    /** Every timer is enabled and has a start time, and no two timers share an element. */
    predicate Valid()
      reads this
    {
      (forall k :: 0 <= k < |timers| ==> timers[k].Enabled() && timers[k].Label() in monitors) &&
      (forall k, k' :: 0 <= k < k' < |timers| ==> timers[k].element != timers[k'].element)
    }

    constructor (t: Tokens)
      ensures tokens == t && timers == [] && monitors == map[]
      ensures Valid()
    {
      tokens := t;
      timers := [];
      monitors := map[];
    }

    /** `initMonitors`: forget every start time. */
    method InitMonitors()
      modifies this
      ensures monitors == map[] && timers == old(timers)
    {
      monitors := map[];
    }

    /**
     * `initTimers`: build a Timer on every text element, keep the enabled
     * ones in document order, then give each new label the start `now`.
     */
    method InitTimers(elems: seq<Element>, now: int)
      modifies this, elems`m2timer
      ensures Built(elems, Parses(tokens, old(Originals(elems))), EnabledIndices(tokens, old(Originals(elems))), timers)
      ensures forall k :: 0 <= k < |timers| ==> timers[k].elapsed == -1 && fresh(timers[k])
      ensures forall j :: 0 <= j < |elems| ==>
        elems[j].m2timer == Some(old(elems[j].Original())) &&
        elems[j].innerHTML == old(elems[j].innerHTML) && elems[j].fill == old(elems[j].fill)
      ensures monitors == Seeded(old(monitors), LabelsOf(timers), now)
      ensures Distinct(elems) ==> Valid()
    {
      ghost var origs := Originals(elems);
      var ts := BuildTimers(tokens, elems);
      timers := ts;
      var m := Seed(monitors, LabelsOf(ts), now);
      monitors := m;
      BuiltEnabled(elems, Parses(tokens, origs), timers);
      forall k | 0 <= k < |timers| ensures timers[k].Label() in monitors {
        assert LabelsOf(timers)[k] == timers[k].Label();
      }
    }

    /**
     * `updateTimers`: every timer is updated with the seconds since the
     * start of its label; nothing else changes.
     */
    method UpdateTimers(now: int)
      requires Valid()
      modifies set k | 0 <= k < |timers| :: timers[k]
      modifies set k | 0 <= k < |timers| :: timers[k].element
      ensures Valid() && timers == old(timers) && monitors == old(monitors)
      ensures forall k :: 0 <= k < |timers| ==>
        Stepped(timers[k], ElapsedSeconds(now, monitors[timers[k].Label()]))
    {
      var i := 0;
      while i < |timers|
        invariant 0 <= i <= |timers| && Valid()
        invariant forall k :: 0 <= k < i ==>
          Stepped(timers[k], ElapsedSeconds(now, monitors[timers[k].Label()]))
        invariant forall k :: i <= k < |timers| ==> unchanged(timers[k], timers[k].element)
      {
        var timer := timers[i];
        var start := monitors[timer.Label()];
        var e := (now - start) as real / 1000.0;
        assert Trunc(e) == ElapsedSeconds(now, start);
        assert forall k :: 0 <= k < |timers| && k != i ==> timers[k].element != timer.element;
        timer.Update(e);
        assert Stepped(timer, ElapsedSeconds(now, monitors[timer.Label()]));
        i := i + 1;
      }
    }
  }

  /** An element at a position that was not kept carries no timer. */
  lemma OthersUntimed(elems: seq<Element>, exps: seq<Expression>, idx: seq<nat>, timers: seq<Timer>)
    requires Built(elems, exps, idx, timers) && Distinct(elems)
    ensures forall j, k :: 0 <= j < |elems| && j !in idx && 0 <= k < |timers| ==> timers[k].element != elems[j]
  {
    forall j, k | 0 <= j < |elems| && j !in idx && 0 <= k < |timers| ensures timers[k].element != elems[j] {
      assert idx[k] in idx;
    }
  }

  /**
   * `onPresenterSlideUpdate`: rebuild the timers of the slide and tick them at
   * once. A label first seen at this rebuild reads 0 seconds; a known one
   * counts from its recorded start.
   */
  method SlideUpdate(s: Session, elems: seq<Element>, now: int)
    requires Distinct(elems)
    modifies s, elems
    ensures s.Valid() && s.monitors == Seeded(old(s.monitors), LabelsOf(s.timers), now)
    ensures forall k :: 0 <= k < |s.timers| ==>
      s.timers[k].elapsed == ElapsedSeconds(now, s.monitors[s.timers[k].Label()])
    ensures forall k :: 0 <= k < |s.timers| && s.timers[k].Label() !in old(s.monitors) ==> s.timers[k].elapsed == 0
    ensures forall k :: 0 <= k < |s.timers| && s.timers[k].Label() in old(s.monitors) ==>
      s.timers[k].elapsed == ElapsedSeconds(now, old(s.monitors)[s.timers[k].Label()])
    ensures Built(elems, Parses(s.tokens, old(Originals(elems))), EnabledIndices(s.tokens, old(Originals(elems))), s.timers)
    ensures forall k :: 0 <= k < |s.timers| ==> s.timers[k].Shows()
    ensures forall j :: 0 <= j < |elems| ==> elems[j].m2timer == Some(old(elems[j].Original()))
    ensures forall j :: 0 <= j < |elems| && j !in EnabledIndices(s.tokens, old(Originals(elems))) ==>
      elems[j].innerHTML == old(elems[j].innerHTML) && elems[j].fill == old(elems[j].fill)
  {
    s.InitTimers(elems, now);
    OthersUntimed(elems, Parses(s.tokens, old(Originals(elems))), EnabledIndices(s.tokens, old(Originals(elems))), s.timers);
    s.UpdateTimers(now);
    SeededTickZero(old(s.monitors), LabelsOf(s.timers), now);
  }
}
