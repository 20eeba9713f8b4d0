/**
 * The rendering half of js/main.js: a text element of the slide, and the
 * Timer that caches the element's original text, parses it once, and
 * rewrites the element whenever the whole number of elapsed seconds changes.
 */
module Timers {
  import opened Wrappers
  import opened TimeExpression

  /**
   * A `<text>` node of the presentation: its markup, its `style.fill`
   * (None for undefined) and the `m2timer` object a Timer attaches to it,
   * which holds the markup the node had before any timer wrote to it.
   */
  class Element {
    var innerHTML: string
    var fill: Option<string>
    var m2timer: Option<string>

    /** A node with the given markup that no timer has seen yet, for callers that build one. */
    constructor (html: string)
      ensures innerHTML == html && fill == None && m2timer == None
    {
      innerHTML := html;
      fill := None;
      m2timer := None;
    }

    /** The text a Timer parses: the cached markup if there is one, else the current markup. */
    function Original(): string
      reads this
    {
      if m2timer.Some? then m2timer.value else innerHTML
    }
  }

  /** `parseInt` of a number: the integer part, truncated toward zero. */
  function Trunc(x: real): (n: int)
    ensures 0.0 <= x ==> n as real <= x < n as real + 1.0
    ensures x < 0.0 ==> n as real - 1.0 < x <= n as real
  {
    if x >= 0.0 then x.Floor else -((-x).Floor)
  }

  /** A countdown bound to one element. */
  class Timer {
    const element: Element
    const exp: Expression
    var elapsed: int

    /** `enabled`: the element's original text holds a directive. */
    predicate Enabled() {
      exp.ok
    }

    /** `label` */
    function Label(): string {
      exp.name
    }

    /** The element shows the countdown for n elapsed seconds. */
    predicate Displays(n: int)
      reads element
    {
      element.innerHTML == Now(exp, n).text && element.fill == Now(exp, n).color
    }

    /** Unless nothing has been written yet, the element shows the countdown for the last elapsed time. */
    predicate Shows()
      reads this, element
    {
      elapsed == -1 || Displays(elapsed)
    }

    /**
     * The constructor caches the element's markup on first sight and parses
     * the cached markup from then on; it writes nothing else.
     */
    constructor (el: Element, t: Tokens)
      modifies el`m2timer
      ensures element == el && elapsed == -1
      ensures exp == Parse(t, old(el.Original()))
      ensures el.m2timer == Some(old(el.Original()))
      ensures el.Original() == old(el.Original())
      ensures el.innerHTML == old(el.innerHTML) && el.fill == old(el.fill)
    {
      var html := el.innerHTML;
      if el.m2timer.Some? {
        html := el.m2timer.value;
      } else {
        el.m2timer := Some(el.innerHTML);
      }
      element := el;
      exp := Parse(t, html);
      elapsed := -1;
    }

    /**
     * `update(elapsed)`: truncate the elapsed seconds; when they differ from the
     * last value, remember them and write the countdown text and colour.
     */
    method Update(e: real)
      modifies this, element
      ensures Stepped(this, Trunc(e))
      ensures old(Shows()) ==> Shows()
    {
      var n := Trunc(e);
      if elapsed == n {
        return;
      }
      elapsed := n;
      var disp := Now(exp, n);
      element.innerHTML := disp.text;
      element.fill := disp.color;
    }
  }

  /**
   * One call `update(e)` with `Trunc(e) == n`: the timer keeps n, and the
   * element is rewritten with the countdown for n exactly when n is new; the
   * cache is never touched.
   */
  twostate predicate Stepped(tm: Timer, n: int)
    reads tm, tm.element
  {
    tm.elapsed == n && tm.element.m2timer == old(tm.element.m2timer) &&
    if old(tm.elapsed) == n then
      tm.element.innerHTML == old(tm.element.innerHTML) && tm.element.fill == old(tm.element.fill)
    else
      tm.Displays(n)
  }

  /**
   * A new Timer remembers -1 elapsed seconds, so its first update with a
   * non-negative time always writes the countdown.
   */
  method FirstUpdateWrites(el: Element, t: Tokens, e: real) returns (tm: Timer)
    requires 0.0 <= e
    modifies el
    ensures tm.element == el && tm.exp == Parse(t, old(el.Original()))
    ensures tm.elapsed == Trunc(e) && tm.Displays(Trunc(e))
  {
    tm := new Timer(el, t);
    tm.Update(e);
  }

  /** Two updates within the same second: the second one writes nothing. */
  method UpdateTwice(tm: Timer, e1: real, e2: real)
    requires Trunc(e1) == Trunc(e2)
    modifies tm, tm.element
    ensures Stepped(tm, Trunc(e1))
  {
    tm.Update(e1);
    ghost var html, fill := tm.element.innerHTML, tm.element.fill;
    tm.Update(e2);
    assert tm.element.innerHTML == html && tm.element.fill == fill;
  }

  /**
   * Building a second Timer on an element after the first one has written
   * its countdown still parses the original markup, so it finds the same
   * directive.
   */
  method RebuildKeepsExpression(el: Element, t: Tokens, e: real) returns (a: Timer, b: Timer)
    modifies el
    ensures a.exp == b.exp == Parse(t, old(el.Original()))
    ensures b.element == el && b.elapsed == -1
  {
    a := new Timer(el, t);
    a.Update(e);
    b := new Timer(el, t);
  }

  /** Truncation of a few elapsed times, in both directions. */
  lemma TruncExamples()
    ensures Trunc(5.4) == Trunc(5.9) == 5
    ensures Trunc(-0.5) == 0 && Trunc(-1.5) == -1
  {
  }
}
