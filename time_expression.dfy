/**
 * The timer directive found in a slide text, `<prefix>MM:SS<splitter><label><suffix>`,
 * and its rendering as a countdown (class TimeExpression of js/main.js).
 *
 * The source builds the regular expression
 *   `${prefix}(\d{2}):(\d{2})${splitter}([0-9a-zA-Z]+)${suffix}`
 * from three localised message strings. Here the tokens are literal strings,
 * `exec` is the leftmost start index at which the pattern matches, and the
 * label is what the greedy `+` settles on after backtracking: the longest
 * alphanumeric run that is followed by the suffix.
 */
module TimeExpression {
  import opened Wrappers
  import opened Text

  /** The four localised messages the expression reads. */
  datatype Tokens = Tokens(prefix: string, splitter: string, suffix: string, overtimeColor: string)

  /** What `regex.exec` reports: the start index and the three capture groups. */
  datatype RegexMatch = RegexMatch(index: nat, minutes: string, seconds: string, name: string)

  /** The fields of a TimeExpression object: `#ok`, `#limit`, `#label`, `#overtimeColor`. */
  datatype Expression = Expression(ok: bool, limit: nat, name: string, overtimeColor: string)

  /** The object `now` returns: the text and the fill colour (`undefined` is None). */
  datatype Display = Display(text: string, color: Option<string>)

  predicate StartsWith(s: string, i: nat, w: string) {
    i + |w| <= |s| && s[i..i + |w|] == w
  }

  /** Five characters of the shape `DD:DD`. */
  predicate IsClock(c: string) {
    |c| == 5 && IsDigit(c[0]) && IsDigit(c[1]) && c[2] == ':' && IsDigit(c[3]) && IsDigit(c[4])
  }

  /** Seconds denoted by a clock text: MM * 60 + SS. */
  function ClockSeconds(c: string): nat
    requires IsClock(c)
  {
    (10 * DigitValue(c[0]) + DigitValue(c[1])) * 60 + 10 * DigitValue(c[3]) + DigitValue(c[4])
  }

  /** A non-empty run of `[0-9a-zA-Z]`. */
  predicate IsLabel(l: string) {
    0 < |l| && forall i :: 0 <= i < |l| ==> IsAlnum(l[i])
  }

  /** Whether the fixed part of the pattern, up to the label, matches at i. */
  predicate HeadAt(t: Tokens, s: string, i: nat) {
    var w := i + |t.prefix|;
    StartsWith(s, i, t.prefix) && w + 5 <= |s| && IsClock(s[w..w + 5]) && StartsWith(s, w + 5, t.splitter)
  }

  /**
   * The pattern occurs in s at index i with the given label: from i on, s
   * reads prefix, a clock, splitter, the label and suffix.
   */
  predicate IsMatch(t: Tokens, s: string, i: nat, name: string) {
    var p := i + |t.prefix| + 5 + |t.splitter|;
    HeadAt(t, s, i) && IsLabel(name) && StartsWith(s, p, name) && StartsWith(s, p + |name|, t.suffix)
  }

  /** m is what the pattern captures at m.index: the longest possible label there. */
  ghost predicate Captures(t: Tokens, s: string, m: RegexMatch) {
    var w := m.index + |t.prefix|;
    IsMatch(t, s, m.index, m.name) &&
    m.minutes == s[w..w + 2] && m.seconds == s[w + 3..w + 5] &&
    forall l {:trigger IsMatch(t, s, m.index, l)} :: IsMatch(t, s, m.index, l) ==> |l| <= |m.name|
  }

  /** Length of the run of alphanumeric characters starting at p. */
  function AlnumRun(s: string, p: nat): (n: nat)
    requires p <= |s|
    ensures p + n <= |s|
    decreases |s| - p
  {
    if p < |s| && IsAlnum(s[p]) then 1 + AlnumRun(s, p + 1) else 0
  }

  /** The run is alphanumeric throughout and can not be extended. */
  lemma {:induction false} AlnumRunMaximal(s: string, p: nat)
    requires p <= |s|
    ensures forall k :: p <= k < p + AlnumRun(s, p) ==> IsAlnum(s[k])
    ensures p + AlnumRun(s, p) == |s| || !IsAlnum(s[p + AlnumRun(s, p)])
    decreases |s| - p
  {
    if p < |s| && IsAlnum(s[p]) {
      AlnumRunMaximal(s, p + 1);
    }
  }

  /**
   * The greedy `+` with backtracking: the largest k in 1..n such that suffix
   * follows s[p..p + k], or 0 when there is none.
   */
  function LabelLength(s: string, p: nat, n: nat, suffix: string): (k: nat)
    requires p + n <= |s|
    ensures k <= n
    decreases n
  {
    if n == 0 then 0
    else if StartsWith(s, p + n, suffix) then n
    else LabelLength(s, p, n - 1, suffix)
  }

  /** The suffix follows the chosen length, and follows no longer one up to n. */
  lemma {:induction false} LabelLengthLargest(s: string, p: nat, n: nat, suffix: string)
    requires p + n <= |s|
    ensures 0 < LabelLength(s, p, n, suffix) ==> StartsWith(s, p + LabelLength(s, p, n, suffix), suffix)
    ensures forall q :: p + LabelLength(s, p, n, suffix) < q <= p + n ==> !StartsWith(s, q, suffix)
    decreases n
  {
    if 0 < n && !StartsWith(s, p + n, suffix) {
      LabelLengthLargest(s, p, n - 1, suffix);
    }
  }

  /** The regular expression tried at one start index. */
  function MatchAt(t: Tokens, s: string, i: nat): Option<RegexMatch>
  {
    var w := i + |t.prefix|;
    var p := w + 5 + |t.splitter|;
    if HeadAt(t, s, i) then
      var n := LabelLength(s, p, AlnumRun(s, p), t.suffix);
      if n == 0 then None else Some(RegexMatch(i, s[w..w + 2], s[w + 3..w + 5], s[p..p + n]))
    else None
  }

  /** An alphanumeric stretch from p on lies within the run at p. */
  lemma {:induction false} AlnumRunCovers(s: string, p: nat, m: nat)
    requires p + m <= |s|
    requires forall k :: p <= k < p + m ==> IsAlnum(s[k])
    ensures m <= AlnumRun(s, p)
    decreases m
  {
    if 0 < m {
      AlnumRunCovers(s, p + 1, m - 1);
    }
  }

  /** A label that matches at p lies within the alphanumeric run at p. */
  lemma {:induction false} LabelWithinRun(s: string, p: nat, name: string)
    requires p <= |s| && IsLabel(name) && StartsWith(s, p, name)
    ensures |name| <= AlnumRun(s, p)
  {
    LabelChars(s, p, name);
    AlnumRunCovers(s, p, |name|);
  }

  /** Every label that matches at i is at most as long as the one MatchAt captures. */
  lemma MatchAtLongest(t: Tokens, s: string, i: nat, name: string)
    requires IsMatch(t, s, i, name)
    ensures MatchAt(t, s, i).Some? && |name| <= |MatchAt(t, s, i).value.name|
  {
    var p := i + |t.prefix| + 5 + |t.splitter|;
    LabelWithinRun(s, p, name);
    var run := AlnumRun(s, p);
    LabelLengthLargest(s, p, run, t.suffix);
    assert StartsWith(s, p + |name|, t.suffix);
  }

  /** What MatchAt captures is a match. */
  lemma MatchAtSound(t: Tokens, s: string, i: nat)
    requires MatchAt(t, s, i).Some?
    ensures MatchAt(t, s, i).value.index == i && IsMatch(t, s, i, MatchAt(t, s, i).value.name)
  {
    var p := i + |t.prefix| + 5 + |t.splitter|;
    var run := AlnumRun(s, p);
    var n := LabelLength(s, p, run, t.suffix);
    AlnumRunMaximal(s, p);
    LabelLengthLargest(s, p, run, t.suffix);
    SliceLabel(s, p, n);
  }

  /** A non-empty alphanumeric stretch of s is a label that s holds there. */
  lemma SliceLabel(s: string, p: nat, n: nat)
    requires 0 < n && p + n <= |s|
    requires forall k :: p <= k < p + n ==> IsAlnum(s[k])
    ensures IsLabel(s[p..p + n]) && StartsWith(s, p, s[p..p + n])
  {
    var name := s[p..p + n];
    forall k | 0 <= k < n ensures IsAlnum(name[k]) {
      assert name[k] == s[p + k];
    }
  }

  lemma MatchAtFields(t: Tokens, s: string, i: nat)
    requires MatchAt(t, s, i).Some?
    ensures var m := MatchAt(t, s, i).value; var w := i + |t.prefix|;
            m.index == i && m.minutes == s[w..w + 2] && m.seconds == s[w + 3..w + 5]
  {
  }

  /** Where no match is captured at i, the pattern does not occur at i. */
  lemma MatchAtNone(t: Tokens, s: string, i: nat)
    requires MatchAt(t, s, i).None?
    ensures forall l :: !IsMatch(t, s, i, l)
  {
    forall l | IsMatch(t, s, i, l) ensures MatchAt(t, s, i).Some? {
      MatchAtLongest(t, s, i, l);
    }
  }

  /** No label that matches at i is longer than the one MatchAt captures. */
  lemma MatchAtLongestAll(t: Tokens, s: string, i: nat)
    requires MatchAt(t, s, i).Some?
    ensures forall l {:trigger IsMatch(t, s, i, l)} :: IsMatch(t, s, i, l) ==> |l| <= |MatchAt(t, s, i).value.name|
  {
    forall l {:trigger IsMatch(t, s, i, l)} | IsMatch(t, s, i, l) ensures |l| <= |MatchAt(t, s, i).value.name| {
      MatchAtLongest(t, s, i, l);
    }
  }

  /** What MatchAt reports at i is the capture of the pattern there. */
  lemma MatchAtCaptures(t: Tokens, s: string, i: nat)
    requires MatchAt(t, s, i).Some?
    ensures MatchAt(t, s, i).value.index == i && Captures(t, s, MatchAt(t, s, i).value)
  {
    var m := MatchAt(t, s, i).value;
    MatchAtSound(t, s, i);
    MatchAtFields(t, s, i);
    MatchAtLongestAll(t, s, i);
    CapturesIntro(t, s, m);
  }

  lemma CapturesIntro(t: Tokens, s: string, m: RegexMatch)
    requires IsMatch(t, s, m.index, m.name)
    requires var w := m.index + |t.prefix|; m.minutes == s[w..w + 2] && m.seconds == s[w + 3..w + 5]
    requires forall l {:trigger IsMatch(t, s, m.index, l)} :: IsMatch(t, s, m.index, l) ==> |l| <= |m.name|
    ensures Captures(t, s, m)
  {
  }

  lemma MatchAtCorrect(t: Tokens, s: string, i: nat)
    ensures MatchAt(t, s, i).None? ==> forall l :: !IsMatch(t, s, i, l)
    ensures MatchAt(t, s, i).Some? ==> MatchAt(t, s, i).value.index == i && Captures(t, s, MatchAt(t, s, i).value)
  {
    if MatchAt(t, s, i).None? {
      MatchAtNone(t, s, i);
    } else {
      MatchAtCaptures(t, s, i);
    }
  }

  /** `exec` from start index i onward: the first index at which the pattern matches. */
  function Search(t: Tokens, s: string, i: nat): Option<RegexMatch>
    requires i <= |s|
    decreases |s| - i
  {
    var m := MatchAt(t, s, i);
    if m.Some? then m
    else if i == |s| then None
    else Search(t, s, i + 1)
  }

  /** Search reports the leftmost match from i on, or None when there is none. */
  lemma {:induction false} SearchCorrect(t: Tokens, s: string, i: nat)
    requires i <= |s|
    ensures Search(t, s, i).None? ==> forall j: nat, l :: i <= j ==> !IsMatch(t, s, j, l)
    ensures Search(t, s, i).Some? ==> i <= Search(t, s, i).value.index && Captures(t, s, Search(t, s, i).value)
    ensures Search(t, s, i).Some? ==> forall j: nat, l :: i <= j < Search(t, s, i).value.index ==> !IsMatch(t, s, j, l)
    decreases |s| - i
  {
    MatchAtCorrect(t, s, i);
    if MatchAt(t, s, i).Some? {
      assert Search(t, s, i) == MatchAt(t, s, i);
    } else if i == |s| {
      assert Search(t, s, i) == None;
    } else {
      SearchCorrect(t, s, i + 1);
      assert Search(t, s, i) == Search(t, s, i + 1);
      forall j: nat, l | i <= j && IsMatch(t, s, j, l) ensures i + 1 <= j {
      }
    }
  }

  /** `regex.exec(str)`: the leftmost match, with the greedy label. */
  function Exec(t: Tokens, s: string): Option<RegexMatch>
  {
    Search(t, s, 0)
  }

  /** exec fails exactly when the pattern occurs nowhere; otherwise it reports the leftmost occurrence. */
  lemma ExecCorrect(t: Tokens, s: string)
    ensures Exec(t, s).None? <==> forall j: nat, l :: !IsMatch(t, s, j, l)
    ensures Exec(t, s).Some? ==> Captures(t, s, Exec(t, s).value)
    ensures Exec(t, s).Some? ==> forall j: nat, l :: j < Exec(t, s).value.index ==> !IsMatch(t, s, j, l)
  {
    SearchCorrect(t, s, 0);
  }

  /** `parseInt` of the two captured halves of a clock adds up to its seconds. */
  lemma ClockCaptures(c: string)
    requires IsClock(c)
    ensures AllDigits(c[..2]) && AllDigits(c[3..])
    ensures DecimalValue(c[..2]) * 60 + DecimalValue(c[3..]) == ClockSeconds(c)
  {
    var mm, ss := c[..2], c[3..];
    assert mm[..1] == [c[0]] && mm[..1][..0] == [] && mm[1] == c[1];
    assert ss[..1] == [c[3]] && ss[..1][..0] == [] && ss[1] == c[4];
    assert DecimalValue(mm[..1]) == DigitValue(c[0]);
    assert DecimalValue(ss[..1]) == DigitValue(c[3]);
  }

  /** Where the pattern occurs at j, exec reports a capture at j or before. */
  lemma ExecFirst(t: Tokens, s: string, j: nat, name: string)
    requires IsMatch(t, s, j, name)
    ensures Exec(t, s).Some? && Exec(t, s).value.index <= j && Captures(t, s, Exec(t, s).value)
  {
    ExecCorrect(t, s);
  }

  /** What exec reports is a capture of the pattern. */
  lemma ExecCaptures(t: Tokens, s: string)
    requires Exec(t, s).Some?
    ensures Captures(t, s, Exec(t, s).value)
  {
    SearchCorrect(t, s, 0);
  }

  /** The two groups exec captures for the clock are digit strings. */
  lemma ExecDigits(t: Tokens, s: string)
    requires Exec(t, s).Some?
    ensures AllDigits(Exec(t, s).value.minutes) && AllDigits(Exec(t, s).value.seconds)
  {
    var m := Exec(t, s).value;
    var w := m.index + |t.prefix|;
    ExecCaptures(t, s);
    var c := s[w..w + 5];
    assert m.minutes == c[..2] && m.seconds == c[3..];
    ClockCaptures(c);
  }

  /** The TimeExpression constructor: the fields it sets from `regex.exec(str)`. */
  function Parse(t: Tokens, s: string): Expression
  {
    match Exec(t, s)
    case None => Expression(false, 0, "", t.overtimeColor)
    case Some(m) =>
      ExecDigits(t, s);
      Expression(true, DecimalValue(m.minutes) * 60 + DecimalValue(m.seconds), m.name, t.overtimeColor)
  }

  /** Parse fails exactly when the pattern occurs nowhere, and then keeps the initial field values. */
  lemma ParseFails(t: Tokens, s: string)
    ensures !Parse(t, s).ok <==> forall j: nat, l :: !IsMatch(t, s, j, l)
    ensures !Parse(t, s).ok ==> Parse(t, s) == Expression(false, 0, "", t.overtimeColor)
  {
    ExecCorrect(t, s);
  }

  /**
   * When the pattern occurs, Parse reports the clock of the leftmost
   * occurrence as seconds and that occurrence's greedy label.
   */
  lemma ParseFinds(t: Tokens, s: string)
    ensures Parse(t, s).ok ==> Exec(t, s).Some? && IsLabel(Parse(t, s).name)
    ensures Parse(t, s).ok ==>
              var m := Exec(t, s).value; var w := m.index + |t.prefix|;
              w + 5 <= |s| && IsClock(s[w..w + 5]) &&
              Parse(t, s) == Expression(true, ClockSeconds(s[w..w + 5]), m.name, t.overtimeColor)
  {
    if Exec(t, s).Some? {
      var m := Exec(t, s).value;
      var w := m.index + |t.prefix|;
      ExecCaptures(t, s);
      assert IsMatch(t, s, m.index, m.name) && w + 5 <= |s|;
      var c := s[w..w + 5];
      assert m.minutes == s[w..w + 2] == c[..2];
      assert m.seconds == s[w + 3..w + 5] == c[3..];
      ClockCaptures(c);
    }
  }

  /** A match at index 0 that no other label at 0 outgrows is what Parse reports. */
  lemma ParseFirstLongest(t: Tokens, s: string, name: string)
    requires IsMatch(t, s, 0, name)
    requires forall l {:trigger IsMatch(t, s, 0, l)} :: IsMatch(t, s, 0, l) ==> |l| <= |name|
    ensures var w := |t.prefix|; Parse(t, s) == Expression(true, ClockSeconds(s[w..w + 5]), name, t.overtimeColor)
  {
    var p := |t.prefix| + 5 + |t.splitter|;
    ExecFirst(t, s, 0, name);
    var m := Exec(t, s).value;
    assert m.index == 0;
    assert IsMatch(t, s, 0, m.name);
    assert |m.name| == |name|;
    assert m.name == s[p..p + |name|] == name;
    ParseFinds(t, s);
  }

  /**
   * A directive at index 0 whose label is not followed by another
   * alphanumeric character is what Parse reports.
   */
  lemma ParseAtStart(t: Tokens, s: string, name: string)
    requires IsMatch(t, s, 0, name)
    requires var q := |t.prefix| + 5 + |t.splitter| + |name|; q == |s| || !IsAlnum(s[q])
    ensures var w := |t.prefix|; Parse(t, s) == Expression(true, ClockSeconds(s[w..w + 5]), name, t.overtimeColor)
  {
    var p := |t.prefix| + 5 + |t.splitter|;
    forall l {:trigger IsMatch(t, s, 0, l)} | IsMatch(t, s, 0, l) ensures |l| <= |name| {
      LabelStops(s, p, l, p + |name|);
    }
    ParseFirstLongest(t, s, name);
  }

  /** A label can not run past a character that is not alphanumeric. */
  lemma LabelStops(s: string, p: nat, name: string, q: nat)
    requires IsLabel(name) && StartsWith(s, p, name)
    requires p <= q <= |s| && (q == |s| || !IsAlnum(s[q]))
    ensures |name| <= q - p
  {
    LabelChars(s, p, name);
  }

  /** The characters a label covers are alphanumeric. */
  lemma LabelChars(s: string, p: nat, name: string)
    requires IsLabel(name) && StartsWith(s, p, name)
    ensures forall k :: p <= k < p + |name| ==> IsAlnum(s[k])
  {
    forall k | p <= k < p + |name| ensures IsAlnum(s[k]) {
      assert s[k] == name[k - p];
    }
  }

  lemma StartsWithAppended(u: string, w: string)
    ensures StartsWith(u + w, |u|, w)
  {
    assert (u + w)[|u|..|u| + |w|] == w;
  }

  lemma StartsWithExtended(u: string, i: nat, w: string, v: string)
    requires StartsWith(u, i, w)
    ensures StartsWith(u + v, i, w)
  {
    assert (u + v)[i..i + |w|] == u[i..i + |w|];
  }

  /** Where the pieces of `prefix + clock + splitter + label + suffix + rest` lie. */
  lemma ComposedPieces(t: Tokens, c: string, name: string, rest: string)
    ensures var s := t.prefix + c + t.splitter + name + t.suffix + rest;
      var w := |t.prefix|; var p := w + |c| + |t.splitter|;
      StartsWith(s, 0, t.prefix) && StartsWith(s, w, c) && StartsWith(s, w + |c|, t.splitter) &&
      StartsWith(s, p, name) && StartsWith(s, p + |name|, t.suffix) && |s| == p + |name| + |t.suffix + rest| &&
      s[p + |name|..] == t.suffix + rest
  {
    ComposedFront(t, c, name, rest);
    ComposedBack(t, c, name, rest);
  }

  lemma ComposedFront(t: Tokens, c: string, name: string, rest: string)
    ensures var s := t.prefix + c + t.splitter + name + t.suffix + rest;
      StartsWith(s, 0, t.prefix) && StartsWith(s, |t.prefix|, c) && StartsWith(s, |t.prefix| + |c|, t.splitter)
  {
    var s1 := t.prefix + c;
    var s2 := s1 + t.splitter;
    var s3 := s2 + name;
    var s4 := s3 + t.suffix;
    StartsWithAppended([], t.prefix);
    assert [] + t.prefix == t.prefix;
    StartsWithExtended(t.prefix, 0, t.prefix, c);
    StartsWithExtended(s1, 0, t.prefix, t.splitter);
    StartsWithExtended(s2, 0, t.prefix, name);
    StartsWithExtended(s3, 0, t.prefix, t.suffix);
    StartsWithExtended(s4, 0, t.prefix, rest);
    StartsWithAppended(t.prefix, c);
    StartsWithExtended(s1, |t.prefix|, c, t.splitter);
    StartsWithExtended(s2, |t.prefix|, c, name);
    StartsWithExtended(s3, |t.prefix|, c, t.suffix);
    StartsWithExtended(s4, |t.prefix|, c, rest);
    StartsWithAppended(s1, t.splitter);
    StartsWithExtended(s2, |s1|, t.splitter, name);
    StartsWithExtended(s3, |s1|, t.splitter, t.suffix);
    StartsWithExtended(s4, |s1|, t.splitter, rest);
  }

  lemma ComposedBack(t: Tokens, c: string, name: string, rest: string)
    ensures var s := t.prefix + c + t.splitter + name + t.suffix + rest;
      var p := |t.prefix| + |c| + |t.splitter|;
      StartsWith(s, p, name) && StartsWith(s, p + |name|, t.suffix) && |s| == p + |name| + |t.suffix + rest| &&
      s[p + |name|..] == t.suffix + rest
  {
    var s2 := t.prefix + c + t.splitter;
    var s3 := s2 + name;
    var s4 := s3 + t.suffix;
    var s := s4 + rest;
    StartsWithAppended(s2, name);
    StartsWithExtended(s3, |s2|, name, t.suffix);
    StartsWithExtended(s4, |s2|, name, rest);
    StartsWithAppended(s3, t.suffix);
    StartsWithExtended(s4, |s3|, t.suffix, rest);
    assert s[|s3|..] == t.suffix + rest;
  }

  /**
   * Parsing `prefix + MM:SS + splitter + label + suffix + rest` finds the
   * directive at index 0, as long as no alphanumeric character follows the label.
   */
  lemma ParseRoundTrip(t: Tokens, c: string, name: string, rest: string)
    requires IsClock(c) && IsLabel(name)
    requires t.suffix + rest == [] || !IsAlnum((t.suffix + rest)[0])
    ensures Parse(t, t.prefix + c + t.splitter + name + t.suffix + rest)
         == Expression(true, ClockSeconds(c), name, t.overtimeColor)
  {
    var s := t.prefix + c + t.splitter + name + t.suffix + rest;
    var w := |t.prefix|;
    ComposedPieces(t, c, name, rest);
    assert s[w..w + 5] == c;
    assert IsMatch(t, s, 0, name);
    ParseAtStart(t, s, name);
  }

  /** A text that is exactly one directive parses to that directive. */
  lemma ParseDirective(t: Tokens, c: string, name: string, s: string)
    requires IsClock(c) && IsLabel(name) && (t.suffix == [] || !IsAlnum(t.suffix[0]))
    requires s == t.prefix + c + t.splitter + name + t.suffix
    ensures Parse(t, s) == Expression(true, ClockSeconds(c), name, t.overtimeColor)
  {
    ParseRoundTrip(t, c, name, []);
    assert t.prefix + c + t.splitter + name + t.suffix + [] == s;
  }

  /** Math.abs */
  function Abs(x: int): (r: nat)
    ensures r == x || r == -x
  {
    if x < 0 then -x else x
  }

  /** `${f(mm)}:${f(ss)}` with `f = (x) => ('00' + x).slice(-2)`. */
  function ClockText(mm: nat, ss: nat): (c: string)
    ensures IsClock(c)
  {
    TwoDigits(mm) + ":" + TwoDigits(ss)
  }

  /** The clock text reads back as minutes and seconds modulo 100. */
  lemma ClockTextValue(mm: nat, ss: nat)
    ensures AllDigits(ClockText(mm, ss)[..2]) && AllDigits(ClockText(mm, ss)[3..])
    ensures DecimalValue(ClockText(mm, ss)[..2]) == mm % 100 && DecimalValue(ClockText(mm, ss)[3..]) == ss % 100
  {
    var c := ClockText(mm, ss);
    assert c[..2] == TwoDigits(mm) && c[3..] == TwoDigits(ss);
    TwoDigitsValue(mm);
    TwoDigitsValue(ss);
  }

  /** `now(elapsed)`: the remaining (or, past the limit, the exceeded) time as `MM:SS`. */
  function Now(e: Expression, elapsed: int): (d: Display)
    ensures IsClock(d.text)
  {
    var left := e.limit - elapsed;
    var num := Abs(left);
    Display(ClockText(num / 60, num % 60), if left < 0 then Some(e.overtimeColor) else None)
  }

  /**
   * The rendered digits: seconds are |limit - elapsed| mod 60; minutes are
   * the whole minutes mod 100 (the slice keeps only the last two digits).
   */
  lemma NowDigits(e: Expression, elapsed: int)
    ensures var num := Abs(e.limit - elapsed); var text := Now(e, elapsed).text;
      DecimalValue(text[..2]) == num / 60 % 100 && DecimalValue(text[3..]) == num % 60
  {
    var num := Abs(e.limit - elapsed);
    NowText(e, elapsed);
    ClockTextValue(num / 60, num % 60);
    SmallRemainder(num % 60);
  }

  lemma NowText(e: Expression, elapsed: int)
    ensures var num := Abs(e.limit - elapsed); Now(e, elapsed).text == ClockText(num / 60, num % 60)
  {
  }

  lemma SmallRemainder(x: nat)
    requires x < 100
    ensures x % 100 == x
  {
  }

  /** Below 100 minutes the text reads back as the exact number of seconds left (or over). */
  lemma NowReadsBack(e: Expression, elapsed: int)
    requires Abs(e.limit - elapsed) < 6000
    ensures ClockSeconds(Now(e, elapsed).text) == Abs(e.limit - elapsed)
  {
    var num := Abs(e.limit - elapsed);
    var mm, ss := num / 60, num % 60;
    var text := Now(e, elapsed).text;
    assert text == ClockText(mm, ss);
    ClockTextValue(mm, ss);
    ClockCaptures(text);
    MinutesAndSeconds(num);
  }

  lemma MinutesAndSeconds(num: nat)
    requires num < 6000
    ensures num / 60 % 100 == num / 60 && num % 60 % 100 == num % 60
    ensures num / 60 * 60 + num % 60 == num
  {
  }

  /**
   * A directive written with the clock text a timer shows reads back as the
   * time that timer has left (or has overrun), below 100 minutes.
   */
  lemma NowParsesBack(t: Tokens, e: Expression, elapsed: int, name: string, rest: string)
    requires Abs(e.limit - elapsed) < 6000 && IsLabel(name)
    requires t.suffix + rest == [] || !IsAlnum((t.suffix + rest)[0])
    ensures Parse(t, t.prefix + Now(e, elapsed).text + t.splitter + name + t.suffix + rest)
         == Expression(true, Abs(e.limit - elapsed), name, t.overtimeColor)
  {
    ParseRoundTrip(t, Now(e, elapsed).text, name, rest);
    NowReadsBack(e, elapsed);
  }

  /** The overtime colour is attached exactly when the elapsed time exceeds the limit. */
  lemma NowColor(e: Expression, elapsed: int)
    ensures Now(e, elapsed).color.Some? <==> elapsed > e.limit
    ensures Now(e, elapsed).color.Some? ==> Now(e, elapsed).color.value == e.overtimeColor
  {
  }

  /** The boundary cases of the overtime display around a 10-second limit, and 65 s as 01:05. */
  lemma NowExamples(color: string)
    ensures Now(Expression(true, 65, "a", color), 0) == Display("01:05", None)
    ensures Now(Expression(true, 10, "a", color), 9) == Display("00:01", None)
    ensures Now(Expression(true, 10, "a", color), 10) == Display("00:00", None)
    ensures Now(Expression(true, 10, "a", color), 11) == Display("00:01", Some(color))
  {
  }

  /** The directive `[[05:00|abc]]` is a five-minute timer labelled abc. */
  lemma ParseExample(color: string)
    ensures Parse(Tokens("[[", "|", "]]", color), "[[05:00|abc]]") == Expression(true, 300, "abc", color)
  {
    ParseDirective(Tokens("[[", "|", "]]", color), "05:00", "abc", "[[05:00|abc]]");
  }

  /**
   * When the suffix begins with a letter the label backtracks: in `[01:00|xaya]`
   * with suffix `a]` the run `xaya` gives way to `xay`.
   */
  lemma ParseBacktracks(color: string)
    ensures Parse(Tokens("[", "|", "a]", color), "[01:00|xaya]") == Expression(true, 60, "xay", color)
  {
    var t := Tokens("[", "|", "a]", color);
    var s := "[01:00|xaya]";
    assert s[0..1] == t.prefix && s[6..7] == t.splitter;
    assert s[1..6] == "01:00" && s[7..10] == "xay" && s[10..12] == t.suffix;
    assert IsMatch(t, s, 0, "xay");
    forall l {:trigger IsMatch(t, s, 0, l)} | IsMatch(t, s, 0, l) ensures |l| <= 3 {
      LabelStops(s, 7, l, 11);
    }
    ParseFirstLongest(t, s, "xay");
  }
}
