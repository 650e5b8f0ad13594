/**
 * Model of `validarEmail` (app.js): the anchored test of the regular
 * expression `^[^\s@]+@[^\s@]+\.[^\s@]+$` against a string.
 *
 * The regular expression is stated as its literal meaning, an existential
 * split of the string (`MatchesAt`, `RegexMatch`). The executable checker
 * `ValidarEmail` is a deterministic automaton whose states are the positions
 * of the pattern; `ValidarEmailMatchesRegex` proves the two equal, and the
 * lemmas after it characterise the accepted strings in closed form.
 */
module EmailValidation {

  /**
   * The JavaScript `\s` class: the WhiteSpace and LineTerminator code points of
   * ECMAScript. Below U+00A0 these are the space and U+0009 to U+000D (tab, line
   * feed, vertical tab, form feed, carriage return).
   */
  predicate IsJsWhitespace(c: char) {
    if c < '\U{00A0}' then
      c == ' ' || ('\t' <= c <= '\r')
    else
      c == '\U{00A0}' || c == '\U{1680}' || ('\U{2000}' <= c <= '\U{200A}')
      || c == '\U{2028}' || c == '\U{2029}' || c == '\U{202F}' || c == '\U{205F}'
      || c == '\U{3000}' || c == '\U{FEFF}'
  }

  /** The character class `[^\s@]`. */
  predicate InClass(c: char) {
    !IsJsWhitespace(c) && c != '@'
  }

  /** Every character of `s` is in `[^\s@]`. */
  predicate AllInClass(s: string) {
    forall k :: 0 <= k < |s| ==> InClass(s[k])
  }

  // ---------------------------------------------------------------------------
  // The regular expression, as a split of the string
  // ---------------------------------------------------------------------------

  /**
   * `^[^\s@]+@[^\s@]+\.[^\s@]+$` matches `s` with the `@` at index `at` and
   * the escaped dot at index `dot`: three non-empty runs of `[^\s@]`.
   */
  ghost predicate MatchesAt(s: string, at: int, dot: int) {
    0 < at && at + 1 < dot && dot + 1 < |s|
    && s[at] == '@' && s[dot] == '.'
    && AllInClass(s[..at]) && AllInClass(s[at + 1..dot]) && AllInClass(s[dot + 1..])
  }

  /** Some way of matching the pattern succeeds, which is what the backtracking `test` reports. */
  ghost predicate RegexMatch(s: string) {
    exists at, dot :: MatchesAt(s, at, dot)
  }

  // ---------------------------------------------------------------------------
  // The executable checker
  // ---------------------------------------------------------------------------

  /**
   * The positions of the pattern. `Domain` has read the first character after
   * the `@`; `DomainDot` has just read a dot that is not the first character
   * after the `@`; `Complete` has read a character after such a dot.
   */
  datatype State = Start | Local | AfterAt | Domain | DomainDot | Complete | Dead

  function Step(q: State, c: char): (q': State) {
    match q
    case Start => if InClass(c) then Local else Dead
    case Local => if c == '@' then AfterAt else if InClass(c) then Local else Dead
    case AfterAt => if InClass(c) then Domain else Dead
    case Domain => if c == '.' then DomainDot else if InClass(c) then Domain else Dead
    case DomainDot => if InClass(c) then Complete else Dead
    case Complete => if InClass(c) then Complete else Dead
    case Dead => Dead
  }

  /** Feeds `s[i..]` to the automaton, one character at a time, starting in `q`. */
  function Scan(q: State, s: string, i: nat): (last: State)
    requires i <= |s|
    decreases |s| - i
  {
    if i == |s| then q else Scan(Step(q, s[i]), s, i + 1)
  }

  /** `validarEmail(email)`: scanning the whole string ends in the accepting state. */
  predicate ValidarEmail(s: string) {
    Scan(Start, s, 0) == Complete
  }

  // ---------------------------------------------------------------------------
  // What remains of the pattern in each state
  // ---------------------------------------------------------------------------

  /** `[^\s@]*\.[^\s@]+` matches `t` with the escaped dot at index `dot`. */
  ghost predicate TailAt(t: string, dot: int) {
    0 <= dot && dot + 1 < |t| && t[dot] == '.' && AllInClass(t[..dot]) && AllInClass(t[dot + 1..])
  }

  /** `[^\s@]*\.[^\s@]+` */
  ghost predicate DotTail(t: string) {
    exists dot :: TailAt(t, dot)
  }

  /** `[^\s@]+\.[^\s@]+`, the pattern after the `@` */
  ghost predicate DomainPart(t: string) {
    exists dot :: 0 < dot && TailAt(t, dot)
  }

  /** `[^\s@]*@[^\s@]+\.[^\s@]+` matches `t` with the `@` at index `at`. */
  ghost predicate AtSignAt(t: string, at: int) {
    0 <= at < |t| && t[at] == '@' && AllInClass(t[..at]) && DomainPart(t[at + 1..])
  }

  /** `[^\s@]*@[^\s@]+\.[^\s@]+` */
  ghost predicate LocalTail(t: string) {
    exists at :: AtSignAt(t, at)
  }

  /** `[^\s@]+@[^\s@]+\.[^\s@]+` */
  ghost predicate EmailPattern(t: string) {
    exists at :: 0 < at && AtSignAt(t, at)
  }

  /** The strings that lead the automaton from `q` to `Complete`. */
  ghost predicate Accepts(q: State, t: string) {
    match q
    case Start => EmailPattern(t)
    case Local => LocalTail(t)
    case AfterAt => DomainPart(t)
    case Domain => DotTail(t)
    case DomainDot => |t| > 0 && AllInClass(t)
    case Complete => AllInClass(t)
    case Dead => false
  }

  lemma AllInClassCons(c: char, t: string)
    ensures AllInClass([c] + t) <==> InClass(c) && AllInClass(t)
  {
    var u := [c] + t;
    assert u[0] == c;
    assert forall k :: 0 <= k < |t| ==> u[k + 1] == t[k];
  }

  /** A run containing a dot at `dot`, split there, is still one run. */
  lemma AllInClassJoin(t: string, dot: int)
    requires 0 <= dot < |t| && t[dot] == '.'
    requires AllInClass(t[..dot]) && AllInClass(t[dot + 1..])
    ensures AllInClass(t)
  {
  }

  lemma AllInClassSlice(t: string, i: int, j: int)
    requires AllInClass(t) && 0 <= i <= j <= |t|
    ensures AllInClass(t[i..j])
  {
  }

  lemma TailAtCons(c: char, t: string, dot: int)
    requires dot > 0
    ensures TailAt([c] + t, dot) <==> InClass(c) && TailAt(t, dot - 1)
  {
    var u := [c] + t;
    if dot + 1 < |u| {
      assert u[..dot] == [c] + t[..dot - 1];
      assert u[dot] == t[dot - 1];
      assert u[dot + 1..] == t[dot..];
      AllInClassCons(c, t[..dot - 1]);
    }
  }

  lemma DotTailNonempty(t: string)
    requires DotTail(t)
    ensures |t| > 0 && AllInClass(t)
  {
  }

  lemma DotTailCons(c: char, t: string)
    ensures DotTail([c] + t) <==>
      (c == '.' && |t| > 0 && AllInClass(t)) || (InClass(c) && DotTail(t))
  {
    var u := [c] + t;
    if DotTail(u) {
      var dot :| TailAt(u, dot);
      if dot == 0 {
        assert u[1..] == t;
      } else {
        TailAtCons(c, t, dot);
      }
    }
    if c == '.' && |t| > 0 && AllInClass(t) {
      assert u[..0] == [] && u[1..] == t;
      assert TailAt(u, 0);
    }
    if InClass(c) && DotTail(t) {
      var dot :| TailAt(t, dot);
      TailAtCons(c, t, dot + 1);
    }
  }

  lemma DomainPartCons(c: char, t: string)
    ensures DomainPart([c] + t) <==> InClass(c) && DotTail(t)
  {
    var u := [c] + t;
    if DomainPart(u) {
      var dot :| 0 < dot && TailAt(u, dot);
      TailAtCons(c, t, dot);
    }
    if InClass(c) && DotTail(t) {
      var dot :| TailAt(t, dot);
      TailAtCons(c, t, dot + 1);
    }
  }

  lemma AtSignAtCons(c: char, t: string, at: int)
    requires at > 0
    ensures AtSignAt([c] + t, at) <==> InClass(c) && AtSignAt(t, at - 1)
  {
    var u := [c] + t;
    if at < |u| {
      assert u[..at] == [c] + t[..at - 1];
      assert u[at] == t[at - 1];
      assert u[at + 1..] == t[at..];
      AllInClassCons(c, t[..at - 1]);
    }
  }

  lemma LocalTailCons(c: char, t: string)
    ensures LocalTail([c] + t) <==> (c == '@' && DomainPart(t)) || (InClass(c) && LocalTail(t))
  {
    var u := [c] + t;
    if LocalTail(u) {
      var at :| AtSignAt(u, at);
      if at == 0 {
        assert u[1..] == t;
      } else {
        AtSignAtCons(c, t, at);
      }
    }
    if c == '@' && DomainPart(t) {
      assert u[..0] == [] && u[1..] == t;
      assert AtSignAt(u, 0);
    }
    if InClass(c) && LocalTail(t) {
      var at :| AtSignAt(t, at);
      AtSignAtCons(c, t, at + 1);
    }
  }

  lemma EmailPatternCons(c: char, t: string)
    ensures EmailPattern([c] + t) <==> InClass(c) && LocalTail(t)
  {
    var u := [c] + t;
    if EmailPattern(u) {
      var at :| 0 < at && AtSignAt(u, at);
      AtSignAtCons(c, t, at);
    }
    if InClass(c) && LocalTail(t) {
      var at :| AtSignAt(t, at);
      AtSignAtCons(c, t, at + 1);
    }
  }

  /** One step of the automaton consumes exactly one character of what the state still expects. */
  lemma StepAccepts(q: State, c: char, t: string)
    ensures Accepts(q, [c] + t) <==> Accepts(Step(q, c), t)
  {
    match q
    case Start => EmailPatternCons(c, t);
    case Local => LocalTailCons(c, t);
    case AfterAt => DomainPartCons(c, t);
    case Domain =>
      DotTailCons(c, t);
      if c == '.' && DotTail(t) {
        DotTailNonempty(t);
      }
    case DomainDot => AllInClassCons(c, t);
    case Complete => AllInClassCons(c, t);
    case Dead =>
  }

  /** Scanning `s[i..]` from `q` ends in `Complete` exactly when `q` accepts `s[i..]`. */
  lemma {:induction false} ScanAccepts(q: State, s: string, i: nat)
    requires i <= |s|
    ensures Scan(q, s, i) == Complete <==> Accepts(q, s[i..])
    decreases |s| - i
  {
    if i == |s| {
      assert s[i..] == [];
      if q == Domain {
        assert !DotTail(s[i..]) by {
          if DotTail(s[i..]) { DotTailNonempty(s[i..]); }
        }
      }
    } else {
      assert s[i..] == [s[i]] + s[i + 1..];
      StepAccepts(q, s[i], s[i + 1..]);
      ScanAccepts(Step(q, s[i]), s, i + 1);
    }
  }

  lemma DomainPartShifted(s: string, at: int, dot: int)
    requires 0 <= at && at + 1 < dot && dot + 1 < |s|
    ensures TailAt(s[at + 1..], dot - at - 1) <==>
      s[dot] == '.' && AllInClass(s[at + 1..dot]) && AllInClass(s[dot + 1..])
  {
    var r := s[at + 1..];
    assert r[..dot - at - 1] == s[at + 1..dot];
    assert r[dot - at - 1] == s[dot];
    assert r[dot - at..] == s[dot + 1..];
  }

  lemma EmailPatternIsRegex(s: string)
    ensures EmailPattern(s) <==> RegexMatch(s)
  {
    if EmailPattern(s) {
      var at :| 0 < at && AtSignAt(s, at);
      var d :| 0 < d && TailAt(s[at + 1..], d);
      DomainPartShifted(s, at, d + at + 1);
      assert MatchesAt(s, at, d + at + 1);
    }
    if RegexMatch(s) {
      var at, dot :| MatchesAt(s, at, dot);
      DomainPartShifted(s, at, dot);
      assert 0 < dot - at - 1 && TailAt(s[at + 1..], dot - at - 1);
      assert AtSignAt(s, at);
    }
  }

  /** The checker accepts exactly the strings the regular expression matches. */
  lemma ValidarEmailMatchesRegex(s: string)
    ensures ValidarEmail(s) <==> RegexMatch(s)
  {
    ScanAccepts(Start, s, 0);
    assert s[0..] == s;
    EmailPatternIsRegex(s);
  }

  // ---------------------------------------------------------------------------
  // Closed-form characterisations of the accepted strings
  // ---------------------------------------------------------------------------

  /** `s` is `l + "@" + d + "." + t` with three non-empty runs of `[^\s@]`. */
  ghost predicate IsThreePartSplit(s: string, l: string, d: string, t: string) {
    s == l + "@" + d + "." + t
    && |l| > 0 && |d| > 0 && |t| > 0
    && AllInClass(l) && AllInClass(d) && AllInClass(t)
  }

  /** `ValidarEmail(s)` holds iff `s` is a local part, `@`, a domain, `.` and a last label, none empty and none holding whitespace or `@`. */
  lemma ValidarEmailThreeParts(s: string)
    ensures ValidarEmail(s) <==> exists l, d, t :: IsThreePartSplit(s, l, d, t)
  {
    ValidarEmailMatchesRegex(s);
    if RegexMatch(s) {
      var at, dot :| MatchesAt(s, at, dot);
      var l, d, t := s[..at], s[at + 1..dot], s[dot + 1..];
      assert s == l + "@" + d + "." + t;
      assert IsThreePartSplit(s, l, d, t);
    }
    if exists l, d, t :: IsThreePartSplit(s, l, d, t) {
      var l, d, t :| IsThreePartSplit(s, l, d, t);
      var at, dot := |l|, |l| + 1 + |d|;
      assert s[..at] == l;
      assert s[at + 1..dot] == d;
      assert s[dot + 1..] == t;
      assert MatchesAt(s, at, dot);
    }
  }

  /** `r` holds a dot that is neither its first nor its last character. */
  ghost predicate HasInnerDot(r: string) {
    exists k :: 0 < k < |r| - 1 && r[k] == '.'
  }

  /** `s` is `l + "@" + r` with `l` a non-empty run of `[^\s@]` and `r` a run of `[^\s@]` with an inner dot. */
  ghost predicate IsAtSplit(s: string, l: string, r: string) {
    s == l + "@" + r && |l| > 0 && AllInClass(l) && AllInClass(r) && HasInnerDot(r)
  }

  lemma DomainPartIsInnerDot(r: string)
    ensures DomainPart(r) <==> AllInClass(r) && HasInnerDot(r)
  {
    if DomainPart(r) {
      var dot :| 0 < dot && TailAt(r, dot);
      AllInClassJoin(r, dot);
    }
    if AllInClass(r) && HasInnerDot(r) {
      var k :| 0 < k < |r| - 1 && r[k] == '.';
      AllInClassSlice(r, 0, k);
      AllInClassSlice(r, k + 1, |r|);
      assert r[0..k] == r[..k] && r[k + 1..|r|] == r[k + 1..];
      assert TailAt(r, k);
    }
  }

  /** `ValidarEmail(s)` holds iff `s` splits at an `@` into a non-empty local part and a domain whose dot is not at its ends. */
  lemma ValidarEmailAtSplit(s: string)
    ensures ValidarEmail(s) <==> exists l, r :: IsAtSplit(s, l, r)
  {
    ScanAccepts(Start, s, 0);
    assert s[0..] == s;
    if EmailPattern(s) {
      var at :| 0 < at && AtSignAt(s, at);
      var l, r := s[..at], s[at + 1..];
      DomainPartIsInnerDot(r);
      assert s == l + "@" + r;
      assert IsAtSplit(s, l, r);
    }
    if exists l, r :: IsAtSplit(s, l, r) {
      var l, r :| IsAtSplit(s, l, r);
      assert s[..|l|] == l && s[|l| + 1..] == r && s[|l|] == '@';
      DomainPartIsInnerDot(r);
      assert AtSignAt(s, |l|);
    }
  }

  /** No character of `s` is JavaScript whitespace. */
  predicate NoWhitespace(s: string) {
    forall k :: 0 <= k < |s| ==> !IsJsWhitespace(s[k])
  }

  /** `at` is the index of the only `@` in `s`. */
  predicate OnlyAtSignAt(s: string, at: int) {
    0 <= at < |s| && s[at] == '@' && forall k :: 0 <= k < |s| && k != at ==> s[k] != '@'
  }

  /** `s` has a dot after index `at + 1` that is not its last character. */
  predicate DotAfter(s: string, at: int) {
    exists dot :: 0 <= at + 1 < dot < |s| - 1 && s[dot] == '.'
  }

  /**
   * `s` has no whitespace and exactly one `@`, with a character on each side
   * of it, and a dot after it that is neither right after the `@` nor the
   * last character.
   */
  predicate HasEmailShape(s: string) {
    NoWhitespace(s) && exists at :: 0 < at < |s| - 1 && OnlyAtSignAt(s, at) && DotAfter(s, at)
  }

  /** The accepted strings are exactly those of that shape. */
  lemma AcceptedShape(s: string)
    ensures ValidarEmail(s) <==> HasEmailShape(s)
  {
    ValidarEmailMatchesRegex(s);
    if RegexMatch(s) {
      var at, dot :| MatchesAt(s, at, dot);
      forall k | 0 <= k < |s| && k != at
        ensures InClass(s[k])
      {
        if k < at {
          assert s[k] == s[..at][k];
        } else if k < dot {
          assert s[k] == s[at + 1..dot][k - at - 1];
        } else if k > dot {
          assert s[k] == s[dot + 1..][k - dot - 1];
        }
      }
      assert OnlyAtSignAt(s, at) && DotAfter(s, at);
    }
    if HasEmailShape(s) {
      var at :| 0 < at < |s| - 1 && OnlyAtSignAt(s, at) && DotAfter(s, at);
      var dot :| 0 <= at + 1 < dot < |s| - 1 && s[dot] == '.';
      assert AllInClass(s[..at]) && AllInClass(s[at + 1..dot]) && AllInClass(s[dot + 1..]);
      assert MatchesAt(s, at, dot);
    }
  }

}
