/** `fit_constraints`: adjusting a sample string to a pattern and to length limits. */
module Fitting {
  import opened Options
  import opened Text
  import opened Schemas

  // ── What it computes ────────────────────────────────────────────────────────

  predicate Matches(re: Regex, p: string, v: string) {
    re.compiles(p) && re.full(p, v)
  }

  function FirstMatch(re: Regex, stock: seq<string>, p: string): Option<string> {
    if stock == [] then None
    else if re.full(p, stock[0]) then Some(stock[0])
    else FirstMatch(re, stock[1..], p)
  }

  /** The text after the pattern step: a stock text replaces a sample that the pattern rejects. */
  function Pick(re: Regex, stock: seq<string>, v: string, s: Schema): string {
    if s.pattern == "" || !re.compiles(s.pattern) || re.full(s.pattern, v) then v
    else match FirstMatch(re, stock, s.pattern)
      case Some(w) => w
      case None => v
  }

  function Pad(v: string, s: Schema): string {
    if s.pattern == "" && s.minLength > 0 && |v| < s.minLength
    then (v + "-" + Repeat('x', s.minLength))[..s.minLength]
    else v
  }

  /** A `maxLength` of 0 is falsy and cuts nothing. */
  function Cut(v: string, s: Schema): string {
    if s.maxLength.Some? && s.maxLength.value > 0 && |v| > s.maxLength.value then v[..s.maxLength.value] else v
  }

  function Fit(re: Regex, stock: seq<string>, v: string, s: Schema): string {
    Cut(Pad(Pick(re, stock, v, s), s), s)
  }

  // ── The loop ────────────────────────────────────────────────────────────────

  method FitConstraints(re: Regex, stock: seq<string>, sample: string, s: Schema) returns (v: string)
    ensures v == Fit(re, stock, sample, s)
  {
    v := sample;
    if s.pattern != "" && re.compiles(s.pattern) {
      if !re.full(s.pattern, v) {
        var i := 0;
        while i < |stock|
          invariant 0 <= i <= |stock|
          invariant v == sample
          invariant FirstMatch(re, stock, s.pattern) == FirstMatch(re, stock[i..], s.pattern)
        {
          if re.full(s.pattern, stock[i]) {
            v := stock[i];
            break;
          }
          i := i + 1;
        }
      }
    }
    if s.pattern == "" {
      var lo := s.minLength;
      if lo > 0 && |v| < lo {
        v := (v + "-" + Repeat('x', lo))[..lo];
      }
    }
    if s.maxLength.Some? && s.maxLength.value > 0 && |v| > s.maxLength.value {
      v := v[..s.maxLength.value];
    }
  }

  /** A text that matches a pattern in full is also found by the unanchored search of validation. */
  ghost predicate Coherent(re: Regex) {
    forall p, t :: re.compiles(p) && re.full(p, t) ==> re.found(p, t)
  }

  // ── What the source relies on ───────────────────────────────────────────────

  /** The stock text taken is the earliest one that the pattern accepts, if there is one. */
  lemma {:induction false} FirstMatchIsFirst(re: Regex, stock: seq<string>, p: string)
    ensures FirstMatch(re, stock, p).None? <==> forall w | w in stock :: !re.full(p, w)
    ensures FirstMatch(re, stock, p).Some? ==>
              exists i | 0 <= i < |stock| ::
                && FirstMatch(re, stock, p).value == stock[i] && re.full(p, stock[i])
                && forall j | 0 <= j < i :: !re.full(p, stock[j])
  {
    if stock != [] && !re.full(p, stock[0]) {
      FirstMatchIsFirst(re, stock[1..], p);
      assert stock == [stock[0]] + stock[1..];
      if FirstMatch(re, stock[1..], p).Some? {
        var i :| 0 <= i < |stock[1..]| && FirstMatch(re, stock[1..], p).value == stock[1..][i]
                 && re.full(p, stock[1..][i]) && forall j | 0 <= j < i :: !re.full(p, stock[1..][j]);
        assert stock[i + 1] == stock[1..][i];
        forall j | 0 <= j < i + 1 ensures !re.full(p, stock[j]) {
          if j > 0 { assert stock[j] == stock[1..][j - 1]; }
        }
      }
    }
  }

  /** The limits that the cutting and padding steps can meet together. */
  predicate LimitsMeet(s: Schema) {
    s.maxLength.Some? ==> s.maxLength.value > 0 && s.minLength <= s.maxLength.value
  }

  /** Without a pattern the result has a legal length exactly when the limits can be met:
      `maxLength: 0` and contradictory limits are the only failures. */
  lemma FitLengthExact(re: Regex, stock: seq<string>, v: string, s: Schema)
    requires v != "" && s.pattern == ""
    ensures var r := Fit(re, stock, v, s);
            && r != ""
            && (TextAllowed(re, r, s) <==> LimitsMeet(s))
  {
  }

  /** It only lengthens the sample at its end, by a dash and then x's, or shortens it. */
  lemma FitKeepsText(re: Regex, stock: seq<string>, v: string, s: Schema)
    requires s.pattern == ""
    ensures Fit(re, stock, v, s) <= v || v <= Fit(re, stock, v, s)
    ensures forall i | |v| <= i < |Fit(re, stock, v, s)| :: Fit(re, stock, v, s)[i] == if i == |v| then '-' else 'x'
    ensures s.minLength <= |v| && (s.maxLength.Some? ==> |v| <= s.maxLength.value) ==> Fit(re, stock, v, s) == v
  {
  }

  /** `r` is `w` up to a positive `maxLength`. */
  ghost predicate Shortened(r: string, w: string, s: Schema) {
    r <= w && |r| == if s.maxLength.Some? && 0 < s.maxLength.value < |w| then s.maxLength.value else |w|
  }

  /** With a pattern nothing is appended: the result is the sample up to the limit, unless the
      pattern compiles and rejects it; then it is the earliest stock text accepted, if there is one. */
  lemma FitPatternText(re: Regex, stock: seq<string>, v: string, s: Schema)
    requires s.pattern != ""
    ensures !re.compiles(s.pattern) || re.full(s.pattern, v) || (forall w | w in stock :: !re.full(s.pattern, w)) ==>
              Shortened(Fit(re, stock, v, s), v, s)
    ensures re.compiles(s.pattern) && !re.full(s.pattern, v) ==>
              forall i | 0 <= i < |stock| && re.full(s.pattern, stock[i]) && (forall j | 0 <= j < i :: !re.full(s.pattern, stock[j])) ::
                Shortened(Fit(re, stock, v, s), stock[i], s)
  {
    FirstMatchIsFirst(re, stock, s.pattern);
  }

  /** A sample that matches only in full, where cutting it lets a different stock text in. */
  predicate CutLosesMatch(re: Regex, stock: seq<string>, v: string, s: Schema) {
    && s.pattern != "" && Matches(re, s.pattern, v)
    && Cut(v, s) != v
    && !re.full(s.pattern, Cut(v, s))
    && FirstMatch(re, stock, s.pattern).Some?
    && Cut(FirstMatch(re, stock, s.pattern).value, s) != Cut(v, s)
  }

  /** Fitting twice equals fitting once except in that one case. Required ids are fitted twice. */
  lemma FitTwiceExact(re: Regex, stock: seq<string>, v: string, s: Schema)
    ensures Fit(re, stock, Fit(re, stock, v, s), s) == Fit(re, stock, v, s)
            <==> !CutLosesMatch(re, stock, v, s)
  {
  }

  /** A pattern that accepts some stock text is met by the result unless the text has to be cut. */
  lemma FitMeetsPattern(re: Regex, stock: seq<string>, v: string, s: Schema)
    requires s.pattern != "" && re.compiles(s.pattern)
    ensures var c := Pick(re, stock, v, s);
            && (re.full(s.pattern, c) <==> re.full(s.pattern, v) || exists w | w in stock :: re.full(s.pattern, w))
            && (Cut(c, s) == c ==>
                  (re.full(s.pattern, Fit(re, stock, v, s)) <==>
                   re.full(s.pattern, v) || exists w | w in stock :: re.full(s.pattern, w)))
  {
    FirstMatchIsFirst(re, stock, s.pattern);
  }
}
