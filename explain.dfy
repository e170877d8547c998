/** The deterministic tail of `explain_prediction` (app.py:64-75): LIME's
    `(token, weight)` list is mapped back onto the words of the message,
    each weight becomes its share of the total magnitude in percent, and the
    first five entries are kept, in LIME's order. */
module Explain {
  import opened Text

  datatype Option<T> = None | Some(value: T)

  /** One entry of LIME's `as_list()`: a token and its weight; also one
      entry of the result: a word and its percentage. */
  type Attribution = (string, real)

  // ---------------------------------------------------------------------
  // Mapping tokens to words (app.py:65-69)

  /** Index of the first word that contains `token`, if any. */
  function FirstContaining(words: seq<string>, token: string): (r: Option<nat>)
    ensures r.Some? ==> r.value < |words| && Contains(words[r.value], token)
    ensures r.Some? ==> forall j :: 0 <= j < r.value ==> !Contains(words[j], token)
    ensures r.None? ==> forall j :: 0 <= j < |words| ==> !Contains(words[j], token)
    decreases |words|
  {
    if words == [] then None
    else if Contains(words[0], token) then Some(0)
    else
      match FirstContaining(words[1..], token)
      case None => None
      case Some(i) => Some(i + 1)
  }

  /** `next((word for word in words if token in word), token)`. */
  function MatchWord(words: seq<string>, token: string): (r: string)
    ensures Contains(r, token)
    ensures r == token || r in words
  {
    assert OccursAt(token, token, 0);
    match FirstContaining(words, token)
    case Some(i) => words[i]
    case None => token
  }

  /** The word chosen for a token is the first word that contains it, or
      the token itself when no word does; either way it contains the
      token. */
  lemma MatchWordSpec(words: seq<string>, token: string)
    ensures Contains(MatchWord(words, token), token)
    ensures (exists i :: 0 <= i < |words| && Contains(words[i], token)) ==>
      exists i :: 0 <= i < |words| && MatchWord(words, token) == words[i] &&
        Contains(words[i], token) && forall j :: 0 <= j < i ==> !Contains(words[j], token)
    ensures (forall j :: 0 <= j < |words| ==> !Contains(words[j], token)) ==>
      MatchWord(words, token) == token
  {
    assert OccursAt(token, token, 0);
    var r := FirstContaining(words, token);
    if r.Some? {
      assert MatchWord(words, token) == words[r.value];
    }
  }

  /** The linear search behind `next(...)`: the first word that contains
      the token, or the token itself. */
  method FindMatch(words: seq<string>, token: string) returns (m: string)
    ensures m == MatchWord(words, token)
  {
    var i := 0;
    while i < |words|
      invariant 0 <= i <= |words|
      invariant forall j :: 0 <= j < i ==> !Contains(words[j], token)
    {
      if Contains(words[i], token) {
        return words[i];
      }
      i := i + 1;
    }
    return token;
  }

  /** The loop of lines 66-69: one entry per LIME entry, in the same order,
      with the token replaced by its word and the weight unchanged. */
  method MapTokens(explanation: seq<Attribution>, message: string) returns (mapped: seq<Attribution>)
    ensures |mapped| == |explanation|
    ensures forall i :: 0 <= i < |mapped| ==>
      mapped[i].0 == MatchWord(SplitWords(message), explanation[i].0) &&
      mapped[i].1 == explanation[i].1
  {
    var words := SplitWords(message);
    mapped := [];
    for i := 0 to |explanation|
      invariant |mapped| == i
      invariant forall k :: 0 <= k < i ==>
        mapped[k].0 == MatchWord(words, explanation[k].0) && mapped[k].1 == explanation[k].1
    {
      var (token, weight) := explanation[i];
      var word := FindMatch(words, token);
      mapped := mapped + [(word, weight)];
    }
  }

  // ---------------------------------------------------------------------
  // Percentages (app.py:71-73)

  function Abs(x: real): (r: real)
    ensures r >= 0.0 && (r == x || r == -x)
  {
    if x < 0.0 then -x else x
  }

  function Weights(entries: seq<Attribution>): (ws: seq<real>)
    ensures |ws| == |entries|
    ensures forall i :: 0 <= i < |ws| ==> ws[i] == entries[i].1
  {
    seq(|entries|, i requires 0 <= i < |entries| => entries[i].1)
  }

  function Sum(xs: seq<real>): real
    decreases |xs|
  {
    if xs == [] then 0.0 else xs[0] + Sum(xs[1..])
  }

  /** `sum(abs(w) for w in weights)`. */
  function SumAbs(ws: seq<real>): (r: real)
    ensures r >= 0.0
    decreases |ws|
  {
    if ws == [] then 0.0 else Abs(ws[0]) + SumAbs(ws[1..])
  }

  /** `sum(weights) if sum(weights) > 0 else 1`. */
  function Total(ws: seq<real>): (t: real)
    ensures t > 0.0
  {
    if SumAbs(ws) > 0.0 then SumAbs(ws) else 1.0
  }

  /** `abs(weight) / total * 100`, before rounding: never negative, zero
      exactly for a zero weight, and at most 100 when the weight's magnitude
      is at most the total. */
  function Percent(w: real, total: real): (r: real)
    requires total > 0.0
    ensures r >= 0.0
    ensures r == 0.0 <==> w == 0.0
    ensures Abs(w) <= total ==> r <= 100.0
  {
    Ratio(Abs(w), total);
    Abs(w) / total * 100.0
  }

  lemma Ratio(a: real, t: real)
    requires a >= 0.0 && t > 0.0
    ensures a / t >= 0.0
    ensures a / t == 0.0 <==> a == 0.0
    ensures a <= t ==> a / t <= 1.0
  {
    var q := a / t;
    assert a == q * t;
    if a <= t && q > 1.0 {
      assert q * t > 1.0 * t;
    }
  }

  /** Line 73 before rounding: each entry keeps its word and gets its
      share of the total magnitude, in percent. */
  function Percentages(mapped: seq<Attribution>): (r: seq<Attribution>)
    ensures |r| == |mapped|
    ensures forall i :: 0 <= i < |r| ==>
      r[i].0 == mapped[i].0 && r[i].1 == Percent(mapped[i].1, Total(Weights(mapped)))
  {
    var t := Total(Weights(mapped));
    seq(|mapped|, i requires 0 <= i < |mapped| => (mapped[i].0, Percent(mapped[i].1, t)))
  }

  /** Line 75: `top_words[:5]`. */
  function TopFive(entries: seq<Attribution>): (r: seq<Attribution>)
    ensures |r| == if |entries| < 5 then |entries| else 5
    ensures forall i :: 0 <= i < |r| ==> r[i] == entries[i]
  {
    if |entries| < 5 then entries else entries[..5]
  }

  // ---------------------------------------------------------------------
  // The whole tail

  /** Lines 65-75, given LIME's list and the message. */
  method ExplainTail(explanation: seq<Attribution>, message: string) returns (top: seq<Attribution>)
    ensures |top| == if |explanation| < 5 then |explanation| else 5
    ensures forall i :: 0 <= i < |top| ==>
      top[i].0 == MatchWord(SplitWords(message), explanation[i].0) &&
      top[i].1 == Percent(explanation[i].1, Total(Weights(explanation)))
    ensures forall i :: 0 <= i < |top| ==> 0.0 <= top[i].1 <= 100.0
    ensures Sum(Weights(top)) <= 100.0
  {
    var mapped := MapTokens(explanation, message);
    assert Weights(mapped) == Weights(explanation);
    top := TopFive(Percentages(mapped));
    PercentagesBounded(mapped);
    TopFiveAtMost100(mapped);
  }

  // ---------------------------------------------------------------------
  // Properties of the percentages

  /** Each magnitude is at most the sum of all of them. */
  lemma {:induction false} AbsAtMostSum(ws: seq<real>, i: nat)
    requires i < |ws|
    ensures Abs(ws[i]) <= SumAbs(ws)
    decreases |ws|
  {
    if i > 0 {
      AbsAtMostSum(ws[1..], i - 1);
    }
  }

  /** The magnitudes sum to zero exactly when every weight is zero. */
  lemma {:induction false} SumAbsZero(ws: seq<real>)
    ensures SumAbs(ws) == 0.0 <==> forall i :: 0 <= i < |ws| ==> ws[i] == 0.0
    decreases |ws|
  {
    if ws != [] {
      SumAbsZero(ws[1..]);
      if SumAbs(ws) == 0.0 {
        forall i | 0 <= i < |ws| ensures ws[i] == 0.0 {
          if i > 0 {
            assert ws[i] == ws[1..][i - 1];
          }
        }
      }
      if forall i :: 0 <= i < |ws| ==> ws[i] == 0.0 {
        forall i | 0 <= i < |ws[1..]| ensures ws[1..][i] == 0.0 {
          assert ws[1..][i] == ws[i + 1];
        }
      }
    }
  }

  /** Every percentage lies between 0 and 100. */
  lemma PercentagesBounded(mapped: seq<Attribution>)
    ensures forall i :: 0 <= i < |mapped| ==>
      0.0 <= Percentages(mapped)[i].1 <= 100.0
  {
    var ws := Weights(mapped);
    forall i | 0 <= i < |mapped| ensures 0.0 <= Percentages(mapped)[i].1 <= 100.0 {
      AbsAtMostSum(ws, i);
      SumAbsZero(ws);
    }
  }

  /** All percentages are zero exactly when all weights are zero. */
  lemma PercentagesAllZero(mapped: seq<Attribution>)
    ensures (forall i :: 0 <= i < |mapped| ==> Percentages(mapped)[i].1 == 0.0) <==>
      (forall i :: 0 <= i < |mapped| ==> mapped[i].1 == 0.0)
  {
    assert forall i :: 0 <= i < |mapped| ==> (Percentages(mapped)[i].1 == 0.0 <==> mapped[i].1 == 0.0);
  }

  /** When some weight is not zero, the percentages sum to 100. */
  lemma PercentagesSumTo100(mapped: seq<Attribution>)
    requires exists i :: 0 <= i < |mapped| && mapped[i].1 != 0.0
    ensures Sum(Weights(Percentages(mapped))) == 100.0
  {
    var ws := Weights(mapped);
    var t := Total(ws);
    var k :| 0 <= k < |mapped| && mapped[k].1 != 0.0;
    TotalIsSum(ws, k);
    PercentWeightsScaled(mapped);
    SumScaled(ws, t);
    ShareWhole(t);
  }

  /** With some non-zero weight, the divisor is the sum of magnitudes. */
  lemma TotalIsSum(ws: seq<real>, k: nat)
    requires k < |ws| && ws[k] != 0.0
    ensures Total(ws) == SumAbs(ws)
  {
    SumAbsZero(ws);
  }

  lemma PercentWeightsScaled(mapped: seq<Attribution>)
    ensures Weights(Percentages(mapped)) == Scaled(Weights(mapped), Total(Weights(mapped)))
  {
  }

  function Scaled(ws: seq<real>, t: real): (r: seq<real>)
    requires t > 0.0
    ensures |r| == |ws|
    ensures forall i :: 0 <= i < |r| ==> r[i] == Percent(ws[i], t)
  {
    seq(|ws|, i requires 0 <= i < |ws| => Percent(ws[i], t))
  }

  lemma {:induction false} SumScaled(ws: seq<real>, t: real)
    requires t > 0.0
    ensures Sum(Scaled(ws, t)) == SumAbs(ws) / t * 100.0
    decreases |ws|
  {
    if ws != [] {
      SumScaled(ws[1..], t);
      assert Scaled(ws, t)[1..] == Scaled(ws[1..], t);
      ShareAdd(Abs(ws[0]), SumAbs(ws[1..]), t);
    }
  }

  lemma ShareAdd(a: real, b: real, t: real)
    requires t > 0.0
    ensures a / t * 100.0 + b / t * 100.0 == (a + b) / t * 100.0
  {
    assert a / t + b / t == (a + b) / t;
  }

  lemma ShareWhole(t: real)
    requires t > 0.0
    ensures t / t * 100.0 == 100.0
  {
  }

  /** The sum of a prefix of non-negative numbers is at most the sum of
      all of them. */
  lemma {:induction false} SumPrefix(xs: seq<real>, n: nat)
    requires n <= |xs|
    requires forall i :: 0 <= i < |xs| ==> xs[i] >= 0.0
    ensures Sum(xs[..n]) <= Sum(xs)
    decreases |xs|
  {
    if xs != [] {
      SumNonNegative(xs[1..]);
      if n > 0 {
        assert xs[..n][1..] == xs[1..][..n - 1];
        SumPrefix(xs[1..], n - 1);
      } else {
        assert xs[..n] == [];
      }
    }
  }

  lemma {:induction false} SumNonNegative(xs: seq<real>)
    requires forall i :: 0 <= i < |xs| ==> xs[i] >= 0.0
    ensures Sum(xs) >= 0.0
    decreases |xs|
  {
    if xs != [] {
      SumNonNegative(xs[1..]);
    }
  }

  /** The five shares that are kept add up to at most 100. */
  lemma TopFiveAtMost100(mapped: seq<Attribution>)
    ensures Sum(Weights(TopFive(Percentages(mapped)))) <= 100.0
  {
    var p := Percentages(mapped);
    var xs := Weights(p);
    PercentagesBounded(mapped);
    var n := |TopFive(p)|;
    assert Weights(TopFive(p)) == xs[..n];
    SumPrefix(xs, n);
    if exists i :: 0 <= i < |mapped| && mapped[i].1 != 0.0 {
      PercentagesSumTo100(mapped);
    } else {
      PercentagesAllZero(mapped);
      assert forall i :: 0 <= i < |xs| ==> xs[i] == 0.0;
      SumZero(xs);
    }
  }

  lemma {:induction false} SumZero(xs: seq<real>)
    requires forall i :: 0 <= i < |xs| ==> xs[i] == 0.0
    ensures Sum(xs) == 0.0
    decreases |xs|
  {
    if xs != [] {
      SumZero(xs[1..]);
    }
  }

  /** A single entry with a non-zero weight gets all of it: 100 percent. */
  lemma SingleEntryIsWhole(mapped: seq<Attribution>)
    requires |mapped| == 1 && mapped[0].1 != 0.0
    ensures Percentages(mapped)[0].1 == 100.0
  {
    var ws := Weights(mapped);
    TotalIsSum(ws, 0);
    assert ws[1..] == [];
    ShareWhole(Abs(ws[0]));
  }

  /** The percentages keep the order of the magnitudes, in both
      directions. Nothing is re-sorted, so the result is in decreasing order
      of percentage exactly when LIME's entries are in decreasing order of
      magnitude. */
  lemma PercentagesMonotone(mapped: seq<Attribution>, i: nat, j: nat)
    requires i < |mapped| && j < |mapped|
    ensures Abs(mapped[i].1) <= Abs(mapped[j].1) <==>
      Percentages(mapped)[i].1 <= Percentages(mapped)[j].1
  {
    var t := Total(Weights(mapped));
    DivMonotone(Abs(mapped[i].1), Abs(mapped[j].1), t);
  }

  lemma DivMonotone(a: real, b: real, t: real)
    requires t > 0.0
    ensures a <= b <==> a / t * 100.0 <= b / t * 100.0
  {
    assert b / t - a / t == (b - a) / t;
  }
}
