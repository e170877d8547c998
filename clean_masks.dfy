/** What each masking rewrite of `clean_text` does to one URL or one run of
    digits in context (app.py:19-22). */
module CleanMasks {
  import opened Text
  import opened Patterns
  import opened Regex
  import opened CleanText

  /** Lower-casing changes a text exactly when it holds a capital letter;
      in particular it is idempotent. */
  lemma LowercaseFixpoint(s: string)
    ensures Lowercase(s) == s <==> NoUpper(s)
    ensures Lowercase(Lowercase(s)) == Lowercase(s)
  {
  }

  // ---------------------------------------------------------------------
  // URLs

  /** A URL match never crosses whitespace: it does not depend on what
      follows a whitespace character. */
  lemma UrlMatchLocal(x: string, q: string)
    requires x != []
    requires q == [] || IsSpace(q[0]) || IsSpace(x[|x| - 1])
    ensures UrlMatch(x + q) == UrlMatch(x)
  {
    var t := x + q;
    forall i | 0 <= i < |x| ensures t[i] == x[i] {
    }
    if |x| <= 4 && |x| < |t| {
      assert IsSpace(t[|x|]) || IsSpace(t[|x| - 1]);
    }
    assert UrlAt(t) == UrlAt(x);
    if UrlAt(x) {
      if Run(IsNonSpace, x) < |x| {
        RunAppend(IsNonSpace, x, q);
      } else {
        RunAppendFull(IsNonSpace, x, q);
      }
    }
  }

  /** URL masking distributes over a split next to whitespace. */
  lemma MaskUrlsAppend(p: string, q: string)
    requires p == [] || q == [] || IsSpace(p[|p| - 1]) || IsSpace(q[0])
    ensures MaskUrls(p + q) == MaskUrls(p) + MaskUrls(q)
  {
    forall i | 0 <= i < |p| ensures UrlMatch(p[i..] + q) == UrlMatch(p[i..]) {
      assert p[i..][|p[i..]| - 1] == p[|p| - 1];
      UrlMatchLocal(p[i..], q);
    }
    SubAppend(UrlMatch, UrlTag, p, q);
  }

  /** In a word (a text without whitespace), everything from the first
      `http`/`www` followed by a further character to the end of the word
      becomes one `<URL>`; what precedes it is kept. */
  lemma MaskUrlsWord(w: string, k: nat)
    requires Run(IsNonSpace, w) == |w|
    requires k < |w| && UrlAt(w[k..])
    requires forall j :: 0 <= j < k ==> !UrlAt(w[j..])
    ensures MaskUrls(w) == w[..k] + UrlTag
  {
    forall j | 0 <= j < k ensures UrlMatch(w[j..]) <= 0 {
    }
    SubSkip(UrlMatch, UrlTag, w, k);
    WordSuffix(w, k);
    UrlWordMasked(w[k..]);
  }

  /** A suffix of a word is a word. */
  lemma WordSuffix(w: string, k: nat)
    requires Run(IsNonSpace, w) == |w| && k <= |w|
    ensures Run(IsNonSpace, w[k..]) == |w[k..]|
  {
    var t := w[k..];
    forall j | 0 <= j < |t| ensures IsNonSpace(t[j]) {
      assert t[j] == w[k + j];
    }
    RunUnique(IsNonSpace, t, |t|);
  }

  /** A word that starts with a URL is masked as a whole. */
  lemma UrlWordMasked(t: string)
    requires Run(IsNonSpace, t) == |t| && UrlAt(t)
    ensures MaskUrls(t) == UrlTag
  {
    assert Consumed(UrlMatch(t), t) == |t|;
    assert t[|t|..] == [];
    assert Sub(UrlMatch, UrlTag, t) == UrlTag + Sub(UrlMatch, UrlTag, []);
  }

  /** The same inside a text: a word with a URL in it, between whitespace
      (or the ends of the text), is masked on its own. */
  lemma MaskUrlsInText(p: string, w: string, q: string, k: nat)
    requires p == [] || IsSpace(p[|p| - 1])
    requires q == [] || IsSpace(q[0])
    requires Run(IsNonSpace, w) == |w|
    requires k < |w| && UrlAt(w[k..])
    requires forall j :: 0 <= j < k ==> !UrlAt(w[j..])
    ensures MaskUrls(p + w + q) == MaskUrls(p) + w[..k] + UrlTag + MaskUrls(q)
  {
    MaskUrlsAppend(p + w, q);
    MaskUrlsAppend(p, w);
    MaskUrlsWord(w, k);
    Regroup(MaskUrls(p + w + q), MaskUrls(p + w), MaskUrls(p), MaskUrls(w), w[..k], UrlTag, MaskUrls(q));
  }

  // ---------------------------------------------------------------------
  // Phone numbers

  /** A phone match that starts in `x` stays in `x` when `x` ends with a
      character that is not a digit, and when that character is a plus
      sign, `q` does not start with ten digits. */
  lemma PhoneMatchLocal(x: string, q: string)
    requires x != [] && !IsDigit(x[|x| - 1])
    requires x[|x| - 1] == '+' ==> Run(IsDigit, q) < 10
    ensures PhoneMatch(x + q) == PhoneMatch(x)
  {
    DigitRunStops(x, q);
    PlusRunLocal(x, q);
    PhoneMatchSame(x + q, x);
  }

  /** The digit run after the first character is not changed by appending
      `q` either, when it matters for a phone match. */
  lemma PlusRunLocal(x: string, q: string)
    requires x != [] && !IsDigit(x[|x| - 1])
    requires x[|x| - 1] == '+' ==> Run(IsDigit, q) < 10
    ensures x[0] == '+' && (Run(IsDigit, (x + q)[1..]) >= 10 || Run(IsDigit, x[1..]) >= 10) ==>
      Run(IsDigit, (x + q)[1..]) == Run(IsDigit, x[1..])
  {
    if |x| > 1 {
      assert (x + q)[1..] == x[1..] + q;
      assert x[1..][|x| - 2] == x[|x| - 1];
      DigitRunStops(x[1..], q);
    } else {
      assert (x + q)[1..] == q;
    }
  }

  /** A digit run that meets a non-digit inside `x` ends there. */
  lemma DigitRunStops(x: string, q: string)
    requires x != [] && !IsDigit(x[|x| - 1])
    ensures Run(IsDigit, x + q) == Run(IsDigit, x) < |x|
  {
    RunAppend(IsDigit, x, q);
  }

  /** A phone match depends only on the first character, on the digit run
      at the head and, after a plus sign, on the digit run that follows it. */
  lemma PhoneMatchSame(t: string, u: string)
    requires t != [] && u != [] && t[0] == u[0]
    requires Run(IsDigit, t) == Run(IsDigit, u)
    requires t[0] == '+' && (Run(IsDigit, t[1..]) >= 10 || Run(IsDigit, u[1..]) >= 10) ==>
      Run(IsDigit, t[1..]) == Run(IsDigit, u[1..])
    ensures PhoneMatch(t) == PhoneMatch(u)
  {
  }

  /** Phone masking distributes over a split after a character that is not
      a digit, unless that character is a plus sign in front of ten digits. */
  lemma MaskPhonesAppend(p: string, q: string)
    requires p == [] || !IsDigit(p[|p| - 1])
    requires p != [] && p[|p| - 1] == '+' ==> Run(IsDigit, q) < 10
    ensures MaskPhones(p + q) == MaskPhones(p) + MaskPhones(q)
  {
    forall i | 0 <= i < |p| ensures PhoneMatch(p[i..] + q) == PhoneMatch(p[i..]) {
      assert p[i..][|p[i..]| - 1] == p[|p| - 1];
      PhoneMatchLocal(p[i..], q);
    }
    SubAppend(PhoneMatch, PhoneTag, p, q);
  }

  /** A run of ten or more digits, with or without a plus sign in front:
      the plus sign and the first 13 digits (all of them, when there are
      at most 13) become one `<PHONE>`; the remaining digits are scanned
      again. */
  lemma MaskPhonesLongRun(p: string, plus: string, d: string, q: string)
    requires p == [] || (!IsDigit(p[|p| - 1]) && p[|p| - 1] != '+')
    requires plus == "" || plus == "+"
    requires |d| >= 10 && forall j :: 0 <= j < |d| ==> IsDigit(d[j])
    requires q == [] || !IsDigit(q[0])
    ensures MaskPhones(p + plus + d + q) == MaskPhones(p) + PhoneTag + MaskPhones(d[Min(|d|, 13)..] + q)
  {
    assert p + plus + d + q == p + (plus + d + q);
    MaskPhonesAppend(p, plus + d + q);
    MaskPhonesRunHead(plus, d, q);
    Regroup3(MaskPhones(p + plus + d + q), MaskPhones(p), PhoneTag, MaskPhones(d[Min(|d|, 13)..] + q));
  }

  /** The step of MaskPhonesLongRun at the start of the run. */
  lemma MaskPhonesRunHead(plus: string, d: string, q: string)
    requires plus == "" || plus == "+"
    requires |d| >= 10 && forall j :: 0 <= j < |d| ==> IsDigit(d[j])
    requires q == [] || !IsDigit(q[0])
    ensures MaskPhones(plus + d + q) == PhoneTag + MaskPhones(d[Min(|d|, 13)..] + q)
  {
    var t := plus + d + q;
    PhoneMatchRun(plus, d, q);
    assert t[|plus| + Min(|d|, 13)..] == d[Min(|d|, 13)..] + q;
  }

  /** At a run of ten or more digits, possibly after a plus sign, the phone
      pattern matches the plus sign and up to 13 digits. */
  lemma PhoneMatchRun(plus: string, d: string, q: string)
    requires plus == "" || plus == "+"
    requires |d| >= 10 && forall j :: 0 <= j < |d| ==> IsDigit(d[j])
    requires q == [] || !IsDigit(q[0])
    ensures PhoneMatch(plus + d + q) == |plus| + Min(|d|, 13)
  {
    DigitsThenStop(d, q);
    if plus == "+" {
      assert (plus + d + q)[1..] == d + q;
    } else {
      assert plus + d + q == d + q;
    }
  }

  /** The digit run at the head of `d + q` is all of `d` when `d` is all
      digits and `q` does not start with one. */
  lemma DigitsThenStop(d: string, q: string)
    requires forall j :: 0 <= j < |d| ==> IsDigit(d[j])
    requires q == [] || !IsDigit(q[0])
    ensures Run(IsDigit, d + q) == |d|
  {
    RunUnique(IsDigit, d, |d|);
    RunAppendFull(IsDigit, d, q);
  }

  /** A run of fewer than ten digits survives the phone pass unchanged. */
  lemma MaskPhonesShortRun(p: string, d: string, q: string)
    requires p == [] || !IsDigit(p[|p| - 1])
    requires |d| < 10 && forall j :: 0 <= j < |d| ==> IsDigit(d[j])
    requires q == [] || !IsDigit(q[0])
    ensures MaskPhones(p + d + q) == MaskPhones(p) + d + MaskPhones(q)
  {
    DigitsThenStop(d, q);
    assert p + d + q == p + (d + q);
    MaskPhonesAppend(p, d + q);
    MaskPhonesShortHead(d, q);
    Regroup3(MaskPhones(p + d + q), MaskPhones(p), d, MaskPhones(q));
  }

  /** The step of MaskPhonesShortRun at the start of the run. */
  lemma MaskPhonesShortHead(d: string, q: string)
    requires |d| < 10 && forall j :: 0 <= j < |d| ==> IsDigit(d[j])
    requires q == [] || !IsDigit(q[0])
    ensures MaskPhones(d + q) == d + MaskPhones(q)
  {
    var t := d + q;
    forall i | 0 <= i < |d| ensures PhoneMatch(t[i..]) <= 0 {
      assert t[i..] == d[i..] + q;
      DigitsThenStop(d[i..], q);
    }
    SubSkip(PhoneMatch, PhoneTag, t, |d|);
    assert t[..|d|] == d && t[|d|..] == q;
  }

  /** The phone pass keeps a last character that is not a digit. */
  lemma {:induction false} MaskPhonesLast(s: string)
    requires s != [] && !IsDigit(s[|s| - 1])
    ensures MaskPhones(s) != [] && !IsDigit(MaskPhones(s)[|MaskPhones(s)| - 1])
    decreases |s|
  {
    var k := if PhoneMatch(s) > 0 then PhoneMatch(s) else 1;
    var head := if PhoneMatch(s) > 0 then PhoneTag else [s[0]];
    var rest := s[k..];
    assert MaskPhones(s) == head + MaskPhones(rest);
    if rest == [] {
      assert k == |s|;
      assert PhoneMatch(s) == 0 ==> head == [s[|s| - 1]];
      assert MaskPhones(rest) == [];
    } else {
      assert rest[|rest| - 1] == s[|s| - 1];
      MaskPhonesLast(rest);
    }
  }

  // ---------------------------------------------------------------------
  // Numbers

  /** Number masking distributes over a split after a non-digit. */
  lemma MaskNumsAppend(p: string, q: string)
    requires p == [] || !IsDigit(p[|p| - 1])
    ensures MaskNums(p + q) == MaskNums(p) + MaskNums(q)
  {
    forall i | 0 <= i < |p| ensures NumMatch(p[i..] + q) == NumMatch(p[i..]) {
      assert p[i..][|p[i..]| - 1] == p[|p| - 1];
      RunAppend(IsDigit, p[i..], q);
    }
    SubAppend(NumMatch, NumTag, p, q);
  }

  /** Every maximal run of digits becomes one `<NUM>`. */
  lemma MaskNumsRun(p: string, d: string, q: string)
    requires p == [] || !IsDigit(p[|p| - 1])
    requires d != [] && forall j :: 0 <= j < |d| ==> IsDigit(d[j])
    requires q == [] || !IsDigit(q[0])
    ensures MaskNums(p + d + q) == MaskNums(p) + NumTag + MaskNums(q)
  {
    assert p + d + q == p + (d + q);
    MaskNumsAppend(p, d + q);
    MaskNumsRunHead(d, q);
    Regroup3(MaskNums(p + d + q), MaskNums(p), NumTag, MaskNums(q));
  }

  /** The step of MaskNumsRun at the start of the run. */
  lemma MaskNumsRunHead(d: string, q: string)
    requires d != [] && forall j :: 0 <= j < |d| ==> IsDigit(d[j])
    requires q == [] || !IsDigit(q[0])
    ensures MaskNums(d + q) == NumTag + MaskNums(q)
  {
    DigitsThenStop(d, q);
    assert (d + q)[|d|..] == q;
  }

  /** Number masking distributes over three pieces when the first two end
      with a non-digit. */
  lemma MaskNumsAppend3(a: string, b: string, c: string)
    requires a == [] || !IsDigit(a[|a| - 1])
    requires b != [] && !IsDigit(b[|b| - 1])
    ensures MaskNums(a + b + c) == MaskNums(a) + MaskNums(b) + MaskNums(c)
  {
    assert (a + b)[|a + b| - 1] == b[|b| - 1];
    MaskNumsAppend(a + b, c);
    MaskNumsAppend(a, b);
  }

  // ---------------------------------------------------------------------
  // Both passes together

  /** What a maximal run of `n` digits becomes after the phone and the
      number passes: chunks of up to 13 digits become `<PHONE>` while at
      least ten digits remain, and a shorter rest becomes `<NUM>`. */
  function DigitRunMask(n: nat): (r: string)
    ensures NoDigits(r)
    ensures 10 <= n <= 13 ==> r == PhoneTag
    ensures 0 < n < 10 ==> r == NumTag
    decreases n
  {
    if n >= 10 then PhoneTag + DigitRunMask(n - Min(n, 13))
    else if n > 0 then NumTag
    else []
  }

  /** A maximal run of digits, with an optional plus sign in front, goes
      through the phone and number passes as DigitRunMask says; a plus sign
      survives only in front of fewer than ten digits. */
  lemma {:induction false} DigitRunMasked(p: string, plus: string, d: string, q: string)
    requires p == [] || (!IsDigit(p[|p| - 1]) && p[|p| - 1] != '+')
    requires plus == "" || plus == "+"
    requires d != [] && forall j :: 0 <= j < |d| ==> IsDigit(d[j])
    requires q == [] || !IsDigit(q[0])
    ensures MaskNums(MaskPhones(p + plus + d + q)) ==
      MaskNums(MaskPhones(p)) + (if |d| < 10 then plus else []) + DigitRunMask(|d|) + MaskNums(MaskPhones(q))
    decreases |d|, 1
  {
    if |d| >= 10 {
      DigitRunMaskedLong(p, plus, d, q);
      var x := MaskNums(MaskPhones(p));
      assert x + [] == x;
    } else {
      DigitRunMaskedShort(p, plus, d, q);
    }
  }

  /** DigitRunMasked for a run of ten digits or more. */
  lemma {:induction false} DigitRunMaskedLong(p: string, plus: string, d: string, q: string)
    requires p == [] || (!IsDigit(p[|p| - 1]) && p[|p| - 1] != '+')
    requires plus == "" || plus == "+"
    requires |d| >= 10 && forall j :: 0 <= j < |d| ==> IsDigit(d[j])
    requires q == [] || !IsDigit(q[0])
    ensures MaskNums(MaskPhones(p + plus + d + q)) ==
      MaskNums(MaskPhones(p)) + DigitRunMask(|d|) + MaskNums(MaskPhones(q))
    decreases |d|, 0
  {
    var a := MaskPhones(p);
    var d' := d[Min(|d|, 13)..];
    var c := MaskPhones(d' + q);
    MaskPhonesLongRun(p, plus, d, q);
    if p != [] {
      MaskPhonesLast(p);
    }
    MaskNumsAppend3(a, PhoneTag, c);
    PhoneTagUnmasked();
    DigitsSuffix(d, Min(|d|, 13));
    RestOfRunMasked(d', q);
    Regroup4(MaskNums(MaskPhones(p + plus + d + q)), MaskNums(a), PhoneTag, DigitRunMask(|d'|), MaskNums(MaskPhones(q)));
  }

  lemma DigitsSuffix(d: string, k: nat)
    requires k <= |d| && forall j :: 0 <= j < |d| ==> IsDigit(d[j])
    ensures forall j :: 0 <= j < |d[k..]| ==> IsDigit(d[k..][j])
  {
    forall j | 0 <= j < |d[k..]| ensures IsDigit(d[k..][j]) {
      assert d[k..][j] == d[k + j];
    }
  }

  /** What follows the first 13 digits of a long run: the rest of the run,
      if any, then `q`. */
  lemma {:induction false} RestOfRunMasked(d: string, q: string)
    requires forall j :: 0 <= j < |d| ==> IsDigit(d[j])
    requires q == [] || !IsDigit(q[0])
    ensures MaskNums(MaskPhones(d + q)) == DigitRunMask(|d|) + MaskNums(MaskPhones(q))
    decreases |d|, 2
  {
    if d == [] {
      assert d + q == q;
    } else {
      DigitRunMasked([], "", d, q);
      assert [] + "" + d + q == d + q;
      EmptyUnmasked();
      DropEmpty(MaskNums(MaskPhones(d + q)), MaskNums(MaskPhones([])), if |d| < 10 then "" else [],
        DigitRunMask(|d|), MaskNums(MaskPhones(q)));
    }
  }

  /** DigitRunMasked for a run of fewer than ten digits. */
  lemma DigitRunMaskedShort(p: string, plus: string, d: string, q: string)
    requires p == [] || (!IsDigit(p[|p| - 1]) && p[|p| - 1] != '+')
    requires plus == "" || plus == "+"
    requires 0 < |d| < 10 && forall j :: 0 <= j < |d| ==> IsDigit(d[j])
    requires q == [] || !IsDigit(q[0])
    ensures MaskNums(MaskPhones(p + plus + d + q)) ==
      MaskNums(MaskPhones(p)) + plus + NumTag + MaskNums(MaskPhones(q))
  {
    var a := MaskPhones(p);
    var b := MaskPhones(q);
    ShortRunPhones(p, plus, d, q);
    if p != [] {
      MaskPhonesLast(p);
    }
    if q != [] {
      MaskPhonesFirst(q);
    }
    assert a + plus == [] || !IsDigit((a + plus)[|a + plus| - 1]);
    MaskNumsRun(a + plus, d, b);
    MaskNumsAppend(a, plus);
    PlusUnmasked();
  }

  /** The phone pass of DigitRunMaskedShort: the plus sign and the digits
      are kept. */
  lemma ShortRunPhones(p: string, plus: string, d: string, q: string)
    requires p == [] || (!IsDigit(p[|p| - 1]) && p[|p| - 1] != '+')
    requires plus == "" || plus == "+"
    requires 0 < |d| < 10 && forall j :: 0 <= j < |d| ==> IsDigit(d[j])
    requires q == [] || !IsDigit(q[0])
    ensures MaskPhones(p + plus + d + q) == MaskPhones(p) + plus + d + MaskPhones(q)
  {
    var p' := p + plus;
    assert p + plus + d + q == p' + d + q;
    assert p' == [] || !IsDigit(p'[|p'| - 1]);
    MaskPhonesShortRun(p', d, q);
    MaskPhonesAppend(p, plus);
    PlusUnmasked();
  }

  /** The phone pass keeps a first character that is not a digit. */
  lemma MaskPhonesFirst(s: string)
    requires s != [] && !IsDigit(s[0])
    ensures MaskPhones(s) != [] && !IsDigit(MaskPhones(s)[0])
  {
  }

  /** `<PHONE>` holds no digit, so the number pass leaves it alone. */
  lemma PhoneTagUnmasked()
    ensures MaskNums(PhoneTag) == PhoneTag
  {
    MaskNumsFixpoint(PhoneTag);
  }

  /** A lone plus sign is left alone by both passes. */
  lemma PlusUnmasked()
    ensures MaskNums("+") == "+" && MaskPhones("+") == "+"
  {
    MaskNumsFixpoint("+");
  }

  lemma EmptyUnmasked()
    ensures MaskNums([]) == [] && MaskPhones([]) == []
  {
  }

  /** Regrouping of concatenations, kept apart from the terms it is used on. */
  lemma Regroup(x: string, y: string, a: string, b: string, e: string, f: string, d: string)
    requires x == y + d && y == a + b && b == e + f
    ensures x == a + e + f + d
  {
  }

  lemma Regroup3(x: string, a: string, b: string, c: string)
    requires x == a + (b + c)
    ensures x == a + b + c
  {
  }

  lemma Regroup4(x: string, a: string, t: string, r: string, b: string)
    requires x == a + t + (r + b)
    ensures x == a + (t + r) + b
  {
  }

  lemma DropEmpty(x: string, e: string, f: string, y: string, b: string)
    requires e == [] && f == [] && x == e + f + y + b
    ensures x == y + b
  {
  }
}
