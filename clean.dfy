/** `clean_text` (app.py:18-25): lower-case the message, mask URLs, phone
    numbers and the remaining numbers with placeholders, blank out every
    symbol and normalise whitespace. Each `re.sub` is one `Regex.Sub` with the
    pattern's matcher. */
module CleanText {
  import opened Text
  import opened Patterns
  import opened Regex

  const UrlTag := "<URL>"
  const PhoneTag := "<PHONE>"
  const NumTag := "<NUM>"

  // ---------------------------------------------------------------------
  // Properties the steps establish

  /** No run of ten or more digits starts anywhere in `s`. */
  predicate NoLongDigitRun(s: string) {
    forall i :: 0 <= i < |s| ==> Run(IsDigit, s[i..]) < 10
  }

  /** Every whitespace character is a plain space and none is followed by
      another whitespace character. */
  predicate SingleSpaced(s: string) {
    forall i :: 0 <= i < |s| && IsSpace(s[i]) ==>
      s[i] == ' ' && (i + 1 < |s| ==> !IsSpace(s[i + 1]))
  }

  /** Neither the first nor the last character is whitespace. */
  predicate Trimmed(s: string) {
    s == [] || (!IsSpace(s[0]) && !IsSpace(s[|s| - 1]))
  }

  /** `r` is `s` with a whitespace prefix of length `a` and a whitespace
      suffix removed. */
  predicate StrippedAt(r: string, s: string, a: nat) {
    a + |r| <= |s| && s[a..a + |r|] == r && AllSpace(s[..a]) && AllSpace(s[a + |r|..])
  }

  predicate CleanChar(c: char) {
    (IsWord(c) || c == ' ') && !IsDigit(c)
  }

  // ---------------------------------------------------------------------
  // The five rewrites

  /** `str(text).lower()`. */
  function Lowercase(s: string): (r: string)
    ensures |r| == |s| && NoUpper(r)
    ensures forall i :: 0 <= i < |s| && !IsUpper(s[i]) ==> r[i] == s[i]
    ensures forall i :: 0 <= i < |s| && IsUpper(s[i]) ==> r[i] as int == s[i] as int + 32
  {
    seq(|s|, i requires 0 <= i < |s| => LowerChar(s[i]))
  }

  /** `re.sub(r"http\S+|www\S+", "<URL>", text)`. */
  function MaskUrls(s: string): string {
    Sub(UrlMatch, UrlTag, s)
  }

  /** `re.sub(r"\+?\d{10,13}", "<PHONE>", text)`. */
  function MaskPhones(s: string): string {
    Sub(PhoneMatch, PhoneTag, s)
  }

  /** `re.sub(r"\d+", "<NUM>", text)`. */
  function MaskNums(s: string): (r: string)
    ensures NoDigits(r)
  {
    SubKeeps(NumMatch, NumTag, s, IsNotDigit);
    Sub(NumMatch, NumTag, s)
  }

  predicate IsNotDigit(c: char) {
    !IsDigit(c)
  }

  /** `re.sub(r"[^\w\s]", " ", text)`: every character that is neither a
      word character nor whitespace becomes a space; the rest is kept. */
  function BlankSymbols(s: string): (r: string)
    ensures |r| == |s|
    ensures forall i :: 0 <= i < |s| ==>
      r[i] == if IsWord(s[i]) || IsSpace(s[i]) then s[i] else ' '
  {
    BlankSymbolsPointwise(s);
    Sub(SymbolMatch, " ", s)
  }

  /** `re.sub(r"\s+", " ", text)`: every whitespace run becomes one space;
      the words of the text do not change. */
  function CollapseSpaces(s: string): (r: string)
    ensures SingleSpaced(r)
    ensures SplitWords(r) == SplitWords(s)
    ensures forall j :: 0 <= j < |r| ==> r[j] == ' ' || (!IsSpace(r[j]) && r[j] in s)
  {
    CollapseSingleSpaced(s);
    CollapseWords(s);
    SubKeeps(SpaceMatch, " ", s, c => c == ' ' || (!IsSpace(c) && c in s));
    Sub(SpaceMatch, " ", s)
  }

  /** `text.strip()`: whitespace removed at both ends, nothing else. */
  function Strip(s: string): (r: string)
    ensures Trimmed(r)
    ensures exists a: nat :: StrippedAt(r, s, a)
    ensures SplitWords(r) == SplitWords(s)
  {
    var a := Run(IsSpace, s);
    StripFacts(s, a);
    StripEnd(s[a..])
  }

  /** Removing the leading whitespace run and then the trailing whitespace
      leaves a trimmed infix with the same words. */
  lemma StripFacts(s: string, a: nat)
    requires a == Run(IsSpace, s)
    ensures Trimmed(StripEnd(s[a..]))
    ensures StrippedAt(StripEnd(s[a..]), s, a)
    ensures SplitWords(StripEnd(s[a..])) == SplitWords(s)
  {
    StripInfix(s, a);
    SplitWordsSkipSpaces(s, a);
    StripEndWords(s[a..]);
  }

  lemma StripInfix(s: string, a: nat)
    requires a <= |s| && AllSpace(s[..a])
    ensures StrippedAt(StripEnd(s[a..]), s, a)
  {
    var r := StripEnd(s[a..]);
    assert s[a..][..|r|] == s[a..a + |r|];
    assert s[a..][|r|..] == s[a + |r|..];
  }

  /** `rstrip()` keeps the words. */
  lemma StripEndWords(t: string)
    ensures SplitWords(StripEnd(t)) == SplitWords(t)
  {
    var r := StripEnd(t);
    SplitWordsTrailingSpaces(r, t[|r|..]);
    assert r + t[|r|..] == t;
  }

  /** `str.rstrip()`. */
  function StripEnd(s: string): (r: string)
    ensures |r| <= |s| && r == s[..|r|] && AllSpace(s[|r|..])
    ensures r == [] || !IsSpace(r[|r| - 1])
    decreases |s|
  {
    if s != [] && IsSpace(s[|s| - 1]) then
      var r := StripEnd(s[..|s| - 1]);
      assert s[..|s| - 1][..|r|] == s[..|r|];
      assert s[|r|..] == s[..|s| - 1][|r|..] + [s[|s| - 1]];
      r
    else
      s
  }

  /** Lines 19-22 of `clean_text`: lower-casing and the three masking
      passes. */
  function Masked(text: string): (r: string)
    ensures NoDigits(r)
  {
    MaskNums(MaskPhones(MaskUrls(Lowercase(text))))
  }

  /** The whole of `clean_text`. */
  function Clean(text: string): (r: string)
    ensures Trimmed(r) && SingleSpaced(r)
    ensures forall i :: 0 <= i < |r| ==> IsWord(r[i]) || r[i] == ' '
    ensures NoDigits(r)
  {
    var nums := Masked(text);
    var blanked := BlankSymbols(nums);
    BlankedClean(nums);
    CollapsedClean(blanked);
    StripClean(CollapseSpaces(blanked));
    Strip(CollapseSpaces(blanked))
  }

  /** Stripping a single-spaced text of clean characters yields a trimmed,
      single-spaced text of clean characters. */
  lemma StripClean(s: string)
    requires SingleSpaced(s)
    requires forall j :: 0 <= j < |s| ==> CleanChar(s[j])
    ensures Trimmed(Strip(s)) && SingleSpaced(Strip(s))
    ensures forall j :: 0 <= j < |Strip(s)| ==> CleanChar(Strip(s)[j])
  {
    var r := Strip(s);
    var a: nat :| StrippedAt(r, s, a);
    InfixKeeps(s, r, a);
  }

  /** After symbols are blanked in a digit-free text, every character is a
      word character or whitespace, and none is a digit. */
  lemma BlankedClean(s: string)
    requires NoDigits(s)
    ensures forall j :: 0 <= j < |BlankSymbols(s)| ==>
      (IsWord(BlankSymbols(s)[j]) || IsSpace(BlankSymbols(s)[j])) && !IsDigit(BlankSymbols(s)[j])
  {
  }

  /** Collapsing whitespace in such a text leaves only clean characters. */
  lemma CollapsedClean(s: string)
    requires forall j :: 0 <= j < |s| ==> (IsWord(s[j]) || IsSpace(s[j])) && !IsDigit(s[j])
    ensures forall j :: 0 <= j < |CollapseSpaces(s)| ==> CleanChar(CollapseSpaces(s)[j])
  {
    var r := CollapseSpaces(s);
    forall j | 0 <= j < |r| ensures CleanChar(r[j]) {
      if r[j] != ' ' {
        var i :| 0 <= i < |s| && s[i] == r[j];
      }
    }
  }

  /** Clean characters and single spacing survive taking an infix. */
  lemma InfixKeeps(s: string, r: string, a: nat)
    requires a + |r| <= |s| && r == s[a..a + |r|]
    requires SingleSpaced(s)
    requires forall j :: 0 <= j < |s| ==> CleanChar(s[j])
    ensures SingleSpaced(r)
    ensures forall j :: 0 <= j < |r| ==> CleanChar(r[j])
  {
    forall j | 0 <= j < |r| ensures CleanChar(r[j]) && r[j] == s[a + j] {
      assert r[j] == s[a + j];
    }
  }

  // ---------------------------------------------------------------------
  // What each masking rewrite leaves unchanged

  /** URL masking changes a text exactly when `http` or `www` followed by
      a non-whitespace character occurs in it. */
  lemma MaskUrlsFixpoint(s: string)
    ensures MaskUrls(s) == s <==> forall i :: 0 <= i < |s| ==> !UrlAt(s[i..])
  {
    SubFixpoint(UrlMatch, UrlTag, s);
  }

  /** Phone masking changes a text exactly when a run of ten or more digits
      occurs in it; what it produces holds no such run, so a second pass
      changes nothing. */
  lemma MaskPhonesFixpoint(s: string)
    ensures NoLongDigitRun(MaskPhones(s))
    ensures MaskPhones(s) == s <==> NoLongDigitRun(s)
    ensures MaskPhones(MaskPhones(s)) == MaskPhones(s)
  {
    SubFixpoint(PhoneMatch, PhoneTag, s);
    PhoneMatchesExactlyLongRuns(s);
    MaskPhonesNoLongRun(s);
    var r := MaskPhones(s);
    SubFixpoint(PhoneMatch, PhoneTag, r);
    PhoneMatchesExactlyLongRuns(r);
  }

  /** Number masking changes a text exactly when it holds a digit, and a
      second pass changes nothing. */
  lemma MaskNumsFixpoint(s: string)
    ensures MaskNums(s) == s <==> NoDigits(s)
    ensures MaskNums(MaskNums(s)) == MaskNums(s)
  {
    SubFixpoint(NumMatch, NumTag, s);
    SubFixpoint(NumMatch, NumTag, MaskNums(s));
  }

  // ---------------------------------------------------------------------
  // Lemmas behind the contracts of the rewrites

  /** A phone match starts exactly where a run of at least ten digits
      starts, or at a plus sign just before one. */
  lemma PhoneMatchesExactlyLongRuns(s: string)
    ensures NoMatchIn(PhoneMatch, s) <==> NoLongDigitRun(s)
  {
    if !NoMatchIn(PhoneMatch, s) {
      var i :| 0 <= i < |s| && PhoneMatch(s[i..]) != 0;
      var t := s[i..];
      if t[0] == '+' && Run(IsDigit, t[1..]) >= 10 {
        assert s[i + 1..] == t[1..];
      }
    }
    if !NoLongDigitRun(s) {
      var i :| 0 <= i < |s| && Run(IsDigit, s[i..]) >= 10;
      assert PhoneMatch(s[i..]) > 0;
    }
  }

  /** The head of the masked text starts no longer digit run than the
      text did, and never one of ten digits or more. */
  lemma {:induction false} MaskPhonesHead(s: string)
    ensures Run(IsDigit, Sub(PhoneMatch, PhoneTag, s)) <= Run(IsDigit, s)
    ensures Run(IsDigit, Sub(PhoneMatch, PhoneTag, s)) < 10
    decreases |s|
  {
    if s != [] && PhoneMatch(s) == 0 && IsDigit(s[0]) {
      MaskPhonesHead(s[1..]);
      var r := Sub(PhoneMatch, PhoneTag, s[1..]);
      assert Sub(PhoneMatch, PhoneTag, s) == [s[0]] + r;
      assert ([s[0]] + r)[1..] == r;
    }
  }

  lemma {:induction false} MaskPhonesNoLongRun(s: string)
    ensures NoLongDigitRun(Sub(PhoneMatch, PhoneTag, s))
    decreases |s|
  {
    if s != [] {
      var k := if PhoneMatch(s) > 0 then PhoneMatch(s) else 1;
      MaskPhonesNoLongRun(s[k..]);
      MaskPhonesStep(s);
    }
  }

  /** One step of MaskPhonesNoLongRun: what is emitted for the head of `s`
      keeps the property of the rest. */
  lemma MaskPhonesStep(s: string)
    requires s != []
    requires NoLongDigitRun(Sub(PhoneMatch, PhoneTag, s[if PhoneMatch(s) > 0 then PhoneMatch(s) else 1..]))
    ensures NoLongDigitRun(Sub(PhoneMatch, PhoneTag, s))
  {
    MaskPhonesHead(s);
    var r := Sub(PhoneMatch, PhoneTag, s);
    if PhoneMatch(s) > 0 {
      var rest := Sub(PhoneMatch, PhoneTag, s[PhoneMatch(s)..]);
      assert r == PhoneTag + rest;
      TagNoLongDigitRun(PhoneTag, rest);
    } else {
      var rest := Sub(PhoneMatch, PhoneTag, s[1..]);
      assert r == [s[0]] + rest;
      NoLongDigitRunCons([s[0]], rest);
    }
  }

  lemma TagNoLongDigitRun(tag: string, rest: string)
    requires tag == PhoneTag
    requires NoLongDigitRun(rest)
    ensures NoLongDigitRun(tag + rest)
  {
    assert Run(IsDigit, tag + rest) == 0;
    NoLongDigitRunCons(tag, rest);
  }

  /** A text keeps short digit runs when its head does and the rest of its
      first piece holds no digit. */
  lemma NoLongDigitRunCons(head: string, rest: string)
    requires NoLongDigitRun(rest)
    requires Run(IsDigit, head + rest) < 10
    requires forall i :: 0 < i < |head| ==> !IsDigit(head[i])
    ensures NoLongDigitRun(head + rest)
  {
    var r := head + rest;
    forall i | 0 <= i < |r| ensures Run(IsDigit, r[i..]) < 10 {
      if i >= |head| {
        assert r[i..] == rest[i - |head|..];
      } else if i > 0 {
        assert r[i] == head[i];
      }
    }
  }

  lemma {:induction false} BlankSymbolsPointwise(s: string)
    ensures |Sub(SymbolMatch, " ", s)| == |s|
    ensures forall i :: 0 <= i < |s| ==>
      Sub(SymbolMatch, " ", s)[i] == if IsWord(s[i]) || IsSpace(s[i]) then s[i] else ' '
    decreases |s|
  {
    if s != [] {
      BlankSymbolsPointwise(s[1..]);
      var r := Sub(SymbolMatch, " ", s);
      var c := if IsWord(s[0]) || IsSpace(s[0]) then s[0] else ' ';
      assert r == [c] + Sub(SymbolMatch, " ", s[1..]);
      forall i | 0 < i < |s| ensures r[i] == if IsWord(s[i]) || IsSpace(s[i]) then s[i] else ' ' {
        assert s[1..][i - 1] == s[i];
      }
    }
  }

  /** The first character of the collapsed text: none for an empty text,
      otherwise a space for leading whitespace, and the first character
      itself for anything else. */
  lemma CollapseHead(s: string)
    ensures Sub(SpaceMatch, " ", s) == [] <==> s == []
    ensures s != [] && IsSpace(s[0]) ==> Sub(SpaceMatch, " ", s)[0] == ' '
    ensures s != [] && !IsSpace(s[0]) ==> Sub(SpaceMatch, " ", s)[0] == s[0]
  {
  }

  lemma {:induction false} CollapseSingleSpaced(s: string)
    ensures SingleSpaced(Sub(SpaceMatch, " ", s))
    decreases |s|
  {
    if s != [] {
      var k := if SpaceMatch(s) > 0 then SpaceMatch(s) else 1;
      var rest := Sub(SpaceMatch, " ", s[k..]);
      CollapseSingleSpaced(s[k..]);
      CollapseHead(s[k..]);
      var r := Sub(SpaceMatch, " ", s);
      var head := if SpaceMatch(s) > 0 then " " else [s[0]];
      assert r == head + rest;
      forall i | 0 <= i < |r| && IsSpace(r[i]) ensures r[i] == ' ' && (i + 1 < |r| ==> !IsSpace(r[i + 1])) {
        if i > 0 {
          assert r[i] == rest[i - 1];
          if i + 1 < |r| { assert r[i + 1] == rest[i]; }
        } else if i + 1 < |r| {
          assert r[1] == rest[0];
          assert SpaceMatch(s) > 0;
          assert s[k..] != [] ==> !IsSpace(s[k..][0]);
        }
      }
    }
  }

  lemma {:induction false} CollapseWords(s: string)
    ensures SplitWords(Sub(SpaceMatch, " ", s)) == SplitWords(s)
    decreases |s|
  {
    if s != [] {
      var r := Sub(SpaceMatch, " ", s);
      if IsSpace(s[0]) {
        var k := SpaceMatch(s);
        var rest := Sub(SpaceMatch, " ", s[k..]);
        CollapseWords(s[k..]);
        assert r == " " + rest;
        assert r[1..] == rest;
        SplitWordsSkipSpaces(s, k);
      } else {
        var t := s[1..];
        var rest := Sub(SpaceMatch, " ", t);
        CollapseWords(t);
        CollapseHead(t);
        assert r == [s[0]] + rest;
        assert s == [s[0]] + t;
        SplitWordsCons(s[0], rest);
        SplitWordsCons(s[0], t);
      }
    }
  }
}
