/** The words of `clean_text`'s output (app.py:19-24). The placeholders are
    inserted in capitals after the text has been lower-cased, and their
    angle brackets become spaces when symbols are blanked: each placeholder
    turns into a word `URL`, `PHONE` or `NUM` of its own, and every other
    word of the output holds no capital letter. */
module CleanWords {
  import opened Text
  import opened Patterns
  import opened Regex
  import opened CleanText

  predicate IsTag(t: string) {
    t == UrlTag || t == PhoneTag || t == NumTag
  }

  /** The word a placeholder leaves behind once its brackets are blanked. */
  function TagWord(t: string): (w: string)
    requires IsTag(t)
    ensures PlaceholderWord(w)
  {
    t[1..|t| - 1]
  }

  predicate PlaceholderWord(w: string) {
    w == "URL" || w == "PHONE" || w == "NUM"
  }

  /** `t` is a sequence of pieces, each a placeholder or a single character
      that is not a capital letter: what the masking passes make of a
      lower-cased text. */
  predicate Tok(t: string)
    decreases |t|
  {
    t == [] ||
    (!IsUpper(t[0]) && Tok(t[1..])) ||
    (IsPrefix(UrlTag, t) && Tok(t[|UrlTag|..])) ||
    (IsPrefix(PhoneTag, t) && Tok(t[|PhoneTag|..])) ||
    (IsPrefix(NumTag, t) && Tok(t[|NumTag|..]))
  }

  /** Every word of `b` is free of capitals or is a placeholder word. */
  predicate WordsOk(b: string) {
    forall k :: 0 <= k < |SplitWords(b)| ==>
      NoUpper(SplitWords(b)[k]) || PlaceholderWord(SplitWords(b)[k])
  }

  /** When `b` starts inside a word, that first word is free of capitals. */
  predicate HeadOk(b: string) {
    b != [] && !IsSpace(b[0]) ==> SplitWords(b) != [] && NoUpper(SplitWords(b)[0])
  }

  // ---------------------------------------------------------------------
  // The masked text is a sequence of pieces

  lemma TagFacts(t: string)
    requires IsTag(t)
    ensures 2 < |t| && t[0] == '<' && t[|t| - 1] == '>'
    ensures forall j :: 0 < j < |t| - 1 ==> IsUpper(t[j])
    ensures forall j :: 0 <= j < |t| ==> t[j] != '+' && !IsDigit(t[j])
  {
  }

  /** Which placeholder a text made of pieces starts with, when it does not
      start with a single-character piece. */
  lemma TagPiece(s: string) returns (t: string)
    requires s != [] && Tok(s) && !(!IsUpper(s[0]) && Tok(s[1..]))
    ensures IsTag(t) && |t| <= |s| && s[..|t|] == t && Tok(s[|t|..])
  {
    if IsPrefix(UrlTag, s) && Tok(s[|UrlTag|..]) {
      t := UrlTag;
    } else if IsPrefix(PhoneTag, s) && Tok(s[|PhoneTag|..]) {
      t := PhoneTag;
    } else {
      t := NumTag;
    }
  }

  lemma TokCons(c: char, x: string)
    requires !IsUpper(c) && Tok(x)
    ensures Tok([c] + x)
  {
    assert ([c] + x)[1..] == x;
  }

  lemma TokTag(t: string, x: string)
    requires IsTag(t) && Tok(x)
    ensures Tok(t + x)
  {
    assert (t + x)[..|t|] == t;
    assert (t + x)[|t|..] == x;
  }

  /** A text without capitals is made of single-character pieces. */
  lemma {:induction false} LowerTok(s: string)
    requires NoUpper(s)
    ensures Tok(s)
    decreases |s|
  {
    if s != [] {
      LowerTok(s[1..]);
    }
  }

  /** Characters other than `<` can only be single-character pieces, so
      dropping them keeps the decomposition. */
  lemma {:induction false} TokDrop(x: string, k: nat)
    requires k <= |x| && Tok(x)
    requires forall j :: 0 <= j < k ==> x[j] != '<'
    ensures Tok(x[k..])
    decreases k
  {
    if k > 0 {
      assert x[0] != '<';
      assert Tok(x[1..]);
      assert x[1..][k - 1..] == x[k..];
      TokDrop(x[1..], k - 1);
    }
  }

  /** Any substitution by a placeholder in a text without capitals yields
      pieces. */
  lemma {:induction false} SubTokFromLower(m: Matcher, tag: string, s: string)
    requires IsTag(tag) && NoUpper(s)
    ensures Tok(Sub(m, tag, s))
    decreases |s|
  {
    if s != [] {
      if m(s) > 0 {
        var k := Consumed(m(s), s);
        SubTokFromLower(m, tag, s[k..]);
        TokTag(tag, Sub(m, tag, s[k..]));
      } else {
        SubTokFromLower(m, tag, s[1..]);
        TokCons(s[0], Sub(m, tag, s[1..]));
      }
    }
  }

  /** A match at the head of `t` covers only plus signs and digits. */
  predicate DigitMatchAt(m: Matcher, t: string) {
    m(t) > 0 ==> forall j :: 0 <= j < m(t) && j < |t| ==> t[j] == '+' || IsDigit(t[j])
  }

  lemma PhoneDigitMatch(t: string)
    ensures DigitMatchAt(PhoneMatch, t)
  {
    if t != [] && t[0] == '+' && Run(IsDigit, t[1..]) >= 10 {
      forall j | 0 < j < PhoneMatch(t) ensures IsDigit(t[j]) {
        assert t[j] == t[1..][j - 1];
      }
    }
  }

  lemma NumDigitMatch(t: string)
    ensures DigitMatchAt(NumMatch, t)
  {
  }

  /** A substitution whose matches cover only plus signs and digits keeps a
      text made of pieces made of pieces: it never starts inside a
      placeholder, and it replaces single-character pieces only. */
  lemma {:induction false} SubTok(m: Matcher, tag: string, s: string)
    requires IsTag(tag) && Tok(s)
    requires forall i :: 0 <= i < |s| ==> DigitMatchAt(m, s[i..])
    ensures Tok(Sub(m, tag, s))
    decreases |s|
  {
    if s == [] {
    } else if !IsUpper(s[0]) && Tok(s[1..]) {
      assert s[0..] == s;
      if m(s) > 0 {
        var k := Consumed(m(s), s);
        forall j | 0 <= j < k - 1 ensures s[1..][j] != '<' {
          assert s[1..][j] == s[j + 1];
        }
        TokDrop(s[1..], k - 1);
        assert s[1..][k - 1..] == s[k..];
        SubTokRest(m, tag, s, k);
        TokTag(tag, Sub(m, tag, s[k..]));
      } else {
        SubTokRest(m, tag, s, 1);
        TokCons(s[0], Sub(m, tag, s[1..]));
      }
    } else {
      var t := TagPiece(s);
      TagFacts(t);
      forall i | 0 <= i < |t| ensures m(s[i..]) <= 0 {
        assert s[i] == s[..|t|][i] == t[i];
        assert s[i..][0] == s[i];
      }
      SubSkip(m, tag, s, |t|);
      SubTokRest(m, tag, s, |t|);
      TokTag(t, Sub(m, tag, s[|t|..]));
    }
  }

  /** The recursive step of SubTok, on what follows the first `k`
      characters. */
  lemma {:induction false} SubTokRest(m: Matcher, tag: string, s: string, k: nat)
    requires IsTag(tag) && 0 < k <= |s| && Tok(s[k..])
    requires forall i :: 0 <= i < |s| ==> DigitMatchAt(m, s[i..])
    ensures Tok(Sub(m, tag, s[k..]))
    decreases |s|, 0
  {
    forall i | 0 <= i < |s[k..]| ensures DigitMatchAt(m, s[k..][i..]) {
      assert s[k..][i..] == s[k + i..];
    }
    SubTok(m, tag, s[k..]);
  }

  /** The text after lower-casing and masking is made of pieces. */
  lemma MaskedTok(text: string)
    ensures Tok(Masked(text))
  {
    var l := Lowercase(text);
    SubTokFromLower(UrlMatch, UrlTag, l);
    var u := MaskUrls(l);
    forall i | 0 <= i < |u| ensures DigitMatchAt(PhoneMatch, u[i..]) {
      PhoneDigitMatch(u[i..]);
    }
    SubTok(PhoneMatch, PhoneTag, u);
    var p := MaskPhones(u);
    forall i | 0 <= i < |p| ensures DigitMatchAt(NumMatch, p[i..]) {
      NumDigitMatch(p[i..]);
    }
    SubTok(NumMatch, NumTag, p);
  }

  // ---------------------------------------------------------------------
  // Blanking symbols turns each placeholder into a word

  /** Blanking works character by character, so it distributes over
      concatenation. */
  lemma BlankAppend(a: string, b: string)
    ensures BlankSymbols(a + b) == BlankSymbols(a) + BlankSymbols(b)
  {
    var l, r := BlankSymbols(a + b), BlankSymbols(a) + BlankSymbols(b);
    forall i | 0 <= i < |l| ensures l[i] == r[i] {
      if i < |a| {
        assert (a + b)[i] == a[i];
      } else {
        assert (a + b)[i] == b[i - |a|];
      }
    }
  }

  lemma BlankTag(t: string)
    requires IsTag(t)
    ensures BlankSymbols(t) == [' '] + TagWord(t) + [' ']
  {
    TagFacts(t);
    var l, r := BlankSymbols(t), [' '] + TagWord(t) + [' '];
    forall i | 0 <= i < |t| ensures l[i] == r[i] {
      if 0 < i < |t| - 1 {
        assert IsUpper(t[i]) && r[i] == t[i];
      }
    }
  }

  /** A placeholder word between two spaces is a word of its own. */
  lemma WordsOfTag(w: string, b: string)
    requires PlaceholderWord(w)
    ensures SplitWords([' '] + w + [' '] + b) == [w] + SplitWords(b)
  {
    RunUnique(IsNonSpace, w, |w|);
    SplitWordsOfWord(w);
    var a := [' '] + w;
    SplitWordsAppend(a, ' ', b);
    SplitWordsSkipSpaces(a, 1);
    assert a[1..] == w;
  }

  lemma WordsOkTag(w: string, b: string)
    requires PlaceholderWord(w) && WordsOk(b)
    ensures WordsOk([' '] + w + [' '] + b) && HeadOk([' '] + w + [' '] + b)
  {
    WordsOfTag(w, b);
  }

  lemma WordsOkCons(c: char, b: string)
    requires !IsUpper(c) && WordsOk(b) && HeadOk(b)
    ensures WordsOk([c] + b) && HeadOk([c] + b)
  {
    var x := [c] + b;
    if IsSpace(c) {
      assert x[..1] == [c];
      SplitWordsSkipSpaces(x, 1);
      assert x[1..] == b;
    } else {
      SplitWordsCons(c, b);
    }
  }

  /** Blanking the symbols of a text made of pieces gives words that are
      free of capitals or are placeholder words. */
  lemma {:induction false} BlankedWords(s: string)
    requires Tok(s)
    ensures WordsOk(BlankSymbols(s)) && HeadOk(BlankSymbols(s))
    decreases |s|
  {
    if s == [] {
    } else if !IsUpper(s[0]) && Tok(s[1..]) {
      assert s == [s[0]] + s[1..];
      BlankAppend([s[0]], s[1..]);
      BlankedWords(s[1..]);
      WordsOkCons(BlankSymbols([s[0]])[0], BlankSymbols(s[1..]));
      assert BlankSymbols([s[0]]) == [BlankSymbols([s[0]])[0]];
    } else {
      var t := TagPiece(s);
      assert s == s[..|t|] + s[|t|..];
      BlankAppend(t, s[|t|..]);
      BlankTag(t);
      BlankedWords(s[|t|..]);
      WordsOkTag(TagWord(t), BlankSymbols(s[|t|..]));
    }
  }

  // ---------------------------------------------------------------------
  // The words of the output

  /** Collapsing whitespace and stripping do not change the words: the
      words of the output are those of the blanked, masked text. */
  lemma CleanWordsOfMasked(text: string)
    ensures SplitWords(Clean(text)) == SplitWords(BlankSymbols(Masked(text)))
  {
  }

  /** Every word of `clean_text`'s output is free of capital letters, or is
      one of the placeholder words `URL`, `PHONE` and `NUM`. */
  lemma CleanWordsLowerOrPlaceholder(text: string)
    ensures forall k :: 0 <= k < |SplitWords(Clean(text))| ==>
      NoUpper(SplitWords(Clean(text))[k]) || PlaceholderWord(SplitWords(Clean(text))[k])
  {
    MaskedTok(text);
    BlankedWords(Masked(text));
    CleanWordsOfMasked(text);
  }

  /** A placeholder in the masked text becomes a word of its own in the
      output, between the words of what precedes it and the words of what
      follows it. */
  lemma PlaceholderIsWord(x: string, t: string, y: string)
    requires IsTag(t)
    ensures SplitWords(BlankSymbols(x + t + y)) ==
      SplitWords(BlankSymbols(x)) + [TagWord(t)] + SplitWords(BlankSymbols(y))
  {
    var w := TagWord(t);
    BlankAppend(x + t, y);
    BlankAppend(x, t);
    BlankTag(t);
    WordBetweenSpaces(BlankSymbols(x), w, BlankSymbols(y));
  }

  lemma WordBetweenSpaces(a: string, w: string, b: string)
    requires PlaceholderWord(w)
    ensures SplitWords(a + ([' '] + w + [' ']) + b) == SplitWords(a) + [w] + SplitWords(b)
  {
    var r := w + [' '] + b;
    SpaceRegroup(a, w, b);
    SplitWordsAppend(a, ' ', r);
    RunUnique(IsNonSpace, w, |w|);
    SplitWordsOfWord(w);
    SplitWordsAppend(w, ' ', b);
    Assoc(SplitWords(a), [w], SplitWords(b));
  }

  lemma SpaceRegroup(a: string, w: string, b: string)
    ensures a + ([' '] + w + [' ']) + b == a + [' '] + (w + [' '] + b)
  {
  }

  lemma Assoc<T>(x: seq<T>, y: seq<T>, z: seq<T>)
    ensures x + (y + z) == x + y + z
  {
  }
}
