/** Character classes, maximal runs, whitespace-delimited words and substring
    search: the parts of Python's `re` and `str` that app.py relies on.

    The classes are approximations of Python's Unicode tables (see README):
    digits are the ASCII digits, whitespace is the set that `str.isspace`
    accepts, word characters are ASCII letters, digits, `_` and every
    non-ASCII character that is not whitespace, and lower-casing folds the
    ASCII capitals only. */
module Text {

  predicate IsDigit(c: char) {
    '0' <= c <= '9'
  }

  predicate IsSpace(c: char) {
    c == ' ' || ('\t' <= c <= '\r') || ('\U{1c}' <= c <= '\U{1f}') ||
    c == '\U{85}' || c == '\U{a0}' || c == '\U{1680}' ||
    ('\U{2000}' <= c <= '\U{200a}') || c == '\U{2028}' || c == '\U{2029}' ||
    c == '\U{202f}' || c == '\U{205f}' || c == '\U{3000}'
  }

  predicate IsNonSpace(c: char) {
    !IsSpace(c)
  }

  predicate IsUpper(c: char) {
    'A' <= c <= 'Z'
  }

  predicate IsWord(c: char) {
    IsDigit(c) || IsUpper(c) || ('a' <= c <= 'z') || c == '_' ||
    ('\U{80}' <= c && !IsSpace(c))
  }

  /** Lower-casing of one character, as `str.lower` does it on ASCII. */
  function LowerChar(c: char): (r: char)
    ensures !IsUpper(r)
    ensures !IsUpper(c) ==> r == c
    ensures IsUpper(c) ==> r as int - c as int == 32
  {
    if IsUpper(c) then (c as int + 32) as char else c
  }

  predicate NoUpper(s: string) {
    forall i :: 0 <= i < |s| ==> !IsUpper(s[i])
  }

  predicate NoDigits(s: string) {
    forall i :: 0 <= i < |s| ==> !IsDigit(s[i])
  }

  predicate AllSpace(s: string) {
    forall i :: 0 <= i < |s| ==> IsSpace(s[i])
  }

  /** Length of the longest prefix of `t` whose characters all satisfy `p`:
      what a greedy `[p]*` matches at the head of `t`. */
  function Run(p: char -> bool, t: string): (n: nat)
    ensures n <= |t|
    ensures forall j :: 0 <= j < n ==> p(t[j])
    ensures n < |t| ==> !p(t[n])
    decreases |t|
  {
    if t != [] && p(t[0]) then 1 + Run(p, t[1..]) else 0
  }

  /** A run is determined by its two defining properties. */
  lemma RunUnique(p: char -> bool, t: string, n: nat)
    requires n <= |t|
    requires forall j :: 0 <= j < n ==> p(t[j])
    requires n < |t| ==> !p(t[n])
    ensures Run(p, t) == n
  {
  }

  /** A run that ends inside `a` is not affected by what follows `a`. */
  lemma RunAppend(p: char -> bool, a: string, b: string)
    requires Run(p, a) < |a|
    ensures Run(p, a + b) == Run(p, a)
  {
    var n := Run(p, a);
    assert (a + b)[n] == a[n];
    forall j | 0 <= j < n ensures p((a + b)[j]) {
      assert (a + b)[j] == a[j];
    }
    RunUnique(p, a + b, n);
  }

  /** A run that covers all of `a` continues into `b`. */
  lemma RunAppendFull(p: char -> bool, a: string, b: string)
    requires Run(p, a) == |a|
    ensures Run(p, a + b) == |a| + Run(p, b)
  {
    var n := |a| + Run(p, b);
    forall j | 0 <= j < n ensures p((a + b)[j]) {
      if j < |a| {
        assert (a + b)[j] == a[j];
      } else {
        assert (a + b)[j] == b[j - |a|];
      }
    }
    if n < |a + b| {
      assert (a + b)[n] == b[Run(p, b)];
    }
    RunUnique(p, a + b, n);
  }

  /** Python's `str.split()` without arguments: the maximal runs of
      non-whitespace characters, in order. */
  function SplitWords(s: string): (ws: seq<string>)
    ensures forall k :: 0 <= k < |ws| ==> ws[k] != [] && !IsSpace(ws[k][0])
    ensures forall k :: 0 <= k < |ws| ==> Run(IsNonSpace, ws[k]) == |ws[k]|
    decreases |s|
  {
    if s == [] then []
    else if IsSpace(s[0]) then SplitWords(s[1..])
    else
      var n := Run(IsNonSpace, s);
      RunUnique(IsNonSpace, s[..n], n);
      [s[..n]] + SplitWords(s[n..])
  }

  /** A string without whitespace is one word. */
  lemma SplitWordsOfWord(w: string)
    requires w != []
    requires Run(IsNonSpace, w) == |w|
    ensures SplitWords(w) == [w]
  {
    assert w[..|w|] == w;
    assert w[|w|..] == [];
  }

  /** Leading whitespace does not change the words. */
  lemma {:induction false} SplitWordsSkipSpaces(s: string, k: nat)
    requires k <= |s| && AllSpace(s[..k])
    ensures SplitWords(s[k..]) == SplitWords(s)
    decreases k
  {
    if k > 0 {
      assert IsSpace(s[..k][0]);
      assert s[1..][k - 1..] == s[k..];
      assert s[1..][..k - 1] == s[..k][1..];
      SplitWordsSkipSpaces(s[1..], k - 1);
    }
  }

  /** Prepending one non-space character either starts a new word (when
      what follows is empty or begins with whitespace) or extends the
      first word. */
  lemma SplitWordsCons(c: char, r: string)
    requires !IsSpace(c)
    ensures r == [] || IsSpace(r[0]) ==> SplitWords([c] + r) == [[c]] + SplitWords(r)
    ensures r != [] && !IsSpace(r[0]) ==>
      SplitWords(r) != [] &&
      SplitWords([c] + r) == [[c] + SplitWords(r)[0]] + SplitWords(r)[1..]
  {
    var s := [c] + r;
    assert s[1..] == r;
    assert Run(IsNonSpace, [c]) == 1;
    RunAppendFull(IsNonSpace, [c], r);
    var n := Run(IsNonSpace, s);
    assert s[n..] == r[n - 1..];
    if r != [] && !IsSpace(r[0]) {
      assert s[..n] == [c] + r[..n - 1];
    } else {
      assert n == 1;
      assert s[..n] == [c];
    }
  }

  /** `str.split()` turns one whitespace character into a word boundary:
      splitting distributes over concatenation around it. */
  lemma {:induction false} SplitWordsAppend(a: string, sp: char, b: string)
    requires IsSpace(sp)
    ensures SplitWords(a + [sp] + b) == SplitWords(a) + SplitWords(b)
    decreases |a|
  {
    if a == [] {
      assert a + [sp] + b == [sp] + b;
      assert ([sp] + b)[1..] == b;
    } else {
      var r := a[1..] + [sp] + b;
      assert a + [sp] + b == [a[0]] + r;
      SplitWordsAppend(a[1..], sp, b);
      if IsSpace(a[0]) {
        assert ([a[0]] + r)[1..] == r;
      } else {
        SplitWordsAppendWord(a, sp, b);
      }
    }
  }

  /** The step of SplitWordsAppend where `a` starts inside a word. */
  lemma SplitWordsAppendWord(a: string, sp: char, b: string)
    requires IsSpace(sp) && a != [] && !IsSpace(a[0])
    requires SplitWords(a[1..] + [sp] + b) == SplitWords(a[1..]) + SplitWords(b)
    ensures SplitWords(a + [sp] + b) == SplitWords(a) + SplitWords(b)
  {
    var c, t := a[0], a[1..];
    assert a == [c] + t;
    assert a + [sp] + b == [c] + (t + [sp] + b);
    if t != [] && !IsSpace(t[0]) {
      ConsExtends(c, t, sp, b);
    } else {
      ConsStarts(c, t, sp, b);
    }
  }

  lemma ConsExtends(c: char, t: string, sp: char, b: string)
    requires IsSpace(sp) && !IsSpace(c) && t != [] && !IsSpace(t[0])
    requires SplitWords(t + [sp] + b) == SplitWords(t) + SplitWords(b)
    ensures SplitWords([c] + (t + [sp] + b)) == SplitWords([c] + t) + SplitWords(b)
  {
    var r := t + [sp] + b;
    assert r[0] == t[0];
    SplitWordsCons(c, r);
    SplitWordsCons(c, t);
    SeqConsSplit([c], SplitWords(t), SplitWords(b));
  }

  lemma ConsStarts(c: char, t: string, sp: char, b: string)
    requires IsSpace(sp) && !IsSpace(c) && (t == [] || IsSpace(t[0]))
    requires SplitWords(t + [sp] + b) == SplitWords(t) + SplitWords(b)
    ensures SplitWords([c] + (t + [sp] + b)) == SplitWords([c] + t) + SplitWords(b)
  {
    var r := t + [sp] + b;
    assert IsSpace(r[0]);
    SplitWordsCons(c, r);
    SplitWordsCons(c, t);
  }

  lemma SeqConsSplit<T>(c: seq<T>, u: seq<seq<T>>, v: seq<seq<T>>)
    requires u != []
    ensures [c + (u + v)[0]] + (u + v)[1..] == [c + u[0]] + u[1..] + v
  {
    assert (u + v)[0] == u[0];
    assert (u + v)[1..] == u[1..] + v;
  }

  /** Trailing whitespace does not change the words. */
  lemma SplitWordsTrailingSpaces(a: string, b: string)
    requires AllSpace(b)
    ensures SplitWords(a + b) == SplitWords(a)
  {
    if b == [] {
      assert a + b == a;
    } else {
      var rest := b[1..];
      assert a + b == a + [b[0]] + rest;
      SplitWordsAppend(a, b[0], rest);
      assert rest[..|rest|] == rest;
      SplitWordsSkipSpaces(rest, |rest|);
      assert rest[|rest|..] == [];
    }
  }

  predicate IsPrefix(t: string, w: string) {
    |t| <= |w| && w[..|t|] == t
  }

  /** `t` occurs in `w` starting at index `i`. */
  predicate OccursAt(w: string, t: string, i: nat) {
    i + |t| <= |w| && w[i..i + |t|] == t
  }

  lemma OccursAtShift(w: string, t: string, i: nat)
    requires w != []
    ensures OccursAt(w, t, i + 1) <==> OccursAt(w[1..], t, i)
  {
    if i + 1 + |t| <= |w| {
      assert w[i + 1..i + 1 + |t|] == w[1..][i..i + |t|];
    }
  }

  /** Python's `t in w` on strings: `t` occurs in `w` as a contiguous
      substring (the empty string occurs in every string). Case-sensitive. */
  function Contains(w: string, t: string): (b: bool)
    ensures b <==> exists i: nat :: OccursAt(w, t, i)
    decreases |w|
  {
    if IsPrefix(t, w) then
      assert OccursAt(w, t, 0);
      true
    else if w == [] then
      false
    else
      var b := Contains(w[1..], t);
      if b then
        var i: nat :| OccursAt(w[1..], t, i);
        OccursAtShift(w, t, i);
        true
      else
        assert !exists i: nat :: OccursAt(w, t, i) by {
          forall i: nat ensures !OccursAt(w, t, i) {
            if i > 0 { OccursAtShift(w, t, i - 1); }
          }
        }
        false
  }
}
