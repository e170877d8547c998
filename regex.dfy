/** Python's `re.sub(pattern, repl, text)` for patterns that never match the
    empty string: scan left to right; where the pattern matches, emit `repl`
    and continue after the match, otherwise copy one character.

    A pattern is represented by its matcher: the length of its match at the
    head of a text, or 0 when it does not match there. */
module Regex {

  type Matcher = string -> int

  /** How many characters a match of length `n` at the head of `s`
      consumes: `n`, capped at what `s` holds. */
  function Consumed(n: int, s: string): nat {
    if n <= 0 then 0 else if n > |s| then |s| else n
  }

  /** The pattern matches at no position of `s`. */
  predicate NoMatchIn(m: Matcher, s: string) {
    forall i :: 0 <= i < |s| ==> m(s[i..]) <= 0
  }

  function Sub(m: Matcher, repl: string, s: string): string
    decreases |s|
  {
    if s == [] then []
    else if m(s) > 0 then repl + Sub(m, repl, s[Consumed(m(s), s)..])
    else [s[0]] + Sub(m, repl, s[1..])
  }

  /** Where the pattern matches nowhere in the first `k` positions, those
      characters are copied unchanged. */
  lemma {:induction false} SubSkip(m: Matcher, repl: string, s: string, k: nat)
    requires k <= |s|
    requires forall i :: 0 <= i < k ==> m(s[i..]) <= 0
    ensures Sub(m, repl, s) == s[..k] + Sub(m, repl, s[k..])
    decreases k
  {
    if k > 0 {
      var t := s[1..];
      assert m(s[0..]) <= 0 && s[0..] == s;
      assert Sub(m, repl, s) == [s[0]] + Sub(m, repl, t);
      forall i | 0 <= i < k - 1 ensures m(t[i..]) <= 0 {
        assert t[i..] == s[i + 1..];
      }
      SubSkip(m, repl, t, k - 1);
      assert t[k - 1..] == s[k..];
      assert s[..k] == [s[0]] + t[..k - 1];
    }
  }

  /** A text in which the pattern matches nowhere is left unchanged. */
  lemma SubNoMatch(m: Matcher, repl: string, s: string)
    requires NoMatchIn(m, s)
    ensures Sub(m, repl, s) == s
  {
    SubSkip(m, repl, s, |s|);
    assert s[..|s|] == s;
  }

  /** When every match would start with a character different from the
      first character of `repl`, the substitution leaves the text unchanged
      exactly when the pattern matches nowhere in it. */
  lemma {:induction false} SubFixpoint(m: Matcher, repl: string, s: string)
    requires repl != []
    requires forall i :: 0 <= i < |s| && m(s[i..]) > 0 ==> s[i] != repl[0]
    ensures Sub(m, repl, s) == s <==> NoMatchIn(m, s)
    decreases |s|
  {
    if NoMatchIn(m, s) {
      SubNoMatch(m, repl, s);
    } else if s != [] {
      assert s[0..] == s;
      if m(s) > 0 {
        assert Sub(m, repl, s)[0] == repl[0];
      } else {
        var t := s[1..];
        forall i | 0 <= i < |t| && m(t[i..]) > 0 ensures t[i] != repl[0] {
          assert t[i..] == s[i + 1..];
        }
        SubFixpoint(m, repl, t);
        var i :| 0 <= i < |s| && m(s[i..]) > 0;
        assert i > 0 && t[i - 1..] == s[i..];
        assert !NoMatchIn(m, t);
        assert Sub(m, repl, s) == [s[0]] + Sub(m, repl, t);
        assert Sub(m, repl, s)[1..] == Sub(m, repl, t) != t == s[1..];
      }
    }
  }

  /** Substitution distributes over concatenation when no match starting in
      `p` looks beyond the end of `p`. */
  lemma {:induction false} SubAppend(m: Matcher, repl: string, p: string, q: string)
    requires forall i :: 0 <= i < |p| ==> m(p[i..] + q) == m(p[i..]) <= |p| - i
    ensures Sub(m, repl, p + q) == Sub(m, repl, p) + Sub(m, repl, q)
    decreases |p|
  {
    if p == [] {
      assert p + q == q;
    } else {
      assert p[0..] == p;
      var k := if m(p) > 0 then m(p) else 1;
      assert (p + q)[k..] == p[k..] + q;
      forall i | 0 <= i < |p[k..]| ensures m(p[k..][i..] + q) == m(p[k..][i..]) <= |p[k..]| - i {
        assert p[k..][i..] == p[k + i..];
      }
      SubAppend(m, repl, p[k..], q);
      if m(p) <= 0 {
        assert (p + q)[0] == p[0];
      }
    }
  }

  /** A property of characters that `repl` has, and that every character
      copied unmatched has, holds of every character of the result. */
  lemma {:induction false} SubKeeps(m: Matcher, repl: string, s: string, ok: char -> bool)
    requires forall j :: 0 <= j < |repl| ==> ok(repl[j])
    requires forall i :: 0 <= i < |s| && m(s[i..]) <= 0 ==> ok(s[i])
    ensures forall j :: 0 <= j < |Sub(m, repl, s)| ==> ok(Sub(m, repl, s)[j])
    decreases |s|
  {
    if s != [] {
      assert s[0..] == s;
      var k := if m(s) > 0 then Consumed(m(s), s) else 1;
      var t := s[k..];
      forall i | 0 <= i < |t| && m(t[i..]) <= 0 ensures ok(t[i]) {
        assert t[i..] == s[k + i..];
      }
      SubKeeps(m, repl, t, ok);
      var head := if m(s) > 0 then repl else [s[0]];
      assert Sub(m, repl, s) == head + Sub(m, repl, t);
      forall j | 0 <= j < |Sub(m, repl, s)| ensures ok(Sub(m, repl, s)[j]) {
        if j >= |head| {
          assert Sub(m, repl, s)[j] == Sub(m, repl, t)[j - |head|];
        }
      }
    }
  }
}
