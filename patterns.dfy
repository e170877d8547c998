/** The regular expressions of `clean_text` (app.py:20-24), each given by
    its matcher: the length of its match at the head of a text, 0 when it
    does not match there. All of them are greedy and none matches the empty
    string; the ones `Regex.Sub` is applied to are UrlMatch, PhoneMatch,
    NumMatch, SymbolMatch and SpaceMatch. */
module Patterns {
  import opened Text

  function Min(a: nat, b: nat): nat {
    if a <= b then a else b
  }

  /** `http\S+|www\S+` matches at the head of `t`. */
  predicate UrlAt(t: string) {
    (|t| > 4 && t[0] == 'h' && t[1] == 't' && t[2] == 't' && t[3] == 'p' && !IsSpace(t[4])) ||
    (|t| > 3 && t[0] == 'w' && t[1] == 'w' && t[2] == 'w' && !IsSpace(t[3]))
  }

  /** `http\S+|www\S+`: the literal prefix, then greedily every following
      non-whitespace character. */
  function UrlMatch(t: string): (n: int)
    ensures 0 <= n <= |t|
    ensures n > 0 <==> UrlAt(t)
    ensures n > 0 ==> n == Run(IsNonSpace, t) && (t[0] == 'h' || t[0] == 'w')
  {
    if UrlAt(t) then
      var h := if t[0] == 'h' then 4 else 3;
      RunUnique(IsNonSpace, t[..h], h);
      RunAppendFull(IsNonSpace, t[..h], t[h..]);
      assert t[..h] + t[h..] == t;
      h + Run(IsNonSpace, t[h..])
    else
      0
  }

  /** `\+?\d{10,13}`: an optional plus sign, then between 10 and 13 digits,
      as many as there are. When the plus sign is not followed by ten
      digits, the match is tried again without it (and fails, since `+` is
      not a digit). */
  function PhoneMatch(t: string): (n: int)
    ensures 0 <= n <= |t|
    ensures n > 0 ==> t[0] == '+' || IsDigit(t[0])
    ensures t != [] && IsDigit(t[0]) ==> (n > 0 <==> Run(IsDigit, t) >= 10)
  {
    if t != [] && t[0] == '+' && Run(IsDigit, t[1..]) >= 10 then
      1 + Min(Run(IsDigit, t[1..]), 13)
    else if Run(IsDigit, t) >= 10 then
      Min(Run(IsDigit, t), 13)
    else
      0
  }

  /** `\d+`. */
  function NumMatch(t: string): (n: int)
    ensures 0 <= n <= |t|
    ensures n > 0 <==> t != [] && IsDigit(t[0])
  {
    Run(IsDigit, t)
  }

  /** `[^\w\s]`: one character that is neither a word character nor
      whitespace. */
  function SymbolMatch(t: string): (n: int)
    ensures 0 <= n <= |t|
    ensures n > 0 <==> t != [] && !IsWord(t[0]) && !IsSpace(t[0])
    ensures n > 0 ==> n == 1
  {
    if t != [] && !IsWord(t[0]) && !IsSpace(t[0]) then 1 else 0
  }

  /** `\s+`. */
  function SpaceMatch(t: string): (n: int)
    ensures 0 <= n <= |t|
    ensures n > 0 <==> t != [] && IsSpace(t[0])
  {
    Run(IsSpace, t)
  }

}
