# SMS spam detector: text cleaning and explanation scoring

A model, in Dafny, of the two deterministic parts of the SMS spam
detector's `app.py`:

- `clean_text` (app.py:18-25). It lower-cases a message. It replaces URLs by
  `<URL>`, runs of 10 to 13 digits (optionally after a `+`) by `<PHONE>` and
  the remaining digit runs by `<NUM>`. It turns every character that is
  neither a word character nor whitespace into a space. Finally it collapses
  whitespace runs to one space and strips both ends.
- The tail of `explain_prediction` (app.py:64-75). LIME's `(token, weight)`
  list is mapped back onto the whitespace-separated words of the message:
  each token goes to the first word that contains it, or stays as the token
  itself. Each weight becomes its magnitude as a percentage of the total
  magnitude. The first five entries are kept.

Layout:

- `text.dfy` (`Text`): character classes, maximal runs, `str.split()` and
  `in` on strings.
- `patterns.dfy` (`Patterns`): the five regular expressions as matchers.
- `regex.dfy` (`Regex`): one generic `re.sub`.
- `clean.dfy` (`CleanText`): the five rewrites, `clean_text` itself, and
  what each masking pass leaves unchanged.
- `clean_masks.dfy` (`CleanMasks`): what the masking passes do to a URL or a
  digit run inside a longer text.
- `clean_words.dfy` (`CleanWords`): what the words of the output look like.
- `explain.dfy` (`Explain`):
  - the token-to-word mapping, as a `for` loop with the `next(...)` linear
    search as a `while` loop, both proved against specification functions;
  - the normalisation and the slice, as functions, with their properties as
    lemmas.

Two points of the code that the model keeps as they are:

- `token in word` is case-sensitive.
- Nothing is re-sorted. The result keeps LIME's order and takes its first
  five entries. `PercentagesMonotone` proves that one entry's percentage is
  at most another's exactly when its weight's magnitude is, so the output
  is in decreasing order of percentage exactly when LIME's list is in
  decreasing order of magnitude.

## Model

| member | source | states |
|---|---|---|
| Text.LowerChar | app.py:19 | `lower()` on one character: the result is never a capital; a non-capital is unchanged; a capital moves to its lower-case letter |
| Text.SplitWords | app.py:65 | `message.split()`: every word is non-empty and made only of non-whitespace characters |
| Text.Contains | app.py:68 | `token in word` holds exactly when the token occurs in the word at some index |
| Patterns.UrlMatch | app.py:20 | the pattern `http\S+` or `www\S+` matches exactly where `http` or `www` is followed by a non-whitespace character, and then takes the whole non-whitespace run |
| Patterns.PhoneMatch | app.py:21 | `\+?\d{10,13}` matches only at `+` or a digit; at a digit it matches exactly when at least ten digits follow |
| Patterns.NumMatch | app.py:22 | `\d+` matches exactly at a digit |
| Patterns.SymbolMatch | app.py:23 | `[^\w\s]` matches exactly at a character that is neither a word character nor whitespace, and takes that one character |
| Patterns.SpaceMatch | app.py:24 | `\s+` matches exactly at whitespace |
| Regex.Sub | app.py:20-24 | `re.sub` for a pattern that never matches the empty string; it has no contract of its own, and its properties are SubNoMatch, SubFixpoint, SubAppend and SubKeeps |
| Regex.SubNoMatch | app.py:20-24 | `re.sub` leaves a text in which the pattern matches nowhere unchanged |
| Regex.SubFixpoint | app.py:20-24 | when no match starts with the replacement's first character, `re.sub` leaves the text unchanged exactly when the pattern matches nowhere |
| Regex.SubAppend | app.py:20-24 | `re.sub` distributes over concatenation when no match crosses the boundary |
| Regex.SubKeeps | app.py:20-24 | a character property shared by the replacement and by every unmatched character holds of the whole result |
| CleanText.Lowercase | app.py:19 | the lower-cased text has the same length and no capitals; every non-capital character is kept and every capital becomes its lower-case letter (32 code points further) |
| CleanText.MaskUrls | app.py:20 | the URL pass; it has no contract of its own, and its properties are MaskUrlsFixpoint, MaskUrlsAppend and MaskUrlsInText |
| CleanText.MaskPhones | app.py:21 | the phone pass; it has no contract of its own, and its properties are MaskPhonesFixpoint, MaskPhonesLongRun, MaskPhonesShortRun and DigitRunMasked |
| CleanText.MaskNums | app.py:22 | after `<NUM>` masking no digit is left |
| CleanText.BlankSymbols | app.py:23 | each character that is neither a word character nor whitespace becomes a space, and every other character is kept |
| CleanText.CollapseSpaces | app.py:24 | the result is single-spaced, has the same words as the input, and holds only spaces or non-whitespace characters of the input |
| CleanText.StripEnd | app.py:24 | the right half of `strip()`: the result is a prefix of the input, what is cut off is all whitespace, and the result does not end in whitespace |
| CleanText.Strip | app.py:24 | `strip()` removes a whitespace prefix and suffix and nothing else; the result is trimmed and has the same words |
| CleanText.Masked | app.py:19-22 | lower-casing and the three masking passes leave no digit; MaskedTok and DigitRunMasked say what the text is made of |
| CleanText.Clean | app.py:18-25 | the output is trimmed and single-spaced, holds only word characters and spaces, and holds no digit |
| CleanText.MaskUrlsFixpoint | app.py:20 | URL masking changes a text exactly when `http` or `www` followed by a non-whitespace character occurs in it |
| CleanText.MaskPhonesFixpoint | app.py:21 | phone masking leaves no run of ten digits; it changes a text exactly when such a run occurs; it is idempotent |
| CleanText.MaskNumsFixpoint | app.py:22 | number masking changes a text exactly when it holds a digit, and it is idempotent |
| CleanMasks.LowercaseFixpoint | app.py:19 | lower-casing changes a text exactly when it holds a capital, and it is idempotent |
| CleanMasks.MaskUrlsAppend | app.py:20 | URL masking works separately on two texts joined at whitespace |
| CleanMasks.MaskUrlsInText | app.py:20 | in a whitespace-delimited word, everything from the first URL start onwards becomes `<URL>`; the text around the word is masked independently |
| CleanMasks.MaskPhonesLongRun | app.py:21 | a run of at least ten digits (with an optional `+`) loses its first 13 digits or fewer to one `<PHONE>`; the rest of the text is masked independently |
| CleanMasks.MaskPhonesShortRun | app.py:21 | a maximal run of fewer than ten digits is left as it is by phone masking |
| CleanMasks.MaskNumsRun | app.py:22 | a maximal digit run becomes exactly one `<NUM>` |
| CleanMasks.DigitRunMask | app.py:21-22 | what a run of n digits becomes: no digit is left; 10 to 13 digits give `<PHONE>`; 1 to 9 digits give `<NUM>` |
| CleanMasks.DigitRunMasked | app.py:21-22 | after both passes, a maximal digit run becomes DigitRunMask of its length; a `+` before it survives only when the run is shorter than ten digits |
| CleanWords.MaskedTok | app.py:19-22 | the lower-cased and masked text is made only of placeholders and single non-capital characters |
| CleanWords.PlaceholderIsWord | app.py:20-24 | once symbols are blanked, each placeholder becomes a word `URL`, `PHONE` or `NUM` of its own, between the words around it |
| CleanWords.CleanWordsOfMasked | app.py:23-24 | the output's words are those of the blanked, masked text |
| CleanWords.CleanWordsLowerOrPlaceholder | app.py:18-25 | every word of the output has no capital letter or is one of the placeholder words `URL`, `PHONE`, `NUM` |
| Explain.FirstContaining | app.py:68 | the first index whose word contains the token: that word contains it and no earlier one does; None only when no word contains it |
| Explain.MatchWordSpec | app.py:68 | the chosen word contains the token; it is the first containing word when one exists, and the token itself when none does |
| Explain.MatchWord | app.py:68 | the value of `next(...)`: it contains the token and is either one of the words or the token itself; MatchWordSpec says which |
| Explain.FindMatch | app.py:68 | the linear search returns MatchWord: the first word containing the token, or the token |
| Explain.MapTokens | app.py:65-69 | the mapped list has one entry per LIME entry, in the same order; each has the matched word and the unchanged weight |
| Explain.SumAbs | app.py:71-72 | `sum(weights)` of the magnitudes is never negative; SumAbsZero and AbsAtMostSum relate it to the weights |
| Explain.Total | app.py:72 | the divisor is always positive |
| Explain.Percent | app.py:73 | one percentage before rounding: never negative, 0 exactly for a zero weight, and at most 100 when the magnitude is at most the total |
| Explain.Percentages | app.py:71-73 | each entry keeps its word and gets its weight's magnitude divided by the total, times 100 |
| Explain.TopFive | app.py:75 | the slice has min(5, n) entries, which are the first ones in their original order |
| Explain.ExplainTail | app.py:64-75 | the result has min(5, n) entries; entry i is LIME entry i's matched word with its percentage; every percentage is in [0, 100]; they sum to at most 100 |
| Explain.AbsAtMostSum | app.py:71-72 | each weight's magnitude is at most the sum of the magnitudes |
| Explain.SumAbsZero | app.py:71-72 | the magnitudes sum to 0 exactly when every weight is 0 |
| Explain.PercentagesBounded | app.py:71-73 | every percentage lies in [0, 100] |
| Explain.PercentagesAllZero | app.py:71-73 | all percentages are 0 exactly when all weights are 0 |
| Explain.PercentagesSumTo100 | app.py:71-73 | when some weight is non-zero, the percentages sum to 100 |
| Explain.SingleEntryIsWhole | app.py:71-73 | a single entry with a non-zero weight gets 100 percent |
| Explain.TopFiveAtMost100 | app.py:71-75 | the kept percentages sum to at most 100 |
| Explain.PercentagesMonotone | app.py:73 | one entry's percentage is at most another's exactly when its weight's magnitude is |

## Left out

- The Flask app and the `/` route (app.py:15, 78-101): web I/O.
- Loading the pickled model and vectoriser (app.py:8-12): file I/O.
- `safe_predict_proba` (app.py:28-40) and `predict_sms` (app.py:43-50): they
  call a trained classifier and floating-point `numpy`, which are outside
  this model.
- `LimeTextExplainer` and `explain_instance` (app.py:54-62): a randomised
  surrogate fit. Its `(token, weight)` list is a parameter of
  `Explain.MapTokens` and `Explain.ExplainTail`.
- `str(text)` (app.py:19): the input is already a string.
- Explain.Percentages: uses exact real division. `round(..., 1)` (app.py:73)
  is not modelled, so the sum-to-100 property holds before rounding only.
  Weights are reals, not floats.
- Text.LowerChar: folds only the ASCII capitals. Python's `str.lower()`
  also folds non-ASCII letters.
- Text.IsDigit and Text.IsWord: approximate Python's Unicode `\d` and `\w`.
  Digits are the ASCII digits. Word characters are ASCII letters, digits,
  `_` and every non-ASCII character that is not whitespace. Whitespace
  (`\s`, `str.split()`, `strip()`) is the set Python's `str.isspace` accepts.
  What this loses on non-ASCII input, Bengali included:
  - Python's `\w` does not match combining marks (such as Bengali vowel
    signs), the danda `।`, curly quotes or emoji. Line 23 turns them into
    spaces, splitting a Bengali word at each vowel sign. The model keeps
    them.
  - Python's `\d` matches every Unicode decimal digit, Bengali `০`-`৯`
    included. Lines 21-22 mask them as `<PHONE>` or `<NUM>`. The model
    keeps them, and `Clean`'s digit-free promise covers ASCII digits only.
- `Regex.Sub` models `re.sub` only for patterns that never match the empty
  string. That holds for all five patterns of `clean_text`.
