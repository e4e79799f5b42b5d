# patentparser claim analysis in Dafny

This project models the claim-text analysis of `patentparser`. A patent
claim string such as `"1. A method of ..., comprising: ...; and ...."` is
taken apart by a few sequential rules:

- the claim number is read and taken off the text (`get_number`);
- the claim is classed as a `"method"` or a `"system"` claim
  (`detect_category`);
- the claim it depends on is found, or 0 for an independent claim
  (`detect_dependency`);
- the text is cut into features at `;`, `,`+newline, `:` and the final
  full stop (`split_into_features`);
- the nouns are picked out of the tagged words (`nouns`);
- the noun phrases of a chunk tree are printed one per line (`traverse`);
- the sentences of a claim set are paired into claims (`extract_claims`).

Each regular expression of the original is written as a scanner over the
string. For `\d+\.` (`NumberMatch`, `FirstNumberMatch`) and for the
category expression (`MethodPatternAt`, `TokenSeq`) a separate
declarative statement of what the expression matches stands beside the
scanner, and lemmas prove that the scanner finds the leftmost match. The
delimiter expression of `split_into_features` and the two dependency
expressions are stated directly as scanners (`DelimiterAt` with
`CommaEnd`, `ClaimDigits`, `DependencyAt`, `PrecedingRefAt`), whose
comments give the order in which the alternatives are tried. Only the
search over positions has a separate statement there: `First` and
`FindIter`, with their lemmas.

Modules:

- `Text` (`text.dfy`): character classes; `str.strip`; decimal numerals
  and `int`; the left-to-right search `re.search` performs; substring
  tests (`in`).
- `ClaimText` (`claim_text.dfy`): `get_number`, `detect_category` and
  `detect_dependency`.
- `Features` (`features.dfy`): the delimiter expression, `finditer`, and
  the loop of `split_into_features` as a method proved against a
  specification function.
- `NounPhrases` (`noun_phrases.dfy`): chunk trees. `traverse` appears both
  as a function returning the printed strings and as a `Printer` class
  whose recursive `Walk` method appends to an output field.
- `Claims` (`claims.dfy`): `nouns`, and the `Claim` class whose
  constructor runs the pipeline of `Claim.__init__`.
- `Claimset` (`claimset.dfy`): the pairing of `extract_claims`.

Points where the code decides something a reader might expect otherwise:

- `get_number` looks for the first run of digits followed by a full stop
  anywhere in the text, not only at its start. A number can therefore be
  read from the middle of an unnumbered claim ("... of 2.5 mm"). The
  number may be 0.
- `extract_claims` keeps an unpaired last sentence as a claim of its own,
  because the slice `sent_list[i:i+2]` is cut short at the end of the
  list. Nothing is dropped.
- Category and dependency are computed on the text with the number taken
  off, because `self.text` is reassigned before they run.
- The `(of|for)?` that ends the category expression and the groups after
  the claim number in the dependency expression can match the empty
  string. They therefore decide neither whether there is a match nor
  which number is read, and the model leaves them out of the scanners.

## Model

| member | source | states |
|---|---|---|
| Text.Strip | patentparser/core.py:59 | the stripped text is no longer than the input and, when non-empty, has no whitespace at either end |
| Text.StripSlice | patentparser/core.py:59 | stripping removes whitespace from the two ends and nothing else: the result is a slice of the input with only whitespace before and after it |
| Text.StripKeeps | patentparser/core.py:59 | stripping leaves a text unchanged exactly when it is empty or has no whitespace at either end |
| Text.StripIdempotent | patentparser/core.py:59 | stripping twice is stripping once |
| Text.NatToDigits | patentparser/core.py:58 | a printed number is a non-empty digit string without a leading zero |
| Text.DigitsRoundTrip | patentparser/core.py:58 | `int` of the printed number `n` is `n` |
| Text.DigitsValue | patentparser/core.py:58 | `int` of a digit string, read left to right in base ten; `DigitsRoundTrip` shows it inverts `NatToDigits` |
| Text.First | patentparser/core.py:55 | the search returns the least position in the range that satisfies the test, or nothing when no position does |
| Text.Contains | patentparser/core.py:18 | `pat in s` holds exactly when `pat` occurs in `s` at some position |
| ClaimText.NumberMatch | patentparser/core.py:54 | `\d+\.` matches `s[i..e + 1]`: a non-empty digit run and then a full stop |
| ClaimText.FirstNumberMatch | patentparser/core.py:55 | the match `search` reports is the one that starts leftmost; `NumberFound` and `GetNumber` connect it to the scanner |
| ClaimText.NumberAtMatches | patentparser/core.py:54 | a match of `\d+\.` at a position uses the whole greedy digit run there, and the scanner accepts exactly the positions where the expression matches |
| ClaimText.NumberFound | patentparser/core.py:55 | the first position the scanner accepts starts the leftmost match |
| ClaimText.NumberAbsent | patentparser/core.py:55-62 | when the scanner accepts no position, `\d+\.` matches nowhere |
| ClaimText.NumberStart | patentparser/core.py:54-55 | the search result is the first accepted position, or nothing when no position is accepted |
| ClaimText.GetNumber | patentparser/core.py:52-63 | with no digits-then-full-stop match, there is no number and the text is the input unchanged; otherwise the number is the value of the digits of the leftmost match and the text is what follows its full stop, stripped |
| ClaimText.GetNumberAtStart | patentparser/core.py:56-59 | a text that opens with digits and a full stop is numbered by those digits, and the text after the full stop is kept stripped |
| ClaimText.GetNumberOfNumbered | patentparser/core.py:52-63 | a claim written as the numeral of `n`, a full stop and a body yields number `n` and the stripped body |
| ClaimText.PhraseFromSound | patentparser/core.py:67 | when the phrase scanner accepts, a run of `[\w-]+\s` tokens followed by `method` or `process` and whitespace follows the article |
| ClaimText.PhraseFromComplete | patentparser/core.py:67 | every such run of tokens followed by the keyword is found by the scanner |
| ClaimText.PhraseFromCorrect | patentparser/core.py:67 | the phrase scanner accepts exactly when some `[\w-]+\s` tokens, then `method` or `process`, then whitespace match there |
| ClaimText.MethodPatternAt | patentparser/core.py:67 | the category expression matches at a position: an article, whitespace, `[\w-]+\s` tokens, and `method` or `process` with whitespace; `MethodAtCorrect` ties it to the scanner |
| ClaimText.MethodAtCorrect | patentparser/core.py:67 | the scanner accepts a position exactly when the category expression matches there: `A`, `An` or `The`, whitespace, tokens, then `method` or `process` and whitespace |
| ClaimText.DetectCategory | patentparser/core.py:65-73 | the category is "method" or "system", and it is "method" exactly when the category expression matches somewhere in the text |
| ClaimText.ClaimDigits | patentparser/core.py:95 | a match of whitespace, `Claim` or `claim`, an optional `s`, whitespace and a digit starts with whitespace and gives the position of its first digit, at least seven characters on |
| ClaimText.PrefixLength | patentparser/core.py:95 | the optional `of`, `to`, `with` or `in` is absent or two or four characters long, and lies inside the text |
| ClaimText.DependencyAt | patentparser/core.py:95 | the dependency expression matches at a position: the greedy optional prefix is tried first, and without it the match starts at the whitespace; `DetectDependency` reads the first such match |
| ClaimText.PrecedingRefAt | patentparser/core.py:102 | the fallback expression matches at a position: whitespace, `preceding` or `previous`, whitespace, and `Claim` or `claim`; `DetectDependency` gives 1 exactly when it matches somewhere |
| ClaimText.PrefixNotSpace | patentparser/core.py:95 | the optional `of`, `to`, `with` or `in` holds no whitespace, so it never moves the leftmost reference |
| ClaimText.DetectDependency | patentparser/core.py:93-109 | with a numbered claim reference, the dependency is the value of the digit run at the first such reference; without one, it is 1 if a "preceding/previous claim" phrase occurs and 0 otherwise |
| ClaimText.ClaimNumberTakesPriority | patentparser/core.py:97-107 | when both a numbered reference and a "preceding claims" phrase occur, the number of the earliest reference wins |
| Features.CommaEnd | patentparser/core.py:118 | the comma alternative `,.?(and)?\n` ends on the newline after the comma, two to six characters on |
| Features.DelimiterAt | patentparser/core.py:118 | a delimiter match at a position is non-empty and ends inside the text |
| Features.FindIter | patentparser/core.py:120 | the reported spans are non-empty, inside the text, in order and without overlap |
| Features.FindIterSound | patentparser/core.py:120 | each reported span is a match of the delimiter expression, from its start to its end |
| Features.FindIterComplete | patentparser/core.py:120 | every position where the delimiter expression matches lies inside some reported span |
| Features.FeaturesOf | patentparser/core.py:115-127 | the feature list the loop builds from the reported spans, feature k running from the end of span k - 1 (0 for the first) to the end of span k; its properties are the lemmas below |
| Features.FeaturesOfEnds | patentparser/core.py:120-124 | there is one feature per match, ending where the match ends |
| Features.FeaturesOfSegments | patentparser/core.py:115-127 | the first feature starts at 0, each later one starts where the previous one ends, and each is a non-empty slice of the text that carries exactly that slice |
| Features.FeaturesOfConcat | patentparser/core.py:115-127 | the feature texts, concatenated, are the text up to the end of the last match |
| Features.SplitIntoFeatures | patentparser/core.py:111-132 | the loop builds the feature list of the reported matches; the list cuts the text into consecutive slices from 0; the slices concatenate to the text up to the last end; the list is empty exactly when no delimiter occurs |
| Features.FeatureListFacts | patentparser/core.py:115-127 | the feature list of a text cuts it into consecutive slices, concatenates to its prefix up to the last end, and is empty exactly when no delimiter occurs |
| Features.NoFeaturesWithoutDelimiter | patentparser/core.py:118-120 | `finditer` reports nothing exactly when the delimiter expression matches at no position |
| Features.LastFeatureReachesEnd | patentparser/core.py:118 | when the text ends in a full stop followed only by whitespace, the last feature ends at the end of the text, except where a comma, that full stop and a newline come before further whitespace |
| Features.CommaSwallowsFinalStop | patentparser/core.py:118 | on `",.\n\n"` the comma alternative takes the full stop as its `.?` character, so the only feature stops before the final whitespace |
| NounPhrases.Traverse | patentparser/core.py:9-24 | what `traverse(t, np)` prints; `OneLinePerPhrase` and `PrintsPhraseWords` state what that output is |
| NounPhrases.TraverseAll | patentparser/core.py:19-23 | the children of a node walked left to right with one flag; `TraverseAllAppend` and the lemmas beside `Traverse` state its output |
| NounPhrases.TraverseAllAppend | patentparser/core.py:19-23 | walking two lists of children one after the other prints what each prints, in order |
| NounPhrases.Printer.Walk | patentparser/core.py:9-24 | the walk appends to the output exactly what `traverse(t, np)` prints |
| NounPhrases.Printer.WalkChildren | patentparser/core.py:19-23 | the loop over the children appends what each child's walk prints, left to right |
| NounPhrases.OneLinePerPhrase | patentparser/core.py:21-24 | the output holds exactly one line break per noun-phrase node the walk reaches |
| NounPhrases.OneLinePerPhraseAll | patentparser/core.py:19-23 | the same count for a list of children |
| NounPhrases.PhraseWords | patentparser/core.py:10-23 | the words of the noun phrases the walk reaches, defined apart from the walk: at a reached noun-phrase node, its leaf children's tokens in child order, interleaved with what its nested nodes give |
| NounPhrases.PrintsPhraseWords | patentparser/core.py:10-24 | walked from the root, the output with its line breaks removed is exactly the words of the reached noun phrases, each followed by a space, in tree order; with `OneLinePerPhrase` this fixes the output up to where the line breaks fall |
| NounPhrases.PrintsPhraseWordsAll | patentparser/core.py:18-20 | children walked with the flag cleared print exactly the words of the noun phrases reached below them |
| NounPhrases.PrintsPhraseChildWords | patentparser/core.py:21-23 | children walked with the flag set print each leaf child's token and then the words of the phrases reached through node children, in child order |
| NounPhrases.NothingWithoutPhrases | patentparser/core.py:16-24 | a tree with no "NP" label prints nothing |
| Claims.Nouns | patentparser/core.py:48-50 | the words whose tag contains "NN", in order; `NounsAtPositions`, `NounsMembers` and `NounsAppend` state which words these are |
| Claims.NounPositions | patentparser/core.py:50 | every noun position lies inside the tagged word list |
| Claims.NounPositionsExact | patentparser/core.py:50 | the noun positions increase and are exactly the positions whose tag contains "NN" |
| Claims.NounsAtPositions | patentparser/core.py:48-50 | the nouns are the words at the noun positions, one for one and in order |
| Claims.NounsMembers | patentparser/core.py:50 | a word is among the nouns exactly when it occurs with a tag that contains "NN" |
| Claims.NounsAppend | patentparser/core.py:50 | the nouns of two tagged lists, one after the other, are the nouns of each in turn |
| Claims.Claim.constructor | patentparser/core.py:29-46 | number and text come from reading the number off the claim string; category, dependency, words, tags and features are all computed on the remaining text; the features cut that text into consecutive slices |
| Claimset.JoinSpace | patentparser/core.py:144 | `" ".join(xs)`: the strings with one space between neighbours; `ExtractClaimsKeepsText` relies on it |
| Claimset.PairAt | patentparser/core.py:144 | `sents[i:i+2]` holds sentence i and, when there is one, sentence i + 1, and nothing else |
| Claimset.ExtractClaims | patentparser/core.py:144 | the claims: each slice starting at an even index, joined with a space; `ExtractClaimsPairs` states each claim and how many there are |
| Claimset.ExtractClaimsPairs | patentparser/core.py:144 | for n sentences there are ⌈n/2⌉ claims; claim k is sentence 2k, a space and sentence 2k+1, or sentence 2k alone when it is the last |
| Claimset.ExtractClaimsCons | patentparser/core.py:144 | the claims are the first two sentences joined, then the claims of the rest |
| Claimset.ExtractClaimsKeepsText | patentparser/core.py:137-145 | the claims joined with spaces spell out the sentences joined with spaces, so no sentence is lost |

## Left out

- The NLTK word tokenizer, part-of-speech tagger and sentence splitter
  (core.py:41, 43, 141) are foreign code. The `Claim` constructor takes
  the tokenizer and the tagger as function parameters, and
  `ExtractClaims` takes the sentence list.
- `determine_entities` and its `RegexpParser` chunk grammar
  (core.py:75-87) are a foreign engine. The chunk tree is an input to
  `Traverse`. `print_nps` (core.py:89-91) is then a `Printer.Walk` from
  the root with the flag cleared.
- Console output in `traverse`: the printed strings are collected in
  order instead (a token and a space per `print(t[0], end=" ")`, a line
  break per `print("")`).
- `xrange` at core.py:144 exists only in Python 2. The model is the
  intended pairing over indices 0, 2, 4, ...
- The commented-out downloads and regular expressions (core.py:5-7, 117,
  129).
- Unicode: `\s` and `str.strip` are modelled on the ten ASCII whitespace
  characters Python 3 counts: tab, line feed, vertical tab, form feed,
  carriage return, U+001C to U+001F, and the space. The non-ASCII
  whitespace they also accept (U+0085, U+00A0, U+2000 to U+200A and
  others) is not modelled. `\w` is the ASCII letters, digits and
  underscore, and `\d` is the ASCII digits.
- `Claim.nouns` reads the tags held by a `Claim`. The model states it as
  `Nouns` on the tag list; the class keeps that list in its `pos` field.
- Features.LastFeatureReachesEnd: does not cover a comma just before the
  final full stop with a newline just after it and more whitespace after
  that newline. There the comma alternative consumes the full stop, and
  the last feature ends at that newline (Features.CommaSwallowsFinalStop
  shows such a text). When that newline is the last character, the lemma
  does cover the text.
