# wordle-tools in Dafny

This project models the constraint engines of wordle-tools and proves
properties about them. wordle-tools is a small collection of Wordle helpers
that narrow a dictionary by the hints of earlier guesses. The same idea is
implemented several times:

- **matches.py**. `WordleConstraint` keeps three pieces of state:
  - the letters still allowed at each of the five positions;
  - a minimum count per letter, default 0;
  - a maximum count per letter, default 5.

  `update` folds in one guess and its `g`/`y`/`.` hint, and `match` tests a
  candidate. `guess_result` computes the hint a known answer gives, using
  the two-pass duplicate-letter tally.
- **web/match.ts**. The same engine over typed arrays:
  - the allowed letters are 26-bit masks (`disallowed_at`);
  - the counts are `Uint8Array`s;
  - dictionary words are packed five bits per letter into 32-bit integers.

  `generate_hint` is its hint generator.
- **possible_matches.py**. An older variant. It folds the guesses into sets
  (`not_in_word`, `in_word_pos_unknown`, `in_word_pos_known`, `not_at_pos`,
  `at_pos`), turns them into a per-position pattern plus required letters,
  and filters the dictionary. It also has a dictionary loader that drops
  inflected forms of earlier roots, and its own `guess_result`.
- **wordle.py**. A case-encoded variant: an upper-case letter is a green, a
  lower-case letter is a yellow, and `.` is a gray.
- **letter_freq.py**. Buckets a word list by length, classifies the
  five-letter words, tallies letter frequencies per position and per word,
  and sorts the tallies.

Layout:

- `common.dfy` (module `Common`): words, letters, occurrence counts, and
  the pattern slots that stand in for the regular expressions.
- `engine.dfy` (module `Engine`): the abstract engine that matches.py and
  web/match.ts both implement. It holds the state, `Update`, `Accepts` and
  the reference hint `Hint`, with their properties. The headline theorem is
  `ReplaySound`: replaying any lower-case five-letter guesses against an
  answer, with hints from the two-pass tally, never fails an assertion, and
  the answer still matches.
- `matches.dfy` (module `Matches`): the class `WordleConstraint`, with
  dictionaries as maps read through their defaults. Its methods are proved
  against `Engine` through `Model()`.
- `packing.dfy` (module `Packing`): bitsets, the word packing loop and
  `decode_word`.
- `webmatch.dfy` (module `WebMatch`): the class `Matcher` over arrays,
  proved against `Engine`, and `generate_hint`.
- `possible_matches.dfy`, `wordle.dfy`, `letter_freq.dfy`: the other three
  scripts.

Each source file's input and output are modelled as follows:

- Files are read by the source but are sequences of lines here.
- A failed `assert` or a thrown error becomes `None` or `false`.
- A regular expression becomes per-position membership (`Slot`,
  `FullMatch`).

Details of the code the model follows:

- In matches.py:67-74 and web/match.ts:67-76, any letter marked gray gets a
  maximum equal to the green and yellow count of that guess. This includes
  a count of 0.
- In possible_matches.py:41-52, a root only drops an inflected form if it
  appears on an earlier line of the word list, not anywhere in it.
- Both `guess_result` functions check only the lengths (matches.py:108,
  possible_matches.py:97), not the alphabet.
- The `guess_result` of possible_matches.py writes `.` for gray, and gives
  exactly the hint string of matches.py. The `_` in the sample guesses is
  just another non-`y`/`g` character, which the fold reads as gray.

## Model

| member | source | states |
|---|---|---|
| Common.AlphaLowerIff | possible_matches.py:16 | `isalpha() and islower()` on ASCII holds exactly for non-empty strings of lower-case letters |
| Engine.Alphabet | matches.py:50-52 | the initial allowed set is exactly the 26 lower-case letters |
| Engine.ParseHint | matches.py:60-68 | a hint string parses to marks exactly when every character is `g`, `y` or `.`, and then it prints back to itself |
| Engine.ParseHintString | matches.py:15-17 | encoding marks as `g`/`y`/`.` and parsing them back gives the same marks |
| Engine.Update | matches.py:54-76 | the update succeeds exactly when the word is five lower-case letters, the hint has five marks, every green letter is still allowed, and no gray letter's minimum exceeds its count in this guess |
| Engine.GreenPins | matches.py:60-63 | after a successful update, a green position allows exactly its letter |
| Engine.RepinFails | matches.py:60-62 | once a green pins a position, a later green with another letter there fails |
| Engine.YellowRemoves | matches.py:64-70 | a yellow removes its letter from its own position only; a gray leaves its position unchanged |
| Engine.UpdateNarrows | matches.py:60-76 | allowed sets only shrink and minimum counts never decrease |
| Engine.GrayFixesCount | matches.py:67-76 | a letter marked gray gets minimum and maximum both equal to its green and yellow count in the guess |
| Engine.UpdateIdempotent | matches.py:54-76 | applying the same guess and hint twice succeeds and gives the same state as applying it once |
| Engine.HintRanked | matches.py:110-121 | for every letter, greens are the agreeing positions, and its yellows are its leftmost non-green occurrences, up to as many as its unmatched answer occurrences |
| Engine.HintGreenIff | matches.py:112-114 | position i is green if and only if `guess[i] == answer[i]` |
| Engine.HintYellowStep | matches.py:117-120 | position i is yellow if and only if it is not green and fewer yellows of its letter precede it than the answer has unmatched |
| Engine.HintTallyBound | matches.py:111-120 | a letter's yellows never exceed its non-green answer occurrences, and its greens plus yellows never exceed its count in the answer |
| Engine.HintGrayExact | matches.py:110-120 | if a letter is marked gray anywhere, its greens plus yellows equal its count in the answer |
| Engine.HintYellowPresent | matches.py:115-120 | a yellow letter occurs in the answer |
| Engine.HintYellowLeftFirst | matches.py:117-120 | yellows go left to right: an earlier non-green occurrence of a yellow letter is yellow too |
| Engine.HintSelf | matches.py:143 | the hint of the answer against itself is all green |
| Engine.CountAtMostLength | matches.py:49 | a letter occurs at most as often as the word is long, so the default maximum of 5 never rejects a five-letter word |
| Engine.InitAcceptsAll | matches.py:47-52 | the fresh state accepts every lower-case word of at most five letters |
| Engine.HintKeepsAnswer | matches.py:137-140 | updating with the answer's own hint for a valid guess succeeds and keeps the answer accepted |
| Engine.ReplayKeepsAnswer | matches.py:137-142 | replaying valid guesses with their hints from any state that accepts the answer never fails, and the answer stays accepted |
| Engine.ReplaySound | matches.py:133-142 | from the fresh state, replaying valid guesses against the answer never fails an assertion, and the answer still matches |
| Matches.BoundCheckIsUpdateOk | matches.py:71-74 | given the first pass's results, the assertion of the second pass holds exactly when the engine's update is allowed |
| Matches.UpdateAgrees | matches.py:71-76 | after both passes the fields stand for exactly the engine's updated state |
| Matches.WordleConstraint.constructor | matches.py:47-52 | the new object stands for the engine's initial state |
| Matches.WordleConstraint.Update | matches.py:54-76 | succeeds exactly when the engine's update of the parsed hint succeeds, and then the object stands for the updated state |
| Matches.WordleConstraint.MarkPositions | matches.py:58-70 | fails exactly on an unknown hint character or a green letter its position no longer allows; otherwise narrows each position by its mark, and returns this guess's per-letter tally and gray letters |
| Matches.WordleConstraint.RaiseBounds | matches.py:71-76 | fails exactly when a gray letter's minimum exceeds this guess's tally; otherwise raises each minimum to the tally and sets the maximum of each gray letter to it |
| Matches.WordleConstraint.Match | matches.py:78-90 | false at the first position whose letter is not allowed; an IndexError for a longer word; otherwise whether every letter count lies within its bounds |
| Matches.GuessResult | matches.py:104-121 | for two five-character strings, returns the reference hint string; otherwise fails the assertion |
| Matches.MarkYellows | matches.py:117-120 | the second pass, starting from greens and the unmatched answer counts, completes the reference hint |
| Matches.ReplayWithAnswer | matches.py:133-142 | the object after the replay stands for the engine's replay of the guesses against the last one |
| Matches.ReplayWithAnswerSound | matches.py:133-142 | with valid guesses, the replay succeeds and `match(answer)` returns True |
| Packing.BitsBelow | web/match.ts:40-42 | the bitset of the low n bits holds exactly the positions below n |
| Packing.Allowed | web/match.ts:40-42 | a `disallowed_at` entry allows exactly the lower-case letters whose bit is clear |
| Packing.Members | web/match.ts:44 | the letters of `local_saw_gray` are exactly the lower-case letters whose bit is set |
| Packing.Zero | web/match.ts:42-44 | a zero entry allows every letter and holds no letter |
| Packing.AllowedAdd | web/match.ts:65 | setting a letter's bit disallows exactly that letter |
| Packing.MembersAdd | web/match.ts:69 | setting a letter's bit adds exactly that letter to the gray set |
| Packing.OnlyLetter | web/match.ts:62 | `~(1 << chr)` allows only letter chr |
| Packing.DecodeWordField | web/match.ts:27-35 | character j of the decoded word is `'a'` plus the j-th 5-bit field |
| Packing.PackFields | web/match.ts:17-22 | letter j of a packed word sits in bits 5j..5j+4 as its offset from `'a'`, and every field is below 26 |
| Packing.PackSum | web/match.ts:17-22 | the packed value is the sum of the offsets times 1, 32, 1024, 32768 and 1048576 |
| Packing.DecodePack | web/match.ts:14-35 | decoding the packing of any five lower-case letters gives them back |
| Packing.PackDecode | web/match.ts:14-35 | every packed value with five fields below 26 decodes to a word that packs back to it |
| Packing.PackWords | web/match.ts:14-25 | the buffer has one entry per five letters of the word list, and each entry is the packing of its word and decodes back to it |
| WebMatch.MarkOfCode | web/match.ts:9-11 | codes 2, 1 and 0 are green, yellow and gray; any other byte is none |
| WebMatch.ParseCodes | web/match.ts:57-70 | a hint parses exactly when every code is at most 2, and then it encodes back to itself |
| WebMatch.ParseCodesOf | web/match.ts:9-11 | encoding marks as codes and parsing them back gives the same marks |
| WebMatch.BoundCheckIsUpdateOk | web/match.ts:72-76 | given the first pass's arrays, the assertion of the second pass holds exactly when the engine's update is allowed |
| WebMatch.UpdateAgrees | web/match.ts:72-79 | after both passes the arrays stand for exactly the engine's updated state |
| WebMatch.EntryAllowed | web/match.ts:57-70 | a position's new bitset allows exactly the engine's narrowed set, and a green letter passing the assertion was allowed |
| WebMatch.PositionFails | web/match.ts:55-70 | a position whose letter is not lower-case, whose code is unknown, or whose green letter is disallowed makes the whole first pass fail |
| WebMatch.FirstPassAgrees | web/match.ts:54-71 | after five positions pass, the word is valid, the codes parse, and the bitsets stand for the narrowed positions and gray letters |
| WebMatch.FieldAllowed | web/match.ts:86-87 | letter j of a packed word is allowed exactly when its bit in `disallowed_at[j]` is clear |
| WebMatch.FieldCountIsCount | web/match.ts:85-90 | counting fields equals counting the letter in the decoded word |
| WebMatch.Matcher.constructor | web/match.ts:37-48 | the new matcher stands for the engine's initial state: nothing disallowed, minimum 0 and maximum 5 |
| WebMatch.Matcher.Update | web/match.ts:50-80 | succeeds exactly when the engine's update of the parsed codes succeeds, and then the matcher stands for the updated state; counts stay within 0..5, so no `Uint8Array` element wraps |
| WebMatch.Matcher.MarkPositions | web/match.ts:54-71 | fails exactly when the first pass would throw; otherwise narrows each position's bitset by its mark, leaves the per-letter tally in `local_min` and the gray letters in `local_saw_gray` |
| WebMatch.Matcher.MarkAt | web/match.ts:55-70 | one position: fails on an unknown code or a disallowed green; otherwise updates exactly that entry, that letter's tally, and the gray bitset |
| WebMatch.Matcher.RaiseBounds | web/match.ts:72-79 | fails exactly when a gray letter's minimum exceeds its tally; otherwise raises each minimum to the tally and sets the maximum of each gray letter to it |
| WebMatch.Matcher.Match | web/match.ts:82-96 | returns whether the engine accepts the decoded word, and leaves the engine state unchanged, touching only `local_min` |
| WebMatch.Matcher.CountLetters | web/match.ts:83-90 | fails exactly when some letter is disallowed at its position; otherwise leaves each letter's count in the decoded word |
| WebMatch.FreshMatchesAll | web/match.ts:37-48 | a fresh matcher's state accepts every valid packed word |
| WebMatch.GenerateHint | web/match.ts:133-150 | for two five-character strings, returns the codes of the TypeScript hint, whose yellow budget is every occurrence in the answer; otherwise throws |
| WebMatch.FillYellows | web/match.ts:142-148 | the second loop turns the green codes into the hint with the budget in `ans_count` |
| WebMatch.HintWithRanked | web/match.ts:142-148 | the second loop's marks are green where the letters agree and yellow for the leftmost non-green occurrences within the budget |
| WebMatch.TsYellowsBound | web/match.ts:140-146 | a letter's yellows never exceed its occurrences in the answer, and equal its non-green occurrences capped by that count |
| WebMatch.TsHintBreaksReplay | web/match.ts:137-148 | guess "aazzz" against "axxxx" gets green, yellow, gray, gray, gray where the reference gives one green; the update succeeds and then rejects the answer |
| WebMatch.ReplayRejectsAnswer | web/match.ts:152-159 | the replay of that guess against that answer updates the matcher, which then does not match the answer |
| WebMatch.GenerateHintFixed | web/match.ts:133-150 | with the first loop counting only non-green answer letters, returns the codes of the reference hint |
| WebMatch.FixedHintIsHint | web/match.ts:133-150 | for a guess of five lower-case letters and any five-character answer, the corrected hint equals the reference hint of matches.py |
| WebMatch.FixedHintKeepsAnswer | web/match.ts:152-159 | updating with the corrected hint succeeds and keeps the answer accepted |
| PossibleMatches.IsValidIff | possible_matches.py:15-16 | `isvalid` holds exactly for five lower-case letters |
| PossibleMatches.LoadDictionary | possible_matches.py:38-52 | the words yielded are exactly the valid lines not inflected from a root on an earlier line |
| PossibleMatches.KeptAreWords | possible_matches.py:45-48 | every word yielded is five lower-case letters |
| PossibleMatches.StemMustComeFirst | possible_matches.py:45-52 | "bake" then "baked" yields nothing, but "baked" then "bake" yields "baked": a root only counts when it comes first |
| PossibleMatches.PartialStep | possible_matches.py:63-72 | folding in one more position adds its letter to the set its hint character names |
| PossibleMatches.LearnOne | possible_matches.py:63-72 | the inner loop for one guess gives the fold step: None on a short word or result, or on a green clashing with a pinned letter |
| PossibleMatches.LearnAt | possible_matches.py:64-72 | one position fails exactly on a clashing green; otherwise its letter joins the set its hint character names |
| PossibleMatches.Fold | possible_matches.py:56-72 | the loop over the pairs computes the left fold of the guesses from the empty sets |
| PossibleMatches.LearnGrows | possible_matches.py:63-72 | one guess only adds to the sets and keeps every pinned letter in the green set |
| PossibleMatches.FoldGrows | possible_matches.py:62-72 | the whole fold only adds to the sets and keeps every pinned letter in the green set |
| PossibleMatches.FoldPins | possible_matches.py:67-70 | after a successful fold, every green of every guess pins its position to its letter |
| PossibleMatches.GreenPinned | possible_matches.py:67-70 | after a successful fold, a green at position i of any guess is the letter pinned at i |
| PossibleMatches.GreensMustAgree | possible_matches.py:69 | two different green letters at one position fail the fold |
| PossibleMatches.OtherIsGray | possible_matches.py:71-72 | any hint character other than `y` or `g` puts its letter in `not_in_word` |
| PossibleMatches.AcceptedIn | possible_matches.py:82-86 | the accepted words of a dictionary are exactly its words that match the pattern and contain every letter of `also_require`, and there are at most as many as dictionary words |
| PossibleMatches.PossibleMatches | possible_matches.py:82-86 | the words printed are the dictionary's accepted words in dictionary order, repetitions included, so `num_matches` is their number; they are exactly the dictionary words that match the pattern and contain every letter of `also_require` |
| PossibleMatches.YellowAndGrayRejectAll | possible_matches.py:72-84 | a letter that is yellow and gray but never green makes every word rejected |
| PossibleMatches.NoEmptyClass | possible_matches.py:74-76 | after at least one guess, an unpinned position's class excludes at least one letter, so the `[^]` syntax error cannot occur |
| PossibleMatches.GuessResult | possible_matches.py:96-112 | for two five-character strings, returns the same hint string as matches.py's `guess_result` |
| PossibleMatches.MarkYellows | possible_matches.py:106-111 | the second pass, which skips non-gray positions, completes the reference hint |
| PossibleMatches.ReplayRejectsAnswer | possible_matches.py:114-119 | "zaazz" against "abcde" gives ".y...", the fold succeeds, and the answer "abcde" is rejected |
| PossibleMatches.LearnFixed | possible_matches.py:63-72 | the corrected step fails exactly where the source's step fails |
| PossibleMatches.FixedRefinesLearn | possible_matches.py:63-72 | where both succeed, the corrected step learns the same yellow, green and pinned letters as the source's, and excludes from the whole word only letters the source excludes too |
| PossibleMatches.FoldSamePins | possible_matches.py:62-72 | whether the fold fails depends only on the pinned letters it starts from |
| PossibleMatches.FoldFixed | possible_matches.py:62-72 | the fold with the corrected step fails exactly where the source's fold fails |
| PossibleMatches.GrayUnconfirmedAbsent | possible_matches.py:96-112 | a gray letter with no yellow or green of the same letter in its guess does not occur in the answer |
| PossibleMatches.AgreesAccepts | possible_matches.py:74-84 | sets consistent with an answer accept that answer |
| PossibleMatches.FixedStep | possible_matches.py:63-72 | a corrected step with a guess's true hint succeeds and keeps the sets consistent with the answer |
| PossibleMatches.FixedSound | possible_matches.py:62-84 | the corrected fold over guesses with their true hints succeeds and accepts the answer |
| PossibleMatches.FixedReplayAccepts | possible_matches.py:114-119 | replaying valid guesses against an answer with the corrected fold always keeps the answer |
| Wordle.SeenLowerStep | wordle.py:19-22 | one more guess adds its lower-case letter at position i, if it has one |
| Wordle.Prepare | wordle.py:15-32 | fails when a guess is not five characters; otherwise each slot is the last upper-case letter's lower-case form there, or a class excluding the absent letters and every lower-case letter seen there, and `req` is the lower-case letters less the upper-cased ones |
| Wordle.LastUpperFrom | wordle.py:24-28 | a pinned position comes from an upper-case letter there with no later guess having one |
| Wordle.LastUpperWins | wordle.py:24-28 | the last guess with an upper-case letter at a position decides its pin |
| Wordle.NoUpperNoPin | wordle.py:24-28 | a position with no upper-case letter in any guess is not pinned |
| Wordle.UpperPins | wordle.py:24-28 | a position with an upper-case letter in some guess is pinned |
| Wordle.ShownClasses | wordle.py:17-28 | when an absent letter is given, or every position shows a letter in some guess, every unpinned position's class excludes at least one letter, so no empty class `[^]` arises |
| Wordle.ReqLower | wordle.py:31-32 | every required letter is lower-case, so `.` never is one |
| Wordle.PrintedIn | wordle.py:34-37 | the printed words of a dictionary are exactly its words that are lower-case, match the pattern and hold every required letter, and there are at most as many as dictionary words |
| Wordle.PrintedWords | wordle.py:34-37 | the words printed are the dictionary's printed words in dictionary order, repetitions included; they are exactly the dictionary words that are lower-case, match the pattern and hold every required letter |
| Wordle.EncodedChar | wordle.py:6 | in a correctly encoded guess, an upper-case letter is the answer's letter there, and a lower-case one is in the answer but not there |
| Wordle.AnswerPrinted | wordle.py:15-37 | with correctly encoded guesses, truly absent letters, and either an absent letter given or a letter shown at every position, the pattern has no empty class `[^]` and the answer is printed |
| LetterFreq.BucketLines | letter_freq.py:12-19 | the three sets are exactly the distinct lines of length 3, 4 and 5 |
| LetterFreq.Classify | letter_freq.py:28-40 | a word is a non-word exactly when it is not five lower-case letters; otherwise it is a past tense when it ends in "ed" after a known three-letter word, else a plural when it ends in 's' after a known four-letter word, else counted |
| LetterFreq.PastPluralDisjoint | letter_freq.py:33-39 | no word is both a past tense and a plural, so the order of the two tests does not matter |
| LetterFreq.CategoriesPartition | letter_freq.py:28-40 | every five-letter word is in exactly one category, so the four counters add up to `len(words5)` |
| LetterFreq.Tally | letter_freq.py:28-44 | the counters are the sizes of the four categories, `freqsi[i][c]` is the number of counted words with c at i, and `freqs[c]` is the number containing c; a letter is a key exactly when that number is positive, and only lower-case letters are keys |
| LetterFreq.Visit | letter_freq.py:28-44 | visiting one more word keeps that relation |
| LetterFreq.Bumped | letter_freq.py:42 | `m[c] += 1` on a tally that defaults to 0 adds one at c only, and makes c a key |
| LetterFreq.CountWord | letter_freq.py:41-44 | one counted word adds one at its letter for each position, and one for each distinct letter it holds; the new keys are exactly those letters |
| LetterFreq.CountPositions | letter_freq.py:41-42 | the position loop adds one at `word[i]` in `freqsi[i]` for each i, and adds exactly that key |
| LetterFreq.CountLetters | letter_freq.py:43-44 | the letter loop adds one at each distinct letter of the word in `freqs`, and adds exactly those keys |
| LetterFreq.PositionsPartition | letter_freq.py:41-42 | every counted word has exactly one letter at each position |
| LetterFreq.PositionTallySum | letter_freq.py:41-42 | for each position, the values of `freqsi[i]` add up to `nwords` |
| LetterFreq.LetterTallyBound | letter_freq.py:43-44 | `freqs[c]` is at most `nwords` |
| LetterFreq.GreatestExists | letter_freq.py:47 | a non-empty set of (count, letter) pairs has a greatest one |
| LetterFreq.SortDescending | letter_freq.py:47 | the sort holds exactly the given pairs, strictly descending by count and then by letter |
| LetterFreq.ItemsCard | letter_freq.py:47 | a tally has one (count, letter) pair per letter |
| LetterFreq.MostCommon | letter_freq.py:46-48 | the result has one pair per key of the tally, holds exactly its pairs, and is descending by count with ties broken by descending letter |
| LetterFreq.MostCommonOfTally | letter_freq.py:43-50 | after the tallies, `most_common(freqs)` holds exactly the pairs (n, c) where n > 0 counted words contain c |
| LetterFreq.MostCommonAtOfTally | letter_freq.py:41-51 | after the tallies, `most_common(freqsi[i])` holds exactly the pairs (n, c) where n > 0 counted words have c at position i |

## Left out

- Printing: `print_annotated_guess`, `print_matches` and the printing in `print_possible_matches` and letter_freq.py. This is presentation only.
- File and module I/O: `load_dictionary` in matches.py, the `open` calls, `str.strip`, and the `./words` module of web/match.ts. The word lists are parameters instead.
- CLI plumbing: `main`, absl flags, the argv dispatch, `replay_with_hints` with its `split(':')`, and `print_possible_matches_at_each_guess`. This is input handling around the modelled operations.
- parse.py: it evaluates a scraped script and does file I/O, and is not part of this model.
- The TypeScript `replay_with_answer` is modelled only on the sample guess of `WebMatch.ReplayRejectsAnswer`. It has no general method, because it is the same loop as matches.py's over `GenerateHint` and `Matcher.Update`.
- Unicode: `islower`, `isalpha` and `isupper` are modelled on ASCII letters only.
- Regular-expression metacharacters are left out. A pinned character is matched literally: a green `.` in possible_matches.py stands for the dot, not for any character. Each `[^...]` class is a plain set of excluded characters, so a `]`, `^` or `\` among them is not read as Python would. `PossibleMatches.NoEmptyClass` shows possible_matches.py builds no empty class `[^]` after a guess.
- Wordle.Prepare: a position with no pin, no absent letter and no lower-case letter in any guess gives the empty class `[^]`. Python reads it together with the text after it as one class, or rejects the pattern; the model reads it as any character. `Wordle.Shown` describes the inputs without such a position, and `Wordle.ShownClasses` proves their pattern has no empty class.
- Wordle.PrintedWords: for a pattern with an empty class `[^]`, the words are those of the model's reading, not Python's, for the reason given under Wordle.Prepare.
- Wordle.AnswerPrinted: holds only for inputs satisfying `Wordle.Shown`, for the reason given under Wordle.Prepare.
- State after a failed assertion: the source raises and the session ends. The model promises nothing about the partly updated state beyond its sizes and bounds.
- Python set iteration order: the `for c in set(word)` and `for word in words5` loops visit in an arbitrary order. The model proves the tallies for every order.
- `most_common` is modelled as a ghost function. The dictionary's insertion order does not matter after the sort.
- WebMatch.Matcher.Match: the packed word is required to hold five fields below 26, since every word the packing loop produces does (`PackWords`).

## Findings

| source | as written | input that shows it | evidently intended | confidence | as-written member | corrected member |
|---|---|---|---|---|---|---|
| web/match.ts:137-141 | the first loop counts every answer letter into `ans_count`, including those at green positions | guess "aazzz", answer "axxxx": position 1 is marked yellow, and a `Matcher` updated with that hint rejects "axxxx" | count only the answer letters at non-green positions, as matches.py:112-116 does | not executed | WebMatch.TsHintBreaksReplay | WebMatch.GenerateHintFixed |
| possible_matches.py:71-72 | a gray letter always goes into `not_in_word`, even when the same guess marks that letter yellow or green elsewhere | guess "zaazz", answer "abcde": hint ".y...", so 'a' is both required and excluded everywhere, and no word, not even the answer, is printed | a gray letter confirmed elsewhere in the same guess is excluded only at its own position | not executed | PossibleMatches.ReplayRejectsAnswer | PossibleMatches.LearnFixed |
