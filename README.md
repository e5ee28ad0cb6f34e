# wordlesolver, modelled in Dafny

A model of the Wordle helper's guessing engine and the two pieces it leans on.

- **`Predictor`** (`analytics.py`). It keeps an ordered word bank mapping each
  word to an integer rank, highest first. It also keeps the round number, the
  highest rank and the previous game response.
  - `calibrate` screens its inputs and decodes the response into correct,
    misplaced and wrong letters.
  - It then drops the words the response rules out, promotes the words that
    share letters with the guess, re-sorts the bank and advances the round.
  - `predict_wordle` suggests the next guesses. In round 1 and right after an
    all-wrong round it picks openers; otherwise it takes the top of the bank.
- **The lexicon** (`wordlesolver/data.py`). It has three parts:
  - the dictionary filter;
  - the letter-by-position frequency table;
  - the popularity score built from that table.
- **The game's feedback** (`mimic_game_response` in `stability_test.py`). It
  produces one code per guess position, 'c', 'm' or 'w', consuming a letter
  counter of the target as it goes.

Files and modules:

| file | module | what |
|---|---|---|
| `letters.dfy` | `Letters` | the a–z alphabet; Python's `len(set(word))` repeated-letter test |
| `data.dfy` | `Data` | the dictionary filter, `letter_frequency_distribution`, `rank_word_popularity` |
| `game_response.dfy` | `GameResponse` | `mimic_game_response`, with a specification by recursion over positions |
| `word_bank.dfy` | `WordBank` | the Python dict as a sequence of `(word, rank)` entries. It covers `d[k] = v`, building a dict from pairs, the stable descending `sorted`, and `max` |
| `analytics.dfy` | `Analytics` | screening, decoding, filtering, promotion, `CalibratedBank`, and the `Predictor` class |
| `calibration.dfy` | `Calibration` | what a calibration promises about the bank, plus worked rounds |

How the model is built:

- **Word bank.** It is a sequence of entries with distinct words. Python dict
  comprehensions are `DictFromPairs`: a later pair with a known key overwrites
  the value in place.
- **Class and methods.** `Predictor` is a class. Its methods update
  `wordbank`, `round`, `highestRank` and `previousResult` step by step, as the
  source does.
  - Each step method is tied to a function of the old state (`Reduce`,
    `Promote`, `SortByRankDesc`, `MaxRank`).
  - The whole of one successful calibration is `CalibratedBank`.
- **Exceptions.** They are the `Outcome` datatype:
  - `EndGame` for `EndGameError`;
  - `Victory`;
  - `BadResponse(ForeignSymbol | WrongLength)` and `UnknownGuess` for the
    `ValueError`s of screening;
  - `NoCandidates` for the `ValueError` that `max()` raises when filtering
    empties the bank.
- **`NoCandidates`.** When `max()` raises, the bank has already been replaced
  and the round already advanced (analytics.py:162-163). The model keeps that
  half-updated state.
- **Rounding.** Python's `round(H ± b·r/10)` is `RoundTenths(10·H ± b·r)`,
  exact rounding of a tenth with ties to even. Values of the form k/10 are
  either exact halves, which are exact in binary floating point, or at least
  0.1 away from one. So the float computation rounds the same way for the
  magnitudes a rank can reach.
- **Mean cutoff.** `int(mean(ranks))` is the sum divided by the count,
  truncated toward zero.

Where the code and its description differ, the model follows the code:

- Correct letters never filter the bank; they only promote.
  `Calibration.PrioritiseCorrectLetters` keeps `sades` after `harpy`/`cccww`.
- A misplaced letter is only forbidden at the position where it was reported.
  Its presence elsewhere is not required.
- A letter coded 'w' somewhere and 'm' elsewhere is still ruled wrong. Only a
  'c' for the same letter saves it.
- No constraint state builds up across rounds. Each round's letter maps are
  local, and earlier rounds act only through the already-filtered bank.

## Model

| member | source | states |
|---|---|---|
| Letters.AlphabetIsLowerLetters | wordlesolver/data.py:38 | `string.ascii_lowercase` holds exactly the letters a–z |
| Letters.LetterSetSize | analytics.py:139 | `len(set(word))` never exceeds `len(word)` and equals it exactly when no two positions hold the same letter |
| Letters.RepeatedLetterWitness | analytics.py:139 | `len(word) > len(set(word))` holds exactly when two positions of the word hold the same letter |
| Data.WordleWordIsFiveLowercaseLetters | wordlesolver/data.py:22 | the length, `isalpha`, `islower` and `isascii` tests together accept exactly the five-letter words over a–z |
| Data.ReadWordleDictionary | wordlesolver/data.py:21-23 | a line is yielded exactly when it passes the filter; never more words than lines |
| Data.ReadWordleDictionaryAppend | wordlesolver/data.py:21-23 | filtering the concatenation of two line lists filters each in turn, so input order is kept |
| Data.ReadWordleDictionaryExample | data_test.py:23-41 | `one's, two, three, threÃª, seven, Thousand, twelve` filters to `three, seven` |
| Data.PositionCounterTallies | wordlesolver/data.py:35 | the `Counter` of (letter, position) pairs counts, for every pair, the words holding that letter at that position |
| Data.PositionCounterKeys | wordlesolver/data.py:35 | every key of that `Counter` is a letter a–z at a position below the word length bound |
| Data.LetterFrequencyDistribution | wordlesolver/data.py:26-47 | the result has exactly the 26 keys a–z; each row has `max_word_length` entries; entry `[l][p]` is the number of words with `l` at position `p` |
| Data.DistributionDetermined | wordlesolver/data.py:37-45 | a table with those three properties is exactly the per-letter, per-position count table |
| Data.DistributionSumsToLetterCount | wordlesolver/data.py:35-45 | the table's entries sum to the total number of letters in the input words |
| Data.DistributionCovers | wordlesolver/data.py:42-44 | for words over a–z of bounded length, the table has a long enough row for every letter of every word (the caller's obligation) |
| Data.RankWordPopularity | wordlesolver/data.py:50-64 | the score is the sum over positions of `max(1, table[letter][position])`, and at least the word's length |
| Data.PopularityAtLeastLength | wordlesolver/data.py:62 | each position adds at least 1, so the popularity is at least the word's length |
| GameResponse.MimicGameResponse | stability_test.py:89-105 | the loop computes the positional specification; one code per guess letter; every code is c, m or w; 'c' exactly where the letters agree |
| GameResponse.ResponseCodes | stability_test.py:92-103 | every code is c, m or w; 'c' exactly where guess and target agree; a letter absent from the target is always 'w' |
| GameResponse.CounterAccounts | stability_test.py:90-101 | at every position, the counter plus the 'm' codes already given to a letter equals the letter's count in the target |
| GameResponse.MisplacedBounded | stability_test.py:90-101 | no letter receives more 'm' codes than it has occurrences in the target |
| GameResponse.AllCorrectIffEqual | stability_test.py:93-105 | for equal lengths the response is all 'c' exactly when guess equals target |
| GameResponse.CorrectDoesNotUseCounter | stability_test.py:92-101 | 'c' codes leave the counter alone: `poppy` against `proxy` gives `cmmwc` |
| WordBank.Keys | analytics.py:69 | `list(d)` holds exactly the dict's words, one per entry; the words are distinct exactly when the bank is a dict (its words are distinct) |
| WordBank.Assign | analytics.py:33-40 | after `d[k] = v` the key `k` is present and maps to `v` |
| WordBank.AssignExistingKey | analytics.py:150 | on a dict, assigning to an existing key rewrites that entry in place, with the same length and every other entry where it was |
| WordBank.AssignKeepsDict | analytics.py:150 | on a dict, `d[k] = v` keeps the words distinct; its entries are the old ones for other words plus `(k, v)`; for an existing key the word order is unchanged |
| WordBank.AssignNewKey | analytics.py:33-40 | assigning a new key appends the entry at the end |
| WordBank.AssignSameEntry | analytics.py:33-40 | re-assigning an existing entry with its own value leaves the dict unchanged |
| WordBank.DictFromPairsStep | analytics.py:33-40 | adding one more pair to the comprehension keeps keys distinct and ranks sorted, and adds exactly that entry |
| WordBank.DictFromDistinctPairs | analytics.py:153-159 | rebuilding a dict from its own items (distinct words) gives back the same entries in the same order |
| WordBank.DictFromSortedPairs | analytics.py:33-40 | a dict built from sorted pairs that never give one word two ranks has distinct keys, stays sorted and holds exactly those pairs |
| WordBank.InsertByRankProperties | analytics.py:156-158 | inserting after all entries ranked at least as high keeps the order sorted, adds exactly that entry and keeps equal-rank entries in their order |
| WordBank.SortByRankDesc | analytics.py:152-159 | `sorted(..., key=rank, reverse=True)` is sorted highest first, a permutation of its input, and stable: the entries of each rank keep their order |
| WordBank.SortKeepsEntries | analytics.py:152-159 | sorting keeps the length and exactly the same entries |
| WordBank.SortKeepsDistinctKeys | analytics.py:152-159 | sorting a dict's items keeps the words distinct |
| WordBank.PermutationKeepsDistinct | analytics.py:62 | a shuffle of a list without repeats has no repeats |
| WordBank.MaxRank | analytics.py:163 | `max(d.values())` is attained by some entry and bounds every rank |
| Analytics.Screen | analytics.py:89-101 | the five checks run in order: EndGame exactly when round > 6; else Victory exactly for `ccccc` (whether or not the guess is known); else the alphabet check, then length 5, then guess in bank; passing means a well-formed response with some non-'c' code |
| Analytics.Reduce | analytics.py:124-129 | an entry stays exactly when it was in the bank and has no wrong letter, no misplaced letter in place, and is not the guess; the bank never grows and strictly shrinks when it held the guess; distinct keys are kept |
| Analytics.Bonus | analytics.py:134-136 | the bonus (correct letters in place plus misplaced letters present) is at most 10 |
| Analytics.RoundTenths | analytics.py:140-143 | `round(n / 10)` is within half of n/10, with ties going to the even integer |
| Analytics.Promote | analytics.py:149-150 | the words and their order are unchanged and stay distinct (only ranks change; how they change is `PromotionSplitsAtHighestRank`) |
| Analytics.PromotionSplitsAtHighestRank | analytics.py:133-147 | with `0 <= rank <= H`: no bonus leaves the rank unchanged; a promoted word without a repeated letter ends at least at H; any other word at most at H; never below 0 |
| Analytics.PopularityCutoff | analytics.py:54 | for non-negative ranks, `int(mean(ranks))` is the largest integer whose multiple by the count does not exceed the sum |
| Analytics.UniqueAndPopularWords | analytics.py:56-59 | the filter yields exactly the words without a repeated letter ranked at least at the cutoff, never more than the bank holds, and without repeats when the bank is a dict |
| Analytics.UniqueAndPopularWordsAppend | analytics.py:59 | the filter keeps bank order: one more entry at the end adds at most its own word, at the end, so the first 50 kept are the first 50 qualifying in bank order |
| Analytics.RankWords | analytics.py:32 | pairs each dictionary word with its popularity, in dictionary order |
| Analytics.BuildWordbank | analytics.py:29-40 | the frequency table is the count table of the dictionary and covers every word; the bank is the ranked words sorted and made a dict |
| Analytics.InitialBankEntries | analytics.py:33-40 | the initial bank has distinct words, is sorted highest first, and holds exactly the ranked pairs |
| Analytics.InitialBankRanks | analytics.py:32-40 | every initial entry is a dictionary word ranked by its popularity, which is non-negative |
| Analytics.InitialBankKey | analytics.py:33-40 | a word is in the initial bank exactly when it is in the dictionary |
| Analytics.InitialBankIsValid | analytics.py:29-48 | the initial bank is non-empty and valid, with its first rank the maximum |
| Analytics.Predictor.constructor | analytics.py:28-50 | the table is the dictionary's count table; the bank holds exactly the dictionary words, each ranked by popularity, highest first; highest rank is the maximum; round 1, empty previous result; the bank is exactly `InitialBank`, the ranked words stably sorted highest first and made a dict, so ties keep dictionary order |
| Analytics.Predictor.PredictWordle | analytics.py:52-69 | exploring (round 1 or after `wwwww`): `min(output_size, n)` distinct words from the first 50 qualifying ones, none with a repeated letter, each ranked at least `int(mean)`; nothing when the bank is empty. Otherwise the first `min(output_size, len)` words in order, none outranked by a word left out. No state changes |
| Analytics.Predictor.Calibrate | analytics.py:71-87 | a rejected input returns the screening outcome and changes nothing. Otherwise the bank becomes `CalibratedBank` of the old bank and the round advances by one. Then either highest rank is the new maximum and previous result is the response, or the bank is empty and `NoCandidates` is returned. The predictor stays valid |
| Analytics.Predictor.CalibrateScreened | analytics.py:74-87 | the steps after screening, with the same new state as above |
| Analytics.Predictor.UpdateWordbank | analytics.py:74-86 | decoding, filtering, promotion and sorting turn the bank into `CalibratedBank` of the old one |
| Analytics.Predictor.ReduceWordbank | analytics.py:103-129 | the bank becomes the dict rebuilt from the surviving items, which on a dict is exactly the filtered bank; nothing else changes |
| Analytics.Predictor.PromoteWords | analytics.py:131-150 | the loop of `d[word] = ...` assignments rewrites each rank in place to its promoted rank against the stored highest rank, ending at `Promote` of the old bank |
| Analytics.Predictor.SortWordsByHighestRankFirst | analytics.py:152-159 | the bank becomes the dict rebuilt from the stably sorted items, which on a dict is exactly the stable sort, highest first |
| Analytics.Predictor.RefreshCurrentGameState | analytics.py:161-164 | the round advances first. With words left, highest rank is the maximum and previous result is the response. With none, `NoCandidates`, and the other fields keep their values |
| Analytics.CalibratedEntries | analytics.py:84-86 | after a calibration the entries are exactly the surviving old entries, each with its promoted rank |
| Analytics.CalibratedBankIsValid | analytics.py:84-86 | a calibrated non-empty bank has distinct five-letter words, ranks at least 0, is sorted, and its first rank is the maximum |
| Analytics.ValidBankKeys | analytics.py:100-101 | every word of a valid bank has five letters, so the positional checks stay in range |
| Calibration.WrongLettersMeaning | analytics.py:76-82 | a letter is wrong exactly when some position codes it 'w' and no position codes it 'c'; an 'm' elsewhere does not save it |
| Calibration.HarpyDecoding | analytics.py:74-82 | `harpy`/`cccww` decodes to correct `h a r` at 0–2, nothing misplaced, wrong `p` and `y` |
| Calibration.CalibrationShrinksBank | analytics.py:124-129 | after a calibration the guess is gone, every word was in the old bank, and the bank shrinks strictly when it held the guess |
| Calibration.CalibratedWordsAgreeWithResponse | analytics.py:105-129 | no word left holds a wrong letter, and none holds a misplaced letter at its reported position |
| Calibration.CalibrationKeepsAgreeingWords | analytics.py:124-129 | conversely, every word other than the guess that satisfies both conditions stays |
| Calibration.CalibratedRanksSplitAtHighest | analytics.py:131-150 | after a calibration, promoted words without a repeated letter rank at least at the old highest rank; the others at most at it; none below 0 |
| Calibration.PromotedUniqueWordsComeFirst | analytics.py:131-159 | every promoted word without a repeated letter ranks at least as high as every word that is not |
| Calibration.RoundTenthsUnique | analytics.py:140-143 | any integer within half of n/10 that takes the even side on ties is `RoundTenths(n)` |
| Calibration.SumRanksBounds | analytics.py:54 | with ranks in [0, m], the rank sum lies in [0, m·count] |
| Calibration.CutoffAtMostHighest | analytics.py:54-57 | the opener cutoff never exceeds the highest rank |
| Calibration.PrioritiseCorrectLetters | analytics_test.py:88-95 | a reduced version of that test (the test runs on the 33-word fixture with highest rank 4155 and checks only that `hares` comes first): on the four-word bank `sades 4045, cares 4017, hares 3834, harpy 1947` with H 4045, `harpy`/`cccww` yields `hares 5195, cares 4848, sades 3640`, `hares` first |
| Calibration.HarpyReduced | analytics.py:124-129 | in that round `harpy` is dropped and the other three words stay, in order |
| Calibration.HarpyPromoted | analytics.py:133-150 | in that round the bonuses are 1, 2, 3. `sades` has a repeated letter, so its 3640.5 rounds to even, 3640 |
| Calibration.HarpySorted | analytics.py:152-159 | in that round the sort puts `hares`, then `cares`, then `sades` |
| Calibration.RepeatCorrectElsewhereIsNotWrong | analytics_test.py:151-159 | `crick`/`wcccc` rules no letter wrong, so `prick` stays |

## Left out

- Reading the word list from `/usr/share/dict/words` (`read_wamerican`) is I/O. The constructor takes the dictionary's lines as a parameter, and `ReadWordleDictionary` keeps the filter on them.
- Analytics.Predictor.constructor: requires a dictionary that yields at least one word. The source calls `max()` on the bank at analytics.py:48, which raises on an empty dictionary, and that crash is not modelled.
- Analytics.Predictor.constructor: `output_size` is a `nat`. With a negative size the source's slice at analytics.py:64 counts from the end, and `islice` at analytics.py:69 raises `ValueError`; neither is modelled.
- Analytics.Predictor.PredictWordle: `random.shuffle` is "some permutation", chosen without constraint. The claim that two calls give different picks holds only with high probability and is not stated.
- Analytics.Predictor.PredictWordle: the source raises when `mean()` runs over an empty bank; the model returns `None` instead.
- Logging (`log.info`, `log.debug`) is not modelled.
- The `tee` iterator plumbing of `__init__` is not modelled: the three copies of the dictionary are the same list.
- Floating point is not modelled: `round` and `int(mean(...))` are computed exactly on integers, as described above.
- Data.IsAlpha: `str.isalpha` and `str.islower` are modelled on ASCII only. The filter also requires `isascii()`, so its verdict is the same.
- cli.py is not part of this model: it is the interactive console front end, and it reads predictor fields that analytics.py does not define.
- The root data.py is not part of this model: it is an older dictionary reader without the ranking functions.
- `test_stability` in stability_test.py is a 100-trial statistical harness and has no per-call contract. Only `mimic_game_response` is modelled.
- Some tests in analytics_test.py expect behaviour that analytics.py does not have, and they are not modelled. Lines 98-104 expect `sloes` first, 186-194 expect `cases` to survive, and 208-212 expect a repeated-letter word first. Line 36 reads `_output_size`, but the field is `output_size`.
- GameResponse.MimicGameResponse: requires the guess to be no longer than the target. A longer guess makes `target[p]` raise `IndexError` in the source, and that crash is not modelled.
- Data.LetterFrequencyDistribution and Data.RankWordPopularity: their preconditions (words of a–z letters no longer than the table's rows; a table row long enough for every letter of the word) rule out the `KeyError` and `IndexError` the source would raise otherwise. Every caller in the model meets them, since dictionary words are five letters a–z.
