// The word-guessing engine. A Predictor owns a word bank (word -> rank,
// highest rank first), the round number, the highest rank and the previous
// game response. Each `Calibrate` screens its inputs, decodes the response
// into correct, misplaced and wrong letters, drops the words the response
// rules out, promotes the words that share letters with the guess, re-sorts,
// and advances the round. `PredictWordle` suggests the next guesses.

module Analytics {
  import opened Letters
  import opened Data
  import opened WordBank

  datatype Option<T> = None | Some(value: T)

  datatype ResponseError = ForeignSymbol | WrongLength

  /** How `calibrate` ends: `Continue` when it returns normally; the others
      stand for the exceptions it raises. */
  datatype Outcome =
    | Continue
    | Victory                            // `Victory`
    | EndGame                            // `EndGameError`
    | BadResponse(error: ResponseError)  // `ValueError` on the response
    | UnknownGuess                       // `ValueError` on the guess
    | NoCandidates                       // `ValueError` from `max()` of an emptied word bank

  const MaxRounds: int := 6
  const AllCorrect: string := "ccccc"
  const AllWrong: string := "wwwww"
  /** How many suggestions the first round draws from. */
  const OpenerPool: nat := 50

  function Min(a: int, b: int): int {
    if a < b then a else b
  }

  // ---------------------------------------------------------------------
  // Screening (`_screen_inputs`)
  // ---------------------------------------------------------------------

  predicate OnlyResponseCodes(response: string) {
    forall i | 0 <= i < |response| :: response[i] in "wmc"
  }

  /** The checks run before anything changes, in the source's order. */
  function Screen(round: int, bank: Bank, guess: string, response: string): (r: Outcome)
    ensures r == EndGame <==> round > MaxRounds
    ensures r == Victory <==> round <= MaxRounds && response == AllCorrect
    ensures r == BadResponse(ForeignSymbol) <==>
              round <= MaxRounds && response != AllCorrect && !OnlyResponseCodes(response)
    ensures r == BadResponse(WrongLength) <==>
              round <= MaxRounds && OnlyResponseCodes(response) && |response| != WordleMaxWordLength
    ensures r == UnknownGuess <==>
              && round <= MaxRounds && response != AllCorrect && OnlyResponseCodes(response)
              && |response| == WordleMaxWordLength && !HasKey(bank, guess)
    ensures r == Continue <==>
              && round <= MaxRounds && response != AllCorrect && OnlyResponseCodes(response)
              && |response| == WordleMaxWordLength && HasKey(bank, guess)
    ensures r == Continue ==> exists p | 0 <= p < |response| :: response[p] != 'c'
    ensures r != NoCandidates
  {
    if round > MaxRounds then EndGame
    else if response == AllCorrect then Victory
    else if !OnlyResponseCodes(response) then BadResponse(ForeignSymbol)
    else if |response| != WordleMaxWordLength then BadResponse(WrongLength)
    else if !HasKey(bank, guess) then UnknownGuess
    else
      assert exists p | 0 <= p < |response| :: response[p] != AllCorrect[p];
      Continue
  }

  // ---------------------------------------------------------------------
  // Decoding the response
  // ---------------------------------------------------------------------

  /** `{position: guess[position] for position, state in enumerate(response) if state == code}`. */
  function LettersCoded(guess: string, response: string, code: char): map<int, char>
    requires |response| <= |guess|
  {
    map p | 0 <= p < |response| && response[p] == code :: guess[p]
  }

  /** The letters of the guess coded 'w' that are not coded 'c' anywhere in it. */
  function WrongLetters(guess: string, response: string): set<char>
    requires |response| <= |guess|
  {
    var correct := LettersCoded(guess, response, 'c');
    set p | 0 <= p < |response| && response[p] == 'w' && guess[p] !in correct.Values :: guess[p]
  }

  // ---------------------------------------------------------------------
  // Filtering (`_reduce_wordbank`)
  // ---------------------------------------------------------------------

  predicate PositionsBelow(letters: map<int, char>, n: int) {
    forall p | p in letters :: 0 <= p < n
  }

  predicate KeysOfLength(bank: Bank, n: int) {
    forall i | 0 <= i < |bank| :: |bank[i].0| == n
  }

  predicate ContainsWrongLetters(word: string, wrong: set<char>) {
    exists l | l in wrong :: l in word
  }

  predicate ContainsMisplacedLetters(word: string, misplaced: map<int, char>)
    requires PositionsBelow(misplaced, |word|)
  {
    exists p | p in misplaced :: word[p] == misplaced[p]
  }

  predicate Survives(word: string, wrong: set<char>, misplaced: map<int, char>, guess: string)
    requires PositionsBelow(misplaced, |word|)
  {
    !(ContainsWrongLetters(word, wrong) || ContainsMisplacedLetters(word, misplaced) || guess == word)
  }

  /** The dict comprehension of `_reduce_wordbank`: surviving entries, in order. */
  function Reduce(bank: Bank, wrong: set<char>, misplaced: map<int, char>, guess: string): (r: Bank)
    requires KeysOfLength(bank, WordleMaxWordLength) && PositionsBelow(misplaced, WordleMaxWordLength)
    ensures |r| <= |bank|
    ensures HasKey(bank, guess) ==> |r| < |bank|
    ensures forall e :: e in r <==> e in bank && Survives(e.0, wrong, misplaced, guess)
    ensures DistinctKeys(bank) ==> DistinctKeys(r)
  {
    if |bank| == 0 then []
    else
      var n := |bank| - 1;
      assert bank == bank[..n] + [bank[n]];
      var kept := Reduce(bank[..n], wrong, misplaced, guess);
      assert DistinctKeys(bank) ==> forall i | 0 <= i < |kept| :: kept[i].0 != bank[n].0 by {
        if DistinctKeys(bank) {
          forall i | 0 <= i < |kept| ensures kept[i].0 != bank[n].0 {
            assert kept[i] in kept;
            var q :| 0 <= q < n && bank[..n][q] == kept[i];
          }
        }
      }
      if Survives(bank[n].0, wrong, misplaced, guess) then kept + [bank[n]] else kept
  }

  // ---------------------------------------------------------------------
  // Promotion (`_promote_words`)
  // ---------------------------------------------------------------------

  /** Positions below `n` coded 'c' whose letter `word` has at that position. */
  function CorrectBonus(word: string, correct: map<int, char>, n: nat): (b: nat)
    requires n <= |word|
    ensures b <= n
  {
    if n == 0 then 0
    else CorrectBonus(word, correct, n - 1) + (if n - 1 in correct && word[n - 1] == correct[n - 1] then 1 else 0)
  }

  /** Positions below `n` coded 'm' whose letter occurs anywhere in `word`. */
  function MisplacedBonus(word: string, misplaced: map<int, char>, n: nat): (b: nat)
    ensures b <= n
  {
    if n == 0 then 0
    else MisplacedBonus(word, misplaced, n - 1) + (if n - 1 in misplaced && misplaced[n - 1] in word then 1 else 0)
  }

  /** The two sums of `promote_words_with_correct_letters`; the response maps
      are keyed by the positions 0 to 4, so summing over those positions is
      summing over the maps' items. */
  function Bonus(word: string, correct: map<int, char>, misplaced: map<int, char>): (b: nat)
    requires |word| == WordleMaxWordLength
    ensures b <= 2 * WordleMaxWordLength
  {
    CorrectBonus(word, correct, WordleMaxWordLength) + MisplacedBonus(word, misplaced, WordleMaxWordLength)
  }

  /** Python's `round(n / 10)`: the nearest integer, ties to the even one. */
  function RoundTenths(n: int): (r: int)
    ensures 10 * r - 5 <= n <= 10 * r + 5
    ensures n % 10 == 5 ==> r % 2 == 0
  {
    var q, rest := n / 10, n % 10;
    if rest < 5 then q
    else if rest > 5 then q + 1
    else if q % 2 == 0 then q
    else q + 1
  }

  /** `promote_words_with_correct_letters(word, rank)` with `highest` the
      highest rank stored before this round:
      `round(highest - bonus * rank / 10)` for a word with a repeated letter,
      `round(highest + bonus * rank / 10)` otherwise, unchanged without bonus. */
  function PromotedRank(word: string, rank: int, highest: int, correct: map<int, char>, misplaced: map<int, char>): int
    requires |word| == WordleMaxWordLength
  {
    var bonus := Bonus(word, correct, misplaced);
    if bonus == 0 then rank
    else if HasRepeatedLetter(word) then RoundTenths(10 * highest - bonus * rank)
    else RoundTenths(10 * highest + bonus * rank)
  }

  /** Every entry with its promoted rank, in place: the words and their order
      do not change. */
  function Promote(bank: Bank, highest: int, correct: map<int, char>, misplaced: map<int, char>): (r: Bank)
    requires KeysOfLength(bank, WordleMaxWordLength)
    ensures Keys(r) == Keys(bank)
    ensures DistinctKeys(bank) ==> DistinctKeys(r)
  {
    seq(|bank|, i requires 0 <= i < |bank| => (bank[i].0, PromotedRank(bank[i].0, bank[i].1, highest, correct, misplaced)))
  }

  // ---------------------------------------------------------------------
  // One calibration step on values
  // ---------------------------------------------------------------------

  /** What a calibration that passes screening makes of the word bank:
      filtered, promoted against the old highest rank, re-sorted. */
  function CalibratedBank(bank: Bank, highest: int, guess: string, response: string): Bank
    requires KeysOfLength(bank, WordleMaxWordLength)
    requires |response| == WordleMaxWordLength <= |guess|
  {
    var misplaced := LettersCoded(guess, response, 'm');
    var correct := LettersCoded(guess, response, 'c');
    var wrong := WrongLetters(guess, response);
    SortByRankDesc(Promote(Reduce(bank, wrong, misplaced, guess), highest, correct, misplaced))
  }

  // ---------------------------------------------------------------------
  // Suggestions (`predict_wordle`)
  // ---------------------------------------------------------------------

  function SumRanks(bank: Bank): int {
    if |bank| == 0 then 0 else SumRanks(bank[..|bank| - 1]) + bank[|bank| - 1].1
  }

  /** `int(mean(ranks))`: `int` truncates toward zero. */
  function PopularityCutoff(bank: Bank): (cutoff: int)
    requires |bank| > 0
    ensures SumRanks(bank) >= 0 ==> cutoff * |bank| <= SumRanks(bank) < (cutoff + 1) * |bank|
  {
    var total := SumRanks(bank);
    if total >= 0 then total / |bank| else -((-total) / |bank|)
  }

  /** `unique_and_popular`: no letter twice (`len(word) == len(set(word))`)
      and ranked at least at the cutoff. */
  predicate UniqueAndPopular(e: Entry, cutoff: int) {
    !HasRepeatedLetter(e.0) && e.1 >= cutoff
  }

  /** `filter(unique_and_popular, wordbank)`: qualifying words in bank order. */
  function UniqueAndPopularWords(bank: Bank, cutoff: int): (words: seq<string>)
    ensures |words| <= |bank|
    ensures forall w :: w in words <==> exists i | 0 <= i < |bank| :: bank[i].0 == w && UniqueAndPopular(bank[i], cutoff)
    ensures DistinctKeys(bank) ==> Distinct(words)
  {
    if |bank| == 0 then []
    else
      var n := |bank| - 1;
      var kept := UniqueAndPopularWords(bank[..n], cutoff);
      assert forall i | 0 <= i < n :: bank[..n][i] == bank[i];
      assert DistinctKeys(bank) ==> bank[n].0 !in kept;
      if UniqueAndPopular(bank[n], cutoff) then kept + [bank[n].0] else kept
  }

  /** The filter keeps bank order: one more entry at the end of the bank adds
      at most its own word, at the end. */
  lemma UniqueAndPopularWordsAppend(bank: Bank, x: Entry, cutoff: int)
    ensures UniqueAndPopularWords(bank + [x], cutoff) ==
            UniqueAndPopularWords(bank, cutoff) + (if UniqueAndPopular(x, cutoff) then [x.0] else [])
  {
    assert (bank + [x])[..|bank|] == bank;
  }

  /** `islice(filter(unique_and_popular, wordbank), 50)`. */
  function OpenerCandidates(bank: Bank, cutoff: int): seq<string> {
    var words := UniqueAndPopularWords(bank, cutoff);
    words[..Min(OpenerPool, |words|)]
  }

  // ---------------------------------------------------------------------
  // The predictor
  // ---------------------------------------------------------------------

  /** Distinct five-letter words, ranks between 0 and the highest rank,
      highest first. */
  ghost predicate ValidBank(bank: Bank, highest: int) {
    && DistinctKeys(bank)
    && (forall i | 0 <= i < |bank| :: IsWordleWord(bank[i].0))
    && (forall i | 0 <= i < |bank| :: 0 <= bank[i].1 <= highest)
    && SortedDesc(bank)
    && (|bank| > 0 ==> bank[0].1 == highest)
  }

  lemma ValidBankKeys(bank: Bank, highest: int)
    requires ValidBank(bank, highest)
    ensures KeysOfLength(bank, WordleMaxWordLength)
  {
    forall i | 0 <= i < |bank| ensures |bank[i].0| == WordleMaxWordLength {
      assert IsWordleWord(bank[i].0);
    }
  }

  lemma DictionaryWordsAreLowercase(words: seq<string>)
    requires forall w | w in words :: IsWordleWord(w)
    ensures LowercaseWordsUpTo(words, WordleMaxWordLength)
  {
    forall w | w in words ensures |w| <= WordleMaxWordLength && forall i | 0 <= i < |w| :: IsLowerLetter(w[i]) {
      WordleWordIsFiveLowercaseLetters(w);
    }
  }

  lemma DistributionCoversAll(words: seq<string>, n: nat)
    requires LowercaseWordsUpTo(words, n)
    ensures forall w | w in words :: Covers(Distribution(words, n), w)
  {
    forall w | w in words ensures Covers(Distribution(words, n), w) {
      DistributionCovers(words, n, w);
    }
  }

  /** `(word, rank_word_popularity(word, table))` for every word, in order. */
  function RankedWords(words: seq<string>, table: map<char, seq<int>>): Bank
    requires forall w | w in words :: Covers(table, w)
  {
    seq(|words|, i requires 0 <= i < |words| => (words[i], Popularity(words[i], table)))
  }

  /** `{word: rank_word_popularity(word, table) for word in words}` before
      it is sorted. */
  method RankWords(words: seq<string>, table: map<char, seq<int>>) returns (ranked: Bank)
    requires forall w | w in words :: Covers(table, w)
    ensures ranked == RankedWords(words, table)
  {
    ranked := [];
    for i := 0 to |words|
      invariant |ranked| == i
      invariant forall k | 0 <= k < i :: ranked[k] == (words[k], Popularity(words[k], table))
    {
      var rank := RankWordPopularity(words[i], table);
      ranked := ranked + [(words[i], rank)];
    }
  }

  /** The bank `__init__` builds: the ranked words sorted highest first and
      made a dict again. */
  function InitialBank(words: seq<string>, table: map<char, seq<int>>): Bank
    requires forall w | w in words :: Covers(table, w)
  {
    DictFromPairs(SortByRankDesc(RankedWords(words, table)))
  }

  /** The letter table of the dictionary and the bank ranked by it. */
  method BuildWordbank(words: seq<string>) returns (table: map<char, seq<int>>, bank: Bank)
    requires forall w | w in words :: IsWordleWord(w)
    ensures table == Distribution(words, WordleMaxWordLength)
    ensures forall w | w in words :: Covers(table, w)
    ensures bank == InitialBank(words, table)
  {
    DictionaryWordsAreLowercase(words);
    table := LetterFrequencyDistribution(words, WordleMaxWordLength);
    DistributionDetermined(words, WordleMaxWordLength, table);
    DistributionCoversAll(words, WordleMaxWordLength);
    var ranked := RankWords(words, table);
    bank := DictFromPairs(SortByRankDesc(ranked));
  }

  /** The initial bank holds exactly the ranked entries, each word once,
      highest first. */
  lemma InitialBankEntries(words: seq<string>, table: map<char, seq<int>>)
    requires forall w | w in words :: Covers(table, w)
    ensures var bank := InitialBank(words, table);
            && DistinctKeys(bank)
            && SortedDesc(bank)
            && forall e :: e in bank <==> e in RankedWords(words, table)
  {
    var ranked := RankedWords(words, table);
    var sorted := SortByRankDesc(ranked);
    SortKeepsEntries(ranked);
    assert Functional(sorted) by {
      forall e1, e2 | e1 in sorted && e2 in sorted && e1.0 == e2.0 ensures e1.1 == e2.1 {
        assert e1 in ranked && e2 in ranked;
      }
    }
    DictFromSortedPairs(sorted);
  }

  /** The initial bank holds every dictionary word once, with its popularity,
      highest first. */
  lemma InitialBankIsValid(words: seq<string>, table: map<char, seq<int>>)
    requires words != []
    requires forall w | w in words :: IsWordleWord(w) && Covers(table, w)
    ensures var bank := InitialBank(words, table);
            && bank != []
            && ValidBank(bank, MaxRank(bank))
            && (forall w :: HasKey(bank, w) <==> w in words)
            && (forall i | 0 <= i < |bank| :: Covers(table, bank[i].0) && bank[i].1 == Popularity(bank[i].0, table))
  {
    var ranked := RankedWords(words, table);
    var bank := InitialBank(words, table);
    InitialBankEntries(words, table);
    InitialBankRanks(words, table);
    forall w ensures HasKey(bank, w) <==> w in words {
      InitialBankKey(words, table, w);
    }
    assert HasKey(bank, words[0]);
    var m := MaxRank(bank);
    var k :| 0 <= k < |bank| && bank[k].1 == m;
    assert bank[0].1 >= bank[k].1 || k == 0;
  }

  lemma InitialBankRanks(words: seq<string>, table: map<char, seq<int>>)
    requires forall w | w in words :: IsWordleWord(w) && Covers(table, w)
    ensures var bank := InitialBank(words, table);
            forall i | 0 <= i < |bank| ::
              IsWordleWord(bank[i].0) && Covers(table, bank[i].0) && bank[i].1 == Popularity(bank[i].0, table) && bank[i].1 >= 0
  {
    var ranked := RankedWords(words, table);
    var bank := InitialBank(words, table);
    InitialBankEntries(words, table);
    forall i | 0 <= i < |bank|
      ensures IsWordleWord(bank[i].0) && Covers(table, bank[i].0) && bank[i].1 == Popularity(bank[i].0, table) && bank[i].1 >= 0
    {
      assert bank[i] in bank;
      var k :| 0 <= k < |ranked| && ranked[k] == bank[i];
      assert words[k] in words;
      PopularityAtLeastLength(bank[i].0, table);
    }
  }

  lemma InitialBankKey(words: seq<string>, table: map<char, seq<int>>, w: string)
    requires forall w | w in words :: Covers(table, w)
    ensures HasKey(InitialBank(words, table), w) <==> w in words
  {
    var ranked := RankedWords(words, table);
    var bank := InitialBank(words, table);
    InitialBankEntries(words, table);
    if w in words {
      var k :| 0 <= k < |words| && words[k] == w;
      assert ranked[k] in ranked;
      var j :| 0 <= j < |bank| && bank[j] == ranked[k];
    }
    if HasKey(bank, w) {
      var j :| 0 <= j < |bank| && bank[j].0 == w;
      assert bank[j] in bank;
      var k :| 0 <= k < |ranked| && ranked[k] == bank[j];
    }
  }

  class Predictor {
    var frequencyTable: map<char, seq<int>>
    var wordbank: Bank
    var round: int
    var highestRank: int
    var outputSize: nat
    var previousResult: string

    /** At most one round past the last, and a valid bank. */
    ghost predicate Valid()
      reads this
    {
      1 <= round <= MaxRounds + 1 && ValidBank(wordbank, highestRank)
    }

    /** Ranks every dictionary word by the popularity of its letters and
        sorts the bank, highest first. `max()` of an empty bank raises, so the
        dictionary must yield a word. */
    constructor (lines: seq<string>, outputSize: nat)
      requires ReadWordleDictionary(lines) != []
      ensures Valid()
      ensures frequencyTable == Distribution(ReadWordleDictionary(lines), WordleMaxWordLength)
      ensures forall w :: HasKey(wordbank, w) <==> w in ReadWordleDictionary(lines)
      ensures forall i | 0 <= i < |wordbank| ::
                Covers(frequencyTable, wordbank[i].0) && wordbank[i].1 == Popularity(wordbank[i].0, frequencyTable)
      ensures forall w | w in ReadWordleDictionary(lines) :: Covers(frequencyTable, w)
      ensures wordbank == InitialBank(ReadWordleDictionary(lines), frequencyTable)
      ensures |wordbank| > 0 && highestRank == MaxRank(wordbank)
      ensures round == 1 && previousResult == "" && this.outputSize == outputSize
    {
      var words := ReadWordleDictionary(lines);
      var table, bank := BuildWordbank(words);
      InitialBankIsValid(words, table);

      frequencyTable := table;
      wordbank := bank;
      round := 1;
      highestRank := MaxRank(bank);
      this.outputSize := outputSize;
      previousResult := "";
    }

    /** Round 1, or right after an all-wrong round: suggest openers. */
    predicate Exploring()
      reads this
    {
      round == 1 || previousResult == AllWrong
    }

    /** When exploring, some `outputSize` (or fewer) of the first 50 words
        without a repeated letter ranked at least at the mean, in any order
        (the source shuffles them); `mean()` of an empty bank raises, which is
        `None`. Otherwise the `outputSize` highest-ranked words, in order. */
    method PredictWordle() returns (suggestions: Option<seq<string>>)
      requires Valid()
      ensures Exploring() && |wordbank| == 0 ==> suggestions == None
      ensures Exploring() && |wordbank| > 0 ==>
                && suggestions.Some?
                && var cutoff := PopularityCutoff(wordbank);
                && var openers := OpenerCandidates(wordbank, cutoff);
                && |suggestions.value| == Min(outputSize, |openers|)
                && Distinct(suggestions.value)
                && forall w | w in suggestions.value ::
                     && w in openers
                     && !HasRepeatedLetter(w)
                     && exists i | 0 <= i < |wordbank| :: wordbank[i].0 == w && wordbank[i].1 >= cutoff
      ensures !Exploring() ==>
                && suggestions == Some(Keys(wordbank)[..Min(outputSize, |wordbank|)])
                && forall i, j | 0 <= i < |suggestions.value| <= j < |wordbank| :: wordbank[i].1 >= wordbank[j].1
    {
      if round == 1 || previousResult == AllWrong {
        if |wordbank| == 0 {
          return None;
        }
        var popularityCutoff := PopularityCutoff(wordbank);
        var top50Results := OpenerCandidates(wordbank, popularityCutoff);
        var all := UniqueAndPopularWords(wordbank, popularityCutoff);
        assert forall w | w in top50Results :: w in all;
        assert Distinct(top50Results) by {
          assert Distinct(all);
        }
        var shuffled: seq<string> :| multiset(shuffled) == multiset(top50Results);
        PermutationKeepsDistinct(shuffled, top50Results);
        var pick := shuffled[..Min(outputSize, |shuffled|)];
        assert |shuffled| == |top50Results| by {
          assert |multiset(shuffled)| == |multiset(top50Results)|;
        }
        forall w | w in pick ensures w in top50Results {
          assert w in shuffled;
          assert w in multiset(shuffled);
        }
        suggestions := Some(pick);
      } else {
        suggestions := Some(Keys(wordbank)[..Min(outputSize, |wordbank|)]);
      }
    }

    /** One round of feedback. A rejected input changes nothing; otherwise
        the bank becomes CalibratedBank of the old bank and the round
        advances. If no word survives, `max()` raises after the bank was
        replaced and the round advanced. */
    method Calibrate(guess: string, gameResponse: string) returns (outcome: Outcome)
      requires Valid()
      modifies this
      ensures Valid()
      ensures frequencyTable == old(frequencyTable) && outputSize == old(outputSize)
      ensures Screen(old(round), old(wordbank), guess, gameResponse) != Continue ==>
                && outcome == Screen(old(round), old(wordbank), guess, gameResponse)
                && wordbank == old(wordbank) && round == old(round)
                && highestRank == old(highestRank) && previousResult == old(previousResult)
      ensures Screen(old(round), old(wordbank), guess, gameResponse) == Continue ==>
                && |guess| == WordleMaxWordLength
                && wordbank == CalibratedBank(old(wordbank), old(highestRank), guess, gameResponse)
                && round == old(round) + 1
                && (wordbank == [] ==>
                      outcome == NoCandidates && highestRank == old(highestRank) && previousResult == old(previousResult))
                && (wordbank != [] ==>
                      outcome == Continue && highestRank == MaxRank(wordbank) && previousResult == gameResponse)
    {
      outcome := Screen(round, wordbank, guess, gameResponse);
      if outcome != Continue {
        return;
      }
      var j :| 0 <= j < |wordbank| && wordbank[j].0 == guess;
      assert IsWordleWord(wordbank[j].0);
      outcome := CalibrateScreened(guess, gameResponse);
    }

    /** The steps of `calibrate` after its inputs passed screening. */
    method CalibrateScreened(guess: string, gameResponse: string) returns (outcome: Outcome)
      requires 1 <= round <= MaxRounds && ValidBank(wordbank, highestRank)
      requires |guess| == WordleMaxWordLength == |gameResponse|
      modifies this`wordbank, this`round, this`highestRank, this`previousResult
      ensures Valid()
      ensures wordbank == CalibratedBank(old(wordbank), old(highestRank), guess, gameResponse)
      ensures round == old(round) + 1
      ensures wordbank == [] ==>
                outcome == NoCandidates && highestRank == old(highestRank) && previousResult == old(previousResult)
      ensures wordbank != [] ==>
                outcome == Continue && highestRank == MaxRank(wordbank) && previousResult == gameResponse
    {
      CalibratedBankIsValid(wordbank, highestRank, guess, gameResponse);
      UpdateWordbank(guess, gameResponse);
      outcome := RefreshCurrentGameState(gameResponse);
    }

    /** Decoding, filtering, promotion and sorting: the bank becomes
        CalibratedBank of the old one; nothing else changes. */
    method UpdateWordbank(guess: string, gameResponse: string)
      requires KeysOfLength(wordbank, WordleMaxWordLength) && DistinctKeys(wordbank)
      requires |gameResponse| == WordleMaxWordLength <= |guess|
      modifies this`wordbank
      ensures wordbank == CalibratedBank(old(wordbank), highestRank, guess, gameResponse)
    {
      var misplacedLetters := LettersCoded(guess, gameResponse, 'm');
      var correctLetters := LettersCoded(guess, gameResponse, 'c');
      var wrongLetters := WrongLetters(guess, gameResponse);

      ReduceWordbank(wrongLetters, misplacedLetters, guess);
      PromoteWords(correctLetters, misplacedLetters);
      SortWordsByHighestRankFirst();
    }

    /** The dict rebuilt from the items that survive the three tests. */
    method ReduceWordbank(wrongLetters: set<char>, misplacedLetters: map<int, char>, guess: string)
      requires KeysOfLength(wordbank, WordleMaxWordLength)
      requires PositionsBelow(misplacedLetters, WordleMaxWordLength)
      modifies this`wordbank
      ensures wordbank == DictFromPairs(Reduce(old(wordbank), wrongLetters, misplacedLetters, guess))
      ensures DistinctKeys(old(wordbank)) ==> wordbank == Reduce(old(wordbank), wrongLetters, misplacedLetters, guess)
    {
      if DistinctKeys(wordbank) {
        DictFromDistinctPairs(Reduce(wordbank, wrongLetters, misplacedLetters, guess));
      }
      wordbank := DictFromPairs(Reduce(wordbank, wrongLetters, misplacedLetters, guess));
    }

    /** Assigns each word its promoted rank (`self.wordbank[word] = ...`),
        word by word in bank order; each assignment rewrites its entry in
        place. */
    method PromoteWords(correctLetters: map<int, char>, misplacedLetters: map<int, char>)
      requires KeysOfLength(wordbank, WordleMaxWordLength) && DistinctKeys(wordbank)
      modifies this`wordbank
      ensures wordbank == Promote(old(wordbank), highestRank, correctLetters, misplacedLetters)
    {
      var i := 0;
      while i < |wordbank|
        invariant 0 <= i <= |wordbank| == |old(wordbank)|
        invariant forall k | 0 <= k < i ::
                    wordbank[k] == (old(wordbank)[k].0, PromotedRank(old(wordbank)[k].0, old(wordbank)[k].1, highestRank, correctLetters, misplacedLetters))
        invariant forall k | i <= k < |wordbank| :: wordbank[k] == old(wordbank)[k]
      {
        var word, rank := wordbank[i].0, wordbank[i].1;
        assert DistinctKeys(wordbank) by {
          forall j, k | 0 <= j < k < |wordbank| ensures wordbank[j].0 != wordbank[k].0 {
            assert wordbank[j].0 == old(wordbank)[j].0 && wordbank[k].0 == old(wordbank)[k].0;
          }
        }
        assert wordbank[i].0 == word;
        AssignExistingKey(wordbank, word, PromotedRank(word, rank, highestRank, correctLetters, misplacedLetters));
        wordbank := Assign(wordbank, word, PromotedRank(word, rank, highestRank, correctLetters, misplacedLetters));
        i := i + 1;
      }
    }

    /** The dict rebuilt from the items sorted highest rank first; since the
        words are already distinct, the rebuild keeps every item in sorted
        order. */
    method SortWordsByHighestRankFirst()
      modifies this`wordbank
      ensures wordbank == DictFromPairs(SortByRankDesc(old(wordbank)))
      ensures DistinctKeys(old(wordbank)) ==> wordbank == SortByRankDesc(old(wordbank))
    {
      if DistinctKeys(wordbank) {
        SortKeepsDistinctKeys(wordbank);
        DictFromDistinctPairs(SortByRankDesc(wordbank));
      }
      wordbank := DictFromPairs(SortByRankDesc(wordbank));
    }

    method RefreshCurrentGameState(gameResponse: string) returns (outcome: Outcome)
      modifies this`round, this`highestRank, this`previousResult
      ensures round == old(round) + 1
      ensures wordbank == [] ==>
                outcome == NoCandidates && highestRank == old(highestRank) && previousResult == old(previousResult)
      ensures wordbank != [] ==>
                outcome == Continue && highestRank == MaxRank(wordbank) && previousResult == gameResponse
    {
      round := round + 1;
      if |wordbank| == 0 {
        return NoCandidates;
      }
      highestRank := MaxRank(wordbank);
      previousResult := gameResponse;
      outcome := Continue;
    }
  }

  // ---------------------------------------------------------------------
  // What a calibration keeps
  // ---------------------------------------------------------------------

  /** The entries after a calibration are exactly the surviving entries with
      their promoted ranks. */
  lemma CalibratedEntries(bank: Bank, highest: int, guess: string, response: string)
    requires KeysOfLength(bank, WordleMaxWordLength)
    requires |response| == WordleMaxWordLength <= |guess|
    ensures var misplaced := LettersCoded(guess, response, 'm');
            var correct := LettersCoded(guess, response, 'c');
            var wrong := WrongLetters(guess, response);
            forall e :: e in CalibratedBank(bank, highest, guess, response) <==>
              exists j | 0 <= j < |bank| ::
                && Survives(bank[j].0, wrong, misplaced, guess)
                && e == (bank[j].0, PromotedRank(bank[j].0, bank[j].1, highest, correct, misplaced))
  {
    var misplaced := LettersCoded(guess, response, 'm');
    var correct := LettersCoded(guess, response, 'c');
    var wrong := WrongLetters(guess, response);
    var reduced := Reduce(bank, wrong, misplaced, guess);
    var promoted := Promote(reduced, highest, correct, misplaced);
    SortKeepsEntries(promoted);
    forall e ensures e in CalibratedBank(bank, highest, guess, response) <==>
              exists j | 0 <= j < |bank| ::
                && Survives(bank[j].0, wrong, misplaced, guess)
                && e == (bank[j].0, PromotedRank(bank[j].0, bank[j].1, highest, correct, misplaced))
    {
      if e in promoted {
        var i :| 0 <= i < |promoted| && promoted[i] == e;
        assert reduced[i] in reduced;
        var j :| 0 <= j < |bank| && bank[j] == reduced[i];
      }
      if exists j | 0 <= j < |bank| ::
           && Survives(bank[j].0, wrong, misplaced, guess)
           && e == (bank[j].0, PromotedRank(bank[j].0, bank[j].1, highest, correct, misplaced))
      {
        var j :| 0 <= j < |bank| && Survives(bank[j].0, wrong, misplaced, guess)
                 && e == (bank[j].0, PromotedRank(bank[j].0, bank[j].1, highest, correct, misplaced));
        assert bank[j] in bank;
        var i :| 0 <= i < |reduced| && reduced[i] == bank[j];
        assert promoted[i] == e;
      }
    }
  }

  /** A calibration that passes screening leaves a valid bank behind: distinct
      words of the dictionary, ranks at least 0, highest first, the first
      rank the new highest. */
  lemma CalibratedBankIsValid(bank: Bank, highest: int, guess: string, response: string)
    requires ValidBank(bank, highest)
    requires |response| == WordleMaxWordLength <= |guess|
    ensures KeysOfLength(bank, WordleMaxWordLength)
    ensures var next := CalibratedBank(bank, highest, guess, response);
            next != [] ==> ValidBank(next, MaxRank(next))
  {
    ValidBankKeys(bank, highest);
    var misplaced := LettersCoded(guess, response, 'm');
    var correct := LettersCoded(guess, response, 'c');
    var wrong := WrongLetters(guess, response);
    var reduced := Reduce(bank, wrong, misplaced, guess);
    var promoted := Promote(reduced, highest, correct, misplaced);
    var next := SortByRankDesc(promoted);
    SortKeepsEntries(promoted);
    CalibratedEntries(bank, highest, guess, response);
    SortKeepsDistinctKeys(promoted);
    forall i | 0 <= i < |next| ensures IsWordleWord(next[i].0) && 0 <= next[i].1 {
      assert next[i] in next;
      var k :| 0 <= k < |bank| && Survives(bank[k].0, wrong, misplaced, guess)
               && next[i] == (bank[k].0, PromotedRank(bank[k].0, bank[k].1, highest, correct, misplaced));
      PromotionSplitsAtHighestRank(bank[k].0, bank[k].1, highest, correct, misplaced);
    }
    if next != [] {
      var m := MaxRank(next);
      var k :| 0 <= k < |next| && next[k].1 == m;
      assert next[0].1 >= next[k].1 || k == 0;
    }
  }

  /** Promotion puts the promoted words without a repeated letter at or above
      the old highest rank, and every other word at or below it, never below 0. */
  lemma PromotionSplitsAtHighestRank(word: string, rank: int, highest: int, correct: map<int, char>, misplaced: map<int, char>)
    requires |word| == WordleMaxWordLength
    requires 0 <= rank <= highest
    ensures var r := PromotedRank(word, rank, highest, correct, misplaced);
            var bonus := Bonus(word, correct, misplaced);
            && 0 <= r
            && (bonus == 0 ==> r == rank)
            && (bonus > 0 && !HasRepeatedLetter(word) ==> r >= highest)
            && (bonus == 0 || HasRepeatedLetter(word) ==> r <= highest)
  {
    var bonus := Bonus(word, correct, misplaced);
    assert 0 <= bonus * rank <= 10 * highest by {
      assert bonus * rank <= 10 * rank;
    }
  }
}
