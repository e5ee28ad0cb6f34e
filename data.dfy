// The lexicon side of the solver: which dictionary words qualify, how often
// each letter occurs at each position, and the popularity score of a word
// built from those counts.

module Data {
  import opened Letters

  /** `WORDLE_MAX_WORLD_LENGTH`: the length of every word of the game. */
  const WordleMaxWordLength: nat := 5

  // ---------------------------------------------------------------------
  // The dictionary filter
  // ---------------------------------------------------------------------

  predicate IsAsciiLetter(c: char) {
    'a' <= c <= 'z' || 'A' <= c <= 'Z'
  }

  /** `str.isascii()`. */
  predicate IsAscii(s: string) {
    forall i | 0 <= i < |s| :: s[i] as int < 128
  }

  /** `str.isalpha()` on ASCII text: non-empty and letters only. Outside ASCII
      Python also accepts other alphabetic characters; the filter below asks
      for `isascii()` as well, so that difference never decides the filter. */
  predicate IsAlpha(s: string) {
    |s| > 0 && forall i | 0 <= i < |s| :: IsAsciiLetter(s[i])
  }

  /** `str.islower()` on ASCII text: some lower-case letter and no upper-case one. */
  predicate IsLower(s: string) {
    && (exists i | 0 <= i < |s| :: IsLowerLetter(s[i]))
    && forall i | 0 <= i < |s| :: !('A' <= s[i] <= 'Z')
  }

  /** The test a dictionary line must pass to be yielded by `read_wordle_dictionary`. */
  predicate IsWordleWord(w: string) {
    |w| == WordleMaxWordLength && IsAlpha(w) && IsLower(w) && IsAscii(w)
  }

  /** The four tests together accept exactly the five-letter words over a–z. */
  lemma WordleWordIsFiveLowercaseLetters(w: string)
    ensures IsWordleWord(w) <==> |w| == 5 && forall i | 0 <= i < |w| :: IsLowerLetter(w[i])
  {
    if |w| == 5 && forall i | 0 <= i < |w| :: IsLowerLetter(w[i]) {
      assert IsLowerLetter(w[0]);
    }
  }

  /** `read_wordle_dictionary` with the file reading taken out: the dictionary
      lines are given, and the qualifying ones are kept in their order. */
  function ReadWordleDictionary(lines: seq<string>): (words: seq<string>)
    ensures |words| <= |lines|
    ensures forall w :: w in words <==> w in lines && IsWordleWord(w)
  {
    if |lines| == 0 then []
    else
      var n := |lines| - 1;
      assert lines == lines[..n] + [lines[n]];
      var kept := ReadWordleDictionary(lines[..n]);
      if IsWordleWord(lines[n]) then kept + [lines[n]] else kept
  }

  /** Filtering commutes with concatenation, so the input order is kept. */
  lemma {:induction false} ReadWordleDictionaryAppend(a: seq<string>, b: seq<string>)
    ensures ReadWordleDictionary(a + b) == ReadWordleDictionary(a) + ReadWordleDictionary(b)
    decreases |b|
  {
    if |b| == 0 {
      assert a + b == a;
    } else {
      var n := |b| - 1;
      assert (a + b)[..|a + b| - 1] == a + b[..n];
      assert (a + b)[|a + b| - 1] == b[n];
      ReadWordleDictionaryAppend(a, b[..n]);
    }
  }

  /** The dictionary of the module's own test: only `three` and `seven` qualify. */
  lemma ReadWordleDictionaryExample()
    ensures ReadWordleDictionary(["one's", "two", "three", "thre\U{C3}\U{AA}", "seven", "Thousand", "twelve"])
            == ["three", "seven"]
  {
    assert !IsAsciiLetter("one's"[3]);
    assert !IsWordleWord("one's");
    assert IsWordleWord("three") by { assert IsLowerLetter("three"[0]); }
    assert IsWordleWord("seven") by { assert IsLowerLetter("seven"[0]); }
    var lines := ["one's", "two", "three", "thre\U{C3}\U{AA}", "seven", "Thousand", "twelve"];
    assert lines[..1] == ["one's"];
    assert lines[..2] == lines[..1] + ["two"];
    assert lines[..3] == lines[..2] + ["three"];
    assert lines[..4] == lines[..3] + ["thre\U{C3}\U{AA}"];
    assert lines[..5] == lines[..4] + ["seven"];
    assert lines[..6] == lines[..5] + ["Thousand"];
    assert ReadWordleDictionary(lines[..1]) == [];
    assert ReadWordleDictionary(lines[..2]) == [];
    assert ReadWordleDictionary(lines[..3]) == ["three"];
    assert ReadWordleDictionary(lines[..4]) == ["three"];
    assert ReadWordleDictionary(lines[..5]) == ["three", "seven"];
    assert ReadWordleDictionary(lines[..6]) == ["three", "seven"];
  }

  // ---------------------------------------------------------------------
  // Letter frequency distribution
  // ---------------------------------------------------------------------

  /** Words over a–z no longer than `n`: what `letter_frequency_distribution` assumes. */
  predicate LowercaseWordsUpTo(words: seq<string>, n: nat) {
    forall w | w in words :: |w| <= n && forall i | 0 <= i < |w| :: IsLowerLetter(w[i])
  }

  /** 1 if `w` has letter `l` at position `p`. */
  function Hit(w: string, l: char, p: int): nat {
    if 0 <= p < |w| && w[p] == l then 1 else 0
  }

  /** The number of words with letter `l` at position `p`. */
  function CountAt(words: seq<string>, l: char, p: int): nat {
    if |words| == 0 then 0
    else CountAt(words[..|words| - 1], l, p) + Hit(words[|words| - 1], l, p)
  }

  /** The table the source promises: one row per letter a–z, one count per position. */
  function Distribution(words: seq<string>, n: nat): map<char, seq<int>> {
    map l | l in Alphabet :: seq(n, p => CountAt(words, l, p))
  }

  /** A Python `Counter` lookup: absent keys count 0. */
  function Tally<K>(counter: map<K, nat>, k: K): nat {
    if k in counter then counter[k] else 0
  }

  /** `counter` after counting the first `n` (letter, position) pairs of `w`. */
  function CountPositions(counter: map<(char, int), nat>, w: string, n: nat): map<(char, int), nat>
    requires n <= |w|
  {
    if n == 0 then counter
    else
      var c := CountPositions(counter, w, n - 1);
      c[(w[n - 1], n - 1) := Tally(c, (w[n - 1], n - 1)) + 1]
  }

  /** `Counter((letter, position) for word in words for position, letter in enumerate(word))`. */
  function PositionCounter(words: seq<string>): map<(char, int), nat> {
    if |words| == 0 then map[]
    else
      var w := words[|words| - 1];
      CountPositions(PositionCounter(words[..|words| - 1]), w, |w|)
  }

  lemma {:induction false} CountPositionsTallies(counter: map<(char, int), nat>, w: string, n: nat, l: char, p: int)
    requires n <= |w|
    ensures Tally(CountPositions(counter, w, n), (l, p)) == Tally(counter, (l, p)) + (if p < n then Hit(w, l, p) else 0)
  {
    if n > 0 { CountPositionsTallies(counter, w, n - 1, l, p); }
  }

  lemma {:induction false} CountPositionsKeys(counter: map<(char, int), nat>, w: string, n: nat, bound: nat)
    requires n <= |w| <= bound
    requires forall i | 0 <= i < |w| :: IsLowerLetter(w[i])
    requires forall k | k in counter :: IsLowerLetter(k.0) && 0 <= k.1 < bound
    ensures forall k | k in CountPositions(counter, w, n) :: IsLowerLetter(k.0) && 0 <= k.1 < bound
  {
    if n > 0 { CountPositionsKeys(counter, w, n - 1, bound); }
  }

  /** The keys of the counter fit the table. */
  lemma {:induction false} PositionCounterKeys(words: seq<string>, n: nat)
    requires LowercaseWordsUpTo(words, n)
    ensures forall k | k in PositionCounter(words) :: IsLowerLetter(k.0) && 0 <= k.1 < n
  {
    if |words| > 0 {
      var m := |words| - 1;
      assert LowercaseWordsUpTo(words[..m], n) by {
        forall w | w in words[..m] ensures w in words { }
      }
      assert words[m] in words;
      PositionCounterKeys(words[..m], n);
      CountPositionsKeys(PositionCounter(words[..m]), words[m], |words[m]|, n);
    }
  }

  /** The counter agrees with CountAt everywhere. */
  lemma {:induction false} PositionCounterTallies(words: seq<string>, l: char, p: int)
    ensures Tally(PositionCounter(words), (l, p)) == CountAt(words, l, p)
  {
    if |words| > 0 {
      var m := |words| - 1;
      PositionCounterTallies(words[..m], l, p);
      CountPositionsTallies(PositionCounter(words[..m]), words[m], |words[m]|, l, p);
    }
  }

  method LetterFrequencyDistribution(words: seq<string>, maxWordLength: nat)
    returns (distribution: map<char, seq<int>>)
    requires LowercaseWordsUpTo(words, maxWordLength)
    ensures forall l :: l in distribution <==> l in Alphabet
    ensures forall l | l in distribution :: |distribution[l]| == maxWordLength
    ensures forall l, p | l in distribution && 0 <= p < maxWordLength ::
              distribution[l][p] == CountAt(words, l, p)
  {
    var counter := PositionCounter(words);
    PositionCounterKeys(words, maxWordLength);

    distribution := map[];
    for k := 0 to |Alphabet|
      invariant forall l :: l in distribution <==> l in Alphabet[..k]
      invariant forall l | l in distribution :: distribution[l] == seq(maxWordLength, _ => 0)
    {
      distribution := distribution[Alphabet[k] := seq(maxWordLength, _ => 0)];
    }
    assert Alphabet[..|Alphabet|] == Alphabet;

    var pending := counter.Keys;
    while pending != {}
      invariant pending <= counter.Keys
      invariant forall l :: l in distribution <==> l in Alphabet
      invariant forall l | l in distribution :: |distribution[l]| == maxWordLength
      invariant forall l, p | l in distribution && 0 <= p < maxWordLength ::
                  distribution[l][p] == if (l, p) in pending then 0 else Tally(counter, (l, p))
      decreases pending
    {
      var key :| key in pending;
      var letter, position := key.0, key.1;
      AlphabetIsLowerLetters(letter);
      var current := distribution[letter];
      ghost var before := distribution;
      distribution := distribution[letter := AddAt(current, position, counter[key])];
      pending := pending - {key};
      forall l, p | l in distribution && 0 <= p < maxWordLength
        ensures distribution[l][p] == if (l, p) in pending then 0 else Tally(counter, (l, p))
      {
        if l != letter {
          assert distribution[l] == before[l];
        }
      }
    }
    forall l, p ensures Tally(counter, (l, p)) == CountAt(words, l, p) {
      PositionCounterTallies(words, l, p);
    }
  }

  /** `[i + j for i, j in zip(current, update)]` where `update` is all zeros
      except `count` at `position`. */
  function AddAt(current: seq<int>, position: int, count: int): (r: seq<int>)
    requires 0 <= position < |current|
    ensures |r| == |current|
    ensures forall q | 0 <= q < |r| :: r[q] == current[q] + (if q == position then count else 0)
  {
    current[position := current[position] + count]
  }

  /** The table is determined by its counts: whatever meets the contract of
      LetterFrequencyDistribution is Distribution(words, n). */
  lemma DistributionDetermined(words: seq<string>, n: nat, d: map<char, seq<int>>)
    requires forall l :: l in d <==> l in Alphabet
    requires forall l | l in d :: |d[l]| == n
    requires forall l, p | l in d && 0 <= p < n :: d[l][p] == CountAt(words, l, p)
    ensures d == Distribution(words, n)
  {
    var e := Distribution(words, n);
    forall l | l in d ensures d[l] == e[l] {
      assert |e[l]| == n;
    }
  }

  // Sums over the table

  function TotalLetters(words: seq<string>): nat {
    if |words| == 0 then 0 else TotalLetters(words[..|words| - 1]) + |words[|words| - 1]|
  }

  /** The first `n` entries of `row`, added up. */
  function RowSum(row: seq<int>, n: nat): int
    requires n <= |row|
  {
    if n == 0 then 0 else RowSum(row, n - 1) + row[n - 1]
  }

  /** The rows of `letters` in `table`, added up over the first `n` positions. */
  function TableSum(table: map<char, seq<int>>, letters: seq<char>, n: nat): int
    requires forall l | l in letters :: l in table && n <= |table[l]|
  {
    if |letters| == 0 then 0
    else TableSum(table, letters[..|letters| - 1], n) + RowSum(table[letters[|letters| - 1]], n)
  }

  // Counting helpers for the proof of DistributionSumsToLetterCount

  function RowCount(words: seq<string>, l: char, n: nat): nat {
    if n == 0 then 0 else RowCount(words, l, n - 1) + CountAt(words, l, n - 1)
  }

  function TableCount(words: seq<string>, letters: seq<char>, n: nat): nat {
    if |letters| == 0 then 0
    else TableCount(words, letters[..|letters| - 1], n) + RowCount(words, letters[|letters| - 1], n)
  }

  function HitsBelow(w: string, l: char, n: nat): nat {
    if n == 0 then 0 else HitsBelow(w, l, n - 1) + Hit(w, l, n - 1)
  }

  function LettersHits(w: string, letters: seq<char>, n: nat): nat {
    if |letters| == 0 then 0
    else LettersHits(w, letters[..|letters| - 1], n) + HitsBelow(w, letters[|letters| - 1], n)
  }

  function Matches(c: char, letters: seq<char>): nat {
    if |letters| == 0 then 0
    else Matches(c, letters[..|letters| - 1]) + (if letters[|letters| - 1] == c then 1 else 0)
  }

  predicate NoRepeats(letters: seq<char>) {
    forall i, j | 0 <= i < j < |letters| :: letters[i] != letters[j]
  }

  lemma {:induction false} MatchesDistinct(c: char, letters: seq<char>)
    requires NoRepeats(letters)
    ensures Matches(c, letters) == if c in letters then 1 else 0
  {
    if |letters| > 0 {
      var n := |letters| - 1;
      MatchesDistinct(c, letters[..n]);
      assert letters == letters[..n] + [letters[n]];
      assert letters[n] == c ==> c !in letters[..n];
    }
  }

  lemma {:induction false} RowCountEmpty(l: char, n: nat)
    ensures RowCount([], l, n) == 0
  {
    if n > 0 { RowCountEmpty(l, n - 1); }
  }

  lemma {:induction false} TableCountEmpty(letters: seq<char>, n: nat)
    ensures TableCount([], letters, n) == 0
  {
    if |letters| > 0 {
      TableCountEmpty(letters[..|letters| - 1], n);
      RowCountEmpty(letters[|letters| - 1], n);
    }
  }

  lemma {:induction false} RowCountSnoc(ws: seq<string>, w: string, l: char, n: nat)
    ensures RowCount(ws + [w], l, n) == RowCount(ws, l, n) + HitsBelow(w, l, n)
  {
    if n > 0 {
      RowCountSnoc(ws, w, l, n - 1);
      assert (ws + [w])[..|ws + [w]| - 1] == ws;
    }
  }

  lemma {:induction false} TableCountSnoc(ws: seq<string>, w: string, letters: seq<char>, n: nat)
    ensures TableCount(ws + [w], letters, n) == TableCount(ws, letters, n) + LettersHits(w, letters, n)
  {
    if |letters| > 0 {
      TableCountSnoc(ws, w, letters[..|letters| - 1], n);
      RowCountSnoc(ws, w, letters[|letters| - 1], n);
    }
  }

  lemma {:induction false} LettersHitsStep(w: string, letters: seq<char>, n: nat)
    requires n > 0
    ensures LettersHits(w, letters, n)
            == LettersHits(w, letters, n - 1) + (if n - 1 < |w| then Matches(w[n - 1], letters) else 0)
  {
    if |letters| > 0 {
      LettersHitsStep(w, letters[..|letters| - 1], n);
    }
  }

  lemma AlphabetHasNoRepeats()
    ensures NoRepeats(Alphabet)
  {
  }

  lemma {:induction false} LettersHitsOfWord(w: string, n: nat)
    requires forall i | 0 <= i < |w| :: IsLowerLetter(w[i])
    ensures LettersHits(w, Alphabet, n) == if n < |w| then n else |w|
  {
    if n > 0 {
      LettersHitsOfWord(w, n - 1);
      LettersHitsStep(w, Alphabet, n);
      if n - 1 < |w| {
        AlphabetHasNoRepeats();
        MatchesDistinct(w[n - 1], Alphabet);
        AlphabetIsLowerLetters(w[n - 1]);
      }
    } else {
      LettersHitsZero(w, Alphabet);
    }
  }

  lemma {:induction false} LettersHitsZero(w: string, letters: seq<char>)
    ensures LettersHits(w, letters, 0) == 0
  {
    if |letters| > 0 { LettersHitsZero(w, letters[..|letters| - 1]); }
  }

  lemma {:induction false} TableCountIsTotalLetters(words: seq<string>, n: nat)
    requires LowercaseWordsUpTo(words, n)
    ensures TableCount(words, Alphabet, n) == TotalLetters(words)
  {
    if |words| == 0 {
      TableCountEmpty(Alphabet, n);
    } else {
      var k := |words| - 1;
      assert words == words[..k] + [words[k]];
      assert LowercaseWordsUpTo(words[..k], n) by {
        forall w | w in words[..k] ensures w in words { }
      }
      TableCountIsTotalLetters(words[..k], n);
      TableCountSnoc(words[..k], words[k], Alphabet, n);
      LettersHitsOfWord(words[k], n);
    }
  }

  lemma {:induction false} RowSumIsRowCount(words: seq<string>, l: char, row: seq<int>, n: nat)
    requires n <= |row|
    requires forall p | 0 <= p < n :: row[p] == CountAt(words, l, p)
    ensures RowSum(row, n) == RowCount(words, l, n)
  {
    if n > 0 { RowSumIsRowCount(words, l, row, n - 1); }
  }

  lemma {:induction false} TableSumIsTableCount(words: seq<string>, table: map<char, seq<int>>, letters: seq<char>, n: nat)
    requires forall l | l in letters :: l in table && |table[l]| == n
    requires forall l, p | l in letters && 0 <= p < n :: table[l][p] == CountAt(words, l, p)
    ensures TableSum(table, letters, n) == TableCount(words, letters, n)
  {
    if |letters| > 0 {
      var k := |letters| - 1;
      TableSumIsTableCount(words, table, letters[..k], n);
      RowSumIsRowCount(words, letters[k], table[letters[k]], n);
    }
  }

  /** Every letter occurrence of every word is counted exactly once in the table. */
  lemma DistributionSumsToLetterCount(words: seq<string>, n: nat)
    requires LowercaseWordsUpTo(words, n)
    ensures TableSum(Distribution(words, n), Alphabet, n) == TotalLetters(words)
  {
    var table := Distribution(words, n);
    TableSumIsTableCount(words, table, Alphabet, n);
    TableCountIsTotalLetters(words, n);
  }

  // ---------------------------------------------------------------------
  // Popularity
  // ---------------------------------------------------------------------

  /** The table has a row for every letter of `word`, long enough for its position. */
  predicate Covers(table: map<char, seq<int>>, word: string) {
    forall i | 0 <= i < |word| :: word[i] in table && i < |table[word[i]]|
  }

  function Max1(x: int): int {
    if x < 1 then 1 else x
  }

  /** The popularity the source promises: per position, the letter's count at
      that position, never less than 1; summed over the word. */
  function Popularity(word: string, table: map<char, seq<int>>): int
    requires Covers(table, word)
  {
    if |word| == 0 then 0
    else
      var n := |word| - 1;
      assert Covers(table, word[..n]) by {
        forall i | 0 <= i < n ensures word[..n][i] == word[i] { }
      }
      Popularity(word[..n], table) + Max1(table[word[n]][n])
  }

  lemma {:induction false} PopularityAtLeastLength(word: string, table: map<char, seq<int>>)
    requires Covers(table, word)
    ensures Popularity(word, table) >= |word|
  {
    if |word| > 0 {
      var n := |word| - 1;
      assert Covers(table, word[..n]) by {
        forall i | 0 <= i < n ensures word[..n][i] == word[i] { }
      }
      PopularityAtLeastLength(word[..n], table);
    }
  }

  method RankWordPopularity(word: string, frequencyTable: map<char, seq<int>>) returns (score: int)
    requires Covers(frequencyTable, word)
    ensures score == Popularity(word, frequencyTable)
    ensures score >= |word|
  {
    score := 0;
    for position := 0 to |word|
      invariant Covers(frequencyTable, word[..position])
      invariant score == Popularity(word[..position], frequencyTable)
    {
      var letter := word[position];
      var letterScore := frequencyTable[letter][position];
      assert word[..position + 1][..position] == word[..position];
      score := score + Max1(letterScore);
    }
    assert word[..|word|] == word;
    PopularityAtLeastLength(word, frequencyTable);
  }

  /** The distribution of a word list covers every word of it. */
  lemma DistributionCovers(words: seq<string>, n: nat, w: string)
    requires LowercaseWordsUpTo(words, n)
    requires w in words
    ensures Covers(Distribution(words, n), w)
  {
    forall i | 0 <= i < |w| ensures w[i] in Alphabet {
      AlphabetIsLowerLetters(w[i]);
    }
  }
}
