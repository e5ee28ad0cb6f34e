// What one round of calibration promises about the word bank: which words
// stay, which go, how the ranks move, and two rounds worked through on
// concrete banks. Also the two pieces of arithmetic the predictor relies on:
// half-to-even rounding and the mean used as the opener cutoff.

module Calibration {
  import opened Letters
  import opened Data
  import opened WordBank
  import opened Analytics

  // ---------------------------------------------------------------------
  // Decoding
  // ---------------------------------------------------------------------

  /** A letter is ruled wrong exactly when some position codes it 'w' and no
      position codes it 'c'; an 'm' elsewhere does not save it. */
  lemma WrongLettersMeaning(guess: string, response: string, l: char)
    requires |response| <= |guess|
    ensures l in WrongLetters(guess, response) <==>
              && (exists p | 0 <= p < |response| :: response[p] == 'w' && guess[p] == l)
              && (forall q | 0 <= q < |response| && response[q] == 'c' :: guess[q] != l)
  {
    var correct := LettersCoded(guess, response, 'c');
    if exists q | 0 <= q < |response| && response[q] == 'c' :: guess[q] == l {
      var q :| 0 <= q < |response| && response[q] == 'c' && guess[q] == l;
      assert q in correct;
      assert l in correct.Values;
    }
    if l in correct.Values {
      var q :| q in correct && correct[q] == l;
      assert response[q] == 'c' && guess[q] == l;
    }
  }

  // ---------------------------------------------------------------------
  // Which words stay
  // ---------------------------------------------------------------------

  /** The bank never gains a word, and loses at least the guess. */
  lemma CalibrationShrinksBank(bank: Bank, highest: int, guess: string, response: string)
    requires KeysOfLength(bank, WordleMaxWordLength)
    requires |response| == WordleMaxWordLength <= |guess|
    ensures var next := CalibratedBank(bank, highest, guess, response);
            && !HasKey(next, guess)
            && (forall w | HasKey(next, w) :: HasKey(bank, w))
            && |next| <= |bank|
            && (HasKey(bank, guess) ==> |next| < |bank|)
  {
    var next := CalibratedBank(bank, highest, guess, response);
    var misplaced := LettersCoded(guess, response, 'm');
    var correct := LettersCoded(guess, response, 'c');
    var wrong := WrongLetters(guess, response);
    var reduced := Reduce(bank, wrong, misplaced, guess);
    SortKeepsEntries(Promote(reduced, highest, correct, misplaced));
    CalibratedEntries(bank, highest, guess, response);
    forall w | HasKey(next, w) ensures HasKey(bank, w) && w != guess {
      var i :| 0 <= i < |next| && next[i].0 == w;
      assert next[i] in next;
    }
  }

  /** Every word left after a calibration agrees with the response: it does
      not hold a letter ruled wrong, and it does not hold a misplaced letter
      at the position where it was reported. */
  lemma CalibratedWordsAgreeWithResponse(bank: Bank, highest: int, guess: string, response: string)
    requires KeysOfLength(bank, WordleMaxWordLength)
    requires |response| == WordleMaxWordLength <= |guess|
    ensures var next := CalibratedBank(bank, highest, guess, response);
            forall i | 0 <= i < |next| ::
              && |next[i].0| == WordleMaxWordLength
              && (forall p | 0 <= p < WordleMaxWordLength && response[p] == 'm' :: next[i].0[p] != guess[p])
              && (forall l | l in WrongLetters(guess, response) :: l !in next[i].0)
  {
    var next := CalibratedBank(bank, highest, guess, response);
    var misplaced := LettersCoded(guess, response, 'm');
    var correct := LettersCoded(guess, response, 'c');
    var wrong := WrongLetters(guess, response);
    CalibratedEntries(bank, highest, guess, response);
    forall i | 0 <= i < |next|
      ensures && |next[i].0| == WordleMaxWordLength
              && (forall p | 0 <= p < WordleMaxWordLength && response[p] == 'm' :: next[i].0[p] != guess[p])
              && (forall l | l in wrong :: l !in next[i].0)
    {
      assert next[i] in next;
      var j :| 0 <= j < |bank| && Survives(bank[j].0, wrong, misplaced, guess)
               && next[i] == (bank[j].0, PromotedRank(bank[j].0, bank[j].1, highest, correct, misplaced));
      forall p | 0 <= p < WordleMaxWordLength && response[p] == 'm' ensures next[i].0[p] != guess[p] {
        assert p in misplaced;
      }
    }
  }

  /** Conversely, every word of the bank other than the guess that agrees
      with the response stays. */
  lemma CalibrationKeepsAgreeingWords(bank: Bank, highest: int, guess: string, response: string, j: int)
    requires KeysOfLength(bank, WordleMaxWordLength)
    requires |response| == WordleMaxWordLength <= |guess|
    requires 0 <= j < |bank| && bank[j].0 != guess
    requires forall p | 0 <= p < WordleMaxWordLength && response[p] == 'm' :: bank[j].0[p] != guess[p]
    requires forall l | l in WrongLetters(guess, response) :: l !in bank[j].0
    ensures HasKey(CalibratedBank(bank, highest, guess, response), bank[j].0)
  {
    var next := CalibratedBank(bank, highest, guess, response);
    var misplaced := LettersCoded(guess, response, 'm');
    var correct := LettersCoded(guess, response, 'c');
    var wrong := WrongLetters(guess, response);
    CalibratedEntries(bank, highest, guess, response);
    assert Survives(bank[j].0, wrong, misplaced, guess);
    var e := (bank[j].0, PromotedRank(bank[j].0, bank[j].1, highest, correct, misplaced));
    assert e in next;
    var i :| 0 <= i < |next| && next[i] == e;
  }

  // ---------------------------------------------------------------------
  // How the ranks move
  // ---------------------------------------------------------------------

  /** Promoted words without a repeated letter rank at least at the old
      highest rank; all other words at most at it, and no rank goes below 0. */
  lemma CalibratedRanksSplitAtHighest(bank: Bank, highest: int, guess: string, response: string)
    requires KeysOfLength(bank, WordleMaxWordLength)
    requires forall i | 0 <= i < |bank| :: 0 <= bank[i].1 <= highest
    requires |response| == WordleMaxWordLength <= |guess|
    ensures var next := CalibratedBank(bank, highest, guess, response);
            var correct := LettersCoded(guess, response, 'c');
            var misplaced := LettersCoded(guess, response, 'm');
            forall i | 0 <= i < |next| ::
              && |next[i].0| == WordleMaxWordLength
              && 0 <= next[i].1
              && (Bonus(next[i].0, correct, misplaced) > 0 && !HasRepeatedLetter(next[i].0) ==> next[i].1 >= highest)
              && (Bonus(next[i].0, correct, misplaced) == 0 || HasRepeatedLetter(next[i].0) ==> next[i].1 <= highest)
  {
    var next := CalibratedBank(bank, highest, guess, response);
    var misplaced := LettersCoded(guess, response, 'm');
    var correct := LettersCoded(guess, response, 'c');
    var wrong := WrongLetters(guess, response);
    CalibratedEntries(bank, highest, guess, response);
    forall i | 0 <= i < |next|
      ensures && |next[i].0| == WordleMaxWordLength
              && 0 <= next[i].1
              && (Bonus(next[i].0, correct, misplaced) > 0 && !HasRepeatedLetter(next[i].0) ==> next[i].1 >= highest)
              && (Bonus(next[i].0, correct, misplaced) == 0 || HasRepeatedLetter(next[i].0) ==> next[i].1 <= highest)
    {
      assert next[i] in next;
      var j :| 0 <= j < |bank| && Survives(bank[j].0, wrong, misplaced, guess)
               && next[i] == (bank[j].0, PromotedRank(bank[j].0, bank[j].1, highest, correct, misplaced));
      PromotionSplitsAtHighestRank(bank[j].0, bank[j].1, highest, correct, misplaced);
    }
  }

  /** Shares a letter with the guess's 'c' or 'm' positions and has no
      repeated letter: the words promoted above the old highest rank. */
  predicate PromotedAbove(word: string, guess: string, response: string)
    requires |word| == WordleMaxWordLength
    requires |response| <= |guess|
  {
    Bonus(word, LettersCoded(guess, response, 'c'), LettersCoded(guess, response, 'm')) > 0 && !HasRepeatedLetter(word)
  }

  /** Every word promoted above the old highest rank ranks at least as high
      as every word that was not. */
  lemma PromotedUniqueWordsComeFirst(bank: Bank, highest: int, guess: string, response: string)
    requires KeysOfLength(bank, WordleMaxWordLength)
    requires forall k | 0 <= k < |bank| :: 0 <= bank[k].1 <= highest
    requires |response| == WordleMaxWordLength <= |guess|
    ensures var next := CalibratedBank(bank, highest, guess, response);
            KeysOfLength(next, WordleMaxWordLength) &&
            forall i, j | 0 <= i < |next| && 0 <= j < |next| ::
              PromotedAbove(next[i].0, guess, response) && !PromotedAbove(next[j].0, guess, response) ==>
              next[i].1 >= next[j].1
  {
    CalibratedRanksSplitAtHighest(bank, highest, guess, response);
  }

  // ---------------------------------------------------------------------
  // Arithmetic
  // ---------------------------------------------------------------------

  /** RoundTenths is the only rounding of n / 10 to a nearest integer that
      breaks ties toward the even one. */
  lemma RoundTenthsUnique(n: int, r: int)
    requires 10 * r - 5 <= n <= 10 * r + 5
    requires n % 10 == 5 ==> r % 2 == 0
    ensures r == RoundTenths(n)
  {
    var q := RoundTenths(n);
  }

  lemma {:induction false} SumRanksBounds(bank: Bank, m: int)
    requires forall i | 0 <= i < |bank| :: 0 <= bank[i].1 <= m
    ensures 0 <= SumRanks(bank) <= m * |bank|
  {
    if |bank| > 0 {
      var n := |bank| - 1;
      assert forall i | 0 <= i < n :: bank[..n][i] == bank[i];
      SumRanksBounds(bank[..n], m);
    }
  }

  lemma MulStrict(a: int, b: int, n: int)
    requires a < b && n > 0
    ensures a * n < b * n
  {
  }

  /** The opener cutoff never exceeds the highest rank, so the top word
      always clears it. */
  lemma CutoffAtMostHighest(bank: Bank)
    requires |bank| > 0
    requires forall i | 0 <= i < |bank| :: 0 <= bank[i].1
    ensures PopularityCutoff(bank) <= MaxRank(bank)
  {
    var m := MaxRank(bank);
    SumRanksBounds(bank, m);
    var c := PopularityCutoff(bank);
    if c > m {
      MulStrict(m, c, |bank|);
      assert false;
    }
  }

  // ---------------------------------------------------------------------
  // Worked rounds
  // ---------------------------------------------------------------------

  /** How `harpy` answered `cccww` decodes: `h`, `a`, `r` correct, nothing
      misplaced, `p` and `y` wrong. */
  lemma HarpyDecoding()
    ensures LettersCoded("harpy", "cccww", 'm') == map[]
    ensures LettersCoded("harpy", "cccww", 'c') == map[0 := 'h', 1 := 'a', 2 := 'r']
    ensures WrongLetters("harpy", "cccww") == {'p', 'y'}
  {
    var guess, response := "harpy", "cccww";
    var wrong := WrongLetters(guess, response);
    WrongLettersMeaning(guess, response, 'p');
    assert response[3] == 'w' && guess[3] == 'p';
    WrongLettersMeaning(guess, response, 'y');
    assert response[4] == 'w' && guess[4] == 'y';
    forall l | l in wrong ensures l == 'p' || l == 'y' {
      WrongLettersMeaning(guess, response, l);
      var p :| 0 <= p < |response| && response[p] == 'w' && guess[p] == l;
      assert p == 3 || p == 4;
    }
  }

  /** `harpy` answered `cccww`: `p` and `y` are wrong, `harpy` goes, and the
      words sharing `h`, `a`, `r` in place are promoted. `hares` (bonus 3)
      comes first; `sades` has a repeated letter and drops below the old
      highest rank, its tie 3640.5 rounding to the even 3640. `sades` also
      shows that correct letters do not filter. */
  lemma PrioritiseCorrectLetters()
    ensures CalibratedBank([("sades", 4045), ("cares", 4017), ("hares", 3834), ("harpy", 1947)], 4045, "harpy", "cccww")
            == [("hares", 5195), ("cares", 4848), ("sades", 3640)]
  {
    HarpyDecoding();
    HarpyReduced();
    HarpyPromoted();
    HarpySorted([("sades", 3640), ("cares", 4848), ("hares", 5195)]);
  }

  /** Filtering a bank extended by one entry filters the bank, then the entry. */
  lemma ReduceSnoc(bank: Bank, x: Entry, wrong: set<char>, misplaced: map<int, char>, guess: string)
    requires KeysOfLength(bank + [x], WordleMaxWordLength) && PositionsBelow(misplaced, WordleMaxWordLength)
    ensures KeysOfLength(bank, WordleMaxWordLength) && |x.0| == WordleMaxWordLength
    ensures Reduce(bank + [x], wrong, misplaced, guess)
            == Reduce(bank, wrong, misplaced, guess) + (if Survives(x.0, wrong, misplaced, guess) then [x] else [])
  {
    assert (bank + [x])[..|bank|] == bank;
    assert forall i | 0 <= i < |bank| :: bank[i] == (bank + [x])[i];
    assert (bank + [x])[|bank|] == x;
  }

  lemma HarpyReduced()
    ensures Reduce([("sades", 4045), ("cares", 4017), ("hares", 3834), ("harpy", 1947)], {'p', 'y'}, map[], "harpy")
            == [("sades", 4045), ("cares", 4017), ("hares", 3834)]
  {
    var wrong: set<char> := {'p', 'y'};
    var none: map<int, char> := map[];
    var s, c, h, g := ("sades", 4045), ("cares", 4017), ("hares", 3834), ("harpy", 1947);
    assert !ContainsWrongLetters("sades", wrong) && !ContainsMisplacedLetters("sades", none);
    assert !ContainsWrongLetters("cares", wrong) && !ContainsMisplacedLetters("cares", none);
    assert !ContainsWrongLetters("hares", wrong) && !ContainsMisplacedLetters("hares", none);
    assert [s, c, h, g] == [s, c, h] + [g];
    assert [s, c, h] == [s, c] + [h];
    assert [s, c] == [s] + [c];
    assert [s] == [] + [s];
    ReduceSnoc([s, c, h], g, wrong, none, "harpy");
    ReduceSnoc([s, c], h, wrong, none, "harpy");
    ReduceSnoc([s], c, wrong, none, "harpy");
    ReduceSnoc([], s, wrong, none, "harpy");
  }

  lemma SadesRank()
    ensures PromotedRank("sades", 4045, 4045, map[0 := 'h', 1 := 'a', 2 := 'r'], map[]) == 3640
  {
    var correct := map[0 := 'h', 1 := 'a', 2 := 'r'];
    var none: map<int, char> := map[];
    assert CorrectBonus("sades", correct, 1) == 0;
    assert CorrectBonus("sades", correct, 2) == 1;
    assert CorrectBonus("sades", correct, 3) == 1;
    assert CorrectBonus("sades", correct, 4) == 1;
    assert CorrectBonus("sades", correct, 5) == 1;
    assert MisplacedBonus("sades", none, 5) == 0;
    assert HasRepeatedLetter("sades") by {
      RepeatedLetterWitness("sades");
      assert RepeatsAt("sades", 0, 4);
    }
    assert RoundTenths(36405) == 3640;
  }

  lemma CaresRank()
    ensures PromotedRank("cares", 4017, 4045, map[0 := 'h', 1 := 'a', 2 := 'r'], map[]) == 4848
  {
    var correct := map[0 := 'h', 1 := 'a', 2 := 'r'];
    var none: map<int, char> := map[];
    assert CorrectBonus("cares", correct, 1) == 0;
    assert CorrectBonus("cares", correct, 2) == 1;
    assert CorrectBonus("cares", correct, 3) == 2;
    assert CorrectBonus("cares", correct, 4) == 2;
    assert CorrectBonus("cares", correct, 5) == 2;
    assert MisplacedBonus("cares", none, 5) == 0;
    assert !HasRepeatedLetter("cares") by {
      RepeatedLetterWitness("cares");
    }
    assert RoundTenths(48484) == 4848;
  }

  lemma HaresRank()
    ensures PromotedRank("hares", 3834, 4045, map[0 := 'h', 1 := 'a', 2 := 'r'], map[]) == 5195
  {
    var correct := map[0 := 'h', 1 := 'a', 2 := 'r'];
    var none: map<int, char> := map[];
    assert CorrectBonus("hares", correct, 1) == 1;
    assert CorrectBonus("hares", correct, 2) == 2;
    assert CorrectBonus("hares", correct, 3) == 3;
    assert CorrectBonus("hares", correct, 4) == 3;
    assert CorrectBonus("hares", correct, 5) == 3;
    assert MisplacedBonus("hares", none, 5) == 0;
    assert !HasRepeatedLetter("hares") by {
      RepeatedLetterWitness("hares");
    }
    assert RoundTenths(51952) == 5195;
  }

  lemma HarpyPromoted()
    ensures Promote([("sades", 4045), ("cares", 4017), ("hares", 3834)], 4045, map[0 := 'h', 1 := 'a', 2 := 'r'], map[])
            == [("sades", 3640), ("cares", 4848), ("hares", 5195)]
  {
    SadesRank();
    CaresRank();
    HaresRank();
  }

  /** Three entries with distinct ranks have one order, highest first. */
  lemma SortedThree(r: Bank, x: Entry, y: Entry, z: Entry)
    requires x.1 > y.1 > z.1
    requires SortedDesc(r) && multiset(r) == multiset{x, y, z}
    ensures r == [x, y, z]
  {
    assert |r| == 3 by {
      assert |multiset(r)| == |r|;
    }
    forall a | 0 <= a < 3 ensures r[a] == x || r[a] == y || r[a] == z {
      assert r[a] in multiset(r);
    }
    assert x in multiset(r) && y in multiset(r) && z in multiset(r);
    var i :| 0 <= i < 3 && r[i] == x;
    assert r[0].1 >= x.1;
    var k :| 0 <= k < 3 && r[k] == z;
    assert r[2].1 <= z.1;
    var j :| 0 <= j < 3 && r[j] == y;
    assert j == 1;
  }

  lemma HarpySorted(promoted: Bank)
    requires promoted == [("sades", 3640), ("cares", 4848), ("hares", 5195)]
    ensures SortByRankDesc(promoted) == [("hares", 5195), ("cares", 4848), ("sades", 3640)]
  {
    var r := SortByRankDesc(promoted);
    assert multiset(promoted) == multiset{("hares", 5195), ("cares", 4848), ("sades", 3640)};
    SortedThree(r, ("hares", 5195), ("cares", 4848), ("sades", 3640));
  }

  /** `crick` answered `wcccc`: its first `c` is coded 'w', but `c` is also
      coded 'c', so it is not ruled wrong and `prick` stays. */
  lemma RepeatCorrectElsewhereIsNotWrong()
    ensures WrongLetters("crick", "wcccc") == {}
    ensures HasKey(CalibratedBank([("crick", 1), ("prick", 2)], 4155, "crick", "wcccc"), "prick")
  {
    var correct := LettersCoded("crick", "wcccc", 'c');
    assert 3 in correct && correct[3] == 'c';
    assert 'c' in correct.Values;
    assert forall p | 0 <= p < 5 && "wcccc"[p] == 'w' :: p == 0;
    var bank: Bank := [("crick", 1), ("prick", 2)];
    CalibrationKeepsAgreeingWords(bank, 4155, "crick", "wcccc", 1);
  }
}
