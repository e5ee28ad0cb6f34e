// The game's feedback as the stability harness imitates it: one code per
// guess position, 'c' (right letter, right place), 'm' (letter elsewhere in
// the target) or 'w' (wrong). Misplaced codes use up a per-letter counter of
// the target's letters from left to right; correct codes do not.

module GameResponse {

  /** The code at one position, given the counter as it stands there. The
      counter is `Counter(target)`; a multiset drops a letter when its count
      reaches zero, as the source's `del` does. */
  function Code(guessLetter: char, targetLetter: char, target: string, counter: multiset<char>): char {
    if guessLetter == targetLetter then 'c'
    else if guessLetter !in target then 'w'
    else if guessLetter in counter then 'm'
    else 'w'
  }

  /** The counter after scanning the first `n` positions. */
  function CounterAfter(guess: string, target: string, n: nat): multiset<char>
    requires n <= |guess| <= |target|
  {
    if n == 0 then multiset(target)
    else
      var c := CounterAfter(guess, target, n - 1);
      if Code(guess[n - 1], target[n - 1], target, c) == 'm' then c[guess[n - 1] := c[guess[n - 1]] - 1] else c
  }

  /** The codes of the first `n` positions. */
  function ResponsePrefix(guess: string, target: string, n: nat): (r: string)
    requires n <= |guess| <= |target|
    ensures |r| == n
  {
    if n == 0 then []
    else ResponsePrefix(guess, target, n - 1) + [Code(guess[n - 1], target[n - 1], target, CounterAfter(guess, target, n - 1))]
  }

  function Response(guess: string, target: string): (r: string)
    requires |guess| <= |target|
    ensures |r| == |guess|
  {
    ResponsePrefix(guess, target, |guess|)
  }

  /** Positions before `n` coded 'm' for letter `l`. */
  function MisplacedCount(r: string, guess: string, l: char, n: nat): nat
    requires n <= |r| && n <= |guess|
  {
    if n == 0 then 0
    else MisplacedCount(r, guess, l, n - 1) + (if r[n - 1] == 'm' && guess[n - 1] == l then 1 else 0)
  }

  lemma {:induction false} ResponsePrefixAt(guess: string, target: string, n: nat, p: nat)
    requires p < n <= |guess| <= |target|
    ensures ResponsePrefix(guess, target, n)[p] == Code(guess[p], target[p], target, CounterAfter(guess, target, p))
  {
    if p < n - 1 {
      ResponsePrefixAt(guess, target, n - 1, p);
    }
  }

  /** Every code is 'c', 'm' or 'w'; 'c' exactly where the letters agree; a
      letter absent from the target is always 'w'. */
  lemma ResponseCodes(guess: string, target: string)
    requires |guess| <= |target|
    ensures forall p | 0 <= p < |guess| :: Response(guess, target)[p] in "cmw"
    ensures forall p | 0 <= p < |guess| :: Response(guess, target)[p] == 'c' <==> guess[p] == target[p]
    ensures forall p | 0 <= p < |guess| && guess[p] !in target :: Response(guess, target)[p] == 'w'
  {
    forall p | 0 <= p < |guess| ensures Response(guess, target)[p] == Code(guess[p], target[p], target, CounterAfter(guess, target, p)) {
      ResponsePrefixAt(guess, target, |guess|, p);
    }
  }

  /** The counter plus the 'm' codes handed out so far is the target's count. */
  lemma {:induction false} CounterAccounts(guess: string, target: string, n: nat, l: char)
    requires n <= |guess| <= |target|
    ensures CounterAfter(guess, target, n)[l] + MisplacedCount(ResponsePrefix(guess, target, n), guess, l, n)
            == multiset(target)[l]
  {
    if n > 0 {
      CounterAccounts(guess, target, n - 1, l);
      var r := ResponsePrefix(guess, target, n);
      var r' := ResponsePrefix(guess, target, n - 1);
      MisplacedCountPrefix(r', r, guess, l, n - 1);
    }
  }

  lemma {:induction false} MisplacedCountPrefix(a: string, b: string, guess: string, l: char, n: nat)
    requires n <= |a| <= |b| && n <= |guess|
    requires a[..n] == b[..n]
    ensures MisplacedCount(a, guess, l, n) == MisplacedCount(b, guess, l, n)
  {
    if n > 0 {
      assert a[n - 1] == a[..n][n - 1] == b[..n][n - 1] == b[n - 1];
      assert a[..n - 1] == a[..n][..n - 1];
      assert b[..n - 1] == b[..n][..n - 1];
      MisplacedCountPrefix(a, b, guess, l, n - 1);
    }
  }

  /** No letter gets more 'm' codes than it has occurrences in the target. */
  lemma MisplacedBounded(guess: string, target: string, l: char)
    requires |guess| <= |target|
    ensures MisplacedCount(Response(guess, target), guess, l, |guess|) <= multiset(target)[l]
  {
    CounterAccounts(guess, target, |guess|, l);
  }

  /** For words of equal length the response is all 'c' exactly on a hit. */
  lemma AllCorrectIffEqual(guess: string, target: string)
    requires |guess| == |target|
    ensures (forall p | 0 <= p < |guess| :: Response(guess, target)[p] == 'c') <==> guess == target
  {
    ResponseCodes(guess, target);
  }

  /** 'c' codes do not use up the counter: the only `p` of `proxy` is matched
      in place, yet the next `p` of the guess is still coded 'm'. */
  lemma CorrectDoesNotUseCounter()
    ensures Response("poppy", "proxy") == "cmmwc"
  {
    var g, t := "poppy", "proxy";
    assert CounterAfter(g, t, 1) == multiset(t);
    assert 'o' in multiset(t) && 'p' in multiset(t);
    assert CounterAfter(g, t, 2) == multiset(t)['o' := 0];
    assert CounterAfter(g, t, 3) == multiset(t)['o' := 0]['p' := 0];
    assert 'p' !in CounterAfter(g, t, 3);
    assert ResponsePrefix(g, t, 1) == "c";
    assert ResponsePrefix(g, t, 2) == "cm";
    assert ResponsePrefix(g, t, 3) == "cmm";
    assert ResponsePrefix(g, t, 4) == "cmmw";
  }

  method MimicGameResponse(guess: string, target: string) returns (response: string)
    requires |guess| <= |target|
    ensures response == Response(guess, target)
    ensures |response| == |guess|
    ensures forall p | 0 <= p < |guess| :: response[p] in "cmw"
    ensures forall p | 0 <= p < |guess| :: response[p] == 'c' <==> guess[p] == target[p]
  {
    var targetLettersCounter := multiset(target);
    response := "";
    for position := 0 to |guess|
      invariant targetLettersCounter == CounterAfter(guess, target, position)
      invariant response == ResponsePrefix(guess, target, position)
    {
      var guessLetter, targetLetter := guess[position], target[position];
      var code: char;
      if guessLetter == targetLetter {
        code := 'c';
      } else if guessLetter !in target {
        code := 'w';
      } else if guessLetter in targetLettersCounter {
        targetLettersCounter := targetLettersCounter[guessLetter := targetLettersCounter[guessLetter] - 1];
        code := 'm';
      } else {
        code := 'w';
      }
      response := response + [code];
    }
    ResponseCodes(guess, target);
  }
}
