// Letters and words: the lower-case ASCII alphabet and the "has a repeated
// letter" test that the predictor uses both when suggesting openers and when
// promoting candidates.

module Letters {

  /** Python's `string.ascii_lowercase`. */
  const Alphabet: string := seq(26, i requires 0 <= i < 26 => ('a' as int + i) as char)

  predicate IsLowerLetter(c: char) {
    'a' <= c <= 'z'
  }

  lemma AlphabetIsLowerLetters(c: char)
    ensures c in Alphabet <==> IsLowerLetter(c)
  {
    if IsLowerLetter(c) {
      var k := c as int - 'a' as int;
      assert Alphabet[k] == c;
    }
  }

  /** The set of letters of `w` (Python's `set(word)`). */
  function LetterSet(w: string): set<char> {
    set c | c in w
  }

  /** Python's `len(word) > len(set(word))`. */
  predicate HasRepeatedLetter(w: string) {
    |LetterSet(w)| < |w|
  }

  /** Two positions holding the same letter. */
  predicate RepeatsAt(w: string, i: int, j: int) {
    0 <= i < j < |w| && w[i] == w[j]
  }

  lemma {:induction false} LetterSetSize(w: string)
    ensures |LetterSet(w)| <= |w|
    ensures |LetterSet(w)| == |w| <==> !exists i, j :: RepeatsAt(w, i, j)
  {
    if |w| == 0 {
      assert LetterSet(w) == {};
    } else {
      var n := |w| - 1;
      var p := w[..n];
      LetterSetSize(p);
      assert LetterSet(w) == LetterSet(p) + {w[n]} by {
        assert w == p + [w[n]];
      }
      if w[n] in p {
        assert LetterSet(w) == LetterSet(p);
        var i :| 0 <= i < n && p[i] == w[n];
        assert RepeatsAt(w, i, n);
      } else {
        assert w[n] !in LetterSet(p);
        assert |LetterSet(w)| == |LetterSet(p)| + 1;
        if exists i, j :: RepeatsAt(w, i, j) {
          var i, j :| RepeatsAt(w, i, j);
          assert RepeatsAt(p, i, j);
        }
        if exists i, j :: RepeatsAt(p, i, j) {
          var i, j :| RepeatsAt(p, i, j);
          assert RepeatsAt(w, i, j);
        }
      }
    }
  }

  /** The set-size test of the source agrees with the positional one. */
  lemma RepeatedLetterWitness(w: string)
    ensures HasRepeatedLetter(w) <==> exists i, j :: RepeatsAt(w, i, j)
  {
    LetterSetSize(w);
  }
}
