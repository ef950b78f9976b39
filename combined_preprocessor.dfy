/**
 * `CombinedPreprocessor` of the tags-cloud visualisation: a words
 * preprocessor built from a list of preprocessors, which it applies one
 * after another, each to the output of the one before.
 */
module WordsPreprocessor {

  /** An `IWordsPreprocessor`: turns a sequence of words into another. */
  type Preprocessor = seq<string> -> seq<string>

  /**
   * A `CombinedPreprocessor`: the read-only list of preprocessors it was
   * constructed with (both constructors only store it).
   */
  datatype CombinedPreprocessor = CombinedPreprocessor(preprocessors: seq<Preprocessor>) {

    /**
     * `Process`: a left fold of the words through the preprocessors in list
     * order, starting from the words themselves. With no preprocessors the
     * words come back unchanged and with one it is that preprocessor; the
     * order of application is `AppendAppliesLast`.
     */
    function Process(words: seq<string>): (r: seq<string>)
      ensures preprocessors == [] ==> r == words
      ensures |preprocessors| == 1 ==> r == preprocessors[0](words)
      decreases |preprocessors|
    {
      if preprocessors == [] then words
      else CombinedPreprocessor(preprocessors[1..]).Process(preprocessors[0](words))
    }
  }

  /** Concatenating two lists of preprocessors composes their combinations, the first list first. */
  lemma {:induction false} ConcatIsComposition(a: seq<Preprocessor>, b: seq<Preprocessor>, words: seq<string>)
    ensures CombinedPreprocessor(a + b).Process(words)
            == CombinedPreprocessor(b).Process(CombinedPreprocessor(a).Process(words))
    decreases |a|
  {
    if a == [] {
      assert a + b == b;
    } else {
      assert (a + b)[1..] == a[1..] + b;
      ConcatIsComposition(a[1..], b, a[0](words));
    }
  }

  /** Appending one preprocessor applies it after everything before it: list order is application order. */
  lemma {:induction false} AppendAppliesLast(ps: seq<Preprocessor>, p: Preprocessor, words: seq<string>)
    ensures CombinedPreprocessor(ps + [p]).Process(words) == p(CombinedPreprocessor(ps).Process(words))
    decreases |ps|
  {
    if ps != [] {
      assert (ps + [p])[1..] == ps[1..] + [p];
      AppendAppliesLast(ps[1..], p, ps[0](words));
    }
  }

  /**
   * A combined preprocessor is itself an `IWordsPreprocessor`: nested as the
   * first member of another, it behaves as if its preprocessors had been
   * listed there directly.
   */
  lemma NestedCombinationFlattens(a: seq<Preprocessor>, b: seq<Preprocessor>, words: seq<string>)
    ensures CombinedPreprocessor([(w: seq<string>) => CombinedPreprocessor(a).Process(w)] + b).Process(words)
            == CombinedPreprocessor(a + b).Process(words)
  {
    var inner := (w: seq<string>) => CombinedPreprocessor(a).Process(w);
    ConcatIsComposition([inner], b, words);
    ConcatIsComposition(a, b, words);
  }

  /**
   * Inserting a preprocessor that returns its input, anywhere in the list,
   * changes nothing.
   */
  lemma IdentityIsNeutral(a: seq<Preprocessor>, p: Preprocessor, b: seq<Preprocessor>, words: seq<string>)
    requires forall w :: p(w) == w
    ensures CombinedPreprocessor(a + [p] + b).Process(words) == CombinedPreprocessor(a + b).Process(words)
  {
    ConcatIsComposition(a + [p], b, words);
    AppendAppliesLast(a, p, words);
    ConcatIsComposition(a, b, words);
  }
}
