/** The data the deinflection engine works on (src/deinflect.rs:12-87). */
module DeinflectTypes {

  /** The grammatical type of a word, which decides the rules that may deinflect it. */
  datatype RuleType = AdjI | Iru | V1 | V5 | Vk | Vs | Vz
  {
    /** `is_verb`: every type other than the i-adjective. */
    predicate IsVerb()
    {
      this != AdjI
    }

    /** `is_adjective`: the i-adjective type. */
    predicate IsAdjective()
    {
      this == AdjI
    }
  }

  /**
    One entry of a suffix's rule list: the kana that replaces the matched suffix, the types the
    current word must share with `rulesIn` for the rule to fire, and the types of the result.
  */
  datatype DeinflectionRule = DeinflectionRule(kanaOut: string, rulesIn: seq<RuleType>, rulesOut: seq<RuleType>)

  /** A word in progress with the types it may have; empty types stand for the raw input word. */
  datatype DeinflectedWord = DeinflectedWord(word: string, types: seq<RuleType>)
  {
    /** `could_be_verb`: some type is a verb type. */
    predicate CouldBeVerb()
    {
      exists t :: t in types && t.IsVerb()
    }

    /** `could_be_adjective`: some type is the adjective type. */
    predicate CouldBeAdjective()
    {
      exists t :: t in types && t.IsAdjective()
    }
  }

  /** Exactly one of the two classes holds for every type, and the adjective class is `AdjI` alone. */
  lemma RuleTypeClasses(t: RuleType)
    ensures t.IsVerb() != t.IsAdjective()
    ensures t.IsAdjective() <==> t == AdjI
  {
  }

  /** A word could be an adjective iff `AdjI` is among its types; a word with some type is a verb or an adjective. */
  lemma WordClasses(w: DeinflectedWord)
    ensures w.CouldBeAdjective() <==> AdjI in w.types
    ensures w.CouldBeVerb() <==> exists i :: 0 <= i < |w.types| && w.types[i] != AdjI
    ensures w.types != [] ==> w.CouldBeVerb() || w.CouldBeAdjective()
  {
    if w.CouldBeVerb() {
      var t :| t in w.types && t.IsVerb();
      var i :| 0 <= i < |w.types| && w.types[i] == t;
    }
    if exists i :: 0 <= i < |w.types| && w.types[i] != AdjI {
      var i :| 0 <= i < |w.types| && w.types[i] != AdjI;
      assert w.types[i] in w.types;
    }
    if w.types != [] {
      assert w.types[0] in w.types;
    }
  }
}
