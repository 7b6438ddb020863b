/**
  Worked runs of the engine, following the cases of the unit tests in src/deinflect.rs: the
  edge cases that yield nothing, a one-step past tense, a four-step chain, two words that must
  not be mistaken for other dictionary forms, and the suffix enumeration of two words.
*/
module DeinflectExamples {

  import opened DeinflectTypes
  import opened DeinflectionRules
  import opened Deinflect

  /* ---------------- Edge cases ---------------- */

  /** A word of a thousand あ. */
  const LongA: string := seq(1000, _ => 'あ')

  /** Every suffix of a word made of あ alone is itself made of あ alone, so no lookup succeeds. */
  lemma {:induction false} OnlyANoSuffixResults(w: DeinflectedWord, n: nat)
    requires forall i :: 0 <= i < |w.word| ==> w.word[i] == 'あ'
    requires n <= SuffixCount(|w.word|)
    ensures SuffixResults(RuleTable, w, n) == []
  {
    if n > 0 {
      OnlyANoSuffixResults(w, n - 1);
      var suffix := NthSuffix(w.word, n - 1);
      forall i | 0 <= i < |suffix|
        ensures suffix[i] == 'あ'
      {
        assert suffix[i] == w.word[|w.word| - |suffix| + i];
      }
      NoKeyOfOnlyA(suffix);
    }
  }

  /** A word made of あ alone, the empty word included, deinflects to nothing, whatever the budget. */
  lemma OnlyADeinflectsToNothing(word: string, fuel: nat, deinflections: seq<DeinflectedWord>, processed: nat)
    requires forall i :: 0 <= i < |word| ==> word[i] == 'あ'
    requires IsDeinflection(word, fuel, deinflections, processed)
    ensures deinflections == []
  {
    OnlyANoSuffixResults(DeinflectedWord(word, []), SuffixCount(|word|));
    NoFirstStepNoResults(word, fuel, deinflections, processed);
  }

  /** The empty word deinflects to nothing. */
  lemma EmptyWordHasNoDeinflections(fuel: nat, deinflections: seq<DeinflectedWord>, processed: nat)
    requires IsDeinflection("", fuel, deinflections, processed)
    ensures deinflections == []
  {
    OnlyADeinflectsToNothing("", fuel, deinflections, processed);
  }

  /** A thousand あ deinflect to nothing. */
  lemma LongWordHasNoDeinflections(fuel: nat, deinflections: seq<DeinflectedWord>, processed: nat)
    requires IsDeinflection(LongA, fuel, deinflections, processed)
    ensures deinflections == []
  {
    OnlyADeinflectsToNothing(LongA, fuel, deinflections, processed);
  }

  /* ---------------- Past tense of an ichidan verb ---------------- */

  /** Any word ending in た yields, in the first step, the ichidan verb with た replaced by る. */
  lemma PastTenseDeinflects(word: string, fuel: nat, deinflections: seq<DeinflectedWord>, processed: nat)
    requires |word| >= 1 && word[|word| - 1] == 'た'
    requires IsDeinflection(word, fuel, deinflections, processed)
    ensures DeinflectedWord(word[..|word| - 1] + "る", [V1]) in deinflections
  {
    PastTenseFirstStep(word);
    DeinflectStartsWithFirstStep(word, fuel, deinflections, processed);
  }

  /** The た rule on the raw input: any word ending in た has the ichidan verb with た replaced by る as a successor. */
  lemma PastTenseFirstStep(word: string)
    requires |word| >= 1 && word[|word| - 1] == 'た'
    ensures DeinflectedWord(word[..|word| - 1] + "る", [V1]) in Successors(DeinflectedWord(word, []))
  {
    var w := DeinflectedWord(word, []);
    var m := Match(1, 0);
    assert word[|word| - 1..] == "た";
    assert MatchedSuffix(w, m) == "た";
    assert IsMatch(RuleTable, w, m);
    SuccessorsComplete(RuleTable, w, m);
  }

  /** "信じた" gives "信じる", whatever the budget. */
  lemma ShinjitaDeinflectsToShinjiru(fuel: nat, deinflections: seq<DeinflectedWord>, processed: nat)
    requires IsDeinflection("信じた", fuel, deinflections, processed)
    ensures DeinflectedWord("信じる", [V1]) in deinflections
    ensures DeinflectedWord("信ずる", [Vz]) in deinflections
  {
    PastTenseDeinflects("信じた", fuel, deinflections, processed);
    assert "信じた"[..2] + "る" == "信じる";
    ShinjitaAsZuruVerb();
    DeinflectStartsWithFirstStep("信じた", fuel, deinflections, processed);
  }

  /** じた → ずる on the raw input: "信じた" is also the past of the zuru verb "信ずる". */
  lemma ShinjitaAsZuruVerb()
    ensures DeinflectedWord("信ずる", [Vz]) in Successors(DeinflectedWord("信じた", []))
  {
    var w := DeinflectedWord("信じた", []);
    var m := Match(2, 0);
    assert MatchedSuffix(w, m) == "じた";
    assert IsMatch(RuleTable, w, m);
    assert Produce(RuleTable, w, m) == DeinflectedWord("信ずる", [Vz]);
    SuccessorsComplete(RuleTable, w, m);
  }

  /* ---------------- 食べさせられなかった ---------------- */

  /**
    "食べさせられなかった" (causative, passive, negative, past) reaches "食べる" in four steps:
    かった gives the i-adjective "食べさせられない", ない the ichidan "食べさせられる", られる the
    causative "食べさせる", and させる "食べる". A finished run therefore contains it.
  */
  lemma ChainedInflections(fuel: nat, deinflections: seq<DeinflectedWord>, processed: nat)
    requires IsDeinflection("食べさせられなかった", fuel, deinflections, processed)
    requires processed == |deinflections|
    ensures DeinflectedWord("食べる", [V1]) in deinflections
  {
    var w0 := DeinflectedWord("食べさせられなかった", []);
    var w1 := DeinflectedWord("食べさせられない", [AdjI]);
    var w2 := DeinflectedWord("食べさせられる", [V1]);
    var w3 := DeinflectedWord("食べさせる", [V5, V1]);
    var w4 := DeinflectedWord("食べる", [V1]);
    FirstStepOfChain();
    DeinflectStartsWithFirstStep("食べさせられなかった", fuel, deinflections, processed);
    assert w1 in deinflections;
    SecondStepOfChain();
    DeinflectClosedMember("食べさせられなかった", fuel, deinflections, processed, w1, w2);
    ThirdStepOfChain();
    DeinflectClosedMember("食べさせられなかった", fuel, deinflections, processed, w2, w3);
    FourthStepOfChain();
    DeinflectClosedMember("食べさせられなかった", fuel, deinflections, processed, w3, w4);
  }

  /** かった → い, on the raw input. */
  lemma FirstStepOfChain()
    ensures DeinflectedWord("食べさせられない", [AdjI]) in Successors(DeinflectedWord("食べさせられなかった", []))
  {
    var w := DeinflectedWord("食べさせられなかった", []);
    var m := Match(3, 0);
    assert MatchedSuffix(w, m) == "かった";
    assert IsMatch(RuleTable, w, m);
    assert Produce(RuleTable, w, m) == DeinflectedWord("食べさせられない", [AdjI]);
    SuccessorsComplete(RuleTable, w, m);
  }

  /** ない → る, only on an i-adjective. */
  lemma SecondStepOfChain()
    ensures DeinflectedWord("食べさせられる", [V1]) in Successors(DeinflectedWord("食べさせられない", [AdjI]))
  {
    var w := DeinflectedWord("食べさせられない", [AdjI]);
    var m := Match(2, 0);
    assert MatchedSuffix(w, m) == "ない";
    assert AdjI in (set t | t in RuleTable["ない"][0].rulesIn) * (set t | t in w.types);
    assert IsMatch(RuleTable, w, m);
    assert Produce(RuleTable, w, m) == DeinflectedWord("食べさせられる", [V1]);
    SuccessorsComplete(RuleTable, w, m);
  }

  /** られる → る, only on an ichidan verb. */
  lemma ThirdStepOfChain()
    ensures DeinflectedWord("食べさせる", [V5, V1]) in Successors(DeinflectedWord("食べさせられる", [V1]))
  {
    var w := DeinflectedWord("食べさせられる", [V1]);
    var m := Match(3, 0);
    assert MatchedSuffix(w, m) == "られる";
    assert V1 in (set t | t in RuleTable["られる"][0].rulesIn) * (set t | t in w.types);
    assert IsMatch(RuleTable, w, m);
    assert Produce(RuleTable, w, m) == DeinflectedWord("食べさせる", [V5, V1]);
    SuccessorsComplete(RuleTable, w, m);
  }

  /** させる → る, only on an ichidan verb; "食べさせる" may be one. */
  lemma FourthStepOfChain()
    ensures DeinflectedWord("食べる", [V1]) in Successors(DeinflectedWord("食べさせる", [V5, V1]))
  {
    var w := DeinflectedWord("食べさせる", [V5, V1]);
    var m := Match(3, 0);
    assert MatchedSuffix(w, m) == "させる";
    assert V1 in (set t | t in RuleTable["させる"][0].rulesIn) * (set t | t in w.types);
    assert IsMatch(RuleTable, w, m);
    assert Produce(RuleTable, w, m) == DeinflectedWord("食べる", [V1]);
    SuccessorsComplete(RuleTable, w, m);
  }

  /* ---------------- 白ける ---------------- */

  /** The only match on "白ける" is the rule of ける; neither る nor the whole word is a key. */
  lemma ShirakeruOnlyMatch()
    ensures forall m :: IsMatch(RuleTable, DeinflectedWord("白ける", []), m) <==> m == Match(2, 0)
  {
    var w := DeinflectedWord("白ける", []);
    assert MatchedSuffix(w, Match(2, 0)) == "ける";
    forall m: Match | m.suffixLen == 1
      ensures !IsMatch(RuleTable, w, m)
    {
      assert MatchedSuffix(w, m) == "る";
    }
    forall m: Match | m.suffixLen == 3
      ensures !IsMatch(RuleTable, w, m)
    {
      assert MatchedSuffix(w, m) == "白ける";
    }
    forall m: Match | m.suffixLen == 2
      ensures IsMatch(RuleTable, w, m) <==> m == Match(2, 0)
    {
      assert MatchedSuffix(w, m) == "ける";
    }
  }

  /** "白ける" has one successor: ける read as the potential of the godan verb "白く". */
  lemma ShirakeruFirstStep()
    ensures Successors(DeinflectedWord("白ける", [])) == [DeinflectedWord("白く", [V5])]
  {
    var w := DeinflectedWord("白ける", []);
    ShirakeruOnlyMatch();
    UniqueMatchSuccessor(RuleTable, w, Match(2, 0));
    assert w.word[..1] + "く" == "白く";
  }

  /** "白く" as a godan verb has no successor: the adverbial く rule applies only to the raw input. */
  lemma ShirakuIsFinal()
    ensures Successors(DeinflectedWord("白く", [V5])) == []
  {
    var w := DeinflectedWord("白く", [V5]);
    forall m: Match
      ensures !IsMatch(RuleTable, w, m)
    {
      if m.suffixLen == 1 {
        assert MatchedSuffix(w, m) == "く";
      } else if m.suffixLen == 2 {
        assert MatchedSuffix(w, m) == "白く";
      }
    }
    NoMatchNoSuccessors(RuleTable, w);
  }

  /** "白ける" deinflects to "白く" alone, and in particular never to the adjective "白い". */
  lemma ShirakeruIsNotShiroi(fuel: nat, deinflections: seq<DeinflectedWord>, processed: nat)
    requires IsDeinflection("白ける", fuel, deinflections, processed)
    ensures deinflections == [DeinflectedWord("白く", [V5])]
    ensures forall x :: x in deinflections ==> x.word != "白い"
  {
    ShirakeruFirstStep();
    ShirakuIsFinal();
    DeinflectStopsAtFinalFirstStep("白ける", fuel, deinflections, processed);
  }

  /* ---------------- とぼけた ---------------- */

  /** The only match on "とぼけた" is the past-tense rule of た; no longer suffix is a key. */
  lemma TobokettaOnlyMatch()
    ensures forall m :: IsMatch(RuleTable, DeinflectedWord("とぼけた", []), m) <==> m == Match(1, 0)
  {
    TobokettaLongerSuffixes();
    var w := DeinflectedWord("とぼけた", []);
    forall m: Match | m.suffixLen == 1
      ensures IsMatch(RuleTable, w, m) <==> m == Match(1, 0)
    {
      assert MatchedSuffix(w, m) == "た";
    }
  }

  /** No suffix of "とぼけた" longer than た is a key. */
  lemma TobokettaLongerSuffixes()
    ensures forall m: Match :: m.suffixLen >= 2 ==> !IsMatch(RuleTable, DeinflectedWord("とぼけた", []), m)
  {
    var w := DeinflectedWord("とぼけた", []);
    assert w.word[2..] == "けた" && w.word[1..] == "ぼけた" && w.word[0..] == "とぼけた";
    AbsentSuffixNoMatch(RuleTable, w, 2);
    AbsentSuffixNoMatch(RuleTable, w, 3);
    AbsentSuffixNoMatch(RuleTable, w, 4);
  }

  /** "とぼけた" has one successor: the ichidan verb "とぼける". */
  lemma TobokettaFirstStep()
    ensures Successors(DeinflectedWord("とぼけた", [])) == [DeinflectedWord("とぼける", [V1])]
  {
    var w := DeinflectedWord("とぼけた", []);
    TobokettaOnlyMatch();
    UniqueMatchSuccessor(RuleTable, w, Match(1, 0));
    assert w.word[..3] + "る" == "とぼける";
  }

  /** The only match on the ichidan "とぼける" is the potential rule of ける. */
  lemma TobokeruOnlyMatch()
    ensures forall m :: IsMatch(RuleTable, DeinflectedWord("とぼける", [V1]), m) <==> m == Match(2, 0)
  {
    TobokeruOtherSuffixes();
    var w := DeinflectedWord("とぼける", [V1]);
    forall m: Match | m.suffixLen == 2
      ensures IsMatch(RuleTable, w, m) <==> m == Match(2, 0)
    {
      assert MatchedSuffix(w, m) == "ける";
      assert V1 in (set t | t in RuleTable["ける"][0].rulesIn) * (set t | t in w.types);
    }
  }

  /** Of the suffixes of "とぼける", only ける is a key. */
  lemma TobokeruOtherSuffixes()
    ensures forall m: Match :: m.suffixLen != 2 ==> !IsMatch(RuleTable, DeinflectedWord("とぼける", [V1]), m)
  {
    var w := DeinflectedWord("とぼける", [V1]);
    assert w.word[3..] == "る" && w.word[1..] == "ぼける" && w.word[0..] == "とぼける";
    AbsentSuffixNoMatch(RuleTable, w, 1);
    AbsentSuffixNoMatch(RuleTable, w, 3);
    AbsentSuffixNoMatch(RuleTable, w, 4);
  }

  /** "とぼける" read as the potential of a godan verb gives "とぼく". */
  lemma TobokeruStep()
    ensures Successors(DeinflectedWord("とぼける", [V1])) == [DeinflectedWord("とぼく", [V5])]
  {
    var w := DeinflectedWord("とぼける", [V1]);
    TobokeruOnlyMatch();
    UniqueMatchSuccessor(RuleTable, w, Match(2, 0));
    assert w.word[..2] + "く" == "とぼく";
  }

  /** "とぼく" as a godan verb has no successor: the く rule applies only to the raw input. */
  lemma TobokuIsFinal()
    ensures Successors(DeinflectedWord("とぼく", [V5])) == []
  {
    var w := DeinflectedWord("とぼく", [V5]);
    forall m: Match
      ensures !IsMatch(RuleTable, w, m)
    {
      if m.suffixLen == 1 {
        assert MatchedSuffix(w, m) == "く";
      } else if m.suffixLen == 2 {
        assert MatchedSuffix(w, m) == "ぼく";
      } else if m.suffixLen == 3 {
        assert MatchedSuffix(w, m) == "とぼく";
      }
    }
    NoMatchNoSuccessors(RuleTable, w);
  }

  /** Every entry of a run on "とぼけた" is "とぼける" or "とぼく", so it never deinflects to "とぶ". */
  lemma TobokettaIsNotTobu(fuel: nat, deinflections: seq<DeinflectedWord>, processed: nat)
    requires IsDeinflection("とぼけた", fuel, deinflections, processed)
    ensures forall x :: x in deinflections ==> x == DeinflectedWord("とぼける", [V1]) || x == DeinflectedWord("とぼく", [V5])
    ensures forall x :: x in deinflections ==> x.word != "とぶ"
  {
    TobokettaFirstStep();
    TobokeruStep();
    TobokuIsFinal();
    DeinflectTwoLevels("とぼけた", fuel, deinflections, processed,
                       DeinflectedWord("とぼける", [V1]), DeinflectedWord("とぼく", [V5]));
  }

  /* ---------------- Suffix enumeration ---------------- */

  /** The capped suffixes of two words, longest first, at most seven characters each. */
  lemma SuffixEnumeration()
    ensures CappedSuffixes("走らされている")
      == ["走らされている", "らされている", "されている", "れている", "ている", "いる", "る"]
    ensures CappedSuffixes("食べさせられなかった")
      == ["せられなかった", "られなかった", "れなかった", "なかった", "かった", "った", "た"]
  {
    var a := CappedSuffixes("走らされている");
    assert a[0] == "走らされている" && a[1] == "らされている" && a[2] == "されている" && a[3] == "れている";
    assert a[4] == "ている" && a[5] == "いる" && a[6] == "る";
    var b := CappedSuffixes("食べさせられなかった");
    assert b[0] == "せられなかった" && b[1] == "られなかった" && b[2] == "れなかった" && b[3] == "なかった";
    assert b[4] == "かった" && b[5] == "った" && b[6] == "た";
  }
}
