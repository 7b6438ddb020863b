/**
  The deinflection engine (src/deinflect.rs:42-169): rule eligibility, rule application,
  suffix enumeration, one deinflection step, and the worklist closure that repeats the step
  on every new result while a seen-set keeps each (word, types) value from being expanded twice.

  Words are sequences of characters. The Rust code slices bytes and assumes three bytes per
  character; under that assumption a suffix of `n` bytes is a suffix of `n / 3` characters,
  which is what is modelled here.
*/
module Deinflect {

  import opened Wrappers
  import opened DeinflectTypes
  import opened DeinflectionRules

  /* ---------------- Rule eligibility and application ---------------- */

  /**
    `DeinflectionRule::can_apply_to`: a rule fires on a word whose types are unknown (the raw
    input), or on a word that shares a type with `rulesIn`. An empty `rulesIn` therefore fires
    only on the raw input.
  */
  function CanApplyTo(rule: DeinflectionRule, w: DeinflectedWord): (ok: bool)
    ensures ok <==> w.types == [] || (set t | t in rule.rulesIn) * (set t | t in w.types) != {}
    ensures rule.rulesIn == [] && w.types != [] ==> !ok
  {
    var shared := exists t :: t in rule.rulesIn && t in w.types;
    assert shared <==> (set t | t in rule.rulesIn) * (set t | t in w.types) != {} by {
      if shared {
        var t :| t in rule.rulesIn && t in w.types;
        assert t in (set t | t in rule.rulesIn) * (set t | t in w.types);
      }
    }
    |w.types| == 0 || shared
  }

  /**
    `DeinflectionRule::apply`: when the rule may fire, the word with its last `suffixLen`
    characters replaced by `kanaOut`; otherwise `None`. The caller guarantees that the suffix
    is no longer than the word.
  */
  function Apply(rule: DeinflectionRule, w: DeinflectedWord, suffixLen: nat): (r: Option<string>)
    requires suffixLen <= |w.word|
    ensures r.Some? <==> CanApplyTo(rule, w)
    ensures r.Some? ==>
      var stemLen := |w.word| - suffixLen;
      && |r.value| == stemLen + |rule.kanaOut|
      && r.value[..stemLen] == w.word[..stemLen]
      && r.value[stemLen..] == rule.kanaOut
  {
    if CanApplyTo(rule, w) then
      var stem := w.word[..|w.word| - suffixLen];
      assert (stem + rule.kanaOut)[..|stem|] == stem;
      Some(stem + rule.kanaOut)
    else
      None
  }

  /* ---------------- Suffix enumeration ---------------- */

  /** How many suffixes a word of `length` characters has that are no longer than `MaxSuffixLength`. */
  function SuffixCount(length: nat): nat
  {
    if length < MaxSuffixLength then length else MaxSuffixLength
  }

  /** The suffix of `word` at position `i` of the capped enumeration: `SuffixCount(|word|) - i` characters long. */
  function NthSuffix(word: string, i: nat): (suffix: string)
    requires i < SuffixCount(|word|)
    ensures 1 <= |suffix| == SuffixCount(|word|) - i <= MaxSuffixLength
    ensures suffix == word[|word| - |suffix|..]
  {
    word[|word| - (SuffixCount(|word|) - i)..]
  }

  /**
    `capped_suffixes`: the suffixes of `word` of at most `MaxSuffixLength` characters, the
    longest first, each one character shorter than the one before, and none for the empty word.
  */
  function CappedSuffixes(word: string): (suffixes: seq<string>)
    ensures |suffixes| == SuffixCount(|word|)
    ensures forall i :: 0 <= i < |suffixes| ==>
      |suffixes[i]| == |suffixes| - i && suffixes[i] == word[|word| - |suffixes[i]|..] && suffixes[i] == NthSuffix(word, i)
  {
    var start := if |word| > MaxSuffixLength then |word| - MaxSuffixLength else 0;
    seq(|word| - start, i requires 0 <= i < |word| - start => word[start + i..])
  }

  /** A string is among the capped suffixes iff it is a non-empty suffix of the word of at most `MaxSuffixLength` characters. */
  lemma CappedSuffixesExactly(word: string, suffix: string)
    ensures suffix in CappedSuffixes(word) <==>
      1 <= |suffix| <= MaxSuffixLength && |suffix| <= |word| && suffix == word[|word| - |suffix|..]
  {
    var suffixes := CappedSuffixes(word);
    if 1 <= |suffix| <= MaxSuffixLength && |suffix| <= |word| && suffix == word[|word| - |suffix|..] {
      assert suffixes[|suffixes| - |suffix|] == suffix;
    }
  }

  /** The nine-character key of the table is never looked up. */
  lemma OverlongKeyUnreachable(word: string)
    ensures "くありませんでした" !in CappedSuffixes(word)
  {
    CappedSuffixesExactly(word, "くありませんでした");
  }

  /* ---------------- One deinflection step ---------------- */

  /** The successors contributed by the first `n` rules of a suffix's list: one per rule that may fire, in the list's order. */
  function RuleResults(rules: seq<DeinflectionRule>, w: DeinflectedWord, suffixLen: nat, n: nat): seq<DeinflectedWord>
    requires suffixLen <= |w.word| && n <= |rules|
  {
    if n == 0 then []
    else
      RuleResults(rules, w, suffixLen, n - 1)
        + (match Apply(rules[n - 1], w, suffixLen)
           case Some(deinflected) => [DeinflectedWord(deinflected, rules[n - 1].rulesOut)]
           case None => [])
  }

  /**
    A suffix table, such as `RuleTable`. The step below is defined for any table, so that what is
    proved about its structure does not depend on the table's contents.
  */
  type Table = map<string, seq<DeinflectionRule>>

  /** The successors one suffix contributes: those of its rule list when the table holds it, and none otherwise. */
  function LookupResults(table: Table, suffix: string, w: DeinflectedWord): seq<DeinflectedWord>
    requires |suffix| <= |w.word|
  {
    if suffix in table then RuleResults(table[suffix], w, |suffix|, |table[suffix]|) else []
  }

  /** The successors contributed by the first `n` capped suffixes of the word, each looked up in the table in turn. */
  function SuffixResults(table: Table, w: DeinflectedWord, n: nat): seq<DeinflectedWord>
    requires n <= SuffixCount(|w.word|)
  {
    if n == 0 then []
    else SuffixResults(table, w, n - 1) + LookupResults(table, NthSuffix(w.word, n - 1), w)
  }

  /** Every successor of `w` under `table`: the contributions of all its capped suffixes. */
  function SuccessorsIn(table: Table, w: DeinflectedWord): seq<DeinflectedWord>
  {
    SuffixResults(table, w, SuffixCount(|w.word|))
  }

  /** Every successor of `w` under the rule table: what `deinflect_one_iteration` returns. */
  function Successors(w: DeinflectedWord): seq<DeinflectedWord>
  {
    SuccessorsIn(RuleTable, w)
  }

  /** `deinflect_one_iteration`: for every capped suffix found in the table, every rule of its list that applies. */
  method DeinflectOneIteration(w: DeinflectedWord) returns (results: seq<DeinflectedWord>)
    ensures results == Successors(w)
  {
    results := [];
    var suffixes := CappedSuffixes(w.word);
    for i := 0 to |suffixes|
      invariant results == SuffixResults(RuleTable, w, i)
    {
      results := ApplySuffix(suffixes[i], w, results);
    }
  }

  /** The body of `deinflect_one_iteration`'s outer loop: looks `suffix` up and applies the rules found, if any. */
  method ApplySuffix(suffix: string, w: DeinflectedWord, results: seq<DeinflectedWord>) returns (extended: seq<DeinflectedWord>)
    requires |suffix| <= |w.word|
    ensures extended == results + LookupResults(RuleTable, suffix, w)
  {
    match GetDeinflectionRules(suffix) {
      case Some(rules) =>
        extended := ApplyRules(rules, w, |suffix|, results);
      case None =>
        extended := results;
    }
  }

  /** The inner loop of `deinflect_one_iteration`: appends, in order, the result of every rule of `rules` that applies to `w`. */
  method ApplyRules(rules: seq<DeinflectionRule>, w: DeinflectedWord, suffixLen: nat, results: seq<DeinflectedWord>)
    returns (extended: seq<DeinflectedWord>)
    requires suffixLen <= |w.word|
    ensures extended == results + RuleResults(rules, w, suffixLen, |rules|)
  {
    extended := results;
    for j := 0 to |rules|
      invariant extended == results + RuleResults(rules, w, suffixLen, j)
    {
      var rule := rules[j];
      match Apply(rule, w, suffixLen) {
        case Some(deinflected) =>
          extended := extended + [DeinflectedWord(deinflected, rule.rulesOut)];
        case None =>
      }
    }
  }

  /* ---------------- What one step produces, independently of how it is computed ---------------- */

  /** One way of producing a successor: the length of the looked-up suffix and the position of the rule in its list. */
  datatype Match = Match(suffixLen: nat, ruleIndex: nat)

  /** The suffix of `w` that `m` looks up. */
  ghost function MatchedSuffix(w: DeinflectedWord, m: Match): string
    requires m.suffixLen <= |w.word|
  {
    w.word[|w.word| - m.suffixLen..]
  }

  /** `m` names a suffix of an allowed length that the table holds, and a rule of its list that may fire on `w`. */
  ghost predicate IsMatch(table: Table, w: DeinflectedWord, m: Match)
  {
    && 1 <= m.suffixLen <= MaxSuffixLength
    && m.suffixLen <= |w.word|
    && MatchedSuffix(w, m) in table
    && m.ruleIndex < |table[MatchedSuffix(w, m)]|
    && CanApplyTo(table[MatchedSuffix(w, m)][m.ruleIndex], w)
  }

  /** A suffix the table lacks gives no match. */
  lemma AbsentSuffixNoMatch(table: Table, w: DeinflectedWord, len: nat)
    requires len <= |w.word| && w.word[|w.word| - len..] !in table
    ensures forall m: Match :: m.suffixLen == len ==> !IsMatch(table, w, m)
  {
  }

  /** The rule that a match fires. */
  ghost function MatchedRule(table: Table, w: DeinflectedWord, m: Match): DeinflectionRule
    requires IsMatch(table, w, m)
  {
    table[MatchedSuffix(w, m)][m.ruleIndex]
  }

  /** The successor a match produces: the stem followed by the rule's kana, typed by the rule's output types. */
  ghost function Produce(table: Table, w: DeinflectedWord, m: Match): DeinflectedWord
    requires IsMatch(table, w, m)
  {
    var rule := MatchedRule(table, w, m);
    DeinflectedWord(w.word[..|w.word| - m.suffixLen] + rule.kanaOut, rule.rulesOut)
  }

  /** The order in which successors come out: longer suffixes first, then the table's rule order. */
  ghost predicate Before(a: Match, b: Match)
  {
    a.suffixLen > b.suffixLen || (a.suffixLen == b.suffixLen && a.ruleIndex < b.ruleIndex)
  }

  /** The matches behind `RuleResults`, position by position. */
  ghost function RuleMatches(rules: seq<DeinflectionRule>, w: DeinflectedWord, suffixLen: nat, n: nat): seq<Match>
    requires n <= |rules|
  {
    if n == 0 then []
    else
      RuleMatches(rules, w, suffixLen, n - 1)
        + (if CanApplyTo(rules[n - 1], w) then [Match(suffixLen, n - 1)] else [])
  }

  /** The matches behind `LookupResults`, position by position. */
  ghost function LookupMatches(table: Table, suffix: string, w: DeinflectedWord): seq<Match>
  {
    if suffix in table then RuleMatches(table[suffix], w, |suffix|, |table[suffix]|) else []
  }

  /** The matches behind `SuffixResults`, position by position. */
  ghost function SuffixMatches(table: Table, w: DeinflectedWord, n: nat): seq<Match>
    requires n <= SuffixCount(|w.word|)
  {
    if n == 0 then []
    else SuffixMatches(table, w, n - 1) + LookupMatches(table, NthSuffix(w.word, n - 1), w)
  }

  /** The matches behind `Successors`, position by position. */
  ghost function SuccessorMatches(table: Table, w: DeinflectedWord): seq<Match>
  {
    SuffixMatches(table, w, SuffixCount(|w.word|))
  }

  /** Within one rule list: each result comes from an applicable rule among the first `n`, position by position. */
  lemma {:induction false} RuleMatchesProduce(rules: seq<DeinflectionRule>, w: DeinflectedWord, suffixLen: nat, n: nat)
    requires suffixLen <= |w.word| && n <= |rules|
    ensures |RuleMatches(rules, w, suffixLen, n)| == |RuleResults(rules, w, suffixLen, n)|
    ensures forall j :: 0 <= j < |RuleMatches(rules, w, suffixLen, n)| ==>
      var m := RuleMatches(rules, w, suffixLen, n)[j];
      && m.suffixLen == suffixLen
      && m.ruleIndex < n
      && CanApplyTo(rules[m.ruleIndex], w)
      && RuleResults(rules, w, suffixLen, n)[j]
         == DeinflectedWord(w.word[..|w.word| - suffixLen] + rules[m.ruleIndex].kanaOut, rules[m.ruleIndex].rulesOut)
  {
    if n > 0 {
      RuleMatchesProduce(rules, w, suffixLen, n - 1);
    }
  }

  /** Within one rule list: the matches come in increasing rule order and include every applicable rule among the first `n`. */
  lemma {:induction false} RuleMatchesOrdered(rules: seq<DeinflectionRule>, w: DeinflectedWord, suffixLen: nat, n: nat)
    requires n <= |rules|
    ensures forall j :: 0 <= j < |RuleMatches(rules, w, suffixLen, n)| ==> RuleMatches(rules, w, suffixLen, n)[j].ruleIndex < n
    ensures forall i, j :: 0 <= i < j < |RuleMatches(rules, w, suffixLen, n)| ==>
      RuleMatches(rules, w, suffixLen, n)[i].ruleIndex < RuleMatches(rules, w, suffixLen, n)[j].ruleIndex
    ensures forall k :: 0 <= k < n && CanApplyTo(rules[k], w) ==> Match(suffixLen, k) in RuleMatches(rules, w, suffixLen, n)
  {
    if n > 0 {
      RuleMatchesOrdered(rules, w, suffixLen, n - 1);
    }
  }

  /** Within one suffix: each result is produced by a match of that suffix, position by position. */
  lemma LookupMatchesProduce(table: Table, suffix: string, w: DeinflectedWord)
    requires 1 <= |suffix| <= MaxSuffixLength && |suffix| <= |w.word| && suffix == w.word[|w.word| - |suffix|..]
    ensures |LookupMatches(table, suffix, w)| == |LookupResults(table, suffix, w)|
    ensures forall j :: 0 <= j < |LookupMatches(table, suffix, w)| ==>
      && LookupMatches(table, suffix, w)[j].suffixLen == |suffix|
      && IsMatch(table, w, LookupMatches(table, suffix, w)[j])
      && LookupResults(table, suffix, w)[j] == Produce(table, w, LookupMatches(table, suffix, w)[j])
  {
    if suffix in table {
      var rules := table[suffix];
      RuleMatchesProduce(rules, w, |suffix|, |rules|);
      var here := RuleMatches(rules, w, |suffix|, |rules|);
      forall j | 0 <= j < |here|
        ensures IsMatch(table, w, here[j]) && RuleResults(rules, w, |suffix|, |rules|)[j] == Produce(table, w, here[j])
      {
        assert MatchedSuffix(w, here[j]) == suffix;
      }
    }
  }

  /** Within one suffix: the matches come in rule order, and every match of that suffix is among them. */
  lemma LookupMatchesOrdered(table: Table, suffix: string, w: DeinflectedWord)
    requires 1 <= |suffix| <= MaxSuffixLength && |suffix| <= |w.word| && suffix == w.word[|w.word| - |suffix|..]
    ensures forall j :: 0 <= j < |LookupMatches(table, suffix, w)| ==> LookupMatches(table, suffix, w)[j].suffixLen == |suffix|
    ensures forall i, j :: 0 <= i < j < |LookupMatches(table, suffix, w)| ==>
      LookupMatches(table, suffix, w)[i].ruleIndex < LookupMatches(table, suffix, w)[j].ruleIndex
    ensures forall m: Match :: m.suffixLen == |suffix| && IsMatch(table, w, m) ==> m in LookupMatches(table, suffix, w)
  {
    if suffix in table {
      var rules := table[suffix];
      RuleMatchesOrdered(rules, w, |suffix|, |rules|);
      RuleMatchesProduce(rules, w, |suffix|, |rules|);
      var here := RuleMatches(rules, w, |suffix|, |rules|);
      forall m: Match | m.suffixLen == |suffix| && IsMatch(table, w, m)
        ensures m in here
      {
        assert MatchedSuffix(w, m) == suffix;
        assert Match(|suffix|, m.ruleIndex) == m;
      }
    } else {
      forall m: Match | m.suffixLen == |suffix|
        ensures !IsMatch(table, w, m)
      {
        assert MatchedSuffix(w, m) == suffix;
      }
    }
  }

  /** Over the first `n` capped suffixes: every result is produced by a match, position by position. */
  lemma {:induction false} SuffixMatchesProduce(table: Table, w: DeinflectedWord, n: nat)
    requires n <= SuffixCount(|w.word|)
    ensures |SuffixMatches(table, w, n)| == |SuffixResults(table, w, n)|
    ensures forall j :: 0 <= j < |SuffixMatches(table, w, n)| ==>
      IsMatch(table, w, SuffixMatches(table, w, n)[j]) && SuffixResults(table, w, n)[j] == Produce(table, w, SuffixMatches(table, w, n)[j])
  {
    if n > 0 {
      var suffix := NthSuffix(w.word, n - 1);
      SuffixMatchesProduce(table, w, n - 1);
      LookupMatchesProduce(table, suffix, w);
      var earlier, here := SuffixMatches(table, w, n - 1), LookupMatches(table, suffix, w);
      var before, results := SuffixResults(table, w, n - 1), LookupResults(table, suffix, w);
      assert SuffixMatches(table, w, n) == earlier + here;
      assert SuffixResults(table, w, n) == before + results;
      forall j | 0 <= j < |earlier + here|
        ensures IsMatch(table, w, (earlier + here)[j]) && (before + results)[j] == Produce(table, w, (earlier + here)[j])
      {
        if j >= |earlier| {
          assert (earlier + here)[j] == here[j - |earlier|];
          assert (before + results)[j] == results[j - |earlier|];
        }
      }
    }
  }

  /**
    Over the first `n` capped suffixes: the matches come out longest suffix first, then in rule
    order, and none uses a suffix shorter than the `n`-th.
  */
  lemma {:induction false} SuffixMatchesOrdered(table: Table, w: DeinflectedWord, n: nat)
    requires n <= SuffixCount(|w.word|)
    ensures forall j :: 0 <= j < |SuffixMatches(table, w, n)| ==>
      SuffixMatches(table, w, n)[j].suffixLen > SuffixCount(|w.word|) - n
    ensures forall i, j :: 0 <= i < j < |SuffixMatches(table, w, n)| ==> Before(SuffixMatches(table, w, n)[i], SuffixMatches(table, w, n)[j])
  {
    if n > 0 {
      SuffixMatchesOrdered(table, w, n - 1);
      LookupMatchesOrdered(table, NthSuffix(w.word, n - 1), w);
    }
  }

  /** Over the first `n` capped suffixes: every match of one of them is among the matches. */
  lemma {:induction false} SuffixMatchesComplete(table: Table, w: DeinflectedWord, n: nat)
    requires n <= SuffixCount(|w.word|)
    ensures forall m: Match :: SuffixCount(|w.word|) - n < m.suffixLen && IsMatch(table, w, m) ==> m in SuffixMatches(table, w, n)
  {
    if n > 0 {
      SuffixMatchesComplete(table, w, n - 1);
      LookupMatchesOrdered(table, NthSuffix(w.word, n - 1), w);
    }
  }

  /**
    What one step produces, stated without its loops: position by position, the successors are
    produced by matches; the matches run from the longest suffix to the shortest and, for one
    suffix, in the table's rule order; and every match is among them.
  */
  lemma SuccessorsCharacterized(table: Table, w: DeinflectedWord)
    ensures |SuccessorMatches(table, w)| == |SuccessorsIn(table, w)|
    ensures forall j :: 0 <= j < |SuccessorsIn(table, w)| ==>
      IsMatch(table, w, SuccessorMatches(table, w)[j]) && SuccessorsIn(table, w)[j] == Produce(table, w, SuccessorMatches(table, w)[j])
    ensures forall i, j :: 0 <= i < j < |SuccessorsIn(table, w)| ==> Before(SuccessorMatches(table, w)[i], SuccessorMatches(table, w)[j])
    ensures forall m :: IsMatch(table, w, m) ==> m in SuccessorMatches(table, w)
  {
    var n := SuffixCount(|w.word|);
    SuffixMatchesProduce(table, w, n);
    SuffixMatchesOrdered(table, w, n);
    SuffixMatchesComplete(table, w, n);
  }

  /** Every successor is produced by some match. */
  lemma SuccessorsSound(table: Table, w: DeinflectedWord, x: DeinflectedWord)
    requires x in SuccessorsIn(table, w)
    ensures exists m :: IsMatch(table, w, m) && x == Produce(table, w, m)
  {
    SuccessorsCharacterized(table, w);
    var j :| 0 <= j < |SuccessorsIn(table, w)| && SuccessorsIn(table, w)[j] == x;
    assert IsMatch(table, w, SuccessorMatches(table, w)[j]);
  }

  /** Every match produces a successor. */
  lemma SuccessorsComplete(table: Table, w: DeinflectedWord, m: Match)
    requires IsMatch(table, w, m)
    ensures Produce(table, w, m) in SuccessorsIn(table, w)
  {
    SuccessorsCharacterized(table, w);
    var j :| 0 <= j < |SuccessorMatches(table, w)| && SuccessorMatches(table, w)[j] == m;
    assert SuccessorsIn(table, w)[j] == Produce(table, w, m);
  }

  /** The first two successors, when there are that many, with the matches behind them. */
  lemma SuccessorsFirstTwo(table: Table, w: DeinflectedWord)
    ensures |SuccessorMatches(table, w)| == |SuccessorsIn(table, w)|
    ensures |SuccessorsIn(table, w)| > 0 ==> IsMatch(table, w, SuccessorMatches(table, w)[0]) && SuccessorsIn(table, w)[0] == Produce(table, w, SuccessorMatches(table, w)[0])
    ensures |SuccessorsIn(table, w)| > 1 ==> IsMatch(table, w, SuccessorMatches(table, w)[1]) && Before(SuccessorMatches(table, w)[0], SuccessorMatches(table, w)[1])
  {
    SuccessorsCharacterized(table, w);
  }

  /** A word with no match has no successor. */
  lemma NoMatchNoSuccessors(table: Table, w: DeinflectedWord)
    requires forall m :: !IsMatch(table, w, m)
    ensures SuccessorsIn(table, w) == []
  {
    SuccessorsFirstTwo(table, w);
  }

  /** A word with exactly one match has exactly the successor that match produces. */
  lemma UniqueMatchSuccessor(table: Table, w: DeinflectedWord, m: Match)
    requires IsMatch(table, w, m)
    requires forall other :: IsMatch(table, w, other) ==> other == m
    ensures SuccessorsIn(table, w) == [Produce(table, w, m)]
  {
    SuccessorsCharacterized(table, w);
    SuccessorsFirstTwo(table, w);
    assert m in SuccessorMatches(table, w);
    assert |SuccessorsIn(table, w)| == 1;
  }

  /** Every successor has some type, because every rule of the table gives its result one. */
  lemma SuccessorsHaveTypes(w: DeinflectedWord)
    ensures forall x :: x in Successors(w) ==> x.types != []
  {
    TableWellFormed();
    forall x | x in Successors(w)
      ensures x.types != []
    {
      SuccessorsSound(RuleTable, w, x);
    }
  }

  /** The "な" rule fires only on the raw input, where it drops the final な and types the result as any verb but Iru. */
  lemma NaDeinflects(word: string)
    requires |word| >= 1 && word[|word| - 1] == 'な'
    ensures DeinflectedWord(word[..|word| - 1], [V1, V5, Vk, Vs, Vz]) in Successors(DeinflectedWord(word, []))
  {
    var w := DeinflectedWord(word, []);
    NaRule();
    assert word[|word| - 1..] == "な";
    assert MatchedSuffix(w, Match(1, 0)) == "な";
    assert IsMatch(RuleTable, w, Match(1, 0));
    assert word[..|word| - 1] + "" == word[..|word| - 1];
    SuccessorsComplete(RuleTable, w, Match(1, 0));
  }

  /* ---------------- The seen-set ---------------- */

  /** The seen-set key: the word and its types, compared by value. */
  function Key(w: DeinflectedWord): (string, seq<RuleType>)
  {
    (w.word, w.types)
  }

  /** Two words have the same key exactly when they are the same (word, types) value. */
  lemma KeyIdentifies(v: DeinflectedWord, w: DeinflectedWord)
    ensures Key(v) == Key(w) <==> v == w
  {
  }

  /** `SeenWordsTracker`: the keys of the words already expanded. */
  class SeenWordsTracker {
    var seen: set<(string, seq<RuleType>)>

    constructor ()
      ensures seen == {}
    {
      seen := {};
    }

    /** `check_is_new`: records the key of `w` and says whether it was absent before. */
    method CheckIsNew(w: DeinflectedWord) returns (isNew: bool)
      modifies this
      ensures isNew <==> Key(w) !in old(seen)
      ensures seen == old(seen) + {Key(w)}
    {
      isNew := Key(w) !in seen;
      seen := seen + {Key(w)};
    }
  }

  /** The keys of the words of `s`: what the seen-set holds once `s` has been visited. */
  function KeysOf(s: seq<DeinflectedWord>): set<(string, seq<RuleType>)>
  {
    if s == [] then {} else KeysOf(s[..|s| - 1]) + {Key(s[|s| - 1])}
  }

  /** A word's key has been seen iff the word itself (same characters, same types) has been visited. */
  lemma {:induction false} KeysOfMembers(s: seq<DeinflectedWord>, x: DeinflectedWord)
    ensures Key(x) in KeysOf(s) <==> x in s
  {
    if s != [] {
      var init := s[..|s| - 1];
      KeysOfMembers(init, x);
      assert s == init + [s[|s| - 1]];
    }
  }

  /* ---------------- The closure ---------------- */

  /*
    The worklist argument does not depend on what one step computes, so it is stated for any
    step function and then instantiated with `Successors`.
  */

  /**
    The entries appended while the words of `processed` are visited in order: the successors
    (by `step`) of each word that does not occur earlier in `processed`, and nothing for a
    repeated word.
  */
  function Expansions(step: DeinflectedWord -> seq<DeinflectedWord>, processed: seq<DeinflectedWord>): seq<DeinflectedWord>
  {
    if processed == [] then []
    else
      var current := processed[|processed| - 1];
      var earlier := processed[..|processed| - 1];
      Expansions(step, earlier) + (if current in earlier then [] else step(current))
  }

  /**
    Each visited entry was already in the list when its turn came: the list then held the first
    step and the expansions of the entries visited before it.
  */
  ghost predicate VisitedInTurn(step: DeinflectedWord -> seq<DeinflectedWord>, first: seq<DeinflectedWord>, visited: seq<DeinflectedWord>)
  {
    forall k :: 0 <= k < |visited| ==> k < |first| + |Expansions(step, visited[..k])|
  }

  /**
    The state of the worklist after `processed` entries have been visited: the initial entries
    `first`, followed by the expansions of the visited entries, each visited in its turn.
    Visiting stopped when the list ran out or the budget `fuel` was spent.
  */
  ghost predicate IsWorklistRun(step: DeinflectedWord -> seq<DeinflectedWord>, first: seq<DeinflectedWord>, fuel: nat,
                                list: seq<DeinflectedWord>, processed: nat)
  {
    && processed <= |list|
    && processed <= fuel
    && (processed == |list| || processed == fuel)
    && list == first + Expansions(step, list[..processed])
    && VisitedInTurn(step, first, list[..processed])
  }

  /** `deinflections` is what `deinflect(word)` returns after `processed` entries have been visited. */
  ghost predicate IsDeinflection(word: string, fuel: nat, deinflections: seq<DeinflectedWord>, processed: nat)
  {
    IsWorklistRun(Successors, Successors(DeinflectedWord(word, [])), fuel, deinflections, processed)
  }

  /** The first `visited` entries of `list` have been visited: the list is the initial entries followed by their expansions. */
  ghost predicate RunPrefix(step: DeinflectedWord -> seq<DeinflectedWord>, first: seq<DeinflectedWord>,
                            list: seq<DeinflectedWord>, visited: nat)
  {
    && visited <= |list|
    && list == first + Expansions(step, list[..visited])
    && VisitedInTurn(step, first, list[..visited])
  }

  /** Visiting one more entry keeps the run's equation, and adds that entry's key to the seen keys. */
  lemma VisitStep(step: DeinflectedWord -> seq<DeinflectedWord>, first: seq<DeinflectedWord>, list: seq<DeinflectedWord>, i: nat)
    requires RunPrefix(step, first, list, i) && i < |list|
    ensures Key(list[i]) in KeysOf(list[..i]) <==> list[i] in list[..i]
    ensures list[i] in list[..i] ==>
      RunPrefix(step, first, list, i + 1) && KeysOf(list[..i + 1]) == KeysOf(list[..i]) + {Key(list[i])}
    ensures list[i] !in list[..i] ==>
      var grown := list + step(list[i]);
      RunPrefix(step, first, grown, i + 1) && KeysOf(grown[..i + 1]) == KeysOf(list[..i]) + {Key(list[i])}
  {
    KeysOfMembers(list[..i], list[i]);
    ExpansionsSnoc(step, list, i);
    VisitedInTurnStep(step, first, list, i);
    KeysOfSnoc(list, i);
    PrefixOfAppend(list, step(list[i]), i + 1);
  }

  /** An entry that was in the list when its turn came keeps the visit in turn. */
  lemma VisitedInTurnStep(step: DeinflectedWord -> seq<DeinflectedWord>, first: seq<DeinflectedWord>, list: seq<DeinflectedWord>, i: nat)
    requires i < |list| && i < |first| + |Expansions(step, list[..i])| && VisitedInTurn(step, first, list[..i])
    ensures VisitedInTurn(step, first, list[..i + 1])
  {
    var visited := list[..i + 1];
    forall k | 0 <= k < i + 1
      ensures k < |first| + |Expansions(step, visited[..k])|
    {
      if k < i {
        assert visited[..k] == list[..i][..k];
      } else {
        assert visited[..k] == list[..i];
      }
    }
  }

  /** The keys after one more visit. */
  lemma KeysOfSnoc(list: seq<DeinflectedWord>, i: nat)
    requires i < |list|
    ensures KeysOf(list[..i + 1]) == KeysOf(list[..i]) + {Key(list[i])}
  {
    assert list[..i + 1][..i] == list[..i];
  }

  /** Appending leaves a prefix unchanged. */
  lemma PrefixOfAppend(list: seq<DeinflectedWord>, more: seq<DeinflectedWord>, n: nat)
    requires n <= |list|
    ensures (list + more)[..n] == list[..n]
  {
  }

  /**
    `deinflect`: start from the successors of the raw input and walk the growing list, appending
    the successors of every entry whose key has not been seen. The walk stops after `fuel`
    entries at the latest; it has finished when `processed == |deinflections|`.
  */
  method Deinflect(word: string, fuel: nat) returns (deinflections: seq<DeinflectedWord>, processed: nat)
    ensures IsDeinflection(word, fuel, deinflections, processed)
  {
    var initial := DeinflectedWord(word, []);
    deinflections := DeinflectOneIteration(initial);
    ghost var first := deinflections;
    var seenChecker := new SeenWordsTracker();
    var i := 0;
    assert deinflections[..0] == [];
    while i < |deinflections| && i < fuel
      invariant i <= fuel
      invariant RunPrefix(Successors, first, deinflections, i)
      invariant seenChecker.seen == KeysOf(deinflections[..i])
      decreases fuel - i
    {
      var current := deinflections[i];
      VisitStep(Successors, first, deinflections, i);
      var isNew := seenChecker.CheckIsNew(current);
      if isNew {
        var newDeinflections := DeinflectOneIteration(current);
        deinflections := deinflections + newDeinflections;
      }
      i := i + 1;
    }
    processed := i;
  }

  /* ---------------- What the closure promises ---------------- */

  /** The expansions of a visited prefix are a prefix of the expansions of the whole visit. */
  lemma {:induction false} ExpansionsPrefix(step: DeinflectedWord -> seq<DeinflectedWord>, p: seq<DeinflectedWord>, q: seq<DeinflectedWord>)
    ensures Expansions(step, p) <= Expansions(step, p + q)
  {
    if q != [] {
      ExpansionsPrefix(step, p, q[..|q| - 1]);
      assert (p + q)[..|p + q| - 1] == p + q[..|q| - 1];
    } else {
      assert p + q == p;
    }
  }

  /** Each appended entry is a successor of a visited entry that occurs there for the first time, and it comes after that entry's earlier expansions. */
  lemma {:induction false} ExpansionSource(step: DeinflectedWord -> seq<DeinflectedWord>, p: seq<DeinflectedWord>, n: nat) returns (k: nat)
    requires n < |Expansions(step, p)|
    ensures k < |p| && p[k] !in p[..k] && |Expansions(step, p[..k])| <= n && Expansions(step, p)[n] in step(p[k])
  {
    var earlier := p[..|p| - 1];
    if n < |Expansions(step, earlier)| {
      k := ExpansionSource(step, earlier, n);
      assert earlier[..k] == p[..k];
    } else {
      k := |p| - 1;
      assert Expansions(step, p)[n] == step(p[k])[n - |Expansions(step, earlier)|];
    }
  }

  /** In any worklist run, the entry at position `j`, past the initial entries, is a successor of the entry at some strictly earlier position. */
  lemma RunEntrySource(step: DeinflectedWord -> seq<DeinflectedWord>, first: seq<DeinflectedWord>, fuel: nat,
                       list: seq<DeinflectedWord>, processed: nat, j: nat) returns (k: nat)
    requires IsWorklistRun(step, first, fuel, list, processed)
    requires |first| <= j < |list|
    ensures k < j && list[j] in step(list[k])
  {
    var visited := list[..processed];
    k := ExpansionSource(step, visited, j - |first|);
    assert k < |first| + |Expansions(step, visited[..k])|;
    assert visited[k] == list[k];
  }

  /** Visiting one more word appends its successors when it is new, and nothing otherwise. */
  lemma ExpansionsSnoc(step: DeinflectedWord -> seq<DeinflectedWord>, p: seq<DeinflectedWord>, k: nat)
    requires k < |p|
    ensures Expansions(step, p[..k + 1]) == Expansions(step, p[..k]) + (if p[k] in p[..k] then [] else step(p[k]))
  {
    var visited := p[..k + 1];
    assert visited[..k] == p[..k];
    assert visited[k] == p[k];
  }

  /** The expansions of the first `n` visited words are a prefix of the expansions of all of them. */
  lemma ExpansionsPrefixOf(step: DeinflectedWord -> seq<DeinflectedWord>, p: seq<DeinflectedWord>, n: nat)
    requires n <= |p|
    ensures Expansions(step, p[..n]) <= Expansions(step, p)
  {
    ExpansionsPrefix(step, p[..n], p[n..]);
    SplitAt(p, n);
  }

  /** What the first occurrence of a word produces is among the expansions. */
  lemma ExpandedAtFirst(step: DeinflectedWord -> seq<DeinflectedWord>, p: seq<DeinflectedWord>, k: nat, x: DeinflectedWord)
    requires k < |p| && p[k] !in p[..k] && x in step(p[k])
    ensures x in Expansions(step, p)
  {
    ExpansionsSnoc(step, p, k);
    ExpansionsPrefixOf(step, p, k + 1);
    InPrefix(Expansions(step, p[..k + 1]), Expansions(step, p), x);
  }

  /** A sequence is its prefix followed by the rest. */
  lemma SplitAt(p: seq<DeinflectedWord>, n: nat)
    requires n <= |p|
    ensures p[..n] + p[n..] == p
  {
  }

  /** What a prefix holds, the whole sequence holds. */
  lemma InPrefix(a: seq<DeinflectedWord>, b: seq<DeinflectedWord>, x: DeinflectedWord)
    requires a <= b && x in a
    ensures x in b
  {
    var i :| 0 <= i < |a| && a[i] == x;
    assert b[i] == x;
  }

  /** Whatever a visited entry can produce is among the expansions, whether that entry was expanded at its own position or at an earlier one. */
  lemma {:induction false} ExpandedSomewhere(step: DeinflectedWord -> seq<DeinflectedWord>, p: seq<DeinflectedWord>, k: nat, x: DeinflectedWord)
    requires k < |p| && x in step(p[k])
    ensures x in Expansions(step, p)
    decreases k
  {
    if p[k] in p[..k] {
      var k' :| 0 <= k' < k && p[..k][k'] == p[k];
      ExpandedSomewhere(step, p, k', x);
    } else {
      ExpandedAtFirst(step, p, k, x);
    }
  }

  /** `deinflect` begins with exactly the first step from the raw input. */
  lemma DeinflectStartsWithFirstStep(word: string, fuel: nat, deinflections: seq<DeinflectedWord>, processed: nat)
    requires IsDeinflection(word, fuel, deinflections, processed)
    ensures Successors(DeinflectedWord(word, [])) <= deinflections
  {
  }

  /** Every entry after the first step is a successor of some strictly earlier entry. */
  lemma DeinflectProvenance(word: string, fuel: nat, deinflections: seq<DeinflectedWord>, processed: nat)
    requires IsDeinflection(word, fuel, deinflections, processed)
    ensures forall j :: |Successors(DeinflectedWord(word, []))| <= j < |deinflections| ==>
      exists k :: 0 <= k < j && deinflections[j] in Successors(deinflections[k])
  {
    var first := Successors(DeinflectedWord(word, []));
    forall j | |first| <= j < |deinflections|
      ensures exists k :: 0 <= k < j && deinflections[j] in Successors(deinflections[k])
    {
      var k := RunEntrySource(Successors, first, fuel, deinflections, processed, j);
    }
  }

  /** A finished run is closed: every successor of every entry is itself an entry. */
  lemma DeinflectClosed(word: string, fuel: nat, deinflections: seq<DeinflectedWord>, processed: nat)
    requires IsDeinflection(word, fuel, deinflections, processed)
    requires processed == |deinflections|
    ensures forall k, x :: 0 <= k < |deinflections| && x in Successors(deinflections[k]) ==> x in deinflections
  {
    assert deinflections[..processed] == deinflections;
    forall k, x | 0 <= k < |deinflections| && x in Successors(deinflections[k])
      ensures x in deinflections
    {
      ExpandedSomewhere(Successors, deinflections, k, x);
    }
  }

  /** A finished run contains every successor of each of its entries. */
  lemma DeinflectClosedMember(word: string, fuel: nat, deinflections: seq<DeinflectedWord>, processed: nat,
                              x: DeinflectedWord, y: DeinflectedWord)
    requires IsDeinflection(word, fuel, deinflections, processed)
    requires processed == |deinflections|
    requires x in deinflections && y in Successors(x)
    ensures y in deinflections
  {
    DeinflectClosed(word, fuel, deinflections, processed);
    var k :| 0 <= k < |deinflections| && deinflections[k] == x;
  }

  /** A prefix of entries visited in turn was itself visited in turn. */
  lemma VisitedInTurnPrefix(step: DeinflectedWord -> seq<DeinflectedWord>, first: seq<DeinflectedWord>, visited: seq<DeinflectedWord>, n: nat)
    requires n <= |visited| && VisitedInTurn(step, first, visited)
    ensures VisitedInTurn(step, first, visited[..n])
  {
    var shorter := visited[..n];
    forall k | 0 <= k < n
      ensures k < |first| + |Expansions(step, shorter[..k])|
    {
      assert shorter[..k] == visited[..k];
    }
  }

  /**
    When no initial entry has a successor, visiting expands nothing: each visited entry was in
    its turn one of the initial ones.
  */
  lemma {:induction false} FinalFirstNoExpansions(step: DeinflectedWord -> seq<DeinflectedWord>, first: seq<DeinflectedWord>,
                                                  list: seq<DeinflectedWord>, n: nat)
    requires n <= |list| && first <= list && VisitedInTurn(step, first, list[..n])
    requires forall x :: x in first ==> step(x) == []
    ensures Expansions(step, list[..n]) == []
  {
    if n > 0 {
      VisitedInTurnPrefix(step, first, list[..n], n - 1);
      assert list[..n][..n - 1] == list[..n - 1];
      FinalFirstNoExpansions(step, first, list, n - 1);
      ExpansionsSnoc(step, list, n - 1);
      assert n - 1 < |first|;
      assert list[n - 1] in first;
    }
  }

  /** A run whose initial entries have no successors consists of the initial entries alone. */
  lemma RunOfFinalFirst(step: DeinflectedWord -> seq<DeinflectedWord>, first: seq<DeinflectedWord>, fuel: nat,
                        list: seq<DeinflectedWord>, processed: nat)
    requires IsWorklistRun(step, first, fuel, list, processed)
    requires forall x :: x in first ==> step(x) == []
    ensures list == first
  {
    FinalFirstNoExpansions(step, first, list, processed);
  }

  /** When no entry of the first step can be deinflected further, `deinflect` returns exactly the first step. */
  lemma DeinflectStopsAtFinalFirstStep(word: string, fuel: nat, deinflections: seq<DeinflectedWord>, processed: nat)
    requires IsDeinflection(word, fuel, deinflections, processed)
    requires forall x :: x in Successors(DeinflectedWord(word, [])) ==> Successors(x) == []
    ensures deinflections == Successors(DeinflectedWord(word, []))
  {
    RunOfFinalFirst(Successors, Successors(DeinflectedWord(word, [])), fuel, deinflections, processed);
  }

  /** No value occurs twice in `s`. */
  ghost predicate Distinct(s: seq<DeinflectedWord>)
  {
    forall i, j :: 0 <= i < j < |s| ==> s[i] != s[j]
  }

  /** The distinct values of `s`, each kept at its first occurrence, in order. */
  function Dedup(s: seq<DeinflectedWord>): seq<DeinflectedWord>
  {
    if s == [] then []
    else
      var last := s[|s| - 1];
      var init := s[..|s| - 1];
      if last in init then Dedup(init) else Dedup(init) + [last]
  }

  /** The successors (by `step`) of the words of `words`, concatenated in order. */
  function Flatten(step: DeinflectedWord -> seq<DeinflectedWord>, words: seq<DeinflectedWord>): seq<DeinflectedWord>
  {
    if words == [] then [] else Flatten(step, words[..|words| - 1]) + step(words[|words| - 1])
  }

  /**
    Visiting expands each distinct value once: the expansions are the successors of the distinct
    visited values, taken in the order of their first visits, and of nothing else.
  */
  lemma {:induction false} ExpandedOnce(step: DeinflectedWord -> seq<DeinflectedWord>, processed: seq<DeinflectedWord>)
    ensures Expansions(step, processed) == Flatten(step, Dedup(processed))
    ensures forall x :: x in Dedup(processed) <==> x in processed
    ensures Distinct(Dedup(processed))
  {
    if processed != [] {
      var last := processed[|processed| - 1];
      var init := processed[..|processed| - 1];
      ExpandedOnce(step, init);
      assert forall x :: x in processed <==> x in init || x == last;
      if last !in init {
        var d := Dedup(init);
        assert (d + [last])[..|d|] == d;
      }
    }
  }

  /**
    `deinflect` appends the successors of every distinct visited entry exactly once, in the order
    the entries were first visited; a repeated entry adds nothing.
  */
  lemma DeinflectExpandsEachOnce(word: string, fuel: nat, deinflections: seq<DeinflectedWord>, processed: nat)
    requires IsDeinflection(word, fuel, deinflections, processed)
    ensures deinflections == Successors(DeinflectedWord(word, [])) + Flatten(Successors, Dedup(deinflections[..processed]))
    ensures forall x :: x in Dedup(deinflections[..processed]) <==> x in deinflections[..processed]
    ensures Distinct(Dedup(deinflections[..processed]))
  {
    ExpandedOnce(Successors, deinflections[..processed]);
  }

  /** Every entry of a run lies in any set that holds the initial entries and is closed under `step`. */
  lemma RunWithin(step: DeinflectedWord -> seq<DeinflectedWord>, first: seq<DeinflectedWord>, fuel: nat,
                  list: seq<DeinflectedWord>, processed: nat, within: set<DeinflectedWord>)
    requires IsWorklistRun(step, first, fuel, list, processed)
    requires forall x :: x in first ==> x in within
    requires forall x, y :: x in within && y in step(x) ==> y in within
    ensures forall x :: x in list ==> x in within
  {
    forall j | 0 <= j < |list|
      ensures list[j] in within
    {
      EntryWithin(step, first, fuel, list, processed, within, j);
    }
  }

  /** The entry at `j` is in the closed set: it is an initial entry or a successor of an earlier entry. */
  lemma {:induction false} EntryWithin(step: DeinflectedWord -> seq<DeinflectedWord>, first: seq<DeinflectedWord>, fuel: nat,
                                       list: seq<DeinflectedWord>, processed: nat, within: set<DeinflectedWord>, j: nat)
    requires IsWorklistRun(step, first, fuel, list, processed)
    requires forall x :: x in first ==> x in within
    requires forall x, y :: x in within && y in step(x) ==> y in within
    requires j < |list|
    ensures list[j] in within
    decreases j
  {
    if j < |first| {
      assert list[j] == first[j];
    } else {
      var k := RunEntrySource(step, first, fuel, list, processed, j);
      EntryWithin(step, first, fuel, list, processed, within, k);
    }
  }

  /** Every entry of `deinflect` lies in any set that holds the first step and is closed under `Successors`. */
  lemma DeinflectWithin(word: string, fuel: nat, deinflections: seq<DeinflectedWord>, processed: nat,
                        within: set<DeinflectedWord>)
    requires IsDeinflection(word, fuel, deinflections, processed)
    requires forall x :: x in Successors(DeinflectedWord(word, [])) ==> x in within
    requires forall x, y :: x in within && y in Successors(x) ==> y in within
    ensures forall x :: x in deinflections ==> x in within
  {
    RunWithin(Successors, Successors(DeinflectedWord(word, [])), fuel, deinflections, processed, within);
  }

  /**
    When the first step is the single word `a`, whose one successor `b` has none, every entry of
    `deinflect` is `a` or `b`.
  */
  lemma DeinflectTwoLevels(word: string, fuel: nat, deinflections: seq<DeinflectedWord>, processed: nat,
                           a: DeinflectedWord, b: DeinflectedWord)
    requires IsDeinflection(word, fuel, deinflections, processed)
    requires Successors(DeinflectedWord(word, [])) == [a]
    requires Successors(a) == [b] && Successors(b) == []
    ensures forall x :: x in deinflections ==> x == a || x == b
  {
    DeinflectWithin(word, fuel, deinflections, processed, {a, b});
  }

  /** Every entry of the result has some type, so only rules with a non-empty `rulesIn` ever fire on an entry. */
  lemma DeinflectEntriesTyped(word: string, fuel: nat, deinflections: seq<DeinflectedWord>, processed: nat)
    requires IsDeinflection(word, fuel, deinflections, processed)
    ensures forall j :: 0 <= j < |deinflections| ==> deinflections[j].types != []
    ensures forall j, m :: 0 <= j < |deinflections| && IsMatch(RuleTable, deinflections[j], m) ==> MatchedRule(RuleTable, deinflections[j], m).rulesIn != []
  {
    var first := Successors(DeinflectedWord(word, []));
    SuccessorsHaveTypes(DeinflectedWord(word, []));
    forall j | 0 <= j < |deinflections|
      ensures deinflections[j].types != []
    {
      if j < |first| {
        assert deinflections[j] in first;
      } else {
        var k := RunEntrySource(Successors, first, fuel, deinflections, processed, j);
        SuccessorsHaveTypes(deinflections[k]);
      }
    }
  }

  /** When the first step yields nothing, so does `deinflect`, whatever the budget. */
  lemma NoFirstStepNoResults(word: string, fuel: nat, deinflections: seq<DeinflectedWord>, processed: nat)
    requires IsDeinflection(word, fuel, deinflections, processed)
    requires Successors(DeinflectedWord(word, [])) == []
    ensures deinflections == []
  {
    var visited := deinflections[..processed];
    assert visited[..0] == [];
    assert processed == 0;
    assert visited == [];
  }
}
