/**
  The suffix rule table (src/deinflection_rules.rs): a static map from a suffix to the ordered
  list of rules that undo it. This model transcribes the entries listed below, in the source's
  order and with the source's contents. They are every entry whose key is a suffix of a word
  that the scenarios in DeinflectExamples reach, with the full table, from 白ける, とぼけた,
  信じた, 食べさせられなかった and the あ-only words. They also include the entries of ければ, っちゃう,
  な and くありませんでした, which the table lemmas below and NaDeinflects are about.
*/
module DeinflectionRules {

  import opened Wrappers
  import opened DeinflectTypes

  /** The longest suffix, in characters, that the engine looks up. */
  const MaxSuffixLength: nat := 7

  /** The transcribed part of the table. */
  const RuleTable: map<string, seq<DeinflectionRule>> :=
    map[
      // src/deinflection_rules.rs:9-14
      "ければ" := [DeinflectionRule("い", [], [AdjI])],
      // src/deinflection_rules.rs:112-132
      "っちゃう" := [
        DeinflectionRule("う", [V5], [V5]),
        DeinflectionRule("く", [V5], [V5]),
        DeinflectionRule("つ", [V5], [V5]),
        DeinflectionRule("る", [V5], [V5])
      ],
      // src/deinflection_rules.rs:1693-1698
      "く" := [DeinflectionRule("い", [], [AdjI])],
      // src/deinflection_rules.rs:1700-1715
      "させる" := [
        DeinflectionRule("る", [V1], [V1]),
        DeinflectionRule("す", [V1], [V5]),
        DeinflectionRule("する", [V1], [Vs])
      ],
      // src/deinflection_rules.rs:2002-2007
      "な" := [DeinflectionRule("", [], [V1, V5, Vk, Vs, Vz])],
      // src/deinflection_rules.rs:2009-2019
      "い" := [
        DeinflectionRule("いる", [], [V1]),
        DeinflectionRule("う", [], [V5])
      ],
      // src/deinflection_rules.rs:2183-2188
      "ない" := [DeinflectionRule("る", [AdjI], [V1])],
      // src/deinflection_rules.rs:2363-2368
      "られる" := [DeinflectionRule("る", [V1], [V5, V1])],
      // src/deinflection_rules.rs:2412-2417
      "かった" := [DeinflectionRule("い", [], [AdjI])],
      // src/deinflection_rules.rs:2419-2424
      "た" := [DeinflectionRule("る", [], [V1])],
      // src/deinflection_rules.rs:2452-2467
      "った" := [
        DeinflectionRule("う", [], [V5]),
        DeinflectionRule("つ", [], [V5]),
        DeinflectionRule("る", [], [V5])
      ],
      // src/deinflection_rules.rs:2486-2492
      "じた" := [DeinflectionRule("ずる", [], [Vz])],
      // src/deinflection_rules.rs:2973-2978
      "くありませんでした" := [DeinflectionRule("い", [], [AdjI])],
      // src/deinflection_rules.rs:3196-3201
      "れる" := [DeinflectionRule("る", [V1], [V1, V5])],
      // src/deinflection_rules.rs:3210-3215
      "ける" := [DeinflectionRule("く", [V1], [V5])],
      // src/deinflection_rules.rs:3224-3229
      "せる" := [DeinflectionRule("す", [V1], [V5])],
      // src/deinflection_rules.rs:3250-3255
      "べる" := [DeinflectionRule("ぶ", [V1], [V5])],
      // src/deinflection_rules.rs:3299-3304
      "せられる" := [DeinflectionRule("する", [V1], [Vs])]
    ]

  /**
    `get_deinflection_rules`: the rule list declared for `suffix`, or `None` when the table has no
    such key. A found list is never empty, and its key is non-empty and no longer than the suffixes
    the engine looks up, except for the one overlong key.
  */
  function GetDeinflectionRules(suffix: string): (r: Option<seq<DeinflectionRule>>)
    ensures r.None? <==> suffix !in RuleTable
    ensures r.Some? ==> r.value == RuleTable[suffix] && |r.value| > 0
    ensures r.Some? ==> 0 < |suffix| && (|suffix| <= MaxSuffixLength || suffix == "くありませんでした")
  {
    TableWellFormed();
    OverlongKey();
    if suffix in RuleTable then Some(RuleTable[suffix]) else None
  }

  /** Every key is non-empty, every key has at least one rule, and every rule gives its result some type. */
  lemma TableWellFormed()
    ensures forall suffix :: suffix in RuleTable ==> |suffix| > 0 && |RuleTable[suffix]| > 0
    ensures forall suffix, i :: suffix in RuleTable && 0 <= i < |RuleTable[suffix]| ==> |RuleTable[suffix][i].rulesOut| > 0
  {
  }

  /** A present suffix yields its declared list in order: "っちゃう" restores う, く, つ, る, each for a godan verb. */
  lemma ChauRules()
    ensures GetDeinflectionRules("っちゃう") == Some([
      DeinflectionRule("う", [V5], [V5]),
      DeinflectionRule("く", [V5], [V5]),
      DeinflectionRule("つ", [V5], [V5]),
      DeinflectionRule("る", [V5], [V5])
    ])
  {
  }

  /** The "な" entry removes the suffix and adds nothing, giving all five verb classes but Iru. */
  lemma NaRule()
    ensures GetDeinflectionRules("な") == Some([DeinflectionRule("", [], [V1, V5, Vk, Vs, Vz])])
  {
  }

  /** Every key ends in a character other than あ. */
  lemma KeysEndOutsideA()
    ensures forall suffix :: suffix in RuleTable ==> |suffix| > 0 && suffix[|suffix| - 1] != 'あ'
  {
  }

  /** No key is made of あ alone, so looking up such a suffix yields `None`. */
  lemma NoKeyOfOnlyA(suffix: string)
    requires forall i :: 0 <= i < |suffix| ==> suffix[i] == 'あ'
    ensures GetDeinflectionRules(suffix) == None
  {
    KeysEndOutsideA();
  }

  /** "くありませんでした" has nine characters, more than any suffix the engine looks up; it is the only such key. */
  lemma OverlongKey()
    ensures "くありませんでした" in RuleTable && |"くありませんでした"| == 9 > MaxSuffixLength
    ensures forall suffix :: suffix in RuleTable && |suffix| > MaxSuffixLength ==> suffix == "くありませんでした"
  {
  }
}
