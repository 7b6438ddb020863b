# jp-deinflector in Dafny

A model of the deinflection engine of jp-deinflector, a Rust library. It takes an inflected
Japanese word and lists the dictionary forms it may come from, together with proofs about that
model.

The engine works from a static table. The table maps a suffix of at most seven characters
(`MAX_SUFFIX_LENGTH`) to an ordered list of rules. Each rule gives the kana that replaces the
suffix, the grammatical types the current word must have for the rule to fire (`rules_in`), and
the types of the result (`rules_out`).

- One step (`deinflect_one_iteration`) looks up every capped suffix of a word. It applies every
  rule that may fire, longest suffix first, then in table order.
- `deinflect` starts from the raw input, which carries no types, and runs a worklist. An index
  walks a list that grows while it is walked. A seen-set keeps each (word, types) value from being
  expanded twice.
- `kata_to_hira` turns katakana into hiragana: code point minus 0x60 on the range 0x30A1..=0x30F6.

Modules:

- `Wrappers`: `Option`.
- `DeinflectTypes` (`deinflect_types.dfy`): `RuleType`, `DeinflectionRule` and `DeinflectedWord`, all
  values.
- `DeinflectionRules` (`deinflection_rules.dfy`): `MaxSuffixLength` and the rule table as a
  `map`, with `GetDeinflectionRules` as the lookup.
- `Deinflect` (`deinflect.dfy`): the engine.
  - `CanApplyTo`, `Apply` and `CappedSuffixes` are functions.
  - `DeinflectOneIteration` and `Deinflect` are methods with the source's loops.
  - `SeenWordsTracker` is a class whose method updates its `seen` set.
  - The one-step methods are proved equal to `Successors`, a recursive function. `Successors` is
    characterized by "matches": a suffix length together with a rule position.
  - The `Deinflect` method is proved to leave its list in the state `IsDeinflection` describes.
    That predicate is stated over any step function, so the closure lemmas do not depend on the
    table.
- `DeinflectExamples` (`deinflect_examples.dfy`): the scenarios of the unit tests.
- `KataToHira` (`kata_to_hira.dfy`): the conversion as a method with its loop and early return,
  proved equal to the function `ToHiragana`.

Three points of the code that are easy to misread:

- An empty `rules_in` does not mean "applies to anything". `any` over an empty list is false, so
  such a rule fires only on the raw input (`src/deinflect.rs:43-47`).
- A newly seen entry has all of its successors appended, including ones already in the list. Only
  their later expansion is skipped.
- `src/deinflect.rs:133` reads the table as `DEINFLECTION_RULES.get(suffix)`. The table file
  defines the same lookup as `get_deinflection_rules(suffix)` (`src/deinflection_rules.rs:6`).
  Both are `GetDeinflectionRules` here.

## Model

| member | source | states |
|---|---|---|
| DeinflectTypes.RuleTypeClasses | src/deinflect.rs:25-33 | every type is exactly one of verb and adjective, and only `AdjI` is the adjective |
| DeinflectTypes.WordClasses | src/deinflect.rs:80-86 | a word could be an adjective iff `AdjI` is among its types, and a verb iff some type is not `AdjI`; a typed word is one or the other |
| DeinflectionRules.GetDeinflectionRules | src/deinflect.rs:133 | `None` iff the suffix is not a key; a found list is the declared one and is non-empty; a found key is non-empty and at most seven characters long, except くありませんでした |
| DeinflectionRules.TableWellFormed | src/deinflection_rules.rs:6-3822 | every key is non-empty, has at least one rule, and every rule gives its result at least one type |
| DeinflectionRules.ChauRules | src/deinflection_rules.rs:112-133 | looking up "っちゃう" yields its four godan rules in declared order: う, く, つ, る |
| DeinflectionRules.NaRule | src/deinflection_rules.rs:2002-2007 | the "な" entry has one rule with empty `kana_out`, empty `rules_in`, and result types V1, V5, Vk, Vs, Vz |
| DeinflectionRules.KeysEndOutsideA | src/deinflection_rules.rs:6-3822 | no key ends in あ |
| DeinflectionRules.NoKeyOfOnlyA | src/deinflection_rules.rs:6-3822 | a suffix made of あ alone is absent, so its lookup yields `None` |
| DeinflectionRules.OverlongKey | src/deinflection_rules.rs:2973-2979 | "くありませんでした" is a key of nine characters, over `MAX_SUFFIX_LENGTH` (line 4), and the only key that long |
| Deinflect.CanApplyTo | src/deinflect.rs:43-47 | a rule fires iff the word has no types or shares a type with `rules_in`; an empty `rules_in` never fires on a typed word |
| Deinflect.Apply | src/deinflect.rs:49-58 | `Some` iff the rule may fire; the result is the stem (the word minus `suffixLen` characters) followed by `kana_out` |
| Deinflect.NthSuffix | src/deinflect.rs:114-126 | the i-th enumerated suffix has `min(7, |word|) - i` characters and is a suffix of the word |
| Deinflect.CappedSuffixes | src/deinflect.rs:114-126 | `min(7, |word|)` suffixes, the i-th of length `min(7, |word|) - i`, each a suffix of the word; none for the empty word |
| Deinflect.CappedSuffixesExactly | src/deinflect.rs:114-126 | a string is enumerated iff it is a non-empty suffix of the word of at most seven characters |
| Deinflect.OverlongKeyUnreachable | src/deinflect.rs:114-126 | the nine-character key is never among the enumerated suffixes, so its rule is unreachable |
| Deinflect.DeinflectOneIteration | src/deinflect.rs:129-143 | the nested loops return exactly `Successors(w)` |
| Deinflect.ApplySuffix | src/deinflect.rs:133-139 | one outer iteration appends exactly the results of the looked-up suffix's rules, and nothing for an absent suffix |
| Deinflect.ApplyRules | src/deinflect.rs:134-138 | the inner loop appends, in list order, one result per rule that may fire |
| Deinflect.SuccessorsCharacterized | src/deinflect.rs:129-143 | each successor is what some match produces (the stem plus `kana_out`, typed `rules_out`); successors run longest suffix first, then in table order; every match yields one |
| Deinflect.SuccessorsSound | src/deinflect.rs:129-143 | every successor is produced by some match |
| Deinflect.SuccessorsComplete | src/deinflect.rs:129-143 | every match produces a successor |
| Deinflect.SuccessorsFirstTwo | src/deinflect.rs:129-143 | the first two successors come from matches, the first in the earlier order |
| Deinflect.NoMatchNoSuccessors | src/deinflect.rs:129-143 | a word without a match has no successor |
| Deinflect.UniqueMatchSuccessor | src/deinflect.rs:129-143 | a word with exactly one match has exactly that match's successor |
| Deinflect.SuccessorsHaveTypes | src/deinflect.rs:136 | every successor carries at least one type |
| Deinflect.NaDeinflects | src/deinflection_rules.rs:2002-2007 | on a raw input ending in な, one successor is the word without its final な, typed V1, V5, Vk, Vs, Vz |
| Deinflect.SeenWordsTracker.constructor | src/deinflect.rs:95-99 | the tracker starts with no seen keys |
| Deinflect.SeenWordsTracker.CheckIsNew | src/deinflect.rs:102-108 | returns whether the word's key was absent, and adds the key |
| Deinflect.Key | src/deinflect.rs:103-106 | the seen key of a word: its characters and its types; `KeyIdentifies` states that equal keys mean equal values |
| Deinflect.KeyIdentifies | src/deinflect.rs:103-106 | two words have the same key iff they are the same (word, types) value |
| Deinflect.KeysOfMembers | src/deinflect.rs:159-161 | a word's key is among the keys of a list iff the word is in the list |
| Deinflect.VisitStep | src/deinflect.rs:159-165 | visiting entry i keeps the run's shape: nothing is appended for a repeated entry, all its successors for a new one; the seen keys grow by its key |
| Deinflect.Deinflect | src/deinflect.rs:153-169 | the list is the first step followed by the successors of each visited entry not visited before, in visiting order; visiting stops at the end of the list or when the budget runs out |
| Deinflect.DeinflectStartsWithFirstStep | src/deinflect.rs:154-155 | the result begins with exactly the successors of the raw input |
| Deinflect.DeinflectProvenance | src/deinflect.rs:158-166 | every entry after the first step is a successor of a strictly earlier entry |
| Deinflect.DeinflectClosed | src/deinflect.rs:158-166 | when every entry was visited, every successor of every entry is in the result |
| Deinflect.DeinflectClosedMember | src/deinflect.rs:158-166 | when every entry was visited, a successor of an entry is an entry |
| Deinflect.Expansions | src/deinflect.rs:158-166 | what the loop appends while visiting a sequence of entries; `ExpandedOnce` and `VisitStep` state what that is |
| Deinflect.ExpandedOnce | src/deinflect.rs:159-164 | the appended entries are the successors of the distinct visited values, each value exactly once, in order of first visit: `Expansions == Flatten(Dedup(visited))`, where `Dedup` keeps every visited value, and each only once |
| Deinflect.DeinflectExpandsEachOnce | src/deinflect.rs:153-169 | the result of `deinflect` is the first step followed by the successors of each distinct visited entry, once each, in order of first visit |
| Deinflect.RunWithin | src/deinflect.rs:153-169 | every entry of a run lies in any set that holds the initial entries and is closed under the step |
| Deinflect.DeinflectWithin | src/deinflect.rs:153-169 | every entry of `deinflect` lies in any set that holds the first step and is closed under `Successors` |
| Deinflect.DeinflectTwoLevels | src/deinflect.rs:153-169 | if the first step is one word whose one successor has none, every entry is one of those two words |
| Deinflect.DeinflectEntriesTyped | src/deinflect.rs:43-47 | every entry has a type, so only rules with a non-empty `rules_in` fire on entries |
| Deinflect.NoFirstStepNoResults | src/deinflect.rs:153-169 | if the raw input has no successor, the result is empty for any budget |
| Deinflect.DeinflectStopsAtFinalFirstStep | src/deinflect.rs:153-169 | if no first-step entry has a successor, the result is exactly the first step |
| DeinflectExamples.OnlyADeinflectsToNothing | src/deinflect.rs:655-668 | a word made of あ alone, the empty word included, deinflects to nothing |
| DeinflectExamples.EmptyWordHasNoDeinflections | src/deinflect.rs:657-659 | "" deinflects to nothing |
| DeinflectExamples.LongWordHasNoDeinflections | src/deinflect.rs:665-667 | a thousand あ deinflect to nothing |
| DeinflectExamples.PastTenseDeinflects | src/deinflection_rules.rs:2419-2424 | any word ending in た yields, in the first step, the ichidan verb with た replaced by る |
| DeinflectExamples.PastTenseFirstStep | src/deinflection_rules.rs:2419-2424 | a raw input ending in た has the successor with た replaced by る, typed V1 |
| DeinflectExamples.ShinjitaDeinflectsToShinjiru | src/deinflect.rs:199-252 | "信じた" gives "信じる" (V1), by the た rule, and "信ずる" (Vz), by the じた rule (src/deinflection_rules.rs:2486-2492) |
| DeinflectExamples.ShinjitaAsZuruVerb | src/deinflection_rules.rs:2486-2492 | the raw "信じた" has the successor "信ずる" (Vz) |
| DeinflectExamples.ChainedInflections | src/deinflect.rs:670-673 | a finished run on "食べさせられなかった" contains "食べる" (V1) |
| DeinflectExamples.FirstStepOfChain | src/deinflection_rules.rs:2412-2417 | かった gives the i-adjective "食べさせられない" |
| DeinflectExamples.SecondStepOfChain | src/deinflection_rules.rs:2183-2188 | ない on an i-adjective gives the ichidan "食べさせられる" |
| DeinflectExamples.ThirdStepOfChain | src/deinflection_rules.rs:2363-2368 | られる on an ichidan gives "食べさせる" (V5, V1) |
| DeinflectExamples.FourthStepOfChain | src/deinflection_rules.rs:1700-1715 | させる on a possible ichidan gives "食べる" |
| DeinflectExamples.ShirakeruOnlyMatch | src/deinflection_rules.rs:3210-3215 | on "白ける" the only match is the ける rule |
| DeinflectExamples.ShirakeruFirstStep | src/deinflection_rules.rs:3210-3215 | "白ける" has the single successor "白く" (V5) |
| DeinflectExamples.ShirakuIsFinal | src/deinflection_rules.rs:1693-1698 | "白く" as a godan verb has no successor: the く rule fires only on the raw input |
| DeinflectExamples.ShirakeruIsNotShiroi | src/deinflect.rs:651 | "白ける" deinflects to "白く" alone, never to "白い" |
| DeinflectExamples.TobokettaOnlyMatch | src/deinflection_rules.rs:2419-2424 | on "とぼけた" the only match is the た rule |
| DeinflectExamples.TobokettaLongerSuffixes | src/deinflection_rules.rs:6-3822 | no suffix of "とぼけた" longer than た is a key, so none gives a match |
| DeinflectExamples.TobokettaFirstStep | src/deinflection_rules.rs:2419-2424 | "とぼけた" has the single successor "とぼける" (V1) |
| DeinflectExamples.TobokeruOnlyMatch | src/deinflection_rules.rs:3210-3215 | on "とぼける" (V1) the only match is the ける rule |
| DeinflectExamples.TobokeruOtherSuffixes | src/deinflection_rules.rs:6-3822 | of the suffixes of "とぼける", only ける is a key |
| DeinflectExamples.TobokeruStep | src/deinflection_rules.rs:3210-3215 | "とぼける" (V1) has the single successor "とぼく" (V5) |
| DeinflectExamples.TobokuIsFinal | src/deinflection_rules.rs:1693-1698 | "とぼく" (V5) has no successor |
| DeinflectExamples.TobokettaIsNotTobu | src/deinflect.rs:652 | every entry of a run on "とぼけた" is "とぼける" (V1) or "とぼく" (V5), so none is "とぶ" |
| DeinflectExamples.SuffixEnumeration | src/deinflect.rs:701-732 | the capped suffixes of "走らされている" and "食べさせられなかった" are the seven listed in the test |
| KataToHira.IsKatakana | src/kata_to_hira.rs:24-27 | the code point lies in 0x30A1..=0x30F6; `KatakanaCharToHira` and `OutputHasNoKatakana` state what holds on that range |
| KataToHira.KatakanaCharToHira | src/kata_to_hira.rs:29-31 | on katakana the result is the code point minus 0x60, a hiragana character, so the fallback is never taken |
| KataToHira.KataToHira | src/kata_to_hira.rs:3-19 | the early return and the loop both yield `ToHiragana(kata)` |
| KataToHira.ToHiraganaPointwise | src/kata_to_hira.rs:10-18 | one output character per input character: katakana moved down by 0x60, everything else unchanged |
| KataToHira.NoKatakanaUnchanged | src/kata_to_hira.rs:5-7 | a string without katakana comes back unchanged |
| KataToHira.OutputHasNoKatakana | src/kata_to_hira.rs:24-31 | the output contains no katakana |
| KataToHira.ToHiraganaIdempotent | src/kata_to_hira.rs:1-31 | converting twice equals converting once |
| KataToHira.ToHiraganaConcat | src/kata_to_hira.rs:11-17 | converting a concatenation converts each part |
| KataToHira.ConvertedRow | src/kata_to_hira.rs:12-13 | a katakana row whose characters are each 0x60 above the given row converts onto that row |
| KataToHira.AppendConvertedRow | src/kata_to_hira.rs:11-17 | appending such a row to an already converted text appends its conversion |
| KataToHira.ConvertsUnvoicedRows | src/kata_to_hira.rs:38-43 | the test row up to ヤユヨ converts onto its hiragana |
| KataToHira.ConvertsKatakanaRow | src/kata_to_hira.rs:38-43 | the full katakana row of the test converts onto the given hiragana row |

## Left out

- DeinflectionRules.RuleTable: 18 of the table's entries are transcribed, in source order, with their source lines. With the full table, the runs of the scenarios reach words from 白ける, とぼけた, 信じた, 食べさせられなかった and the あ-only words. The 18 entries are every key that is a suffix of one of those words, plus ければ, っちゃう, な and くありませんでした, which the table lemmas and `NaDeinflects` are about. So a run of the scenarios on this table is the same as on the full table. Only facts about such runs follow from the lemmas about whole runs (`ShirakeruIsNotShiroi`, `TobokettaIsNotTobu` and the edge cases); nothing follows for other words. A map literal of all entries is beyond what the verifier handles.
- Deinflect.Deinflect: takes a `fuel` bound on the number of visited entries and returns how many it visited. The source loops until the list is exhausted and guarantees no termination. The run finished iff `processed == |deinflections|`, and the closure lemmas require that.
- Deinflect.SeenWordsTracker.CheckIsNew: the key is the (word, types) value. The source keys on a hash of the word's bytes and the address of the `rules_out` slice. Hash collisions that would merge two keys are not modelled, and neither are equal slices at two addresses that would keep two keys apart.
- Deinflect.CappedSuffixes: works on characters. The source slices UTF-8 bytes in steps of three, which matches only for words of three-byte characters. It drops offsets that are not character boundaries, and that is not modelled.
- Deinflect.Apply: requires `suffixLen <= |w.word|`, the source's `debug_assert`. Every caller passes a suffix of the word.
- KataToHira.KatakanaCharToHira: requires a code point of at least 0x60. The source subtracts without a check and is only ever called on katakana.
- Deinflect.ApplySuffix: the body of the outer loop of `deinflect_one_iteration`, written as a method of its own. `ApplyRules` is the inner loop, written the same way.
- The Rust modules `deinflect` and `deinflection_rules` import each other. Here the types sit in a module of their own, which both use.
- The benchmark harness, the proptest machinery, and the disabled round-trip test against another crate are not part of this model.
- The second chained test case ("走らされていました") needs table entries that are not transcribed.
- DeinflectExamples.ChainedInflections: holds for a finished run (`processed == |deinflections|`). No fuel bound is computed for which the run on "食べさせられなかった" finishes; that needs the exact successors of the 14 entries of the run.
