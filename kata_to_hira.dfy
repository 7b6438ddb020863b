/**
  Katakana to hiragana normalisation (src/kata_to_hira.rs).
  Every character with a code point in 0x30A1..0x30F6 is moved down by 0x60 into the
  hiragana block; every other character is kept as it is.
*/
module KataToHira {

  import opened Wrappers

  /** `char::from_u32`: the character with scalar value `n`, or `None` for surrogates and values past 0x10FFFF. */
  function FromU32(n: int): Option<char>
  {
    if 0 <= n < 0xD800 || 0xE000 <= n < 0x11_0000 then Some(n as char) else None
  }

  /** `is_katakana`: the code point lies in 0x30A1..=0x30F6. */
  predicate IsKatakana(c: char)
  {
    0x30A1 <= c as int <= 0x30F6
  }

  /** The hiragana block the converted characters land in. */
  predicate IsHiragana(c: char)
  {
    0x3041 <= c as int <= 0x3096
  }

  /**
    `katakana_char_to_hira`: the code point minus 0x60, falling back to `c` itself when that is not
    a character. The caller never passes a code point below 0x60 (the Rust subtraction would underflow).
  */
  function KatakanaCharToHira(c: char): (h: char)
    requires c as int >= 0x60
    ensures IsKatakana(c) ==> h as int == c as int - 0x60 && IsHiragana(h) && !IsKatakana(h)
  {
    match FromU32(c as int - 0x60)
    case Some(converted) => converted
    case None => c
  }

  /** What `kata_to_hira` pushes for one input character. */
  function ConvertChar(c: char): char
  {
    if IsKatakana(c) then KatakanaCharToHira(c) else c
  }

  /** The string `kata_to_hira` builds, one pushed character per input character. */
  function ToHiragana(s: string): string
  {
    if s == [] then [] else ToHiragana(s[..|s| - 1]) + [ConvertChar(s[|s| - 1])]
  }

  /** `kata_to_hira`: returns the input unchanged when it holds no katakana, otherwise converts it character by character. */
  method KataToHira(kata: string) returns (result: string)
    ensures result == ToHiragana(kata)
  {
    if forall i | 0 <= i < |kata| :: !IsKatakana(kata[i]) {
      NoKatakanaUnchanged(kata);
      return kata;
    }
    result := [];
    for i := 0 to |kata|
      invariant result == ToHiragana(kata[..i])
    {
      assert kata[..i + 1][..i] == kata[..i];
      if IsKatakana(kata[i]) {
        result := result + [KatakanaCharToHira(kata[i])];
      } else {
        result := result + [kata[i]];
      }
    }
    assert kata[..|kata|] == kata;
  }

  /** One output character per input character: katakana moved down by 0x60, everything else kept. */
  lemma {:induction false} ToHiraganaPointwise(s: string)
    ensures |ToHiragana(s)| == |s|
    ensures forall i :: 0 <= i < |s| ==>
      if IsKatakana(s[i]) then ToHiragana(s)[i] as int == s[i] as int - 0x60 else ToHiragana(s)[i] == s[i]
  {
    if s != [] {
      ToHiraganaPointwise(s[..|s| - 1]);
    }
  }

  /** A string without katakana comes back unchanged (the early return of `kata_to_hira`). */
  lemma NoKatakanaUnchanged(s: string)
    requires forall i :: 0 <= i < |s| ==> !IsKatakana(s[i])
    ensures ToHiragana(s) == s
  {
    ToHiraganaPointwise(s);
  }

  /** The output never contains katakana: every converted character is hiragana. */
  lemma OutputHasNoKatakana(s: string)
    ensures forall i :: 0 <= i < |ToHiragana(s)| ==> !IsKatakana(ToHiragana(s)[i])
  {
    ToHiraganaPointwise(s);
  }

  /** Converting twice is the same as converting once. */
  lemma ToHiraganaIdempotent(s: string)
    ensures ToHiragana(ToHiragana(s)) == ToHiragana(s)
  {
    OutputHasNoKatakana(s);
    NoKatakanaUnchanged(ToHiragana(s));
  }

  /** Converting a concatenation converts each part. */
  lemma {:induction false} ToHiraganaConcat(a: string, b: string)
    ensures ToHiragana(a + b) == ToHiragana(a) + ToHiragana(b)
  {
    if b == [] {
      assert a + b == a;
    } else {
      assert (a + b)[..|a + b| - 1] == a + b[..|b| - 1];
      ToHiraganaConcat(a, b[..|b| - 1]);
    }
  }

  /** A row of katakana whose hiragana counterpart is given character by character converts onto it. */
  lemma ConvertedRow(kata: string, hira: string)
    requires |kata| == |hira|
    requires forall i :: 0 <= i < |kata| ==> IsKatakana(kata[i]) && hira[i] as int == kata[i] as int - 0x60
    ensures ToHiragana(kata) == hira
  {
    ToHiraganaPointwise(kata);
  }

  /** Appending such a row to an already converted text. */
  lemma AppendConvertedRow(done: string, converted: string, kata: string, hira: string)
    requires ToHiragana(done) == converted
    requires |kata| == |hira|
    requires forall i :: 0 <= i < |kata| ==> IsKatakana(kata[i]) && hira[i] as int == kata[i] as int - 0x60
    ensures ToHiragana(done + kata) == converted + hira
  {
    ConvertedRow(kata, hira);
    ToHiraganaConcat(done, kata);
  }

  /** The first eight rows of the test row: the unvoiced kana up to ヤ行. */
  lemma ConvertsUnvoicedRows()
    ensures ToHiragana("アイウエオ" + "カキクケコ" + "サシスセソ" + "タチツテト" + "ナニヌネノ" + "ハヒフヘホ" + "マミムメモ" + "ヤユヨ")
         == "あいうえお" + "かきくけこ" + "さしすせそ" + "たちつてと" + "なにぬねの" + "はひふへほ" + "まみむめも" + "やゆよ"
  {
    ConvertedRow("アイウエオ", "あいうえお");
    AppendConvertedRow("アイウエオ", "あいうえお", "カキクケコ", "かきくけこ");
    AppendConvertedRow("アイウエオ" + "カキクケコ", "あいうえお" + "かきくけこ", "サシスセソ", "さしすせそ");
    AppendConvertedRow("アイウエオ" + "カキクケコ" + "サシスセソ", "あいうえお" + "かきくけこ" + "さしすせそ", "タチツテト", "たちつてと");
    AppendConvertedRow("アイウエオ" + "カキクケコ" + "サシスセソ" + "タチツテト", "あいうえお" + "かきくけこ" + "さしすせそ" + "たちつてと", "ナニヌネノ", "なにぬねの");
    AppendConvertedRow("アイウエオ" + "カキクケコ" + "サシスセソ" + "タチツテト" + "ナニヌネノ", "あいうえお" + "かきくけこ" + "さしすせそ" + "たちつてと" + "なにぬねの", "ハヒフヘホ", "はひふへほ");
    AppendConvertedRow("アイウエオ" + "カキクケコ" + "サシスセソ" + "タチツテト" + "ナニヌネノ" + "ハヒフヘホ", "あいうえお" + "かきくけこ" + "さしすせそ" + "たちつてと" + "なにぬねの" + "はひふへほ", "マミムメモ", "まみむめも");
    AppendConvertedRow("アイウエオ" + "カキクケコ" + "サシスセソ" + "タチツテト" + "ナニヌネノ" + "ハヒフヘホ" + "マミムメモ", "あいうえお" + "かきくけこ" + "さしすせそ" + "たちつてと" + "なにぬねの" + "はひふへほ" + "まみむめも", "ヤユヨ", "やゆよ");
  }

  /** The full katakana row of the source's test (written here row by row of the kana table) maps onto the hiragana row. */
  lemma ConvertsKatakanaRow()
    ensures ToHiragana("アイウエオ" + "カキクケコ" + "サシスセソ" + "タチツテト" + "ナニヌネノ" + "ハヒフヘホ" + "マミムメモ" + "ヤユヨ" + "ラリルレロ" + "ワヲン" + "ガギグゲゴ" + "ザジズゼゾ" + "ダヂヅデド" + "バビブベボ" + "パピプペポ")
         == "あいうえお" + "かきくけこ" + "さしすせそ" + "たちつてと" + "なにぬねの" + "はひふへほ" + "まみむめも" + "やゆよ" + "らりるれろ" + "わをん" + "がぎぐげご" + "ざじずぜぞ" + "だぢづでど" + "ばびぶべぼ" + "ぱぴぷぺぽ"
  {
    ConvertsUnvoicedRows();
    AppendConvertedRow("アイウエオ" + "カキクケコ" + "サシスセソ" + "タチツテト" + "ナニヌネノ" + "ハヒフヘホ" + "マミムメモ" + "ヤユヨ", "あいうえお" + "かきくけこ" + "さしすせそ" + "たちつてと" + "なにぬねの" + "はひふへほ" + "まみむめも" + "やゆよ", "ラリルレロ", "らりるれろ");
    AppendConvertedRow("アイウエオ" + "カキクケコ" + "サシスセソ" + "タチツテト" + "ナニヌネノ" + "ハヒフヘホ" + "マミムメモ" + "ヤユヨ" + "ラリルレロ", "あいうえお" + "かきくけこ" + "さしすせそ" + "たちつてと" + "なにぬねの" + "はひふへほ" + "まみむめも" + "やゆよ" + "らりるれろ", "ワヲン", "わをん");
    AppendConvertedRow("アイウエオ" + "カキクケコ" + "サシスセソ" + "タチツテト" + "ナニヌネノ" + "ハヒフヘホ" + "マミムメモ" + "ヤユヨ" + "ラリルレロ" + "ワヲン", "あいうえお" + "かきくけこ" + "さしすせそ" + "たちつてと" + "なにぬねの" + "はひふへほ" + "まみむめも" + "やゆよ" + "らりるれろ" + "わをん", "ガギグゲゴ", "がぎぐげご");
    AppendConvertedRow("アイウエオ" + "カキクケコ" + "サシスセソ" + "タチツテト" + "ナニヌネノ" + "ハヒフヘホ" + "マミムメモ" + "ヤユヨ" + "ラリルレロ" + "ワヲン" + "ガギグゲゴ", "あいうえお" + "かきくけこ" + "さしすせそ" + "たちつてと" + "なにぬねの" + "はひふへほ" + "まみむめも" + "やゆよ" + "らりるれろ" + "わをん" + "がぎぐげご", "ザジズゼゾ", "ざじずぜぞ");
    AppendConvertedRow("アイウエオ" + "カキクケコ" + "サシスセソ" + "タチツテト" + "ナニヌネノ" + "ハヒフヘホ" + "マミムメモ" + "ヤユヨ" + "ラリルレロ" + "ワヲン" + "ガギグゲゴ" + "ザジズゼゾ", "あいうえお" + "かきくけこ" + "さしすせそ" + "たちつてと" + "なにぬねの" + "はひふへほ" + "まみむめも" + "やゆよ" + "らりるれろ" + "わをん" + "がぎぐげご" + "ざじずぜぞ", "ダヂヅデド", "だぢづでど");
    AppendConvertedRow("アイウエオ" + "カキクケコ" + "サシスセソ" + "タチツテト" + "ナニヌネノ" + "ハヒフヘホ" + "マミムメモ" + "ヤユヨ" + "ラリルレロ" + "ワヲン" + "ガギグゲゴ" + "ザジズゼゾ" + "ダヂヅデド", "あいうえお" + "かきくけこ" + "さしすせそ" + "たちつてと" + "なにぬねの" + "はひふへほ" + "まみむめも" + "やゆよ" + "らりるれろ" + "わをん" + "がぎぐげご" + "ざじずぜぞ" + "だぢづでど", "バビブベボ", "ばびぶべぼ");
    AppendConvertedRow("アイウエオ" + "カキクケコ" + "サシスセソ" + "タチツテト" + "ナニヌネノ" + "ハヒフヘホ" + "マミムメモ" + "ヤユヨ" + "ラリルレロ" + "ワヲン" + "ガギグゲゴ" + "ザジズゼゾ" + "ダヂヅデド" + "バビブベボ", "あいうえお" + "かきくけこ" + "さしすせそ" + "たちつてと" + "なにぬねの" + "はひふへほ" + "まみむめも" + "やゆよ" + "らりるれろ" + "わをん" + "がぎぐげご" + "ざじずぜぞ" + "だぢづでど" + "ばびぶべぼ", "パピプペポ", "ぱぴぷぺぽ");
  }
}
