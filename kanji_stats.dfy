/**
 * Japanese character statistics: per-file classification of characters into
 * hiragana, katakana and kanji, the aggregation of those counts over several
 * files, the top-kanji coverage series (how much of all kanji text the n most
 * frequent kanji make up), the lookup of the rank-250 point of that series,
 * and the injection of a style block before the closing head tag of the
 * generated page.
 */
module KanjiStats {

  datatype Option<T> = None | Some(value: T)

  const HIRAGANA_START: int := 0x3040
  const HIRAGANA_END: int := 0x309F
  const KATAKANA_START: int := 0x30A0
  const KATAKANA_END: int := 0x30FF
  const KANJI_START: int := 0x4E00
  const KANJI_END: int := 0x9FFF

  // ---------------------------------------------------------------------------
  // Classification of one character

  datatype Script = Hiragana | Katakana | Kanji | Other

  /** The range tests, applied in order. */
  function Classify(c: char): Script
  {
    var code := c as int;
    if HIRAGANA_START <= code <= HIRAGANA_END then Hiragana
    else if KATAKANA_START <= code <= KATAKANA_END then Katakana
    else if KANJI_START <= code <= KANJI_END then Kanji
    else Other
  }

  /**
   * The three ranges are disjoint, so each category holds exactly the
   * characters of its own range, whatever the order of the tests, and
   * everything else is in none of them.
   */
  lemma ClassifyRanges(c: char)
    ensures Classify(c) == Hiragana <==> HIRAGANA_START <= c as int <= HIRAGANA_END
    ensures Classify(c) == Katakana <==> KATAKANA_START <= c as int <= KATAKANA_END
    ensures Classify(c) == Kanji <==> KANJI_START <= c as int <= KANJI_END
    ensures Classify(c) == Other <==>
              !(HIRAGANA_START <= c as int <= HIRAGANA_END || KATAKANA_START <= c as int <= KATAKANA_END
                || KANJI_START <= c as int <= KANJI_END)
  {
  }

  /** The characters of `text` in category `s`, in text order. */
  function Select(text: string, s: Script): (r: string)
    ensures |r| <= |text|
    ensures forall c :: c in r ==> Classify(c) == s
  {
    if text == [] then []
    else (if Classify(text[0]) == s then [text[0]] else []) + Select(text[1..], s)
  }

  /** Selection keeps every occurrence of a character of the category and no other character. */
  lemma {:induction false} SelectCount(text: string, s: Script, c: char)
    ensures multiset(Select(text, s))[c] == if Classify(c) == s then multiset(text)[c] else 0
    decreases |text|
  {
    if text != [] {
      var h := if Classify(text[0]) == s then [text[0]] else [];
      assert Select(text, s) == h + Select(text[1..], s);
      assert text == [text[0]] + text[1..];
      assert multiset(text) == multiset{text[0]} + multiset(text[1..]);
      SelectCount(text[1..], s, c);
    }
  }

  /** The four categories split the text: each character lands in exactly one of them. */
  lemma Partition(text: string)
    ensures multiset(Select(text, Hiragana)) + multiset(Select(text, Katakana))
          + multiset(Select(text, Kanji)) + multiset(Select(text, Other)) == multiset(text)
  {
    forall c
      ensures (multiset(Select(text, Hiragana)) + multiset(Select(text, Katakana))
             + multiset(Select(text, Kanji)) + multiset(Select(text, Other)))[c] == multiset(text)[c]
    {
      SelectCount(text, Hiragana, c);
      SelectCount(text, Katakana, c);
      SelectCount(text, Kanji, c);
      SelectCount(text, Other, c);
    }
  }

  lemma ConcatAssoc(x: string, y: string, z: string)
    ensures x + (y + z) == (x + y) + z
  {
  }

  /** Selecting from two texts one after the other is selecting from their concatenation. */
  lemma {:induction false} SelectAppend(a: string, b: string, s: Script)
    ensures Select(a + b, s) == Select(a, s) + Select(b, s)
    decreases |a|
  {
    if a == [] {
      assert a + b == b;
    } else {
      var h := if Classify(a[0]) == s then [a[0]] else [];
      assert (a + b)[0] == a[0];
      assert (a + b)[1..] == a[1..] + b;
      assert Select(a + b, s) == h + Select(a[1..] + b, s);
      SelectAppend(a[1..], b, s);
      ConcatAssoc(h, Select(a[1..], s), Select(b, s));
    }
  }

  // ---------------------------------------------------------------------------
  // Per-text counts and their aggregation

  /**
   * The result of classifying one text (or the totals over several): the
   * number of hiragana, the number of katakana, the frequency of each kanji,
   * and the total number of Japanese characters.
   */
  datatype Counts = Counts(hiragana: nat, katakana: nat, kanji: multiset<char>, totalJapanese: nat)

  /** The total is the sum of the three categories. */
  predicate Consistent(t: Counts)
  {
    t.totalJapanese == t.hiragana + t.katakana + |t.kanji|
  }

  /** What classifying `text` yields. */
  function Tally(text: string): Counts
  {
    var h := |Select(text, Hiragana)|;
    var k := |Select(text, Katakana)|;
    var j := multiset(Select(text, Kanji));
    Counts(h, k, j, h + k + |j|)
  }

  /**
   * Every kanji key holds its number of occurrences in the text; a character
   * outside the kanji range has no key.
   */
  lemma TallyKanji(text: string, c: char)
    ensures Tally(text).kanji[c] == if Classify(c) == Kanji then multiset(text)[c] else 0
  {
    SelectCount(text, Kanji, c);
  }

  /**
   * The total counts every Japanese character once and nothing else: it is
   * the length of the text less its other characters.
   */
  lemma TallyTotal(text: string)
    ensures Consistent(Tally(text))
    ensures Tally(text).totalJapanese == |text| - |Select(text, Other)|
  {
    Partition(text);
    assert |multiset(text)| == |text|;
  }

  /** The total is zero exactly when no character of the text lies in any of the three ranges. */
  lemma TallyNone(text: string)
    ensures Tally(text).totalJapanese == 0 <==> forall i :: 0 <= i < |text| ==> Classify(text[i]) == Other
  {
    if Tally(text).totalJapanese == 0 {
      forall i | 0 <= i < |text|
        ensures Classify(text[i]) == Other
      {
        JapaneseSelected(text, i);
      }
    }
    if forall i :: 0 <= i < |text| ==> Classify(text[i]) == Other {
      NothingSelected(text, Hiragana);
      NothingSelected(text, Katakana);
      NothingSelected(text, Kanji);
    }
  }

  /** A Japanese character lands in the selection of its own category. */
  lemma JapaneseSelected(text: string, i: nat)
    requires i < |text|
    ensures text[i] in Select(text, Classify(text[i]))
  {
    var c := text[i];
    assert c in multiset(text);
    SelectCount(text, Classify(c), c);
    assert c in multiset(Select(text, Classify(c)));
  }

  /** A text of other characters only has nothing to select in any Japanese category. */
  lemma {:induction false} NothingSelected(text: string, s: Script)
    requires s != Other
    requires forall i :: 0 <= i < |text| ==> Classify(text[i]) == Other
    ensures Select(text, s) == []
    decreases |text|
  {
    if text != [] {
      assert forall i :: 0 <= i < |text[1..]| ==> text[1..][i] == text[i + 1];
      NothingSelected(text[1..], s);
    }
  }

  /**
   * The counting loop's invariant: the counts gathered before `i`, added to
   * what the rest of the text holds, give the counts of the whole text.
   */
  predicate CountedUpTo(text: string, i: nat, hiragana: nat, katakana: nat, kanji: multiset<char>)
    requires i <= |text|
  {
    && hiragana + |Select(text[i..], Hiragana)| == |Select(text, Hiragana)|
    && katakana + |Select(text[i..], Katakana)| == |Select(text, Katakana)|
    && kanji + multiset(Select(text[i..], Kanji)) == multiset(Select(text, Kanji))
  }

  lemma UnionAssoc(x: multiset<char>, y: multiset<char>, z: multiset<char>)
    ensures x + (y + z) == (x + y) + z
  {
  }

  /** Counting the character at `i` into its category keeps the invariant. */
  lemma CountStep(text: string, i: nat, hiragana: nat, katakana: nat, kanji: multiset<char>)
    requires i < |text| && CountedUpTo(text, i, hiragana, katakana, kanji)
    ensures Classify(text[i]) == Hiragana ==> CountedUpTo(text, i + 1, hiragana + 1, katakana, kanji)
    ensures Classify(text[i]) == Katakana ==> CountedUpTo(text, i + 1, hiragana, katakana + 1, kanji)
    ensures Classify(text[i]) == Kanji ==> CountedUpTo(text, i + 1, hiragana, katakana, kanji + multiset{text[i]})
    ensures Classify(text[i]) == Other ==> CountedUpTo(text, i + 1, hiragana, katakana, kanji)
  {
    assert text[i..][1..] == text[i + 1..];
    if Classify(text[i]) == Kanji {
      var rest := multiset(Select(text[i + 1..], Kanji));
      assert multiset(Select(text[i..], Kanji)) == multiset{text[i]} + rest;
      UnionAssoc(kanji, multiset{text[i]}, rest);
    }
  }

  /** Once the whole text is counted, the counts are those of the text. */
  lemma CountDone(text: string, hiragana: nat, katakana: nat, kanji: multiset<char>)
    requires CountedUpTo(text, |text|, hiragana, katakana, kanji)
    ensures Counts(hiragana, katakana, kanji, hiragana + katakana + |kanji|) == Tally(text)
  {
    assert text[|text|..] == [];
  }

  /**
   * Counts the characters of `text` one by one: one more hiragana, one more
   * katakana, or one more occurrence of the kanji; the total is taken at the end.
   */
  method ClassifyAndCountChars(text: string) returns (r: Counts)
    ensures r == Tally(text)
  {
    var hiraganaCount := 0;
    var katakanaCount := 0;
    var kanjiCounts: multiset<char> := multiset{};
    var i := 0;
    while i < |text|
      invariant 0 <= i <= |text|
      invariant CountedUpTo(text, i, hiraganaCount, katakanaCount, kanjiCounts)
    {
      var ch := text[i];
      CountStep(text, i, hiraganaCount, katakanaCount, kanjiCounts);
      ClassifyRanges(ch);
      var code := ch as int;
      if HIRAGANA_START <= code <= HIRAGANA_END {
        hiraganaCount := hiraganaCount + 1;
      } else if KATAKANA_START <= code <= KATAKANA_END {
        katakanaCount := katakanaCount + 1;
      } else if KANJI_START <= code <= KANJI_END {
        kanjiCounts := kanjiCounts + multiset{ch};
      }
      i := i + 1;
    }
    CountDone(text, hiraganaCount, katakanaCount, kanjiCounts);
    var totalJapanese := hiraganaCount + katakanaCount + |kanjiCounts|;
    r := Counts(hiraganaCount, katakanaCount, kanjiCounts, totalJapanese);
  }

  /** One file's counts added to the running totals, field by field; kanji frequencies add up. */
  function Add(total: Counts, file: Counts): (r: Counts)
    ensures Consistent(total) && Consistent(file) ==> Consistent(r)
  {
    Counts(total.hiragana + file.hiragana, total.katakana + file.katakana,
           total.kanji + file.kanji, total.totalJapanese + file.totalJapanese)
  }

  /** Adding the counts of two texts gives the counts of the texts read as one. */
  lemma TallyAppend(a: string, b: string)
    ensures Tally(a + b) == Add(Tally(a), Tally(b))
  {
    SelectAppend(a, b, Hiragana);
    SelectAppend(a, b, Katakana);
    SelectAppend(a, b, Kanji);
    var ka, kb := multiset(Select(a, Kanji)), multiset(Select(b, Kanji));
    assert multiset(Select(a + b, Kanji)) == ka + kb;
    assert |ka + kb| == |ka| + |kb|;
  }

  // ---------------------------------------------------------------------------
  // Input files

  /**
   * What one named file yields: it does not exist, it cannot be read (bytes
   * that are not UTF-8 or any other read error), or its whole content.
   */
  datatype TextFile = Missing | Unreadable | Readable(content: string)

  /** The texts of the readable files, in order, read as one. */
  function ReadableText(files: seq<TextFile>): string
  {
    if files == [] then ""
    else
      var init := ReadableText(files[..|files| - 1]);
      match files[|files| - 1]
      case Readable(content) => init + content
      case _ => init
  }

  /** One more file adds its content when it is readable and nothing otherwise. */
  lemma ReadableStep(files: seq<TextFile>, i: nat)
    requires i < |files|
    ensures files[i].Readable? ==> ReadableText(files[..i + 1]) == ReadableText(files[..i]) + files[i].content
    ensures !files[i].Readable? ==> ReadableText(files[..i + 1]) == ReadableText(files[..i])
  {
    assert files[..i + 1][..i] == files[..i];
  }

  /** Adding a readable file's counts to those of the files before it gives the counts up to it. */
  lemma AggregateStep(files: seq<TextFile>, i: nat, total: Counts, file: Counts)
    requires i < |files| && files[i].Readable?
    requires total == Tally(ReadableText(files[..i])) && file == Tally(files[i].content)
    ensures Add(total, file) == Tally(ReadableText(files[..i + 1]))
  {
    ReadableStep(files, i);
    TallyAppend(ReadableText(files[..i]), files[i].content);
  }

  /** The readable text of two file lists one after the other. */
  lemma {:induction false} ReadableTextAppend(a: seq<TextFile>, b: seq<TextFile>)
    ensures ReadableText(a + b) == ReadableText(a) + ReadableText(b)
    decreases |b|
  {
    if b == [] {
      assert a + b == a;
    } else {
      var init := b[..|b| - 1];
      assert (a + b)[..|a + b| - 1] == a + init;
      assert (a + b)[|a + b| - 1] == b[|b| - 1];
      ReadableTextAppend(a, init);
      var tail := if b[|b| - 1].Readable? then b[|b| - 1].content else "";
      assert ReadableText(b) == ReadableText(init) + tail;
      assert ReadableText(a + b) == ReadableText(a + init) + tail;
      ConcatAssoc(ReadableText(a), ReadableText(init), tail);
    }
  }

  /** Taking the last file off one list and a copy of it off the other keeps the two lists a reordering of each other. */
  lemma RemoveMatched(files: seq<TextFile>, others: seq<TextFile>, j: nat)
    requires files != [] && j < |others| && others[j] == files[|files| - 1]
    requires multiset(files) == multiset(others)
    ensures multiset(files[..|files| - 1]) == multiset(others[..j] + others[j + 1..])
  {
    var n := |files| - 1;
    assert files == files[..n] + [files[n]];
    assert others == others[..j] + [others[j]] + others[j + 1..];
    forall y
      ensures multiset(files[..n])[y] == multiset(others[..j] + others[j + 1..])[y]
    {
      assert multiset(files)[y] == multiset(files[..n])[y] + multiset{files[n]}[y];
      assert multiset(others)[y] == multiset(others[..j])[y] + multiset{others[j]}[y] + multiset(others[j + 1..])[y];
    }
  }

  /** The characters read do not depend on the order of the files, only on which files are given how often. */
  lemma {:induction false} ReadableCharsOrderFree(files: seq<TextFile>, others: seq<TextFile>)
    requires multiset(files) == multiset(others)
    ensures multiset(ReadableText(files)) == multiset(ReadableText(others))
    decreases |files|
  {
    if files == [] {
      assert |others| == |multiset(others)| == 0;
    } else {
      var n := |files| - 1;
      var x := files[n];
      assert files == files[..n] + [x];
      assert x in multiset(others);
      var j :| 0 <= j < |others| && others[j] == x;
      var before, after := others[..j], others[j + 1..];
      assert others == before + [x] + after;
      var rest := before + after;
      RemoveMatched(files, others, j);
      ReadableCharsOrderFree(files[..n], rest);
      ReadableTextAppend(files[..n], [x]);
      ReadableTextAppend(before + [x], after);
      ReadableTextAppend(before, [x]);
      ReadableTextAppend(before, after);
      var rb, rx, ra := ReadableText(before), ReadableText([x]), ReadableText(after);
      assert ReadableText(others) == rb + rx + ra;
      assert ReadableText(rest) == rb + ra;
      assert multiset(ReadableText(others)) == multiset(rb) + multiset(rx) + multiset(ra);
    }
  }

  /** The counts of a text depend only on how often each character occurs in it. */
  lemma TallyOfMultiset(t: string, u: string)
    requires multiset(t) == multiset(u)
    ensures Tally(t) == Tally(u)
  {
    forall s: Script
      ensures multiset(Select(t, s)) == multiset(Select(u, s))
    {
      forall c
        ensures multiset(Select(t, s))[c] == multiset(Select(u, s))[c]
      {
        SelectCount(t, s, c);
        SelectCount(u, s, c);
      }
    }
    assert |Select(t, Hiragana)| == |multiset(Select(t, Hiragana))|;
    assert |Select(u, Hiragana)| == |multiset(Select(u, Hiragana))|;
    assert |Select(t, Katakana)| == |multiset(Select(t, Katakana))|;
    assert |Select(u, Katakana)| == |multiset(Select(u, Katakana))|;
  }

  /**
   * The totals do not depend on the order in which the files are named: any
   * reordering of the same files gives the same counts.
   */
  lemma AggregationOrderFree(files: seq<TextFile>, others: seq<TextFile>)
    requires multiset(files) == multiset(others)
    ensures Tally(ReadableText(files)) == Tally(ReadableText(others))
  {
    ReadableCharsOrderFree(files, others);
    TallyOfMultiset(ReadableText(files), ReadableText(others));
  }

  const EMPTY_COUNTS := Counts(0, 0, multiset{}, 0)

  lemma EmptyTally()
    ensures Tally("") == EMPTY_COUNTS
  {
  }

  /**
   * The totals over all files, files that are missing or unreadable being
   * skipped: they are the counts of all readable text read as one, so they
   * stay consistent.
   */
  method AggregateFiles(files: seq<TextFile>) returns (total: Counts)
    ensures total == Tally(ReadableText(files))
    ensures Consistent(total)
  {
    total := EMPTY_COUNTS;
    var i := 0;
    while i < |files|
      invariant 0 <= i <= |files|
      invariant total == Tally(ReadableText(files[..i]))
    {
      ReadableStep(files, i);
      if files[i].Readable? {
        var fileResults := ClassifyAndCountChars(files[i].content);
        ghost var before := total;
        total := total.(hiragana := total.hiragana + fileResults.hiragana);
        total := total.(katakana := total.katakana + fileResults.katakana);
        total := total.(kanji := total.kanji + fileResults.kanji);
        total := total.(totalJapanese := total.totalJapanese + fileResults.totalJapanese);
        assert total == Add(before, fileResults);
        AggregateStep(files, i, before, fileResults);
      }
      i := i + 1;
    }
    assert files[..i] == files;
    TallyTotal(ReadableText(files));
  }

  // ---------------------------------------------------------------------------
  // Ranking of kanji by frequency

  /** One kanji and its number of occurrences. */
  datatype Entry = Entry(kanji: char, count: nat)

  /** The distinct kanji of a frequency map. */
  function Distinct(m: multiset<char>): set<char>
  {
    set c | c in m
  }

  predicate DistinctKeys(r: seq<Entry>)
  {
    forall i, j :: 0 <= i < j < |r| ==> r[i].kanji != r[j].kanji
  }

  predicate NonIncreasing(r: seq<Entry>)
  {
    forall i, j :: 0 <= i < j < |r| ==> r[i].count >= r[j].count
  }

  /** `r` lists every kanji of `m` exactly once, with its frequency. */
  predicate Enumerates(m: multiset<char>, r: seq<Entry>)
  {
    DistinctKeys(r)
    && (forall i :: 0 <= i < |r| ==> r[i].kanji in m && r[i].count == m[r[i].kanji])
    && (forall c :: c in m ==> exists i :: 0 <= i < |r| && r[i].kanji == c)
  }

  /** `r` enumerates `m` from the most to the least frequent kanji; ties in any order. */
  predicate IsRanking(m: multiset<char>, r: seq<Entry>)
  {
    Enumerates(m, r) && NonIncreasing(r)
  }

  /** The occurrences covered by the first `k` entries. */
  function PrefixSum(r: seq<Entry>, k: nat): nat
    requires k <= |r|
  {
    if k == 0 then 0 else PrefixSum(r, k - 1) + r[k - 1].count
  }

  lemma {:induction false} PrefixSumMonotone(r: seq<Entry>, k: nat, l: nat)
    requires k <= l <= |r|
    ensures PrefixSum(r, k) <= PrefixSum(r, l)
    decreases l
  {
    if k < l {
      PrefixSumMonotone(r, k, l - 1);
    }
  }

  lemma {:induction false} PrefixSumOfPrefix(r: seq<Entry>, n: nat, k: nat)
    requires k <= n <= |r|
    ensures PrefixSum(r[..n], k) == PrefixSum(r, k)
    decreases k
  {
    if k > 0 {
      PrefixSumOfPrefix(r, n, k - 1);
    }
  }

  /** `n` copies of `c`. */
  function Copies(c: char, n: nat): (r: multiset<char>)
    ensures |r| == n
    ensures r[c] == n
    ensures forall d :: d != c ==> r[d] == 0
  {
    if n == 0 then multiset{} else Copies(c, n - 1) + multiset{c}
  }

  /** Removing the last entry of an enumeration enumerates the map without that kanji. */
  lemma EnumerationInit(m: multiset<char>, r: seq<Entry>)
    requires Enumerates(m, r) && r != []
    ensures Enumerates(m[r[|r| - 1].kanji := 0], r[..|r| - 1])
  {
    var n := |r| - 1;
    var k := r[n].kanji;
    var init := r[..n];
    var rest := m[k := 0];
    forall c | c in rest
      ensures exists i :: 0 <= i < |init| && init[i].kanji == c
    {
      var i :| 0 <= i < |r| && r[i].kanji == c;
      assert init[i].kanji == c;
    }
    forall i | 0 <= i < |init|
      ensures init[i].kanji in rest && init[i].count == rest[init[i].kanji]
    {
      assert init[i] == r[i];
    }
  }

  /** A frequency map is its kanji `k` with all occurrences taken out, plus those occurrences. */
  lemma SplitOff(m: multiset<char>, k: char)
    requires k in m
    ensures m == m[k := 0] + Copies(k, m[k])
    ensures |m| == |m[k := 0]| + m[k]
    ensures |Distinct(m)| == |Distinct(m[k := 0])| + 1
  {
    var rest := m[k := 0];
    assert forall c :: m[c] == (rest + Copies(k, m[k]))[c];
    assert Distinct(m) == Distinct(rest) + {k};
  }

  /**
   * An enumeration of a frequency map accounts for all of it: its counts add up
   * to the number of kanji occurrences, and it has one entry per distinct kanji.
   */
  lemma {:induction false} EnumerationTotals(m: multiset<char>, r: seq<Entry>)
    requires Enumerates(m, r)
    ensures PrefixSum(r, |r|) == |m|
    ensures |r| == |Distinct(m)|
    decreases |r|
  {
    if r == [] {
      assert Distinct(m) == {};
    } else {
      var n := |r| - 1;
      var k := r[n].kanji;
      var rest := m[k := 0];
      EnumerationInit(m, r);
      EnumerationTotals(rest, r[..n]);
      assert k in m && r[n].count == m[k];
      TotalsStep(m, r, n, k, rest);
    }
  }

  lemma TotalsStep(m: multiset<char>, r: seq<Entry>, n: nat, k: char, rest: multiset<char>)
    requires n + 1 == |r| && k == r[n].kanji && rest == m[k := 0]
    requires k in m && r[n].count == m[k]
    requires PrefixSum(r[..n], |r[..n]|) == |rest| && |r[..n]| == |Distinct(rest)|
    ensures PrefixSum(r, |r|) == |m| && |r| == |Distinct(m)|
  {
    PrefixSumOfPrefix(r, n, n);
    SplitOff(m, k);
  }

  /** Some element of a non-empty set has the highest frequency in `m`. */
  lemma {:induction false} HasMostFrequent(s: set<char>, m: multiset<char>)
    requires s != {}
    ensures exists k :: k in s && forall d :: d in s ==> m[d] <= m[k]
    decreases s
  {
    var y :| y in s;
    if s != {y} {
      HasMostFrequent(s - {y}, m);
      var k :| k in s - {y} && forall d :: d in s - {y} ==> m[d] <= m[k];
      var best := if m[y] > m[k] then y else k;
      forall d | d in s
        ensures m[d] <= m[best]
      {
        if d != y {
          assert d in s - {y};
        }
      }
    } else {
      assert forall d :: d in s ==> m[d] <= m[y];
    }
  }

  /** Every ranked entry is a kanji of `m` no longer left, with its count. */
  predicate EntriesRanked(m: multiset<char>, r: seq<Entry>, left: set<char>)
  {
    forall i :: 0 <= i < |r| ==> r[i].kanji in m && r[i].kanji !in left && r[i].count == m[r[i].kanji]
  }

  /** Every kanji of `m` that is no longer left has been ranked. */
  predicate Covered(m: multiset<char>, r: seq<Entry>, left: set<char>)
  {
    forall c :: c in m && c !in left ==> exists i :: 0 <= i < |r| && r[i].kanji == c
  }

  /** Every ranked entry is at least as frequent as any kanji still left. */
  predicate Dominates(m: multiset<char>, r: seq<Entry>, left: set<char>)
  {
    forall i, c :: 0 <= i < |r| && c in left ==> r[i].count >= m[c]
  }

  /**
   * The state of the ranking loop: `r` ranks the kanji of `m` that are no
   * longer `left`, each at least as frequent as any kanji still left.
   */
  predicate RankedSoFar(m: multiset<char>, r: seq<Entry>, left: set<char>)
  {
    (forall c :: c in left ==> c in m)
    && EntriesRanked(m, r, left) && Covered(m, r, left)
    && DistinctKeys(r) && NonIncreasing(r) && Dominates(m, r, left)
  }

  lemma NextEntriesRanked(m: multiset<char>, r: seq<Entry>, left: set<char>, k: char)
    requires EntriesRanked(m, r, left) && k in left && k in m
    ensures EntriesRanked(m, r + [Entry(k, m[k])], left - {k})
  {
    var r' := r + [Entry(k, m[k])];
    forall i | 0 <= i < |r'|
      ensures r'[i].kanji in m && r'[i].kanji !in left - {k} && r'[i].count == m[r'[i].kanji]
    {
      if i < |r| {
        assert r'[i] == r[i];
      }
    }
  }

  lemma NextCovered(m: multiset<char>, r: seq<Entry>, left: set<char>, k: char)
    requires Covered(m, r, left)
    ensures Covered(m, r + [Entry(k, m[k])], left - {k})
  {
    var r' := r + [Entry(k, m[k])];
    forall c | c in m && c !in left - {k}
      ensures exists i :: 0 <= i < |r'| && r'[i].kanji == c
    {
      if c == k {
        assert r'[|r|].kanji == c;
      } else {
        var i :| 0 <= i < |r| && r[i].kanji == c;
        assert r'[i].kanji == c;
      }
    }
  }

  lemma NextInOrder(m: multiset<char>, r: seq<Entry>, left: set<char>, k: char)
    requires EntriesRanked(m, r, left) && DistinctKeys(r) && NonIncreasing(r) && Dominates(m, r, left)
    requires k in left
    ensures DistinctKeys(r + [Entry(k, m[k])]) && NonIncreasing(r + [Entry(k, m[k])])
  {
    var r' := r + [Entry(k, m[k])];
    forall i, j | 0 <= i < j < |r'|
      ensures r'[i].kanji != r'[j].kanji && r'[i].count >= r'[j].count
    {
      assert r'[i] == r[i];
      if j < |r| {
        assert r'[j] == r[j];
      } else {
        assert r[i].kanji !in left;
      }
    }
  }

  lemma NextDominates(m: multiset<char>, r: seq<Entry>, left: set<char>, k: char)
    requires Dominates(m, r, left) && k in left && forall d :: d in left ==> m[d] <= m[k]
    ensures Dominates(m, r + [Entry(k, m[k])], left - {k})
  {
    var r' := r + [Entry(k, m[k])];
    forall i, c | 0 <= i < |r'| && c in left - {k}
      ensures r'[i].count >= m[c]
    {
      if i < |r| {
        assert r'[i] == r[i];
      }
    }
  }

  /** Ranking next a most frequent kanji among those left keeps the loop state. */
  lemma RankNext(m: multiset<char>, r: seq<Entry>, left: set<char>, k: char)
    requires RankedSoFar(m, r, left)
    requires k in left && forall d :: d in left ==> m[d] <= m[k]
    ensures RankedSoFar(m, r + [Entry(k, m[k])], left - {k})
  {
    NextEntriesRanked(m, r, left, k);
    NextCovered(m, r, left, k);
    NextInOrder(m, r, left, k);
    NextDominates(m, r, left, k);
  }

  /**
   * The kanji of a frequency map from the most to the least frequent, each with
   * its count. The order among kanji of equal frequency is left open.
   */
  method MostCommon(m: multiset<char>) returns (r: seq<Entry>)
    ensures IsRanking(m, r)
  {
    r := [];
    var left := Distinct(m);
    while left != {}
      invariant RankedSoFar(m, r, left)
      decreases left
    {
      HasMostFrequent(left, m);
      var k :| k in left && forall d :: d in left ==> m[d] <= m[k];
      RankNext(m, r, left, k);
      r := r + [Entry(k, m[k])];
      left := left - {k};
    }
  }

  // ---------------------------------------------------------------------------
  // Top-kanji coverage series

  /** `part` as a percentage of `whole`. */
  function Percent(part: nat, whole: nat): real
    requires whole > 0
  {
    (part as real / whole as real) * 100.0
  }

  lemma PercentMonotone(a: nat, b: nat, whole: nat)
    requires whole > 0 && a <= b
    ensures Percent(a, whole) <= Percent(b, whole)
  {
    var w := whole as real;
    assert a as real / w <= b as real / w;
  }

  lemma PercentBounds(a: nat, whole: nat)
    requires whole > 0 && a <= whole
    ensures 0.0 <= Percent(a, whole) <= 100.0
    ensures a == whole ==> Percent(a, whole) == 100.0
  {
    PercentMonotone(a, whole, whole);
    PercentMonotone(0, a, whole);
  }

  /** The coverage points of a ranking: the share of all occurrences covered by its first k entries. */
  predicate CoveragePoints(kanji: multiset<char>, r: seq<Entry>, ys: seq<real>)
    requires kanji != multiset{}
  {
    |ys| == |r| + 1 && forall k :: 0 <= k < |ys| ==> ys[k] == Percent(PrefixSum(r, k), |kanji|)
  }

  /**
   * The coverage points of a ranking start at 0, never decrease, and reach
   * 100 percent once every kanji is counted.
   */
  lemma CoverageShape(kanji: multiset<char>, r: seq<Entry>, ys: seq<real>)
    requires kanji != multiset{} && IsRanking(kanji, r) && CoveragePoints(kanji, r, ys)
    ensures ys[0] == 0.0
    ensures forall k, l :: 0 <= k <= l < |ys| ==> ys[k] <= ys[l]
    ensures ys[|ys| - 1] == 100.0
    ensures |ys| == |Distinct(kanji)| + 1
  {
    forall k, l | 0 <= k <= l < |ys|
      ensures ys[k] <= ys[l]
    {
      PrefixSumMonotone(r, k, l);
      PercentMonotone(PrefixSum(r, k), PrefixSum(r, l), |kanji|);
    }
    EnumerationTotals(kanji, r);
    PercentBounds(PrefixSum(r, |r|), |kanji|);
  }

  /** The ranks 0 to n. */
  function Ranks(n: nat): (xs: seq<int>)
    ensures |xs| == n + 1 && forall k :: 0 <= k < |xs| ==> xs[k] == k
  {
    if n == 0 then [0] else Ranks(n - 1) + [n]
  }

  /** The coverage of the first 0 to n entries of a ranking, as percentages of `whole`. */
  function Shares(r: seq<Entry>, n: nat, whole: nat): (ys: seq<real>)
    requires n <= |r| && whole > 0
    ensures |ys| == n + 1 && forall k :: 0 <= k < |ys| ==> ys[k] == Percent(PrefixSum(r, k), whole)
  {
    if n == 0 then [0.0] else Shares(r, n - 1, whole) + [Percent(PrefixSum(r, n), whole)]
  }

  /**
   * The coverage series of a kanji frequency map: point k is (k, the share of
   * all kanji occurrences that the k most frequent kanji make up), starting at
   * the origin. An empty map gives the origin alone.
   */
  method TopKanjiCoverage(kanji: multiset<char>) returns (xs: seq<int>, ys: seq<real>)
    ensures kanji == multiset{} ==> xs == [0] && ys == [0.0]
    ensures |xs| == |ys| == |Distinct(kanji)| + 1
    ensures forall k :: 0 <= k < |xs| ==> xs[k] == k
    ensures ys[0] == 0.0
    ensures forall k, l :: 0 <= k <= l < |ys| ==> ys[k] <= ys[l]
    ensures kanji != multiset{} ==> ys[|ys| - 1] == 100.0
    ensures kanji != multiset{} ==> exists r :: IsRanking(kanji, r) && CoveragePoints(kanji, r, ys)
  {
    if kanji == multiset{} {
      assert Distinct(kanji) == {};
      return [0], [0.0];
    }
    var sortedKanji := MostCommon(kanji);
    var totalKanjiInstances := |kanji|;
    var uniqueKanjiCount := |sortedKanji|;
    xs := [0];
    ys := [0.0];
    var cumulativeCount := 0;
    var rank := 0;
    while rank < |sortedKanji|
      invariant 0 <= rank <= |sortedKanji|
      invariant xs == Ranks(rank)
      invariant cumulativeCount == PrefixSum(sortedKanji, rank)
      invariant ys == Shares(sortedKanji, rank, totalKanjiInstances)
    {
      cumulativeCount := cumulativeCount + sortedKanji[rank].count;
      xs := xs + [rank + 1];
      ys := ys + [Percent(cumulativeCount, totalKanjiInstances)];
      rank := rank + 1;
    }
    if xs[|xs| - 1] != uniqueKanjiCount {
      xs := xs + [uniqueKanjiCount];
      ys := ys + [100.0];
    }
    assert CoveragePoints(kanji, sortedKanji, ys);
    CoverageShape(kanji, sortedKanji, ys);
  }

  /** Every point of a coverage series lies between 0 and 100 percent. */
  lemma CoverageBounded(kanji: multiset<char>, r: seq<Entry>, k: nat)
    requires IsRanking(kanji, r) && kanji != multiset{} && k <= |r|
    ensures 0.0 <= Percent(PrefixSum(r, k), |kanji|) <= 100.0
  {
    EnumerationTotals(kanji, r);
    PrefixSumMonotone(r, k, |r|);
    PercentBounds(PrefixSum(r, k), |kanji|);
  }

  // ---------------------------------------------------------------------------
  // The rank-250 point

  const TARGET_RANK: int := 250

  /** The position of the first occurrence of `v` in `xs`, if any. */
  function IndexOf(xs: seq<int>, v: int): (r: Option<nat>)
    ensures r.None? <==> v !in xs
    ensures r.Some? ==> r.value < |xs| && xs[r.value] == v
    ensures r.Some? ==> forall j :: 0 <= j < r.value ==> xs[j] != v
  {
    if xs == [] then None
    else if xs[0] == v then Some(0)
    else match IndexOf(xs[1..], v)
      case None => None
      case Some(i) => Some(i + 1)
  }

  /**
   * The point reported as "the top n kanji make up y percent": the point of
   * rank 250 when the series has one, otherwise its last point. The result is
   * the index of that point and the rank it reports.
   */
  function TopRankPoint(xs: seq<int>): (p: (nat, int))
    requires xs != []
    ensures p.0 < |xs| && p.1 == xs[p.0]
    ensures TARGET_RANK in xs ==> p.1 == TARGET_RANK && forall j :: 0 <= j < p.0 ==> xs[j] != TARGET_RANK
    ensures TARGET_RANK !in xs ==> p.0 == |xs| - 1
  {
    match IndexOf(xs, TARGET_RANK)
    case Some(i) => (i, TARGET_RANK)
    case None => (|xs| - 1, xs[|xs| - 1])
  }

  function Min(a: int, b: int): int
  {
    if a <= b then a else b
  }

  /** On a coverage series of n distinct kanji, the reported point is rank min(250, n). */
  lemma TopRankOfCoverage(xs: seq<int>, n: nat)
    requires |xs| == n + 1 && forall k :: 0 <= k < |xs| ==> xs[k] == k
    ensures TopRankPoint(xs) == (Min(TARGET_RANK, n), Min(TARGET_RANK, n))
  {
    if TARGET_RANK <= n {
      assert xs[TARGET_RANK] == TARGET_RANK;
    } else {
      assert forall j :: 0 <= j < |xs| ==> xs[j] != TARGET_RANK;
    }
  }

  // ---------------------------------------------------------------------------
  // The whole analysis

  /**
   * The outcome of the analysis: no Japanese characters at all; Japanese
   * characters but no kanji; or the coverage series with its reported point.
   */
  datatype Outcome =
    | NoJapanese(totals: Counts)
    | NoKanji(totals: Counts)
    | Coverage(totals: Counts, xs: seq<int>, ys: seq<real>, topCount: int, topCoverage: real)

  /**
   * Aggregates the files, stops when no Japanese character was found, and
   * otherwise computes the coverage series and its rank-250 point when there
   * is at least one kanji.
   */
  method Analyze(files: seq<TextFile>) returns (out: Outcome)
    ensures out.totals == Tally(ReadableText(files))
    ensures out.NoJapanese? <==> out.totals.totalJapanese == 0
    ensures out.NoKanji? <==> out.totals.totalJapanese > 0 && out.totals.kanji == multiset{}
    ensures out.Coverage? ==>
              |out.xs| == |out.ys| == |Distinct(out.totals.kanji)| + 1 &&
              out.topCount == Min(TARGET_RANK, |Distinct(out.totals.kanji)|) &&
              out.topCoverage == out.ys[out.topCount] &&
              0.0 <= out.topCoverage <= 100.0
    ensures out.Coverage? ==>
              (out.totals.kanji != multiset{} &&
               (forall k :: 0 <= k < |out.xs| ==> out.xs[k] == k) &&
               exists r :: IsRanking(out.totals.kanji, r) && CoveragePoints(out.totals.kanji, r, out.ys))
  {
    var totals := AggregateFiles(files);
    var totalKanjiInstances := |totals.kanji|;
    if totals.totalJapanese == 0 {
      return NoJapanese(totals);
    }
    if totalKanjiInstances > 0 {
      var xs, ys := TopKanjiCoverage(totals.kanji);
      var (topIndex, _) := TopRankPoint(xs);
      TopRankOfCoverage(xs, |Distinct(totals.kanji)|);
      out := Coverage(totals, xs, ys, xs[topIndex], ys[topIndex]);
    } else {
      out := NoKanji(totals);
    }
  }

  // ---------------------------------------------------------------------------
  // Style injection into the generated page

  const HEAD_CLOSE: string := "</head>"

  /** The style block that paints the page body black. */
  const STYLE_BLOCK: string :=
    "\n<style>\n" + "body {\n" + "    background-" + "color: black " + "!important;\n"
    + "    margin: 0;\n" + "}\n" + "</style>\n"

  predicate NoLetterH(s: string)
  {
    forall t :: 0 <= t < |s| ==> s[t] != 'h'
  }

  predicate OccursAt(s: string, pat: string, i: nat)
  {
    i + |pat| <= |s| && s[i..i + |pat|] == pat
  }

  /** The position of the leftmost occurrence of `pat` in `s` at or after `from`, if any. */
  function FindFrom(s: string, pat: string, from: nat): (r: Option<nat>)
    ensures r.None? <==> forall i: nat :: from <= i ==> !OccursAt(s, pat, i)
    ensures r.Some? ==> from <= r.value && OccursAt(s, pat, r.value)
    ensures r.Some? ==> forall j: nat :: from <= j < r.value ==> !OccursAt(s, pat, j)
    decreases |s| - from
  {
    if from + |pat| > |s| then None
    else if s[from..from + |pat|] == pat then
      assert OccursAt(s, pat, from);
      Some(from)
    else FindFrom(s, pat, from + 1)
  }

  /** The position of the leftmost occurrence of `pat` in `s`, if any. */
  function FindFirst(s: string, pat: string): (r: Option<nat>)
    ensures r.None? <==> forall i: nat :: !OccursAt(s, pat, i)
    ensures r.Some? ==> OccursAt(s, pat, r.value)
    ensures r.Some? ==> forall j: nat :: j < r.value ==> !OccursAt(s, pat, j)
  {
    FindFrom(s, pat, 0)
  }

  /** Replaces the leftmost occurrence of `pat` in `s` by `repl`; `s` is unchanged without one. */
  function ReplaceFirst(s: string, pat: string, repl: string): string
  {
    match FindFirst(s, pat)
    case None => s
    case Some(i) => s[..i] + repl + s[i + |pat|..]
  }

  /** Replacing the first closing head tag by `block` and the tag inserts `block` just before it. */
  lemma ReplaceInserts(content: string, block: string, i: nat)
    requires FindFirst(content, HEAD_CLOSE) == Some(i)
    ensures ReplaceFirst(content, HEAD_CLOSE, block + HEAD_CLOSE) == content[..i] + block + content[i..]
  {
    assert content[i..] == HEAD_CLOSE + content[i + |HEAD_CLOSE|..];
  }

  /** The page with `block` inserted before its first closing head tag; a page without one is left as it is. */
  function InsertBeforeHeadClose(content: string, block: string): (r: string)
    ensures FindFirst(content, HEAD_CLOSE).None? ==> r == content
    ensures FindFirst(content, HEAD_CLOSE).Some? ==>
              r == content[..FindFirst(content, HEAD_CLOSE).value] + block
                   + content[FindFirst(content, HEAD_CLOSE).value..]
  {
    match FindFirst(content, HEAD_CLOSE)
    case None => content
    case Some(i) =>
      ReplaceInserts(content, block, i);
      ReplaceFirst(content, HEAD_CLOSE, block + HEAD_CLOSE)
  }

  /** The page with the style block inserted before its first closing head tag. */
  function InjectStyle(content: string): string
  {
    InsertBeforeHeadClose(content, STYLE_BLOCK)
  }

  /** Taking the inserted block out again gives back the page, and nothing else of it changes. */
  lemma InsertionRemovable(content: string, block: string, i: nat)
    requires FindFirst(content, HEAD_CLOSE) == Some(i)
    ensures |InsertBeforeHeadClose(content, block)| == |content| + |block|
    ensures InsertBeforeHeadClose(content, block)[i..i + |block|] == block
    ensures InsertBeforeHeadClose(content, block)[..i] + InsertBeforeHeadClose(content, block)[i + |block|..] == content
  {
    var r := InsertBeforeHeadClose(content, block);
    assert r[..i] == content[..i];
    assert r[i + |block|..] == content[i..];
  }

  /** A character of a closing head tag occurrence is the tag's own character. */
  lemma OccurrenceChar(r: string, j: nat, t: nat)
    requires OccursAt(r, HEAD_CLOSE, j) && j <= t < j + |HEAD_CLOSE|
    ensures r[t] == HEAD_CLOSE[t - j] && r[t] != '\n'
  {
    assert r[t] == r[j..j + |HEAD_CLOSE|][t - j];
  }

  /** A window that lies in the text before the insertion point matches only where the page itself did. */
  lemma NoMatchBefore(content: string, block: string, i: nat, r: string, j: nat)
    requires FindFirst(content, HEAD_CLOSE) == Some(i)
    requires r == content[..i] + block + content[i..]
    requires j + |HEAD_CLOSE| <= i
    ensures !OccursAt(r, HEAD_CLOSE, j)
  {
    if OccursAt(r, HEAD_CLOSE, j) {
      assert r[j..j + |HEAD_CLOSE|] == content[j..j + |HEAD_CLOSE|];
      assert OccursAt(content, HEAD_CLOSE, j);
    }
  }

  /** A window that covers a line break cannot match. */
  lemma NoMatchOverBreak(r: string, j: nat, t: nat)
    requires j <= t < j + |HEAD_CLOSE| && t < |r| && r[t] == '\n'
    ensures !OccursAt(r, HEAD_CLOSE, j)
  {
    if OccursAt(r, HEAD_CLOSE, j) {
      OccurrenceChar(r, j, t);
    }
  }

  /** A window inside the block cannot match: its third character would be an h. */
  lemma NoMatchInside(block: string, i: nat, r: string, j: nat)
    requires NoLetterH(block)
    requires i <= j && j + 2 < i + |block| && i + |block| <= |r|
    requires r[i..i + |block|] == block
    ensures !OccursAt(r, HEAD_CLOSE, j)
  {
    if OccursAt(r, HEAD_CLOSE, j) {
      OccurrenceChar(r, j, j + 2);
    }
  }

  /** An occurrence with none before it is the one found first. */
  lemma FoundFirst(s: string, pat: string, k: nat)
    requires OccursAt(s, pat, k) && forall j: nat :: j < k ==> !OccursAt(s, pat, j)
    ensures FindFirst(s, pat) == Some(k)
  {
  }

  /** No window that starts before the end of the inserted block matches. */
  lemma NoMatchBeforeEnd(content: string, block: string, i: nat, r: string, j: nat)
    requires FindFirst(content, HEAD_CLOSE) == Some(i)
    requires |block| > 0 && block[0] == '\n' && block[|block| - 1] == '\n'
    requires NoLetterH(block)
    requires r == content[..i] + block + content[i..]
    requires j < i + |block|
    ensures !OccursAt(r, HEAD_CLOSE, j)
  {
    var n := |block|;
    if j + |HEAD_CLOSE| <= i {
      NoMatchBefore(content, block, i, r, j);
    } else if j <= i {
      assert r[i] == block[0];
      NoMatchOverBreak(r, j, i);
    } else if j + 2 < i + n {
      assert r[i..i + n] == block;
      NoMatchInside(block, i, r, j);
    } else {
      assert r[i + n - 1] == block[n - 1];
      NoMatchOverBreak(r, j, i + n - 1);
    }
  }

  /** The page's first closing head tag, shifted by the block, still matches. */
  lemma MatchAfterBlock(content: string, block: string, i: nat, r: string)
    requires FindFirst(content, HEAD_CLOSE) == Some(i)
    requires r == content[..i] + block + content[i..]
    ensures OccursAt(r, HEAD_CLOSE, i + |block|)
  {
    assert r[i + |block|..i + |block| + |HEAD_CLOSE|] == content[i..i + |HEAD_CLOSE|];
  }

  /**
   * A block that starts and ends with a line break and holds no letter h
   * cannot take part in a closing head tag: after the insertion, the first
   * closing head tag of the page is the one that follows the block.
   */
  lemma InsertedBeforeFirstHeadClose(content: string, block: string, i: nat)
    requires FindFirst(content, HEAD_CLOSE) == Some(i)
    requires |block| > 0 && block[0] == '\n' && block[|block| - 1] == '\n'
    requires NoLetterH(block)
    ensures FindFirst(InsertBeforeHeadClose(content, block), HEAD_CLOSE) == Some(i + |block|)
  {
    var r := InsertBeforeHeadClose(content, block);
    MatchAfterBlock(content, block, i, r);
    forall j: nat | j < i + |block|
      ensures !OccursAt(r, HEAD_CLOSE, j)
    {
      NoMatchBeforeEnd(content, block, i, r, j);
    }
    FoundFirst(r, HEAD_CLOSE, i + |block|);
  }

  /** Two texts without a letter h make one. */
  lemma NoLetterHConcat(a: string, b: string)
    requires NoLetterH(a) && NoLetterH(b)
    ensures NoLetterH(a + b)
  {
    forall t | 0 <= t < |a + b|
      ensures (a + b)[t] != 'h'
    {
      if t >= |a| {
        assert (a + b)[t] == b[t - |a|];
      }
    }
  }

  /** The style block's first half: the opening tag and the selector. */
  lemma StyleHeadNoLetterH()
    ensures NoLetterH("\n<style>\n" + "body {\n" + "    background-" + "color: black ")
  {
    NoLetterHConcat("\n<style>\n", "body {\n");
    NoLetterHConcat("\n<style>\n" + "body {\n", "    background-");
    NoLetterHConcat("\n<style>\n" + "body {\n" + "    background-", "color: black ");
  }

  lemma StyleBlockShape()
    ensures |STYLE_BLOCK| == 82
    ensures STYLE_BLOCK[0] == '\n' && STYLE_BLOCK[|STYLE_BLOCK| - 1] == '\n'
    ensures NoLetterH(STYLE_BLOCK)
  {
    var head := "\n<style>\n" + "body {\n" + "    background-" + "color: black ";
    StyleHeadNoLetterH();
    NoLetterHConcat(head, "!important;\n");
    NoLetterHConcat(head + "!important;\n", "    margin: 0;\n");
    NoLetterHConcat(head + "!important;\n" + "    margin: 0;\n", "}\n");
    NoLetterHConcat(head + "!important;\n" + "    margin: 0;\n" + "}\n", "</style>\n");
  }

  /** The style lands just before the first closing head tag of the resulting page. */
  lemma StyleBeforeFirstHeadClose(content: string, i: nat)
    requires FindFirst(content, HEAD_CLOSE) == Some(i)
    ensures InjectStyle(content) == content[..i] + STYLE_BLOCK + content[i..]
    ensures FindFirst(InjectStyle(content), HEAD_CLOSE) == Some(i + |STYLE_BLOCK|)
  {
    StyleBlockShape();
    InsertedBeforeFirstHeadClose(content, STYLE_BLOCK, i);
  }

  /** A page without a closing head tag is left as it is. */
  lemma NoHeadCloseUnchanged(content: string)
    requires forall i: nat :: !OccursAt(content, HEAD_CLOSE, i)
    ensures InjectStyle(content) == content
  {
  }
}
