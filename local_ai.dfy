/** The on-device enrichment pipeline of frontend/app/utils/localAI.ts: a keyword-scoring
    classifier, a frequency keyword extractor, a sentence-based summariser, labelled-field
    extractors for owner and location, a land-type lookup and the orchestrator that
    chains them. The OCR engine and the temporary image file are inputs. */
module LocalAI {
  import opened Text
  import opened Seqs
  import opened Wrappers

  // ===========================================================================
  // Classification

  const OtherCategory: string := "أخرى"

  /** Category name and keyword list, in declaration order. */
  const CategoryTable: seq<(string, seq<string>)> := [
    ("سند ملكية", ["سند", "ملكية", "تمليك", "عقار", "أرض", "property", "ownership"]),
    ("عقد إيجار", ["إيجار", "استئجار", "مستأجر", "rent", "lease", "tenant"]),
    ("خريطة مساحية", ["خريطة", "مساحة", "حدود", "قطعة", "survey", "map", "plot"]),
    ("تقرير فني", ["تقرير", "فني", "دراسة", "فحص", "technical", "report", "inspection"]),
    ("طلب خدمة", ["طلب", "خدمة", "استمارة", "نموذج", "application", "request", "form"]),
    ("شهادة", ["شهادة", "certificate", "certification", "document"])
  ]

  /** What the classifier searches: the lowered text, a space, the lowered title. */
  function ClassifierInput(text: string, title: string): string
  {
    Lower(text) + " " + Lower(title)
  }

  /** The number of entries of `keywords` that occur in `hay`. */
  function Score(hay: string, keywords: seq<string>): (n: nat)
    ensures n <= |keywords|
  {
    if keywords == [] then 0
    else
      Score(hay, keywords[..|keywords| - 1])
      + (if Contains(hay, keywords[|keywords| - 1]) then 1 else 0)
  }

  type Table = seq<(string, seq<string>)>

  function ScoreAt(table: Table, hay: string, i: nat): nat
    requires i < |table|
  {
    Score(hay, table[i].1)
  }

  predicate AllScoresZero(table: Table, hay: string)
  {
    forall i: nat :: i < |table| ==> ScoreAt(table, hay, i) == 0
  }

  /** Row `k` scores above zero, at least as high as every row and higher than every
      earlier row. */
  predicate IsBestRow(table: Table, hay: string, k: nat)
    requires k < |table|
  {
    ScoreAt(table, hay, k) > 0
    && (forall i: nat :: i < |table| ==> ScoreAt(table, hay, i) <= ScoreAt(table, hay, k))
    && (forall i: nat :: i < k ==> ScoreAt(table, hay, i) < ScoreAt(table, hay, k))
  }

  /** The classifier's promise: the fallback when every score is zero, otherwise the
      name of the highest-scoring row that no earlier row ties. */
  predicate IsBestCategory(table: Table, hay: string, c: string)
  {
    (c == OtherCategory && AllScoresZero(table, hay))
    || exists k: nat :: k < |table| && IsBestRow(table, hay, k) && table[k].0 == c
  }

  method ClassifyDocument(text: string, title: string) returns (category: string)
    ensures IsBestCategory(CategoryTable, ClassifierInput(text, title), category)
  {
    var table := CategoryTable;
    var lowerText := Lower(text) + " " + Lower(title);
    var maxScore := 0;
    category := OtherCategory;
    ghost var best := -1;
    for i := 0 to |table|
      invariant forall j: nat :: j < i ==> ScoreAt(table, lowerText, j) <= maxScore
      invariant best == -1 ==> category == OtherCategory && maxScore == 0
      invariant best != -1 ==>
        0 <= best < i && category == table[best].0
        && maxScore == ScoreAt(table, lowerText, best) > 0
        && forall j: nat :: j < best ==> ScoreAt(table, lowerText, j) < maxScore
    {
      var keywords := table[i].1;
      var score := 0;
      for j := 0 to |keywords|
        invariant score == Score(lowerText, keywords[..j])
      {
        assert keywords[..j + 1][..j] == keywords[..j];
        if Contains(lowerText, keywords[j]) {
          score := score + 1;
        }
      }
      assert keywords[..|keywords|] == keywords;
      if score > maxScore {
        maxScore := score;
        category := table[i].0;
        best := i;
      }
    }
    if best != -1 {
      assert IsBestRow(table, lowerText, best);
    }
  }

  /** A score is zero exactly when none of the keywords occurs. */
  lemma {:induction false} ScoreZeroIff(hay: string, keywords: seq<string>)
    ensures Score(hay, keywords) == 0 <==> forall k :: 0 <= k < |keywords| ==> !Contains(hay, keywords[k])
  {
    if keywords != [] {
      var init := keywords[..|keywords| - 1];
      ScoreZeroIff(hay, init);
      assert forall k :: 0 <= k < |init| ==> init[k] == keywords[k];
    }
  }

  /** With distinct keywords the score is the number of distinct keywords found. */
  lemma {:induction false} ScoreCountsMatches(hay: string, keywords: seq<string>)
    requires Distinct(keywords)
    ensures Score(hay, keywords) == |set k | k in keywords && Contains(hay, k)|
  {
    if keywords == [] {
      assert (set k | k in keywords && Contains(hay, k)) == {};
    } else {
      var init, last := keywords[..|keywords| - 1], keywords[|keywords| - 1];
      assert keywords == init + [last];
      DistinctPrefix(keywords, |init|);
      ScoreCountsMatches(hay, init);
      var before := set k | k in init && Contains(hay, k);
      var after := set k | k in keywords && Contains(hay, k);
      assert last !in init;
      if Contains(hay, last) {
        assert after == before + {last};
      } else {
        assert after == before;
      }
    }
  }

  /** Classification is a function of its input: at most one category meets the promise. */
  lemma BestCategoryUnique(table: Table, hay: string, c1: string, c2: string)
    requires IsBestCategory(table, hay, c1) && IsBestCategory(table, hay, c2)
    ensures c1 == c2
  {
  }

  /** When no row is named like the fallback, the result is the fallback exactly when no
      keyword of any row occurs; otherwise it names a row. */
  lemma ClassifyOtherIff(table: Table, hay: string, c: string)
    requires forall i :: 0 <= i < |table| ==> table[i].0 != OtherCategory
    requires IsBestCategory(table, hay, c)
    ensures c == OtherCategory <==>
      forall i, k :: 0 <= i < |table| && 0 <= k < |table[i].1| ==> !Contains(hay, table[i].1[k])
    ensures c != OtherCategory ==> exists i :: 0 <= i < |table| && table[i].0 == c
  {
    forall i: nat | i < |table| ensures ScoreAt(table, hay, i) == 0 <==>
      forall k :: 0 <= k < |table[i].1| ==> !Contains(hay, table[i].1[k])
    {
      ScoreZeroIff(hay, table[i].1);
    }
    if c != OtherCategory {
      var k: nat :| k < |table| && IsBestRow(table, hay, k) && table[k].0 == c;
      assert ScoreAt(table, hay, k) > 0;
    }
  }

  /** No category of the classifier's table is named like the fallback. */
  lemma CategoryNamesDiffer()
    ensures forall i :: 0 <= i < |CategoryTable| ==> CategoryTable[i].0 != OtherCategory
  {
  }

  // ===========================================================================
  // Keyword extraction

  const StopWords: seq<string> := [
    "في", "من", "إلى", "على", "هذا", "هذه", "التي", "الذي", "أن", "كان",
    "قد", "لم", "لن", "إن", "أو", "لكن", "بل", "ثم", "حتى", "كل", "بعض",
    "and", "the", "to", "of", "in", "is", "for", "on", "with"
  ]

  /** The characters stripped from every token. */
  predicate IsPunct(c: char)
  {
    c == '.' || c == ',' || c == '!' || c == '?' || c == ';' || c == ':' || c == '(' || c == ')'
  }

  function CleanToken(w: string): string
  {
    Trim(RemoveChars(w, IsPunct), true)
  }

  predicate IsCandidate(w: string)
  {
    |w| > 2 && Lower(w) !in StopWords
  }

  /** A character a counted token may hold: neither punctuation nor whitespace. */
  predicate IsWordChar(c: char)
  {
    !IsPunct(c) && !IsJsSpace(c)
  }

  lemma CleanTokenChars(w: string)
    requires forall j :: 0 <= j < |w| ==> !IsJsSpace(w[j])
    ensures AllChars(CleanToken(w), IsWordChar)
  {
    var stripped := RemoveChars(w, IsPunct);
    forall j | 0 <= j < |stripped| ensures IsWordChar(stripped[j]) {
      assert stripped[j] in w;
    }
    TrimAllChars(stripped, true, IsWordChar);
  }

  /** The tokens that are counted: whitespace-separated, punctuation removed, longer
      than two characters and not a stop word. */
  function Words(text: string): (r: seq<string>)
    ensures forall k :: 0 <= k < |r| ==> IsCandidate(r[k]) && AllChars(r[k], IsWordChar)
    ensures forall w :: w in r <==>
      IsCandidate(w) && exists i :: 0 <= i < |SplitRuns(text)| && CleanToken(SplitRuns(text)[i]) == w
  {
    var tokens := SplitRuns(text);
    var cleaned := Images(tokens, CleanToken);
    forall i | 0 <= i < |tokens| ensures AllChars(cleaned[i], IsWordChar) {
      CleanTokenChars(tokens[i]);
    }
    var r := Filter(cleaned, IsCandidate);
    forall k | 0 <= k < |r| ensures AllChars(r[k], IsWordChar) {
      FilterMember(cleaned, IsCandidate, r[k]);
    }
    FilterImagesMember(tokens, CleanToken, IsCandidate);
    r
  }

  predicate IsDigit(c: char)
  {
    '0' as int <= c as int <= '9' as int
  }

  function DecimalValue(s: string): nat
    requires forall j :: 0 <= j < |s| ==> IsDigit(s[j])
  {
    if s == [] then 0
    else
      var d: int := s[|s| - 1] as int - '0' as int;
      assert IsDigit(s[|s| - 1]);
      DecimalValue(s[..|s| - 1]) * 10 + d
  }

  /** A key JavaScript treats as an array index: a canonical decimal below 2^32 - 1.
      Own properties with such keys are listed first, in ascending numeric order. */
  predicate IsArrayIndex(k: string)
  {
    |k| >= 1 && (forall j :: 0 <= j < |k| ==> IsDigit(k[j]))
    && (k == "0" || k[0] != '0') && DecimalValue(k) < 0xFFFF_FFFF
  }

  predicate IsNamedKey(k: string)
  {
    !IsArrayIndex(k)
  }

  function IndexOrderKey(k: string): int
  {
    if IsArrayIndex(k) then 0 - DecimalValue(k) as int else 0
  }

  /** `Object.entries` order of a dictionary whose keys were inserted in order `keys`. */
  function EntryOrder(keys: seq<string>): seq<string>
  {
    SortDesc(Filter(keys, IsArrayIndex), IndexOrderKey) + Filter(keys, IsNamedKey)
  }

  function CountKey(words: seq<string>): string -> int
  {
    w => multiset(words)[w]
  }

  /** The distinct tokens in `Object.entries` order, stably sorted by descending count. */
  function Ranked(words: seq<string>): seq<string>
  {
    SortDesc(EntryOrder(Dedup(words)), CountKey(words))
  }

  /** The top seven tokens by frequency. */
  function Keywords(text: string): seq<string>
  {
    if |text| < 10 then [] else Take(Ranked(Words(text)), 7)
  }

  /** The word-count dictionary after counting `words` one after the other. */
  function CountMap(words: seq<string>): map<string, nat>
  {
    if words == [] then map[]
    else
      var m := CountMap(words[..|words| - 1]);
      var w := words[|words| - 1];
      m[w := (if w in m then m[w] else 0) + 1]
  }

  /** The dictionary holds exactly the words seen, each with its number of occurrences. */
  lemma {:induction false} CountMapCounts(words: seq<string>, x: string)
    ensures x in CountMap(words) <==> x in words
    ensures x in CountMap(words) ==> CountMap(words)[x] == multiset(words)[x]
  {
    if words != [] {
      var init := words[..|words| - 1];
      CountMapCounts(init, x);
      assert words == init + [words[|words| - 1]];
    }
  }

  /** What counting one more word does to the keys and to the dictionary. */
  lemma CountStep(words: seq<string>, i: nat)
    requires i < |words|
    ensures var w, m := words[i], CountMap(words[..i]);
      && (w in m <==> w in words[..i])
      && Dedup(words[..i + 1]) == (if w in m then Dedup(words[..i]) else Dedup(words[..i]) + [w])
      && CountMap(words[..i + 1]) == m[w := (if w in m then m[w] else 0) + 1]
  {
    var w := words[i];
    assert words[..i + 1] == words[..i] + [w];
    assert words[..i + 1][..i] == words[..i];
    DedupSnoc(words[..i], w);
    CountMapCounts(words[..i], w);
  }

  /** The counting loop: the dictionary's keys in insertion order, and its counts. */
  method CountWords(words: seq<string>) returns (keys: seq<string>, counts: map<string, nat>)
    ensures keys == Dedup(words)
    ensures counts == CountMap(words)
  {
    keys, counts := [], map[];
    for i := 0 to |words|
      invariant keys == Dedup(words[..i])
      invariant counts == CountMap(words[..i])
    {
      var w := words[i];
      CountStep(words, i);
      if w in counts {
        counts := counts[w := counts[w] + 1];
      } else {
        keys := keys + [w];
        counts := counts[w := 1];
      }
    }
    assert words[..|words|] == words;
  }

  method ExtractKeywords(text: string) returns (keywords: seq<string>)
    ensures keywords == Keywords(text)
  {
    if |text| < 10 {
      return [];
    }
    var words := Words(text);
    var keys, counts := CountWords(words);
    DictionaryRanks(words);
    keywords := Take(SortDesc(EntryOrder(keys), CountOf(counts)), 7);
  }

  /** Reading a count from the dictionary; an absent key counts zero. */
  function CountOf(counts: map<string, nat>): string -> int
  {
    k => if k in counts then counts[k] else 0
  }

  /** Sorting the dictionary's entries by their stored counts gives the ranking. */
  lemma DictionaryRanks(words: seq<string>)
    ensures SortDesc(EntryOrder(Dedup(words)), CountOf(CountMap(words))) == Ranked(words)
  {
    var keys, counts := Dedup(words), CountMap(words);
    var entries := EntryOrder(keys);
    KeysInEntries(keys);
    forall x | x in entries ensures CountOf(counts)(x) == CountKey(words)(x) {
      assert x in multiset(keys);
      DedupMember(words, x);
      CountMapCounts(words, x);
    }
    SortDescCongruent(entries, CountOf(counts), CountKey(words));
  }

  lemma KeysInEntries(keys: seq<string>)
    ensures multiset(EntryOrder(keys)) == multiset(keys)
  {
    FilterPartition(keys, IsArrayIndex, IsNamedKey);
  }

  /** The ranking lists every distinct token once, in non-increasing count order. */
  lemma RankedFacts(words: seq<string>)
    ensures multiset(Ranked(words)) == multiset(Dedup(words))
    ensures Distinct(Ranked(words))
    ensures SortedDesc(Ranked(words), CountKey(words))
  {
    var keys := Dedup(words);
    KeysInEntries(keys);
    DistinctFromMultiset(keys, Ranked(words));
  }

  /** The first `n` ranked tokens: distinct tokens of `words`. */
  lemma TopTokens(words: seq<string>, n: nat)
    ensures |Take(Ranked(words), n)| <= n
    ensures Distinct(Take(Ranked(words), n))
    ensures forall k :: 0 <= k < |Take(Ranked(words), n)| ==> Take(Ranked(words), n)[k] in words
  {
    RankedFacts(words);
    var sorted := Ranked(words);
    var r := Take(sorted, n);
    DistinctPrefix(sorted, |r|);
    forall k | 0 <= k < |r| ensures r[k] in words {
      assert r[k] == sorted[k];
      assert sorted[k] in multiset(Dedup(words));
      DedupMember(words, r[k]);
    }
  }

  /** Counts never increase along the first `n` ranked tokens. */
  lemma TopOrdered(words: seq<string>, n: nat)
    ensures forall i, j :: 0 <= i < j < |Take(Ranked(words), n)| ==>
      multiset(words)[Take(Ranked(words), n)[i]] >= multiset(words)[Take(Ranked(words), n)[j]]
  {
    RankedFacts(words);
    var sorted := Ranked(words);
    var r := Take(sorted, n);
    var key := CountKey(words);
    forall i, j | 0 <= i < j < |r| ensures multiset(words)[r[i]] >= multiset(words)[r[j]] {
      assert r[i] == sorted[i] && r[j] == sorted[j];
      assert key(sorted[i]) >= key(sorted[j]);
    }
  }

  /** No token left out of the first `n` occurs more often than a token kept. */
  lemma TopIsTop(words: seq<string>, n: nat, w: string, k: nat)
    requires w in words && w !in Take(Ranked(words), n) && k < |Take(Ranked(words), n)|
    ensures multiset(words)[Take(Ranked(words), n)[k]] >= multiset(words)[w]
  {
    RankedFacts(words);
    var sorted := Ranked(words);
    var r := Take(sorted, n);
    DedupMember(words, w);
    assert w in multiset(sorted);
    var p :| 0 <= p < |sorted| && sorted[p] == w;
    assert p >= |r|;
    assert r[k] == sorted[k];
    assert CountKey(words)(sorted[k]) >= CountKey(words)(sorted[p]);
  }

  /** Short text gives no keywords; otherwise seven distinct tokens, or every distinct
      token when there are fewer, each a counted token: longer than two characters,
      free of `.,!?;:()` and whitespace, and not a stop word once lowered. */
  lemma KeywordsWellFormed(text: string)
    ensures |text| < 10 ==> Keywords(text) == []
    ensures |text| >= 10 ==>
      |Keywords(text)| == if |Dedup(Words(text))| < 7 then |Dedup(Words(text))| else 7
    ensures |Keywords(text)| <= 7 && Distinct(Keywords(text))
    ensures forall k :: 0 <= k < |Keywords(text)| ==>
      Keywords(text)[k] in Words(text) && |Keywords(text)[k]| > 2 && Lower(Keywords(text)[k]) !in StopWords
      && AllChars(Keywords(text)[k], IsWordChar)
  {
    if |text| >= 10 {
      TopTokens(Words(text), 7);
      RankedFacts(Words(text));
      assert |Ranked(Words(text))| == |multiset(Ranked(Words(text)))| == |Dedup(Words(text))|;
    }
  }

  /** Frequency order: counts never increase along the result, and no token left out
      occurs more often than any token kept. */
  lemma KeywordsRanked(text: string)
    ensures forall i, j :: 0 <= i < j < |Keywords(text)| ==>
      multiset(Words(text))[Keywords(text)[i]] >= multiset(Words(text))[Keywords(text)[j]]
    ensures forall w, k :: w in Words(text) && w !in Keywords(text) && 0 <= k < |Keywords(text)| ==>
      multiset(Words(text))[Keywords(text)[k]] >= multiset(Words(text))[w]
  {
    if |text| >= 10 {
      var words := Words(text);
      TopOrdered(words, 7);
      forall w, k | w in words && w !in Keywords(text) && 0 <= k < |Keywords(text)|
        ensures multiset(words)[Keywords(text)[k]] >= multiset(words)[w]
      {
        TopIsTop(words, 7, w, k);
      }
    }
  }

  /** How equal counts are ordered: array-index tokens first, by ascending value; then the
      other tokens in order of first appearance in the text. */
  predicate TieOrder(words: seq<string>, x: string, y: string)
  {
    if IsArrayIndex(x) && IsArrayIndex(y) then DecimalValue(x) <= DecimalValue(y)
    else if IsArrayIndex(x) then true
    else if IsArrayIndex(y) then false
    else FirstBefore(words, x, y)
  }

  lemma KeywordsTieOrder(text: string)
    ensures forall i, j ::
      (0 <= i < j < |Keywords(text)|
       && multiset(Words(text))[Keywords(text)[i]] == multiset(Words(text))[Keywords(text)[j]])
      ==> TieOrder(Words(text), Keywords(text)[i], Keywords(text)[j])
  {
    if |text| >= 10 {
      var words := Words(text);
      var r := Take(Ranked(words), 7);
      forall i, j | 0 <= i < j < |r| && multiset(words)[r[i]] == multiset(words)[r[j]]
        ensures TieOrder(words, r[i], r[j])
      {
        TopTieOrder(words, 7, i, j);
      }
    }
  }

  /** Among the first `n` ranked tokens, equal counts appear in tie order. */
  lemma TopTieOrder(words: seq<string>, n: nat, i: nat, j: nat)
    requires i < j < |Take(Ranked(words), n)|
    requires multiset(words)[Take(Ranked(words), n)[i]] == multiset(words)[Take(Ranked(words), n)[j]]
    ensures TieOrder(words, Take(Ranked(words), n)[i], Take(Ranked(words), n)[j])
  {
    var r := Take(Ranked(words), n);
    var x, y := r[i], r[j];
    assert Before(r, x, y);
    StableTie(words, n, x, y);
    var keys := Dedup(words);
    if IsArrayIndex(x) && IsArrayIndex(y) {
      IndexTie(keys, x, y);
    } else if IsNamedKey(x) && IsArrayIndex(y) {
      NamedNotBeforeIndex(keys, x, y);
    } else if IsNamedKey(x) && IsNamedKey(y) {
      NamedTie(keys, x, y);
      BeforeFromFilter(keys, IsNamedKey, x, y);
      DedupFirstBefore(words, x, y);
    }
  }

  /** The sort is stable: two ranked tokens with equal counts keep their entry order. */
  lemma StableTie(words: seq<string>, n: nat, x: string, y: string)
    requires Before(Take(Ranked(words), n), x, y)
    requires multiset(words)[x] == multiset(words)[y]
    ensures Before(EntryOrder(Dedup(words)), x, y)
  {
    var entries := EntryOrder(Dedup(words));
    var key := CountKey(words);
    var v := multiset(words)[x];
    var sorted := SortDesc(entries, key);
    BeforeTake(sorted, n, x, y);
    BeforeToWithKey(sorted, key, v, x, y);
    SortDescStable(entries, key, v);
    BeforeFromWithKey(entries, key, v, x, y);
  }

  /** Index keys come first in the entry list, so they are sorted by their value. */
  lemma IndexKeysSorted(keys: seq<string>)
    ensures forall z :: z in SortDesc(Filter(keys, IsArrayIndex), IndexOrderKey) ==> IsArrayIndex(z)
  {
    var indexKeys := Filter(keys, IsArrayIndex);
    forall z | z in SortDesc(indexKeys, IndexOrderKey) ensures IsArrayIndex(z) {
      assert z in multiset(indexKeys);
    }
  }

  lemma IndexTie(keys: seq<string>, x: string, y: string)
    requires Before(EntryOrder(keys), x, y)
    requires IsArrayIndex(x) && IsArrayIndex(y)
    ensures DecimalValue(x) <= DecimalValue(y)
  {
    var a := SortDesc(Filter(keys, IsArrayIndex), IndexOrderKey);
    var namedKeys := Filter(keys, IsNamedKey);
    FilterMember(keys, IsNamedKey, y);
    BeforeLeftOnly(a, namedKeys, x, y);
    var p, q :| 0 <= p < q < |a| && a[p] == x && a[q] == y;
    assert IndexOrderKey(a[p]) >= IndexOrderKey(a[q]);
  }

  lemma NamedNotBeforeIndex(keys: seq<string>, x: string, y: string)
    requires IsNamedKey(x) && IsArrayIndex(y)
    ensures !Before(EntryOrder(keys), x, y)
  {
    var indexKeys := Filter(keys, IsArrayIndex);
    var a := SortDesc(indexKeys, IndexOrderKey);
    var namedKeys := Filter(keys, IsNamedKey);
    IndexKeysSorted(keys);
    FilterMember(keys, IsNamedKey, y);
    if y in keys {
      FilterMember(keys, IsArrayIndex, y);
      assert y in multiset(a);
      NotBeforeLeft(a, namedKeys, x, y);
    } else {
      FilterMember(keys, IsArrayIndex, y);
      assert y !in multiset(a);
    }
  }

  lemma NamedTie(keys: seq<string>, x: string, y: string)
    requires Before(EntryOrder(keys), x, y)
    requires IsNamedKey(x) && IsNamedKey(y)
    ensures Before(Filter(keys, IsNamedKey), x, y)
  {
    var a := SortDesc(Filter(keys, IsArrayIndex), IndexOrderKey);
    IndexKeysSorted(keys);
    BeforeRight(a, Filter(keys, IsNamedKey), x, y);
  }

  /** Order in `a + b` involving an element that is not in `b` is order in `a`. */
  lemma BeforeLeftOnly(a: seq<string>, b: seq<string>, x: string, y: string)
    requires Before(a + b, x, y) && y !in b
    ensures Before(a, x, y)
  {
    var s := a + b;
    var i, j :| 0 <= i < j < |s| && s[i] == x && s[j] == y;
    assert a[i] == x && a[j] == y;
  }

  // ===========================================================================
  // Summary

  const TitleTemplate: string := "وثيقة بعنوان: "

  predicate IsTerminator(c: char)
  {
    c == '.' || c == '۔' || c == '।' || c == '!' || c == '؟'
  }

  predicate NotTerminator(c: char)
  {
    !IsTerminator(c)
  }

  predicate IsLongSpan(s: string)
  {
    |s| > 10
  }

  /** Each piece with its JavaScript whitespace cut off at both ends. */
  function TrimEach(pieces: seq<string>): (r: seq<string>)
    ensures |r| == |pieces|
    ensures forall i :: 0 <= i < |r| ==> Contains(pieces[i], r[i])
    ensures forall i :: 0 <= i < |r| && r[i] != [] ==> !IsJsSpace(r[i][0]) && !IsJsSpace(r[i][|r[i]| - 1])
    ensures forall i :: 0 <= i < |r| ==> IsTrimOf(pieces[i], r[i], true)
  {
    seq(|pieces|, i requires 0 <= i < |pieces| => Trim(pieces[i], true))
  }

  /** Sentence-like spans: split on terminators, trimmed, longer than ten characters. */
  function Spans(text: string): seq<string>
  {
    Filter(TrimEach(SplitEach(text, IsTerminator)), IsLongSpan)
  }

  /** Every span is longer than ten characters, holds no terminator and starts and ends
      with a character that is not whitespace. */
  lemma SpansWellFormed(text: string)
    ensures forall k :: 0 <= k < |Spans(text)| ==>
      |Spans(text)[k]| > 10 && AllChars(Spans(text)[k], NotTerminator)
      && !IsJsSpace(Spans(text)[k][0]) && !IsJsSpace(Spans(text)[k][|Spans(text)[k]| - 1])
  {
    var pieces := SplitEach(text, IsTerminator);
    var trimmed := TrimEach(pieces);
    var r := Filter(trimmed, IsLongSpan);
    forall k | 0 <= k < |r|
      ensures AllChars(r[k], NotTerminator) && !IsJsSpace(r[k][0]) && !IsJsSpace(r[k][|r[k]| - 1])
    {
      FilterMember(trimmed, IsLongSpan, r[k]);
      var i :| 0 <= i < |trimmed| && trimmed[i] == r[k];
      TrimAllChars(pieces[i], true, NotTerminator);
    }
  }

  function GenerateSummary(text: string, title: string): (r: string)
    ensures |text| < 20 ==> r == TitleTemplate + title
    ensures |text| >= 20 && Spans(text) == [] ==>
      r == "وثيقة " + title + " تحتوي على " + NatToString(|SplitRuns(text)|) + " كلمة"
    ensures |text| >= 20 && Spans(text) != [] ==> |r| <= 150
  {
    if |text| < 20 then TitleTemplate + title
    else
      var spans := Spans(text);
      if spans == [] then
        "وثيقة " + title + " تحتوي على " + NatToString(|SplitRuns(text)|) + " كلمة"
      else
        var joined := Join(Take(spans, 3), ". ");
        if |joined| > 150 then joined[..147] + "..." else joined
  }

  /** The first one, two or three parts joined by ". ", spelled out. */
  function JoinedFirstThree(s: seq<string>): string
    requires s != []
  {
    if |s| == 1 then s[0]
    else if |s| == 2 then s[0] + ". " + s[1]
    else s[0] + ". " + s[1] + ". " + s[2]
  }

  lemma JoinTakeThree(s: seq<string>)
    requires s != []
    ensures Join(Take(s, 3), ". ") == JoinedFirstThree(s)
  {
    var parts := Take(s, 3);
    if |s| == 1 {
      assert parts == [s[0]];
    } else if |s| == 2 {
      assert parts == [s[0], s[1]];
      assert parts[1..] == [s[1]];
    } else {
      assert parts == [s[0], s[1], s[2]];
      assert parts[1..] == [s[1], s[2]];
      assert parts[1..][1..] == [s[2]];
      assert Join(parts[1..], ". ") == s[1] + ". " + s[2];
    }
  }

  /** A summary built from spans is the first one, two or three spans, joined by ". ",
      and cut to 147 characters plus "..." when that is longer than 150. */
  lemma SummaryOfSpans(text: string, title: string)
    requires |text| >= 20 && Spans(text) != []
    ensures var joined := JoinedFirstThree(Spans(text));
      GenerateSummary(text, title) == if |joined| <= 150 then joined else joined[..147] + "..."
  {
    JoinTakeThree(Spans(text));
  }

  // ===========================================================================
  // Labelled-field extraction: the regular expression LABEL[:\s]+([^\n.،]+) with /i

  const OwnerLabels: seq<string> := ["اسم المالك", "المالك", "صاحب العقار", "owner"]
  const LocationLabels: seq<string> := ["الموقع", "العنوان", "المنطقة", "location", "address"]

  predicate IsSeparator(c: char)
  {
    c == ':' || IsJsSpace(c)
  }

  predicate IsCaptureChar(c: char)
  {
    c != '\n' && c != '.' && c != '،'
  }

  /** The label occurs at `p`, ignoring ASCII case (labels are written in lower case). */
  predicate LabelAt(text: string, tag: string, p: nat)
  {
    p + |tag| <= |text| && Lower(text[p..p + |tag|]) == tag
  }

  /** The length of the longest run of characters satisfying `ok` that starts at `i`. */
  function RunLength(text: string, i: nat, ok: char -> bool): (n: nat)
    requires i <= |text|
    ensures i + n <= |text|
    ensures forall k :: i <= k < i + n ==> ok(text[k])
    ensures i + n == |text| || !ok(text[i + n])
    decreases |text| - i
  {
    if i < |text| && ok(text[i]) then 1 + RunLength(text, i + 1, ok) else 0
  }

  /** The last position in `(lo, hi]` where a capture can start. */
  function LastCaptureStart(text: string, lo: nat, hi: nat): (r: Option<nat>)
    ensures r.Some? ==> lo < r.value <= hi && r.value < |text| && IsCaptureChar(text[r.value])
    ensures forall e :: (if r.Some? then r.value else lo) < e <= hi && e < |text| ==> !IsCaptureChar(text[e])
    decreases hi
  {
    if hi <= lo then None
    else if hi < |text| && IsCaptureChar(text[hi]) then Some(hi)
    else LastCaptureStart(text, lo, hi - 1)
  }

  /** A way the expression can match at `p`: the label, a non-empty run of separators
      up to `e`, then the non-empty capture `text[e..f]`. */
  predicate ValidMatch(text: string, tag: string, p: nat, e: nat, f: nat)
  {
    LabelAt(text, tag, p) && p + |tag| < e < f <= |text|
    && (forall k :: p + |tag| <= k < e ==> IsSeparator(text[k]))
    && (forall k :: e <= k < f ==> IsCaptureChar(text[k]))
  }

  /** The bounds of the capture when the expression matches at `p`. Backtracking tries
      the separator run from longest to shortest, and the capture is greedy. */
  function MatchAt(text: string, tag: string, p: nat): (r: Option<(nat, nat)>)
    requires p <= |text|
    ensures r.Some? ==> ValidMatch(text, tag, p, r.value.0, r.value.1)
  {
    if !LabelAt(text, tag, p) then None
    else
      var q := p + |tag|;
      var m := RunLength(text, q, IsSeparator);
      if m == 0 then None
      else
        match LastCaptureStart(text, q, q + m)
        case None => None
        case Some(e) => Some((e, e + RunLength(text, e, IsCaptureChar)))
  }

  /** `MatchAt` misses only when no match exists at `p`, and picks the match
      backtracking prefers: the longest separator run, then the longest capture. */
  lemma MatchAtIsPreferred(text: string, tag: string, p: nat)
    requires p <= |text|
    ensures MatchAt(text, tag, p).None? ==> forall e: nat, f: nat :: !ValidMatch(text, tag, p, e, f)
    ensures MatchAt(text, tag, p).Some? ==>
      forall e: nat, f: nat :: ValidMatch(text, tag, p, e, f) ==>
        e < MatchAt(text, tag, p).value.0
        || (e == MatchAt(text, tag, p).value.0 && f <= MatchAt(text, tag, p).value.1)
  {
    if LabelAt(text, tag, p) {
      var q := p + |tag|;
      var m := RunLength(text, q, IsSeparator);
      forall e: nat, f: nat | ValidMatch(text, tag, p, e, f)
        ensures e <= q + m && e < |text| && IsCaptureChar(text[e])
      {
      }
      if m > 0 {
        var last := LastCaptureStart(text, q, q + m);
        if last.Some? {
          var e0 := last.value;
          var f0 := e0 + RunLength(text, e0, IsCaptureChar);
          forall e: nat, f: nat | ValidMatch(text, tag, p, e, f) ensures e < e0 || (e == e0 && f <= f0) {
          }
        }
      }
    }
  }

  /** The capture of the match at `p`. */
  function CaptureOf(text: string, tag: string, p: nat): (c: string)
    requires p <= |text| && MatchAt(text, tag, p).Some?
    ensures c != [] && AllChars(c, IsCaptureChar)
  {
    text[MatchAt(text, tag, p).value.0..MatchAt(text, tag, p).value.1]
  }

  /** The first position in `[lo, hi]` where `hit` holds. */
  function Leftmost(hit: nat -> bool, lo: nat, hi: nat): (r: Option<nat>)
    ensures r.None? <==> forall p: nat :: lo <= p <= hi ==> !hit(p)
    ensures r.Some? ==> lo <= r.value <= hi && hit(r.value)
    ensures r.Some? ==> forall p: nat :: lo <= p < r.value ==> !hit(p)
    decreases hi - lo
  {
    if lo > hi then None
    else if hit(lo) then Some(lo)
    else Leftmost(hit, lo + 1, hi)
  }

  /** The positions where the expression matches. */
  function MatchesAt(text: string, tag: string): nat -> bool
  {
    (p: nat) => p <= |text| && MatchAt(text, tag, p).Some?
  }

  /** JavaScript `String.prototype.match` without the global flag: the engine tries the
      positions from left to right and returns the capture group of the first match. */
  function RegexMatch(text: string, tag: string): Option<string>
  {
    match Leftmost(MatchesAt(text, tag), 0, |text|)
    case None => None
    case Some(p) => Some(CaptureOf(text, tag, p))
  }

  /** `p` is the leftmost position where the expression matches. */
  predicate LeftmostMatch(text: string, tag: string, p: nat)
  {
    p <= |text| && MatchAt(text, tag, p).Some?
    && forall p': nat :: p' < p ==> MatchAt(text, tag, p').None?
  }

  /** The search misses exactly when the expression matches nowhere. */
  lemma RegexMatchMisses(text: string, tag: string)
    ensures RegexMatch(text, tag).None? <==>
      forall p: nat :: p <= |text| ==> MatchAt(text, tag, p).None?
  {
    var hit := MatchesAt(text, tag);
    if Leftmost(hit, 0, |text|).None? {
      forall p: nat | p <= |text| ensures MatchAt(text, tag, p).None? {
        assert !hit(p);
      }
    }
  }

  /** When the search succeeds, it returns the capture of the leftmost match. */
  lemma RegexMatchIsLeftmost(text: string, tag: string)
    ensures RegexMatch(text, tag).Some? ==>
      exists p: nat :: LeftmostMatch(text, tag, p) && RegexMatch(text, tag).value == CaptureOf(text, tag, p)
  {
    var hit := MatchesAt(text, tag);
    var r := Leftmost(hit, 0, |text|);
    if r.Some? {
      forall p: nat | p < r.value ensures MatchAt(text, tag, p).None? {
        assert !hit(p);
      }
      assert LeftmostMatch(text, tag, r.value);
    }
  }

  /** A capture is never empty and never holds a line break, a full stop or an Arabic comma. */
  lemma RegexCapture(text: string, tag: string)
    ensures RegexMatch(text, tag).Some? ==>
      RegexMatch(text, tag).value != [] && AllChars(RegexMatch(text, tag).value, IsCaptureChar)
  {
  }

  predicate MatchesNone(text: string, labels: seq<string>)
  {
    NoneBefore(text, labels, |labels|)
  }

  /** No label before position `k` matches. */
  predicate NoneBefore(text: string, labels: seq<string>, k: nat)
  {
    forall j :: 0 <= j < k && j < |labels| ==> RegexMatch(text, labels[j]).None?
  }

  /** Label `k` is the first, in table order, whose expression matches. */
  predicate IsFirstHit(text: string, labels: seq<string>, k: nat)
  {
    k < |labels| && RegexMatch(text, labels[k]).Some? && NoneBefore(text, labels, k)
  }

  /** The extractors' promise: the trimmed capture of the first label whose expression
      matches, or nothing when none does. */
  ghost predicate IsFirstLabelMatch(text: string, labels: seq<string>, r: Option<string>)
  {
    (r.None? && MatchesNone(text, labels))
    || exists k: nat :: IsFirstHit(text, labels, k) && r == Some(Trim(RegexMatch(text, labels[k]).value, true))
  }

  method ExtractLabelled(text: string, labels: seq<string>) returns (r: Option<string>)
    ensures IsFirstLabelMatch(text, labels, r)
  {
    for k := 0 to |labels|
      invariant NoneBefore(text, labels, k)
    {
      var m := RegexMatch(text, labels[k]);
      RegexCapture(text, labels[k]);
      if m.Some? && m.value != [] {
        assert IsFirstHit(text, labels, k);
        return Some(Trim(m.value, true));
      }
      assert NoneBefore(text, labels, k + 1);
    }
    return None;
  }

  method ExtractOwnerName(text: string) returns (r: Option<string>)
    ensures IsFirstLabelMatch(text, OwnerLabels, r)
  {
    r := ExtractLabelled(text, OwnerLabels);
  }

  method ExtractLocation(text: string) returns (r: Option<string>)
    ensures IsFirstLabelMatch(text, LocationLabels, r)
  {
    r := ExtractLabelled(text, LocationLabels);
  }

  /** An extracted value never holds a line break, a full stop or an Arabic comma. */
  lemma ExtractedHasNoBreaks(text: string, labels: seq<string>, s: string)
    requires IsFirstLabelMatch(text, labels, Some(s))
    ensures AllChars(s, IsCaptureChar)
  {
    var k: nat :| IsFirstHit(text, labels, k) && Some(s) == Some(Trim(RegexMatch(text, labels[k]).value, true));
    RegexCapture(text, labels[k]);
    TrimAllChars(RegexMatch(text, labels[k]).value, true, IsCaptureChar);
  }

  /** The extractors' result is determined by the text. */
  lemma FirstLabelMatchUnique(text: string, labels: seq<string>, r1: Option<string>, r2: Option<string>)
    requires IsFirstLabelMatch(text, labels, r1) && IsFirstLabelMatch(text, labels, r2)
    ensures r1 == r2
  {
    if r1.Some? && r2.Some? {
      var k1: nat :| IsFirstHit(text, labels, k1) && r1 == Some(Trim(RegexMatch(text, labels[k1]).value, true));
      var k2: nat :| IsFirstHit(text, labels, k2) && r2 == Some(Trim(RegexMatch(text, labels[k2]).value, true));
      FirstHitUnique(text, labels, k1, k2);
    }
  }

  lemma FirstHitUnique(text: string, labels: seq<string>, k1: nat, k2: nat)
    requires IsFirstHit(text, labels, k1) && IsFirstHit(text, labels, k2)
    ensures k1 == k2
  {
  }

  // ===========================================================================
  // Land type

  const LandTypeTable: Table := [
    ("زراعية", ["زراعة", "زراعي", "مزرعة", "agricultural", "farm"]),
    ("سكنية", ["سكني", "سكن", "منزل", "بيت", "residential", "housing"]),
    ("تجارية", ["تجاري", "محل", "commercial", "business"]),
    ("صناعية", ["صناعي", "مصنع", "industrial", "factory"])
  ]

  predicate HasAny(hay: string, keywords: seq<string>)
  {
    exists k :: 0 <= k < |keywords| && Contains(hay, keywords[k])
  }

  /** Row `i` is the first, in table order, with a keyword in `hay`. */
  predicate IsFirstRow(table: Table, hay: string, i: nat)
  {
    i < |table| && HasAny(hay, table[i].1)
    && forall j :: 0 <= j < i ==> !HasAny(hay, table[j].1)
  }

  /** The lookup's promise: the name of the first row with a keyword in the lowered
      text, or nothing when no keyword occurs. */
  ghost predicate IsFirstTableHit(table: Table, hay: string, r: Option<string>)
  {
    (r.None? && forall i :: 0 <= i < |table| ==> !HasAny(hay, table[i].1))
    || exists i: nat :: IsFirstRow(table, hay, i) && r == Some(table[i].0)
  }

  method ExtractLandType(text: string) returns (r: Option<string>)
    ensures IsFirstTableHit(LandTypeTable, Lower(text), r)
    ensures Present(r) == r
  {
    var table := LandTypeTable;
    var lowerText := Lower(text);
    for i := 0 to |table|
      invariant forall j :: 0 <= j < i ==> !HasAny(lowerText, table[j].1)
    {
      var keywords := table[i].1;
      for k := 0 to |keywords|
        invariant forall m :: 0 <= m < k ==> !Contains(lowerText, keywords[m])
      {
        if Contains(lowerText, keywords[k]) {
          assert IsFirstRow(table, lowerText, i);
          return Some(table[i].0);
        }
      }
    }
    return None;
  }

  /** The lookup is determined by the text and names a row of the table. */
  lemma FirstTableHitUnique(table: Table, hay: string, r1: Option<string>, r2: Option<string>)
    requires IsFirstTableHit(table, hay, r1) && IsFirstTableHit(table, hay, r2)
    ensures r1 == r2
    ensures r1.Some? ==> exists i :: 0 <= i < |table| && table[i].0 == r1.value
  {
  }

  // ===========================================================================
  // The pipeline

  /** What happened on the image path: the temporary file write, the OCR call (absent
      when it failed, which the OCR wrapper turns into an empty text) and the clean-up. */
  datatype ImageIo = ImageIo(tempWritten: bool, ocr: Option<string>, tempDeleted: bool)

  datatype Enrichment = Enrichment(
    extractedText: string,
    summary: string,
    autoCategory: string,
    keywords: seq<string>,
    ownerName: Option<string>,
    location: Option<string>,
    landType: Option<string>)

  /** The OCR wrapper: the recognised text, or empty text when recognition failed. */
  function ExtractTextFromImage(ocr: Option<string>): string
  {
    match ocr
    case Some(t) => t
    case None => ""
  }

  /** The text the pipeline works on, before truncation. */
  function SourceText(fileType: string, title: string, io: ImageIo): string
  {
    if fileType == "image" then ExtractTextFromImage(io.ocr)
    else if fileType == "pdf" || fileType == "word" then "وثيقة " + fileType + " بعنوان: " + title
    else ""
  }

  /** The degraded result returned when a step throws. */
  function Degraded(title: string): Enrichment
  {
    Enrichment("", "وثيقة " + title, OtherCategory, [], None, None, None)
  }

  /** JavaScript's `...(value && { field: value })`: present only when non-empty. */
  function Present(v: Option<string>): Option<string>
  {
    if v.Some? && v.value != [] then v else None
  }

  predicate Fails(fileType: string, io: ImageIo)
  {
    fileType == "image" && !(io.tempWritten && io.tempDeleted)
  }

  /** An optional field as the record carries it: the extractor's answer when that is
      a non-empty string, and absent otherwise. */
  ghost predicate PresentLabelField(text: string, labels: seq<string>, v: Option<string>)
  {
    exists m :: IsFirstLabelMatch(text, labels, m) && v == Present(m)
  }

  /** Everything the record holds when no step threw, in terms of the source text. */
  ghost predicate Enriched(text: string, title: string, r: Enrichment)
  {
    && r.extractedText == Take(text, 5000)
    && r.summary == GenerateSummary(text, title)
    && IsBestCategory(CategoryTable, ClassifierInput(text, title), r.autoCategory)
    && r.keywords == Keywords(text)
    && PresentLabelField(text, OwnerLabels, r.ownerName)
    && PresentLabelField(text, LocationLabels, r.location)
    && IsFirstTableHit(LandTypeTable, Lower(text), r.landType)
  }

  method ProcessDocumentWithLocalAI(fileType: string, title: string, io: ImageIo) returns (r: Enrichment)
    ensures |r.extractedText| <= 5000
    ensures Fails(fileType, io) ==> r == Degraded(title)
    ensures !Fails(fileType, io) ==> Enriched(SourceText(fileType, title, io), title, r)
  {
    if Fails(fileType, io) {
      return Degraded(title);
    }
    var extractedText := SourceText(fileType, title, io);
    var autoCategory := ClassifyDocument(extractedText, title);
    var summary := GenerateSummary(extractedText, title);
    var keywords := ExtractKeywords(extractedText);
    var ownerName := ExtractOwnerName(extractedText);
    var location := ExtractLocation(extractedText);
    var landType := ExtractLandType(extractedText);
    r := Enrichment(Take(extractedText, 5000), summary, autoCategory, keywords,
                    Present(ownerName), Present(location), Present(landType));
    assert PresentLabelField(extractedText, OwnerLabels, r.ownerName);
    assert PresentLabelField(extractedText, LocationLabels, r.location);
  }
}
