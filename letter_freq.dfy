/** letter_freq.py: the word list bucketed by length, the five-letter words
    classified as non-words, past tenses, plurals or counted words, the
    letter tallies over the counted words, and `most_common`. */
module LetterFreq {
  import opened Common

  // ---------------------------------------------------------------------
  // Bucketing by length, over the already stripped lines of the word list

  /** The distinct lines of length len. */
  function Bucket(lines: seq<string>, len: nat): set<string> {
    set l | l in lines && |l| == len
  }

  /** The loop filling `words3`, `words4` and `words5`. */
  method BucketLines(lines: seq<string>) returns (words3: set<string>, words4: set<string>, words5: set<string>)
    ensures words3 == Bucket(lines, 3) && words4 == Bucket(lines, 4) && words5 == Bucket(lines, WordLength)
  {
    words3, words4, words5 := {}, {}, {};
    for i := 0 to |lines|
      invariant words3 == Bucket(lines[..i], 3) && words4 == Bucket(lines[..i], 4)
      invariant words5 == Bucket(lines[..i], WordLength)
    {
      var word := lines[i];
      assert lines[..i + 1] == lines[..i] + [word];
      if |word| == 3 {
        words3 := words3 + {word};
      }
      if |word| == 4 {
        words4 := words4 + {word};
      } else if |word| == WordLength {
        words5 := words5 + {word};
      }
    }
    assert lines[..|lines|] == lines;
  }

  // ---------------------------------------------------------------------
  // Classification

  /** `re.match('[a-z]{5}', word)`: the first five characters are lower-case
      letters (a prefix match; the rest of the word is not looked at). */
  predicate LowerPrefix(w: string) {
    |w| >= WordLength && forall i | 0 <= i < WordLength :: IsLower(w[i])
  }

  /** Past tense: ends in "ed" after a known three-letter word. */
  predicate Past(w: string, words3: set<string>)
    requires |w| == WordLength
  {
    w[3..] == "ed" && w[..3] in words3
  }

  /** Plural: ends in 's' after a known four-letter word. */
  predicate Plural(w: string, words4: set<string>)
    requires |w| == WordLength
  {
    w[4] == 's' && w[..4] in words4
  }

  /** No five-letter word is both a past tense and a plural: one ends in 'd',
      the other in 's'. So the order of the two tests does not matter. */
  lemma PastPluralDisjoint(w: string, words3: set<string>, words4: set<string>)
    requires |w| == WordLength
    ensures !(Past(w, words3) && Plural(w, words4))
  {
  }

  datatype Category = NonWord | PastTense | PluralForm | Counted

  /** Which counter a five-letter word increments; the tests run in the
      source's order, so a past tense is never counted as a plural. */
  function Classify(w: string, words3: set<string>, words4: set<string>): (k: Category)
    requires |w| == WordLength
    ensures k == NonWord <==> !IsWord(w)
    ensures k == PastTense <==> IsWord(w) && Past(w, words3)
    ensures k == PluralForm <==> IsWord(w) && !Past(w, words3) && Plural(w, words4)
    ensures k == Counted <==> IsWord(w) && !Past(w, words3) && !Plural(w, words4)
  {
    if !LowerPrefix(w) then NonWord
    else if Past(w, words3) then PastTense
    else if Plural(w, words4) then PluralForm
    else Counted
  }

  /** The five-letter words of s in category k. */
  function InCategory(s: set<string>, words3: set<string>, words4: set<string>, k: Category): set<string> {
    set w | w in s && |w| == WordLength && Classify(w, words3, words4) == k
  }

  /** The five-letter words of s with c at position i. */
  function WithAt(s: set<string>, i: nat, c: char): set<string>
    requires i < WordLength
  {
    set w | w in s && |w| == WordLength && w[i] == c
  }

  /** The words of s containing c. */
  function WithLetter(s: set<string>, c: char): set<string> {
    set w | w in s && c in w
  }

  lemma InCategoryAdd(s: set<string>, x: string, words3: set<string>, words4: set<string>, k: Category)
    requires x !in s && |x| == WordLength
    ensures |InCategory(s + {x}, words3, words4, k)|
            == |InCategory(s, words3, words4, k)| + (if Classify(x, words3, words4) == k then 1 else 0)
  {
    if Classify(x, words3, words4) == k {
      assert InCategory(s + {x}, words3, words4, k) == InCategory(s, words3, words4, k) + {x};
    } else {
      assert InCategory(s + {x}, words3, words4, k) == InCategory(s, words3, words4, k);
    }
  }

  lemma WithAtAdd(s: set<string>, x: string, i: nat, c: char)
    requires x !in s && |x| == WordLength && i < WordLength
    ensures |WithAt(s + {x}, i, c)| == |WithAt(s, i, c)| + (if x[i] == c then 1 else 0)
  {
    if x[i] == c {
      assert WithAt(s + {x}, i, c) == WithAt(s, i, c) + {x};
    } else {
      assert WithAt(s + {x}, i, c) == WithAt(s, i, c);
    }
  }

  lemma WithLetterAdd(s: set<string>, x: string, c: char)
    requires x !in s
    ensures |WithLetter(s + {x}, c)| == |WithLetter(s, c)| + (if c in x then 1 else 0)
  {
    if c in x {
      assert WithLetter(s + {x}, c) == WithLetter(s, c) + {x};
    } else {
      assert WithLetter(s + {x}, c) == WithLetter(s, c);
    }
  }

  /** The four counters. */
  datatype Tallies = Tallies(nonwords: nat, npast: nat, nplurals: nat, nwords: nat)

  /** Each five-letter word is in exactly one category, so the four counts
      add up to the number of five-letter words. */
  lemma {:induction false} CategoriesPartition(s: set<string>, words3: set<string>, words4: set<string>)
    requires forall w | w in s :: |w| == WordLength
    ensures |InCategory(s, words3, words4, NonWord)| + |InCategory(s, words3, words4, PastTense)|
            + |InCategory(s, words3, words4, PluralForm)| + |InCategory(s, words3, words4, Counted)| == |s|
    decreases |s|
  {
    if s == {} {
      assert InCategory(s, words3, words4, NonWord) == {} && InCategory(s, words3, words4, PastTense) == {};
      assert InCategory(s, words3, words4, PluralForm) == {} && InCategory(s, words3, words4, Counted) == {};
    } else {
      var x :| x in s;
      var rest := s - {x};
      CategoriesPartition(rest, words3, words4);
      assert s == rest + {x};
      InCategoryAdd(rest, x, words3, words4, NonWord);
      InCategoryAdd(rest, x, words3, words4, PastTense);
      InCategoryAdd(rest, x, words3, words4, PluralForm);
      InCategoryAdd(rest, x, words3, words4, Counted);
    }
  }

  // ---------------------------------------------------------------------
  // The tallies

  /** Sum of a tally over the first n letters of the alphabet. */
  function LetterSum(m: map<char, nat>, n: nat): nat
    requires n <= Letters
  {
    if n == 0 then 0 else LetterSum(m, n - 1) + Get(m, Letter(n - 1), 0)
  }

  /** Sum over the first n letters of the number of words with that letter
      at position i. */
  function PositionSum(s: set<string>, i: nat, n: nat): nat
    requires i < WordLength && n <= Letters
  {
    if n == 0 then 0 else PositionSum(s, i, n - 1) + |WithAt(s, i, Letter(n - 1))|
  }

  lemma {:induction false} PositionSumAdd(s: set<string>, x: string, i: nat, n: nat)
    requires x !in s && IsWord(x) && i < WordLength && n <= Letters
    ensures PositionSum(s + {x}, i, n) == PositionSum(s, i, n) + (if Index(x[i]) < n then 1 else 0)
  {
    if n > 0 {
      PositionSumAdd(s, x, i, n - 1);
      WithAtAdd(s, x, i, Letter(n - 1));
    }
  }

  /** Every word has exactly one letter at position i, so the per-letter
      counts at i add up to the number of words. */
  lemma {:induction false} PositionsPartition(s: set<string>, i: nat)
    requires i < WordLength && forall w | w in s :: IsWord(w)
    ensures PositionSum(s, i, Letters) == |s|
    decreases |s|
  {
    if s == {} {
      EmptySum(i, Letters);
    } else {
      var x :| x in s;
      var rest := s - {x};
      PositionsPartition(rest, i);
      assert s == rest + {x};
      PositionSumAdd(rest, x, i, Letters);
    }
  }

  lemma {:induction false} EmptySum(i: nat, n: nat)
    requires i < WordLength && n <= Letters
    ensures PositionSum({}, i, n) == 0
  {
    if n > 0 {
      EmptySum(i, n - 1);
      assert WithAt({}, i, Letter(n - 1)) == {};
    }
  }

  /** A tally that agrees letter by letter with the position counts has the
      same sum. */
  lemma {:induction false} LetterSumIsPositionSum(m: map<char, nat>, s: set<string>, i: nat, n: nat)
    requires i < WordLength && n <= Letters
    requires forall c :: Get(m, c, 0) == |WithAt(s, i, c)|
    ensures LetterSum(m, n) == PositionSum(s, i, n)
  {
    if n > 0 {
      LetterSumIsPositionSum(m, s, i, n - 1);
    }
  }

  /** `freqsi[i]` adds up to the number of counted words. */
  lemma PositionTallySum(m: map<char, nat>, s: set<string>, i: nat)
    requires i < WordLength && forall w | w in s :: IsWord(w)
    requires forall c :: Get(m, c, 0) == |WithAt(s, i, c)|
    ensures LetterSum(m, Letters) == |s|
  {
    LetterSumIsPositionSum(m, s, i, Letters);
    PositionsPartition(s, i);
  }

  /** A letter is counted at most once per word, so `freqs[c]` never exceeds
      the number of counted words. */
  lemma LetterTallyBound(s: set<string>, c: char)
    ensures |WithLetter(s, c)| <= |s|
  {
    SubsetCard(WithLetter(s, c), s);
  }

  lemma {:induction false} SubsetCard(a: set<string>, b: set<string>)
    requires a <= b
    ensures |a| <= |b|
    decreases |b|
  {
    if b != {} {
      var x :| x in b;
      SubsetCard(a - {x}, b - {x});
    }
  }

  /** `m[c] += 1` on a tally with default 0. */
  function Bumped(m: map<char, nat>, c: char): (r: map<char, nat>)
    ensures forall c' :: Get(r, c', 0) == Get(m, c', 0) + (if c' == c then 1 else 0)
    ensures r.Keys == m.Keys + {c}
  {
    m[c := Get(m, c, 0) + 1]
  }

  /** One counted word: `freqsi[i][word[i]]` up by one for each position,
      and `freqs[c]` up by one for each distinct letter c of the word. */
  method CountWord(freqs: map<char, nat>, freqsi: seq<map<char, nat>>, word: string)
    returns (freqs': map<char, nat>, freqsi': seq<map<char, nat>>)
    requires |freqsi| == WordLength && IsWord(word)
    ensures |freqsi'| == WordLength
    ensures forall i, c | 0 <= i < WordLength :: Get(freqsi'[i], c, 0) == Get(freqsi[i], c, 0) + (if word[i] == c then 1 else 0)
    ensures forall c :: Get(freqs', c, 0) == Get(freqs, c, 0) + (if c in word then 1 else 0)
    ensures forall i | 0 <= i < WordLength :: freqsi'[i].Keys == freqsi[i].Keys + {word[i]}
    ensures freqs'.Keys == freqs.Keys + (set c | c in word)
  {
    freqsi' := CountPositions(freqsi, word);
    freqs' := CountLetters(freqs, word);
  }

  /** The position loop: `freqsi[i][word[i]] += 1` for each i. */
  method CountPositions(freqsi: seq<map<char, nat>>, word: string) returns (freqsi': seq<map<char, nat>>)
    requires |freqsi| == WordLength && IsWord(word)
    ensures |freqsi'| == WordLength
    ensures forall i, c | 0 <= i < WordLength :: Get(freqsi'[i], c, 0) == Get(freqsi[i], c, 0) + (if word[i] == c then 1 else 0)
    ensures forall i | 0 <= i < WordLength :: freqsi'[i].Keys == freqsi[i].Keys + {word[i]}
  {
    freqsi' := freqsi;
    for i := 0 to WordLength
      invariant |freqsi'| == WordLength
      invariant forall j, c | 0 <= j < WordLength :: Get(freqsi'[j], c, 0) == Get(freqsi[j], c, 0) + (if j < i && word[j] == c then 1 else 0)
      invariant forall j | 0 <= j < WordLength :: freqsi'[j].Keys == freqsi[j].Keys + (if j < i then {word[j]} else {})
    {
      freqsi' := freqsi'[i := Bumped(freqsi'[i], word[i])];
    }
  }

  /** The letter loop: `freqs[c] += 1` for each distinct letter c. */
  method CountLetters(freqs: map<char, nat>, word: string) returns (freqs': map<char, nat>)
    ensures forall c :: Get(freqs', c, 0) == Get(freqs, c, 0) + (if c in word then 1 else 0)
    ensures freqs'.Keys == freqs.Keys + (set c | c in word)
  {
    freqs' := freqs;
    var letters := set c | c in word;
    ghost var all := letters;
    while letters != {}
      invariant letters <= all
      invariant LettersAdded(freqs', freqs, all - letters)
      decreases letters
    {
      var c :| c in letters;
      AddLetter(freqs', freqs, all - letters, c);
      freqs' := Bumped(freqs', c);
      letters := letters - {c};
      assert all - letters == (all - (letters + {c})) + {c};
    }
    assert all - letters == all;
  }

  /** f' is f with every letter of s counted once more. */
  predicate LettersAdded(f': map<char, nat>, f: map<char, nat>, s: set<char>) {
    && (forall c :: Get(f', c, 0) == Get(f, c, 0) + (if c in s then 1 else 0))
    && f'.Keys == f.Keys + s
  }

  lemma AddLetter(f': map<char, nat>, f: map<char, nat>, s: set<char>, c: char)
    requires LettersAdded(f', f, s) && c !in s
    ensures LettersAdded(Bumped(f', c), f, s + {c})
  {
  }

  /** The counters after the words of `seen` have been visited: each is the
      size of its category. */
  predicate CountersAgree(t: Tallies, seen: set<string>, words3: set<string>, words4: set<string>) {
    && t.nonwords == |InCategory(seen, words3, words4, NonWord)|
    && t.npast == |InCategory(seen, words3, words4, PastTense)|
    && t.nplurals == |InCategory(seen, words3, words4, PluralForm)|
    && t.nwords == |InCategory(seen, words3, words4, Counted)|
  }

  /** The tallies over a set of counted words: `freqsi[i][c]` is the number
      of them with c at position i, `freqs[c]` the number containing c; a
      letter is a key exactly when it was seen there, and only lower-case
      letters are keys. */
  predicate TalliesAgree(freqs: map<char, nat>, freqsi: seq<map<char, nat>>, counted: set<string>) {
    && |freqsi| == WordLength
    && (forall i, c | 0 <= i < WordLength :: Get(freqsi[i], c, 0) == |WithAt(counted, i, c)|)
    && (forall c :: Get(freqs, c, 0) == |WithLetter(counted, c)|)
    && (forall i, c | 0 <= i < WordLength :: c in freqsi[i] <==> |WithAt(counted, i, c)| > 0)
    && (forall c :: c in freqs <==> |WithLetter(counted, c)| > 0)
    && (forall i, c | 0 <= i < WordLength && c in freqsi[i] :: IsLower(c))
    && (forall c | c in freqs :: IsLower(c))
  }

  /** The state of the main loop after the words of `seen`. */
  predicate Summarises(t: Tallies, freqs: map<char, nat>, freqsi: seq<map<char, nat>>,
                       seen: set<string>, words3: set<string>, words4: set<string>)
  {
    CountersAgree(t, seen, words3, words4) && TalliesAgree(freqs, freqsi, InCategory(seen, words3, words4, Counted))
  }

  /** The main loop over `words5`, in whatever order the set yields its
      words. */
  method Tally(words3: set<string>, words4: set<string>, words5: set<string>)
    returns (t: Tallies, freqs: map<char, nat>, freqsi: seq<map<char, nat>>)
    requires forall w | w in words5 :: |w| == WordLength
    ensures Summarises(t, freqs, freqsi, words5, words3, words4)
  {
    t := Tallies(0, 0, 0, 0);
    freqs := map[];
    freqsi := seq(WordLength, _ => map[]);
    var rest := words5;
    ghost var done: set<string> := {};
    NothingSeen(words3, words4);
    while rest != {}
      invariant rest <= words5 && done == words5 - rest
      invariant Summarises(t, freqs, freqsi, done, words3, words4)
      decreases |rest|
    {
      var word :| word in rest;
      rest := rest - {word};
      t, freqs, freqsi := Visit(t, freqs, freqsi, word, done, words3, words4);
      done := done + {word};
    }
    assert done == words5;
  }

  /** Before the loop, everything is zero. */
  lemma NothingSeen(words3: set<string>, words4: set<string>)
    ensures Summarises(Tallies(0, 0, 0, 0), map[], seq(WordLength, _ => map[]), {}, words3, words4)
  {
    forall k ensures InCategory({}, words3, words4, k) == {} {
    }
    forall i, c | 0 <= i < WordLength ensures WithAt({}, i, c) == {} {
    }
  }

  /** The loop body for one word: it bumps one counter, and a counted word
      feeds the tallies. */
  method Visit(t: Tallies, freqs: map<char, nat>, freqsi: seq<map<char, nat>>, word: string,
               ghost seen: set<string>, words3: set<string>, words4: set<string>)
    returns (t': Tallies, freqs': map<char, nat>, freqsi': seq<map<char, nat>>)
    requires word !in seen && |word| == WordLength
    requires Summarises(t, freqs, freqsi, seen, words3, words4)
    ensures Summarises(t', freqs', freqsi', seen + {word}, words3, words4)
  {
    t', freqs', freqsi' := Bump(t, Classify(word, words3, words4)), freqs, freqsi;
    if !LowerPrefix(word) {
      SkipKeeps(t, freqs, freqsi, seen, word, words3, words4);
      return;
    }
    if word[3..] == "ed" && word[..3] in words3 {
      SkipKeeps(t, freqs, freqsi, seen, word, words3, words4);
      return;
    }
    if word[4] == 's' && word[..4] in words4 {
      SkipKeeps(t, freqs, freqsi, seen, word, words3, words4);
      return;
    }
    freqs', freqsi' := CountWord(freqs, freqsi, word);
    CountKeeps(t, freqs, freqsi, freqs', freqsi', seen, word, words3, words4);
  }

  /** The counter for category k, one up. */
  function Bump(t: Tallies, k: Category): Tallies {
    match k
    case NonWord => t.(nonwords := t.nonwords + 1)
    case PastTense => t.(npast := t.npast + 1)
    case PluralForm => t.(nplurals := t.nplurals + 1)
    case Counted => t.(nwords := t.nwords + 1)
  }

  /** A skipped word moves only its own counter. */
  lemma SkipKeeps(t: Tallies, freqs: map<char, nat>, freqsi: seq<map<char, nat>>, seen: set<string>,
                  word: string, words3: set<string>, words4: set<string>)
    requires word !in seen && |word| == WordLength && Classify(word, words3, words4) != Counted
    requires Summarises(t, freqs, freqsi, seen, words3, words4)
    ensures Summarises(Bump(t, Classify(word, words3, words4)), freqs, freqsi, seen + {word}, words3, words4)
  {
    StepCategories(seen, word, words3, words4);
  }

  /** A counted word moves the word counter and the tallies by its letters. */
  lemma CountKeeps(t: Tallies, freqs: map<char, nat>, freqsi: seq<map<char, nat>>,
                   freqs': map<char, nat>, freqsi': seq<map<char, nat>>, seen: set<string>,
                   word: string, words3: set<string>, words4: set<string>)
    requires word !in seen && |word| == WordLength && Classify(word, words3, words4) == Counted
    requires Summarises(t, freqs, freqsi, seen, words3, words4)
    requires |freqsi'| == WordLength
    requires forall i, c | 0 <= i < WordLength :: Get(freqsi'[i], c, 0) == Get(freqsi[i], c, 0) + (if word[i] == c then 1 else 0)
    requires forall c :: Get(freqs', c, 0) == Get(freqs, c, 0) + (if c in word then 1 else 0)
    requires forall i | 0 <= i < WordLength :: freqsi'[i].Keys == freqsi[i].Keys + {word[i]}
    requires freqs'.Keys == freqs.Keys + (set c | c in word)
    ensures Summarises(Bump(t, Counted), freqs', freqsi', seen + {word}, words3, words4)
  {
    StepCategories(seen, word, words3, words4);
    var counted := InCategory(seen, words3, words4, Counted);
    assert InCategory(seen + {word}, words3, words4, Counted) == counted + {word};
    TalliesStep(freqs, freqsi, freqs', freqsi', counted, word);
  }

  lemma TalliesStep(freqs: map<char, nat>, freqsi: seq<map<char, nat>>,
                    freqs': map<char, nat>, freqsi': seq<map<char, nat>>, counted: set<string>, word: string)
    requires word !in counted && IsWord(word) && TalliesAgree(freqs, freqsi, counted)
    requires |freqsi'| == WordLength
    requires forall i, c | 0 <= i < WordLength :: Get(freqsi'[i], c, 0) == Get(freqsi[i], c, 0) + (if word[i] == c then 1 else 0)
    requires forall c :: Get(freqs', c, 0) == Get(freqs, c, 0) + (if c in word then 1 else 0)
    requires forall i | 0 <= i < WordLength :: freqsi'[i].Keys == freqsi[i].Keys + {word[i]}
    requires freqs'.Keys == freqs.Keys + (set c | c in word)
    ensures TalliesAgree(freqs', freqsi', counted + {word})
  {
    StepTallies(counted, word);
  }

  /** Adding a word to the words seen moves exactly its own category's
      count, and leaves the counted set as it was unless it is counted. */
  lemma StepCategories(done: set<string>, x: string, words3: set<string>, words4: set<string>)
    requires x !in done && |x| == WordLength
    ensures forall k :: |InCategory(done + {x}, words3, words4, k)|
                        == |InCategory(done, words3, words4, k)| + (if Classify(x, words3, words4) == k then 1 else 0)
    ensures InCategory(done + {x}, words3, words4, Counted)
            == InCategory(done, words3, words4, Counted) + (if Classify(x, words3, words4) == Counted then {x} else {})
  {
    forall k ensures |InCategory(done + {x}, words3, words4, k)|
                     == |InCategory(done, words3, words4, k)| + (if Classify(x, words3, words4) == k then 1 else 0)
    {
      InCategoryAdd(done, x, words3, words4, k);
    }
  }

  /** Adding a counted word moves the tallies by its own letters. */
  lemma StepTallies(counted: set<string>, x: string)
    requires x !in counted && IsWord(x)
    ensures forall i, c | 0 <= i < WordLength :: |WithAt(counted + {x}, i, c)| == |WithAt(counted, i, c)| + (if x[i] == c then 1 else 0)
    ensures forall c :: |WithLetter(counted + {x}, c)| == |WithLetter(counted, c)| + (if c in x then 1 else 0)
  {
    forall i, c | 0 <= i < WordLength
      ensures |WithAt(counted + {x}, i, c)| == |WithAt(counted, i, c)| + (if x[i] == c then 1 else 0)
    {
      WithAtAdd(counted, x, i, c);
    }
    forall c ensures |WithLetter(counted + {x}, c)| == |WithLetter(counted, c)| + (if c in x then 1 else 0) {
      WithLetterAdd(counted, x, c);
    }
  }

  // ---------------------------------------------------------------------
  // most_common

  /** Python's order on `(count, letter)` tuples: count first, then letter. */
  predicate Above(p: (nat, char), q: (nat, char)) {
    p.0 > q.0 || (p.0 == q.0 && p.1 > q.1)
  }

  /** The `(v, k)` pairs of a tally. */
  function Items(d: map<char, nat>): set<(nat, char)> {
    set c | c in d :: (d[c], c)
  }

  /** p is above every other pair of s. */
  predicate Greatest(p: (nat, char), s: set<(nat, char)>) {
    p in s && forall q | q in s && q != p :: Above(p, q)
  }

  /** A finite set of pairs has a greatest element. */
  lemma {:induction false} GreatestExists(s: set<(nat, char)>)
    requires s != {}
    ensures exists p :: Greatest(p, s)
    decreases |s|
  {
    var x :| x in s;
    if s - {x} != {} {
      GreatestExists(s - {x});
      var p :| Greatest(p, s - {x});
      if Above(p, x) {
        assert Greatest(p, s);
      } else {
        forall q | q in s && q != x ensures Above(x, q) {
          if q != p {
            assert Above(p, q);
          }
        }
        assert Greatest(x, s);
      }
    } else {
      forall q | q in s ensures q == x {
        assert q !in s - {x};
      }
      assert Greatest(x, s);
    }
  }

  /** The pairs in descending order. */
  ghost function SortDescending(s: set<(nat, char)>): (r: seq<(nat, char)>)
    ensures |r| == |s|
    ensures forall x :: x in r <==> x in s
    ensures forall i, j | 0 <= i < j < |r| :: Above(r[i], r[j])
    decreases |s|
  {
    if s == {} then []
    else
      GreatestExists(s);
      var p :| Greatest(p, s);
      [p] + SortDescending(s - {p})
  }

  /** `most_common`: the tally's `(count, letter)` pairs, sorted in
      descending order, ties broken by the larger letter. */
  ghost function MostCommon(d: map<char, nat>): (r: seq<(nat, char)>)
    ensures |r| == |d|
    ensures forall x :: x in r <==> x in Items(d)
    ensures forall i, j | 0 <= i < j < |r| :: Above(r[i], r[j])
  {
    ItemsCard(d);
    SortDescending(Items(d))
  }

  /** After the tallies, `most_common(freqs)` lists exactly the letters seen
      in some counted word, each with the number of words containing it. */
  lemma MostCommonOfTally(freqs: map<char, nat>, freqsi: seq<map<char, nat>>, counted: set<string>)
    requires TalliesAgree(freqs, freqsi, counted)
    ensures forall p :: p in MostCommon(freqs) <==> p.0 == |WithLetter(counted, p.1)| && p.0 > 0
  {
    ItemsCard(freqs);
  }

  /** The same for `most_common(freqsi[i])`, with the words having the
      letter at position i. */
  lemma MostCommonAtOfTally(freqs: map<char, nat>, freqsi: seq<map<char, nat>>, counted: set<string>, i: nat)
    requires TalliesAgree(freqs, freqsi, counted) && i < WordLength
    ensures forall p :: p in MostCommon(freqsi[i]) <==> p.0 == |WithAt(counted, i, p.1)| && p.0 > 0
  {
    ItemsCard(freqsi[i]);
  }

  /** One pair per key. */
  lemma {:induction false} ItemsCard(d: map<char, nat>)
    ensures |Items(d)| == |d|
    ensures forall p | p in Items(d) :: p.1 in d && p.0 == d[p.1]
    decreases |d|
  {
    if d != map[] {
      var c :| c in d;
      var rest := d - {c};
      ItemsCard(rest);
      assert forall c' | c' in rest :: rest[c'] == d[c'];
      assert Items(d) == Items(rest) + {(d[c], c)};
      assert (d[c], c) !in Items(rest);
      assert |d| == |rest| + 1;
    } else {
      assert Items(d) == {};
    }
  }
}
