/** possible_matches.py: the word filter `isvalid`, the dictionary filter of
    `load_dictionary`, the fold of guesses into letter sets with the regular
    expression built from them, and `guess_result`. */
module PossibleMatches {
  import opened Common
  import opened Engine

  // ---------------------------------------------------------------------
  // isvalid

  /** `isvalid`. */
  predicate IsValid(w: string) {
    |w| == WordLength && IsAlpha(w) && IsLowerStr(w)
  }

  /** A valid word is exactly five lower-case letters. */
  lemma IsValidIff(w: string)
    ensures IsValid(w) <==> IsWord(w)
  {
    AlphaLowerIff(w);
  }

  // ---------------------------------------------------------------------
  // load_dictionary, over the already stripped lines of the word list

  /** The lines before line n that are lower-case words of length len: the
      set `w3` (len 3) or `w4` (len 4) when line n is reached. */
  function Roots(lines: seq<string>, n: nat, len: nat): set<string>
    requires n <= |lines|
  {
    set j | 0 <= j < n && IsAlpha(lines[j]) && IsLowerStr(lines[j]) && |lines[j]| == len :: lines[j]
  }

  /** An inflected form: ends in "ed" with a known stem of four or three
      letters, or ends in 's' with a known stem of four letters. */
  predicate Inflected(w: string, w3: set<string>, w4: set<string>)
    requires |w| == WordLength
  {
    || (w[3..] == "ed" && (w[..4] in w4 || w[..3] in w3))
    || (w[4] == 's' && w[..4] in w4)
  }

  /** Line j is yielded: a valid word that is not an inflected form of a
      stem seen on an earlier line. */
  predicate KeptAt(lines: seq<string>, j: nat)
    requires j < |lines|
  {
    IsValid(lines[j]) && !Inflected(lines[j], Roots(lines, j, 3), Roots(lines, j, 4))
  }

  /** The words yielded from the first n lines, in order. */
  function Kept(lines: seq<string>, n: nat): seq<string>
    requires n <= |lines|
  {
    if n == 0 then [] else Kept(lines, n - 1) + (if KeptAt(lines, n - 1) then [lines[n - 1]] else [])
  }

  /** `load_dictionary`'s scan: skip lines that are not lower-case words,
      yield the valid words that are not inflected forms, and remember the
      three- and four-letter lines as stems. */
  method LoadDictionary(lines: seq<string>) returns (words: seq<string>)
    ensures words == Kept(lines, |lines|)
  {
    var w3: set<string>, w4: set<string> := {}, {};
    words := [];
    for i := 0 to |lines|
      invariant w3 == Roots(lines, i, 3) && w4 == Roots(lines, i, 4)
      invariant words == Kept(lines, i)
    {
      var word := lines[i];
      assert Roots(lines, i + 1, 3) == w3 + (if IsAlpha(word) && IsLowerStr(word) && |word| == 3 then {word} else {});
      assert Roots(lines, i + 1, 4) == w4 + (if IsAlpha(word) && IsLowerStr(word) && |word| == 4 then {word} else {});
      if !IsAlpha(word) || !IsLowerStr(word) {
        continue;
      }
      if IsValid(word) && !(word[3..] == "ed" && (word[..4] in w4 || word[..3] in w3)) && !(word[4] == 's' && word[..4] in w4) {
        words := words + [word];
      } else if |word| == 4 {
        w4 := w4 + {word};
      } else if |word| == 3 {
        w3 := w3 + {word};
      }
    }
  }

  /** Every yielded word is five lower-case letters. */
  lemma {:induction false} KeptAreWords(lines: seq<string>, n: nat)
    requires n <= |lines|
    ensures forall w | w in Kept(lines, n) :: IsWord(w)
  {
    if n > 0 {
      KeptAreWords(lines, n - 1);
      if KeptAt(lines, n - 1) {
        IsValidIff(lines[n - 1]);
      }
    }
  }

  /** A stem only counts when it comes first: "baked" is dropped after "bake"
      and kept before it. */
  lemma StemMustComeFirst()
    ensures Kept(["bake", "baked"], 2) == []
    ensures Kept(["baked", "bake"], 2) == ["baked"]
  {
    var early, late := ["bake", "baked"], ["baked", "bake"];
    assert early[0] == "bake" && late[1] == "bake";
    assert IsAlpha("bake") && IsLowerStr("bake") by {
      assert IsLower("bake"[0]);
    }
    assert IsAlpha("baked") && IsLowerStr("baked") by {
      assert IsLower("baked"[0]);
    }
    assert !IsValid("bake");
    assert "bake" in Roots(early, 1, 4);
    assert early[1] == "baked" && "baked"[3..] == "ed" && "baked"[..4] == "bake";
    assert !KeptAt(early, 1);
    assert Roots(late, 0, 3) == {} && Roots(late, 0, 4) == {};
    assert KeptAt(late, 0);
    assert !KeptAt(late, 1);
  }

  // ---------------------------------------------------------------------
  // The fold inside print_possible_matches

  /** One guess with its hint string: 'y' yellow, 'g' green, anything else
      gray. */
  datatype Hinted = Hinted(word: string, result: string)

  /** `zip(guesses[::2], guesses[1::2])`. */
  function Pairs(guesses: seq<string>): (ps: seq<Hinted>)
    ensures |ps| == |guesses| / 2
  {
    seq(|guesses| / 2, p requires 0 <= p < |guesses| / 2 => Hinted(guesses[2 * p], guesses[2 * p + 1]))
  }

  /** The sets the fold grows: `not_in_word`, `in_word_pos_unknown`,
      `in_word_pos_known`, `not_at_pos` and `at_pos`. */
  datatype Knowledge = Knowledge(notInWord: set<char>, posUnknown: set<char>, posKnown: set<char>,
                                 notAtPos: seq<set<char>>, atPos: seq<Option<char>>)

  predicate Sized(k: Knowledge) {
    |k.notAtPos| == WordLength && |k.atPos| == WordLength
  }

  function Empty(): (k: Knowledge)
    ensures Sized(k)
  {
    Knowledge({}, {}, {}, seq(WordLength, _ => {}), seq(WordLength, _ => None))
  }

  /** A green at i that disagrees with the letter already pinned there. */
  predicate GreenClash(k: Knowledge, g: Hinted, i: nat)
    requires Sized(k) && i < WordLength && |g.word| >= WordLength && |g.result| >= WordLength
  {
    g.result[i] == 'g' && k.atPos[i].Some? && k.atPos[i].value != g.word[i]
  }

  /** How the fold reads a hint character: 'y' yellow, 'g' green, anything
      else gray. */
  function Kind(c: char): Mark {
    if c == 'y' then Yellow else if c == 'g' then Green else Gray
  }

  /** The letters of the first n positions of a guess whose hint character
      reads as m. */
  function Letters(g: Hinted, n: nat, m: Mark): set<char>
    requires n <= |g.word| && n <= |g.result|
  {
    set i | 0 <= i < n && Kind(g.result[i]) == m :: g.word[i]
  }

  lemma LettersStep(g: Hinted, n: nat, m: Mark)
    requires n < |g.word| && n < |g.result|
    ensures Letters(g, n + 1, m) == Letters(g, n, m) + (if Kind(g.result[n]) == m then {g.word[n]} else {})
  {
    if Kind(g.result[n]) == m {
      assert g.word[n] in Letters(g, n + 1, m);
    }
  }

  /** The sets after the first n positions of one guess are folded in. */
  function Partial(k: Knowledge, g: Hinted, n: nat): (r: Knowledge)
    requires Sized(k) && n <= WordLength && n <= |g.word| && n <= |g.result|
    ensures Sized(r)
  {
    Knowledge(
      k.notInWord + Letters(g, n, Gray),
      k.posUnknown + Letters(g, n, Yellow),
      k.posKnown + Letters(g, n, Green),
      seq(WordLength, i requires 0 <= i < WordLength =>
        if i < n && g.result[i] == 'y' then k.notAtPos[i] + {g.word[i]} else k.notAtPos[i]),
      seq(WordLength, i requires 0 <= i < WordLength =>
        if i < n && g.result[i] == 'g' then Some(g.word[i]) else k.atPos[i]))
  }

  /** One guess folded in: None where the source raises (a word or result
      shorter than five, or a green clashing with a pinned letter). */
  function Learn(k: Knowledge, g: Hinted): (r: Option<Knowledge>)
    requires Sized(k)
    ensures r.Some? ==> Sized(r.value)
  {
    if |g.word| < WordLength || |g.result| < WordLength then None
    else if exists i | 0 <= i < WordLength :: GreenClash(k, g, i) then None
    else Some(Partial(k, g, WordLength))
  }

  /** The sets after one more position, letter c with hint character h at
      position i, is folded in: the letter joins the set its mark names. */
  function Absorb(p: Knowledge, i: nat, c: char, h: char): (r: Knowledge)
    requires Sized(p) && i < WordLength
    ensures Sized(r)
  {
    if h == 'y' then p.(posUnknown := p.posUnknown + {c}, notAtPos := p.notAtPos[i := p.notAtPos[i] + {c}])
    else if h == 'g' then p.(posKnown := p.posKnown + {c}, atPos := p.atPos[i := Some(c)])
    else p.(notInWord := p.notInWord + {c})
  }

  /** Folding in position n is one Absorb step. */
  lemma PartialStep(k: Knowledge, g: Hinted, n: nat)
    requires Sized(k) && n < WordLength && n < |g.word| && n < |g.result|
    ensures Partial(k, g, n + 1) == Absorb(Partial(k, g, n), n, g.word[n], g.result[n])
  {
    var p, q, r := Partial(k, g, n), Partial(k, g, n + 1), Absorb(Partial(k, g, n), n, g.word[n], g.result[n]);
    LettersStep(g, n, Gray);
    LettersStep(g, n, Yellow);
    LettersStep(g, n, Green);
    assert q.notInWord == r.notInWord && q.posUnknown == r.posUnknown && q.posKnown == r.posKnown;
    forall j | 0 <= j < WordLength
      ensures q.notAtPos[j] == r.notAtPos[j] && q.atPos[j] == r.atPos[j]
    {
      if j != n {
        assert q.notAtPos[j] == p.notAtPos[j] && q.atPos[j] == p.atPos[j];
      }
    }
    assert q.notAtPos == r.notAtPos && q.atPos == r.atPos;
  }

  /** Fold the guesses from left to right. */
  function FoldFrom(k: Knowledge, gs: seq<Hinted>): (r: Option<Knowledge>)
    requires Sized(k)
    ensures r.Some? ==> Sized(r.value)
    decreases |gs|
  {
    if gs == [] then Some(k)
    else match Learn(k, gs[0])
      case None => None
      case Some(k') => FoldFrom(k', gs[1..])
  }

  /** The inner loop of the fold for one guess. */
  method LearnOne(k: Knowledge, word: string, result: string) returns (r: Option<Knowledge>)
    requires Sized(k)
    ensures r == Learn(k, Hinted(word, result))
  {
    var notInWord, posUnknown, posKnown, notAtPos, atPos := k.notInWord, k.posUnknown, k.posKnown, k.notAtPos, k.atPos;
    ghost var g := Hinted(word, result);
    assert Partial(k, g, 0) == k;
    for i := 0 to WordLength
      invariant i <= |word| && i <= |result|
      invariant forall j | 0 <= j < i :: !(result[j] == 'g' && k.atPos[j].Some? && k.atPos[j].value != word[j])
      invariant Knowledge(notInWord, posUnknown, posKnown, notAtPos, atPos) == Partial(k, g, i)
    {
      if i >= |result| || i >= |word| {
        return None;
      }
      PartialStep(k, g, i);
      var ok;
      ok, notInWord, posUnknown, posKnown, notAtPos, atPos := LearnAt(notInWord, posUnknown, posKnown, notAtPos, atPos, i, word[i], result[i]);
      if !ok {
        if |word| >= WordLength && |result| >= WordLength {
          assert GreenClash(k, g, i);
        }
        return None;
      }
    }
    r := Some(Knowledge(notInWord, posUnknown, posKnown, notAtPos, atPos));
  }

  /** One position of the inner loop: letter c with hint character h at
      position i. Fails on a green that clashes with the letter pinned there. */
  method LearnAt(notInWord: set<char>, posUnknown: set<char>, posKnown: set<char>,
                 notAtPos: seq<set<char>>, atPos: seq<Option<char>>, i: nat, c: char, h: char)
    returns (ok: bool, notInWord': set<char>, posUnknown': set<char>, posKnown': set<char>,
             notAtPos': seq<set<char>>, atPos': seq<Option<char>>)
    requires |notAtPos| == WordLength && |atPos| == WordLength && i < WordLength
    ensures ok <==> !(h == 'g' && atPos[i].Some? && atPos[i].value != c)
    ensures ok ==> Knowledge(notInWord', posUnknown', posKnown', notAtPos', atPos')
                   == Absorb(Knowledge(notInWord, posUnknown, posKnown, notAtPos, atPos), i, c, h)
  {
    notInWord', posUnknown', posKnown', notAtPos', atPos' := notInWord, posUnknown, posKnown, notAtPos, atPos;
    ok := true;
    if h == 'y' {
      posUnknown' := posUnknown' + {c};
      notAtPos' := notAtPos'[i := notAtPos'[i] + {c}];
    } else if h == 'g' {
      posKnown' := posKnown' + {c};
      if !(atPos'[i] == None || atPos'[i] == Some(c)) {
        ok := false;
        return;
      }
      atPos' := atPos'[i := Some(c)];
    } else {
      notInWord' := notInWord' + {c};
    }
  }

  /** The fold of `print_possible_matches` over `guesses` taken in pairs. */
  method Fold(guesses: seq<string>) returns (r: Option<Knowledge>)
    ensures r == FoldFrom(Empty(), Pairs(guesses))
  {
    ghost var ps := Pairs(guesses);
    var k := Empty();
    var p := 0;
    while p < |guesses| / 2
      invariant p <= |guesses| / 2 && Sized(k)
      invariant FoldFrom(Empty(), ps) == FoldFrom(k, ps[p..])
    {
      assert ps[p..][1..] == ps[p + 1..];
      var next := LearnOne(k, guesses[2 * p], guesses[2 * p + 1]);
      if next.None? {
        return None;
      }
      k := next.value;
      p := p + 1;
    }
    return Some(k);
  }

  // ---------------------------------------------------------------------
  // The pattern and the acceptance test

  /** The regular expression, one slot per position: the pinned letter, or a
      class excluding the letters not at that position and not in the word. */
  function Pattern(k: Knowledge): (pat: seq<Slot>)
    requires Sized(k)
    ensures |pat| == WordLength
  {
    seq(WordLength, i requires 0 <= i < WordLength =>
      if k.atPos[i].Some? then Pin(k.atPos[i].value) else Exclude(k.notAtPos[i] + k.notInWord))
  }

  /** `also_require`: the yellow letters that were never green. */
  function AlsoRequire(k: Knowledge): set<char> {
    k.posUnknown - k.posKnown
  }

  /** A dictionary word is printed: it fully matches the pattern and holds
      every letter of `also_require`. */
  predicate Accepted(k: Knowledge, w: string)
    requires Sized(k)
  {
    FullMatch(Pattern(k), w) && forall c | c in AlsoRequire(k) :: c in w
  }

  /** The accepted words of a dictionary, in dictionary order and with
      their repetitions. */
  function AcceptedIn(k: Knowledge, dictionary: seq<string>): (r: seq<string>)
    requires Sized(k)
    ensures |r| <= |dictionary|
    ensures forall w :: w in r <==> w in dictionary && Accepted(k, w)
  {
    if dictionary == [] then []
    else
      var front := dictionary[..|dictionary| - 1];
      var last := dictionary[|dictionary| - 1];
      assert dictionary == front + [last];
      AcceptedIn(k, front) + (if Accepted(k, last) then [last] else [])
  }

  /** The matching loop of `print_possible_matches`, without its printing:
      the dictionary words accepted, in order; `num_matches` is `|matches|`. */
  method PossibleMatches(k: Knowledge, dictionary: seq<string>) returns (matches: seq<string>)
    requires Sized(k)
    ensures matches == AcceptedIn(k, dictionary)
    ensures forall w :: w in matches <==> w in dictionary && Accepted(k, w)
    ensures |matches| <= |dictionary|
  {
    matches := [];
    for i := 0 to |dictionary|
      invariant matches == AcceptedIn(k, dictionary[..i])
    {
      var word := dictionary[i];
      assert dictionary[..i + 1] == dictionary[..i] + [word];
      if FullMatch(Pattern(k), word) && forall c | c in AlsoRequire(k) :: c in word {
        matches := matches + [word];
      }
    }
    assert dictionary[..|dictionary|] == dictionary;
  }

  // ---------------------------------------------------------------------
  // Properties of the fold

  /** Every pinned letter was green, and sets only grow along the fold. */
  predicate Grows(k: Knowledge, k': Knowledge)
    requires Sized(k) && Sized(k')
  {
    && k.notInWord <= k'.notInWord && k.posUnknown <= k'.posUnknown && k.posKnown <= k'.posKnown
    && (forall i | 0 <= i < WordLength :: k.notAtPos[i] <= k'.notAtPos[i])
    && (forall i | 0 <= i < WordLength :: k.atPos[i].Some? ==> k'.atPos[i].Some?)
  }

  /** Each pinned letter is a green letter. */
  predicate PinsKnown(k: Knowledge)
    requires Sized(k)
  {
    forall i | 0 <= i < WordLength :: k.atPos[i].Some? ==> k.atPos[i].value in k.posKnown
  }

  lemma LearnGrows(k: Knowledge, g: Hinted)
    requires Sized(k) && Learn(k, g).Some?
    ensures Grows(k, Learn(k, g).value)
    ensures PinsKnown(k) ==> PinsKnown(Learn(k, g).value)
  {
    var k' := Learn(k, g).value;
    forall i | 0 <= i < WordLength && k'.atPos[i].Some?
      ensures k'.atPos[i].value in k'.posKnown || (k.atPos[i].Some? && k'.atPos[i] == k.atPos[i])
    {
      if g.result[i] == 'g' {
        assert g.word[i] in Letters(g, WordLength, Green);
      }
    }
  }

  /** Once pinned, a position keeps its letter; after the fold, each green
      of any guess is the letter pinned at its position. So two different
      greens at one position fail the fold, and a repeated green does not. */
  lemma {:induction false} FoldPins(k: Knowledge, gs: seq<Hinted>)
    requires Sized(k) && FoldFrom(k, gs).Some?
    ensures forall i | 0 <= i < WordLength && k.atPos[i].Some? :: FoldFrom(k, gs).value.atPos[i] == k.atPos[i]
    ensures forall p, i | 0 <= p < |gs| && 0 <= i < WordLength <= |gs[p].word| && i < |gs[p].result| && gs[p].result[i] == 'g' ::
      FoldFrom(k, gs).value.atPos[i] == Some(gs[p].word[i])
    decreases |gs|
  {
    if gs != [] {
      var k1 := Learn(k, gs[0]).value;
      assert FoldFrom(k, gs) == FoldFrom(k1, gs[1..]);
      FoldPins(k1, gs[1..]);
      var k' := FoldFrom(k, gs).value;
      forall i | 0 <= i < WordLength && k.atPos[i].Some? ensures k1.atPos[i] == k.atPos[i] {
        assert !GreenClash(k, gs[0], i);
      }
      forall p, i | 0 <= p < |gs| && 0 <= i < WordLength <= |gs[p].word| && i < |gs[p].result| && gs[p].result[i] == 'g'
        ensures k'.atPos[i] == Some(gs[p].word[i])
      {
        if p > 0 {
          assert gs[p] == gs[1..][p - 1];
        } else {
          assert k1.atPos[i] == Some(gs[0].word[i]);
        }
      }
    }
  }

  /** A green of guess p is the letter the fold pins at its position. */
  lemma GreenPinned(gs: seq<Hinted>, p: nat, i: nat)
    requires FoldFrom(Empty(), gs).Some? && p < |gs| && i < WordLength
    requires |gs[p].word| >= WordLength && |gs[p].result| >= WordLength && gs[p].result[i] == 'g'
    ensures FoldFrom(Empty(), gs).value.atPos[i] == Some(gs[p].word[i])
  {
    FoldPins(Empty(), gs);
  }

  /** Two guesses with different green letters at one position make the
      fold fail. */
  lemma GreensMustAgree(gs: seq<Hinted>, p: nat, q: nat, i: nat)
    requires p < |gs| && q < |gs| && i < WordLength
    requires |gs[p].word| >= WordLength && |gs[p].result| >= WordLength
    requires |gs[q].word| >= WordLength && |gs[q].result| >= WordLength
    requires gs[p].result[i] == 'g' && gs[q].result[i] == 'g' && gs[p].word[i] != gs[q].word[i]
    ensures FoldFrom(Empty(), gs).None?
  {
    if FoldFrom(Empty(), gs).Some? {
      GreenPinned(gs, p, i);
      GreenPinned(gs, q, i);
    }
  }

  lemma {:induction false} FoldGrows(k: Knowledge, gs: seq<Hinted>)
    requires Sized(k) && FoldFrom(k, gs).Some?
    ensures Grows(k, FoldFrom(k, gs).value)
    ensures PinsKnown(k) ==> PinsKnown(FoldFrom(k, gs).value)
    decreases |gs|
  {
    if gs != [] {
      LearnGrows(k, gs[0]);
      FoldGrows(Learn(k, gs[0]).value, gs[1..]);
    }
  }

  /** A hint character other than 'y' and 'g', '_' included, puts the letter
      in `not_in_word`. */
  lemma OtherIsGray(k: Knowledge, g: Hinted, i: nat)
    requires Sized(k) && Learn(k, g).Some? && i < WordLength
    requires g.result[i] != 'y' && g.result[i] != 'g'
    ensures g.word[i] in Learn(k, g).value.notInWord
  {
    assert g.word[i] in Letters(g, WordLength, Gray);
  }

  /** A letter that is yellow somewhere and gray somewhere, and never green,
      is required by `also_require` yet excluded from every unpinned
      position, while no pinned position holds it: no word is accepted. */
  lemma YellowAndGrayRejectAll(k: Knowledge, c: char, w: string)
    requires Sized(k) && PinsKnown(k)
    requires c in k.posUnknown && c in k.notInWord && c !in k.posKnown
    ensures !Accepted(k, w)
  {
    if Accepted(k, w) {
      assert c in AlsoRequire(k);
      var j :| 0 <= j < |w| && w[j] == c;
    }
  }

  /** After at least one guess, no position is left with an empty class
      (which would make the pattern `[^]`, not a valid expression). */
  lemma NoEmptyClass(gs: seq<Hinted>, i: nat)
    requires |gs| >= 1 && FoldFrom(Empty(), gs).Some? && i < WordLength
    ensures var k := FoldFrom(Empty(), gs).value;
      k.atPos[i].Some? || k.notAtPos[i] + k.notInWord != {}
  {
    var k1 := Learn(Empty(), gs[0]).value;
    assert FoldFrom(Empty(), gs) == FoldFrom(k1, gs[1..]);
    FoldGrows(k1, gs[1..]);
    if Kind(gs[0].result[i]) == Gray {
      assert gs[0].word[i] in k1.notInWord;
    } else if gs[0].result[i] == 'y' {
      assert gs[0].word[i] in k1.notAtPos[i];
    }
  }

  // ---------------------------------------------------------------------
  // guess_result

  /** `guess_result`: the hint string a guess earns against an answer. A
      first pass marks greens and tallies the answer's other letters; a
      second pass skips the greens and hands out yellows from the tally. */
  method GuessResult(guess: string, answer: string) returns (r: Option<string>)
    ensures r == if |guess| == WordLength && |answer| == WordLength
                 then Some(HintString(Hint(guess, answer))) else None
  {
    if !(|guess| == WordLength && |answer| == WordLength) {
      return None;
    }
    var result := new char[WordLength](_ => '.');
    var lcount: map<char, nat> := map[];
    for i := 0 to WordLength
      invariant forall j | 0 <= j < WordLength :: result[j] == if j < i && guess[j] == answer[j] then 'g' else '.'
      invariant forall c :: Get(lcount, c, 0) == Unmatched(guess, answer, c, i)
    {
      if guess[i] == answer[i] {
        result[i] := 'g';
      } else {
        lcount := lcount[answer[i] := Get(lcount, answer[i], 0) + 1];
      }
    }
    MarkYellows(guess, answer, result, lcount);
    return Some(result[..]);
  }

  /** The second pass of `guess_result`: left to right, skipping the greens,
      a position whose letter still has unmatched copies in the answer turns
      yellow and uses one of them up. */
  method MarkYellows(guess: string, answer: string, result: array<char>, unmatched: map<char, nat>)
    requires |guess| == WordLength && |answer| == WordLength && result.Length == WordLength
    requires forall j | 0 <= j < WordLength :: result[j] == if guess[j] == answer[j] then 'g' else '.'
    requires forall c :: Get(unmatched, c, 0) == Unmatched(guess, answer, c, WordLength)
    modifies result
    ensures result[..] == HintString(Hint(guess, answer))
  {
    ghost var m := Hint(guess, answer);
    var lcount: map<char, nat> := unmatched;
    for i := 0 to WordLength
      invariant forall j | 0 <= j < i :: result[j] == MarkChar(m[j])
      invariant forall j | i <= j < WordLength :: result[j] == if guess[j] == answer[j] then 'g' else '.'
      invariant forall c :: Get(lcount, c, 0) + Yellows(guess, m, c, i) == Get(unmatched, c, 0)
    {
      HintYellowStep(guess, answer, i);
      HintGreenIff(guess, answer, i);
      if result[i] == '.' && Get(lcount, guess[i], 0) > 0 {
        result[i] := 'y';
        lcount := lcount[guess[i] := Get(lcount, guess[i], 0) - 1];
      }
    }
    assert result[..] == HintString(m);
  }

  // ---------------------------------------------------------------------
  // replay_with_possible_matches, and a letter both yellow and gray

  /** The guesses paired with the hints they earn against the answer, as
      `replay_with_possible_matches` builds them. */
  function Annotated(guesses: seq<string>, answer: string): (gs: seq<Hinted>)
    requires |answer| == WordLength && forall p | 0 <= p < |guesses| :: |guesses[p]| == WordLength
    ensures |gs| == |guesses|
  {
    seq(|guesses|, p requires 0 <= p < |guesses| => Hinted(guesses[p], HintString(Hint(guesses[p], answer))))
  }

  /** As written, the replay can reject its own answer: "zaazz" against
      "abcde" earns ".y...", which marks the second 'a' gray although the
      first is yellow; 'a' then goes into `not_in_word` and `also_require`
      at once, and no word, the answer included, is accepted. */
  lemma ReplayRejectsAnswer()
    ensures HintString(Hint("zaazz", "abcde")) == ".y..."
    ensures FoldFrom(Empty(), Annotated(["zaazz"], "abcde")).Some?
    ensures !Accepted(FoldFrom(Empty(), Annotated(["zaazz"], "abcde")).value, "abcde")
  {
    var g, a := "zaazz", "abcde";
    assert Unmatched(g, a, 'a', WordLength) == 1;
    assert Unmatched(g, a, 'z', WordLength) == 0;
    assert NonGreen(g, a, 'a', 1) == 0 && NonGreen(g, a, 'a', 2) == 1;
    assert Hint(g, a) == [Gray, Yellow, Gray, Gray, Gray];
    assert HintString(Hint(g, a)) == ".y...";
    var gs := Annotated(["zaazz"], a);
    assert gs == [Hinted(g, ".y...")];
    var k := Learn(Empty(), gs[0]).value;
    assert FoldFrom(Empty(), gs) == FoldFrom(k, []);
    assert 'a' in k.posUnknown by {
      assert gs[0].result[1] == 'y';
    }
    OtherIsGray(Empty(), gs[0], 2);
    assert k.posKnown == {};
    YellowAndGrayRejectAll(k, 'a', a);
  }

  /** One guess folded in, with a gray letter that is yellow or green
      elsewhere in the same guess excluded only at its own position. */
  function LearnFixed(k: Knowledge, g: Hinted): (r: Option<Knowledge>)
    requires Sized(k)
    ensures r.Some? ==> Sized(r.value)
    ensures r.Some? <==> Learn(k, g).Some?
  {
    if |g.word| < WordLength || |g.result| < WordLength then None
    else if exists i | 0 <= i < WordLength :: GreenClash(k, g, i) then None
    else Some(Knowledge(
      k.notInWord + (set i | 0 <= i < WordLength && Kind(g.result[i]) == Gray && !Confirmed(g, g.word[i]) :: g.word[i]),
      k.posUnknown + Letters(g, WordLength, Yellow),
      k.posKnown + Letters(g, WordLength, Green),
      seq(WordLength, i requires 0 <= i < WordLength =>
        if g.result[i] == 'y' || (Kind(g.result[i]) == Gray && Confirmed(g, g.word[i])) then k.notAtPos[i] + {g.word[i]}
        else k.notAtPos[i]),
      seq(WordLength, i requires 0 <= i < WordLength =>
        if g.result[i] == 'g' then Some(g.word[i]) else k.atPos[i])))
  }

  /** The guess shows letter c yellow or green somewhere. */
  predicate Confirmed(g: Hinted, c: char)
    requires |g.word| >= WordLength && |g.result| >= WordLength
  {
    exists j | 0 <= j < WordLength :: g.word[j] == c && (g.result[j] == 'y' || g.result[j] == 'g')
  }

  /** Where both succeed, the corrected step learns the same yellow, green
      and pinned letters as the source's, and excludes from the whole word
      only letters the source excludes too. */
  lemma FixedRefinesLearn(k: Knowledge, g: Hinted)
    requires Sized(k)
    ensures LearnFixed(k, g).Some? ==>
      var f, l := LearnFixed(k, g).value, Learn(k, g).value;
      && f.posUnknown == l.posUnknown && f.posKnown == l.posKnown && f.atPos == l.atPos
      && f.notInWord <= l.notInWord
  {
    if LearnFixed(k, g).Some? {
      var f, l := LearnFixed(k, g).value, Learn(k, g).value;
      assert l == Partial(k, g, WordLength);
      forall i | 0 <= i < WordLength ensures f.atPos[i] == l.atPos[i] {
      }
      forall c | c in f.notInWord ensures c in l.notInWord {
        if c !in k.notInWord {
          var i :| 0 <= i < WordLength && Kind(g.result[i]) == Gray && !Confirmed(g, g.word[i]) && g.word[i] == c;
          assert c in Letters(g, WordLength, Gray);
        }
      }
    }
  }

  /** Whether the source's fold fails depends only on the pinned letters. */
  lemma {:induction false} FoldSamePins(k1: Knowledge, k2: Knowledge, gs: seq<Hinted>)
    requires Sized(k1) && Sized(k2) && k1.atPos == k2.atPos
    ensures FoldFrom(k1, gs).Some? <==> FoldFrom(k2, gs).Some?
    decreases |gs|
  {
    if gs != [] {
      var g := gs[0];
      if |g.word| >= WordLength && |g.result| >= WordLength {
        assert forall i | 0 <= i < WordLength :: GreenClash(k1, g, i) == GreenClash(k2, g, i);
        if Learn(k1, g).Some? {
          var l1, l2 := Learn(k1, g).value, Learn(k2, g).value;
          assert forall i | 0 <= i < WordLength :: l1.atPos[i] == l2.atPos[i];
          FoldSamePins(l1, l2, gs[1..]);
        }
      }
    }
  }

  /** The fold with the corrected step: it fails exactly where the source's
      fold fails. */
  function FoldFixed(k: Knowledge, gs: seq<Hinted>): (r: Option<Knowledge>)
    requires Sized(k)
    ensures r.Some? ==> Sized(r.value)
    ensures r.Some? <==> FoldFrom(k, gs).Some?
    decreases |gs|
  {
    if gs == [] then Some(k)
    else match LearnFixed(k, gs[0])
      case None => None
      case Some(k') =>
        FixedRefinesLearn(k, gs[0]);
        FoldSamePins(k', Learn(k, gs[0]).value, gs[1..]);
        FoldFixed(k', gs[1..])
  }

  /** What the answer makes true of the sets: pinned letters are the
      answer's, a letter excluded at a position is not the answer's there,
      letters not in the word are not in it, yellow letters are. */
  predicate AgreesWith(k: Knowledge, a: string)
    requires Sized(k) && |a| == WordLength
  {
    && (forall i | 0 <= i < WordLength :: k.atPos[i].Some? ==> k.atPos[i].value == a[i])
    && (forall i | 0 <= i < WordLength :: a[i] !in k.notAtPos[i])
    && (forall c | c in k.notInWord :: c !in a)
    && (forall c | c in k.posUnknown :: c in a)
  }

  lemma AgreesAccepts(k: Knowledge, a: string)
    requires Sized(k) && |a| == WordLength && AgreesWith(k, a)
    ensures Accepted(k, a)
  {
    forall i | 0 <= i < WordLength ensures SlotMatches(Pattern(k)[i], a[i]) {
      assert a[i] in a;
    }
  }

  /** Some position j holds c with a green or yellow mark exactly when the
      tally of c is positive. */
  lemma {:induction false} TallyPositive(w: string, m: seq<Mark>, c: char, n: nat)
    requires n <= |w| && n <= |m|
    ensures Tally(w, m, c, n) > 0 <==> exists j | 0 <= j < n :: w[j] == c && m[j] != Gray
  {
    if n > 0 {
      TallyPositive(w, m, c, n - 1);
    }
  }

  /** A letter marked gray by the reference hint and shown nowhere else in
      the guess is not in the answer. */
  lemma GrayUnconfirmedAbsent(w: string, a: string, i: nat)
    requires IsWord(w) && IsWord(a) && i < WordLength && Hint(w, a)[i] == Gray
    requires !Confirmed(Hinted(w, HintString(Hint(w, a))), w[i])
    ensures w[i] !in a
  {
    var m := Hint(w, a);
    var c := w[i];
    assert GrayAt(w, m, c);
    HintGrayExact(w, a, c);
    TallyPositive(w, m, c, WordLength);
    CountPositive(a, c);
  }

  /** One guess with the hint the answer earns keeps the sets in agreement
      with the answer. */
  lemma FixedStep(k: Knowledge, w: string, a: string)
    requires Sized(k) && IsWord(w) && IsWord(a) && AgreesWith(k, a)
    ensures LearnFixed(k, Hinted(w, HintString(Hint(w, a)))).Some?
    ensures AgreesWith(LearnFixed(k, Hinted(w, HintString(Hint(w, a)))).value, a)
  {
    var m := Hint(w, a);
    var g := Hinted(w, HintString(m));
    forall i | 0 <= i < WordLength
      ensures g.result[i] == 'g' <==> w[i] == a[i]
      ensures g.result[i] == 'y' <==> m[i] == Yellow
    {
      HintGreenIff(w, a, i);
    }
    assert forall i | 0 <= i < WordLength :: !GreenClash(k, g, i);
    var k' := LearnFixed(k, g).value;
    forall c | c in k'.notInWord ensures c !in a {
      if c !in k.notInWord {
        var i :| 0 <= i < WordLength && Kind(g.result[i]) == Gray && !Confirmed(g, w[i]) && c == w[i];
        GrayUnconfirmedAbsent(w, a, i);
      }
    }
    forall c | c in k'.posUnknown ensures c in a {
      if c !in k.posUnknown {
        var i :| 0 <= i < WordLength && g.result[i] == 'y' && c == w[i];
        HintYellowPresent(w, a, i);
      }
    }
  }

  /** The corrected fold of the hints a known answer earns never fails and
      accepts the answer. */
  lemma {:induction false} FixedSound(k: Knowledge, gs: seq<Hinted>, a: string)
    requires Sized(k) && IsWord(a) && AgreesWith(k, a)
    requires forall p | 0 <= p < |gs| :: IsWord(gs[p].word) && gs[p].result == HintString(Hint(gs[p].word, a))
    ensures FoldFixed(k, gs).Some? && Accepted(FoldFixed(k, gs).value, a)
    decreases |gs|
  {
    if gs == [] {
      AgreesAccepts(k, a);
    } else {
      FixedStep(k, gs[0].word, a);
      assert gs[0] == Hinted(gs[0].word, HintString(Hint(gs[0].word, a)));
      FixedSound(LearnFixed(k, gs[0]).value, gs[1..], a);
    }
  }

  /** The replay with the corrected fold always accepts its answer. */
  lemma FixedReplayAccepts(guesses: seq<string>, a: string)
    requires IsWord(a) && forall p | 0 <= p < |guesses| :: |guesses[p]| == WordLength && IsWord(guesses[p])
    ensures FoldFixed(Empty(), Annotated(guesses, a)).Some?
    ensures Accepted(FoldFixed(Empty(), Annotated(guesses, a)).value, a)
  {
    FixedSound(Empty(), Annotated(guesses, a), a);
  }
}
