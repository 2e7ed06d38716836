/** matches.py: the constraint object `WordleConstraint`, its `update` and
    `match`, the hint generator `guess_result`, and the replay against a known
    answer. */
module Matches {
  import opened Common
  import opened Engine

  /** What `update(word, result)` does to a state: the result must be five
      hint characters, then the engine's update applies. */
  function Apply(s: Constraint, word: string, result: string): Option<Constraint>
    requires WellFormed(s)
  {
    if |result| != WordLength then None
    else match ParseHint(result)
      case None => None
      case Some(m) => Update(s, word, m)
  }

  /** What `match(word)` returns: False at the first position whose letter is
      not allowed; an IndexError (None) when the first five letters pass and
      the word is longer; otherwise whether the counts are within bounds. */
  function MatchOutcome(s: Constraint, w: string): Option<bool>
    requires WellFormed(s)
  {
    if exists i | 0 <= i < |w| && i < WordLength :: w[i] !in s.allowed[i] then Some(false)
    else if |w| > WordLength then None
    else Some(Accepts(s, w))
  }

  /** The engine state that the three fields of a `WordleConstraint` stand
      for: a missing key of `min` reads 0 and one of `max` reads 5. */
  function Abstract(positional: seq<set<char>>, minCount: map<char, nat>, maxCount: map<char, nat>): (s: Constraint)
    requires |positional| == WordLength
    ensures WellFormed(s)
  {
    Constraint(positional,
      seq(Letters, k requires 0 <= k < Letters => Get(minCount, Letter(k), 0)),
      seq(Letters, k requires 0 <= k < Letters => Get(maxCount, Letter(k), 5)))
  }

  /** The assertion of the bound pass: a letter marked gray is not already
      required more often than this guess shows it. Under the first pass's
      results this is exactly the engine's precondition for an update. */
  lemma BoundCheckIsUpdateOk(s0: Constraint, pos0: seq<set<char>>, mn0: map<char, nat>, mx0: map<char, nat>,
                             word: string, marks: seq<Mark>, wordMin: map<char, nat>, sawGray: set<char>)
    requires |pos0| == WordLength && s0 == Abstract(pos0, mn0, mx0)
    requires IsWord(word) && |marks| == WordLength
    requires forall i | 0 <= i < WordLength :: marks[i] == Green ==> word[i] in pos0[i]
    requires forall c :: Get(wordMin, c, 0) == Tally(word, marks, c, WordLength)
    requires forall c :: c in sawGray <==> GrayAt(word, marks, c)
    ensures UpdateOk(s0, word, marks) <==> forall c | c in sawGray :: Get(mn0, c, 0) <= Get(wordMin, c, 0)
  {
    if UpdateOk(s0, word, marks) {
      forall c | c in sawGray ensures Get(mn0, c, 0) <= Get(wordMin, c, 0) {
        var j :| 0 <= j < WordLength && word[j] == c && marks[j] == Gray;
        assert IsLower(c) && Letter(Index(c)) == c;
        assert s0.lo[Index(c)] == Get(mn0, c, 0);
      }
    }
  }

  /** The fields after both passes stand for the engine's update. */
  lemma UpdateAgrees(s0: Constraint, word: string, marks: seq<Mark>,
                     pos: seq<set<char>>, mn0: map<char, nat>, mx0: map<char, nat>,
                     mn: map<char, nat>, mx: map<char, nat>, pos0: seq<set<char>>,
                     wordMin: map<char, nat>, sawGray: set<char>)
    requires |pos0| == WordLength && s0 == Abstract(pos0, mn0, mx0) && UpdateOk(s0, word, marks)
    requires |pos| == WordLength && forall j | 0 <= j < WordLength :: pos[j] == Narrow(pos0[j], word[j], marks[j])
    requires forall c :: Get(wordMin, c, 0) == Tally(word, marks, c, WordLength)
    requires forall c :: c in sawGray <==> GrayAt(word, marks, c)
    requires forall c :: Get(mn, c, 0) == Max(Get(mn0, c, 0), Get(wordMin, c, 0))
    requires forall c :: Get(mx, c, 5) == if c in sawGray then Get(wordMin, c, 0) else Get(mx0, c, 5)
    ensures Abstract(pos, mn, mx) == Update(s0, word, marks).value
  {
    var s1 := Update(s0, word, marks).value;
    var s := Abstract(pos, mn, mx);
    forall j | 0 <= j < WordLength ensures s.allowed[j] == s1.allowed[j] {
      assert s1.allowed[j] == NewAllowed(s0, word, marks, j);
    }
    forall k | 0 <= k < Letters ensures s.lo[k] == s1.lo[k] && s.hi[k] == s1.hi[k] {
      assert s1.lo[k] == NewLo(s0, word, marks, k);
      assert s1.hi[k] == NewHi(s0, word, marks, k);
    }
    assert s.allowed == s1.allowed && s.lo == s1.lo && s.hi == s1.hi;
  }

  class WordleConstraint {
    /** `min`: a defaultdict with default 0. */
    var minCount: map<char, nat>
    /** `max`: a defaultdict with default 5. */
    var maxCount: map<char, nat>
    /** `positional_constraints`: the letters allowed at each position. */
    var positional: seq<set<char>>

    ghost predicate Valid()
      reads this
    {
      |positional| == WordLength && minCount.Keys <= Alphabet() && maxCount.Keys <= Alphabet()
    }

    /** The engine state this object stands for. */
    ghost function Model(): (s: Constraint)
      reads this
      requires Valid()
      ensures WellFormed(s)
    {
      Abstract(positional, minCount, maxCount)
    }

    constructor ()
      ensures Valid() && Model() == Init()
    {
      minCount := map[];
      maxCount := map[];
      positional := seq(WordLength, _ => Alphabet());
    }

    /** `update`: fold one guess and its hint string into the state. Returns
        false where the source fails an assertion; the source has then already
        changed part of the state, and nothing is promised about it. */
    method Update(word: string, result: string) returns (ok: bool)
      requires Valid()
      modifies this
      ensures Valid()
      ensures ok <==> Apply(old(Model()), word, result).Some?
      ensures ok ==> Model() == Apply(old(Model()), word, result).value
    {
      ghost var s0 := Model();
      ghost var pos0, mn0, mx0 := positional, minCount, maxCount;
      if !(|word| == WordLength && |result| == WordLength && IsWord(word)) {
        return false;
      }
      var wordMin, sawGray;
      ghost var marks;
      ok, wordMin, sawGray, marks := MarkPositions(word, result);
      if !ok {
        return;
      }
      BoundCheckIsUpdateOk(s0, pos0, mn0, mx0, word, marks, wordMin, sawGray);
      ok := RaiseBounds(wordMin, sawGray);
      if ok {
        UpdateAgrees(s0, word, marks, positional, mn0, mx0, minCount, maxCount, pos0, wordMin, sawGray);
      }
    }

    /** The first pass of `update`: read each hint character, narrow the
        position it belongs to, and count the green and yellow letters and
        the letters marked gray. */
    method MarkPositions(word: string, result: string)
      returns (ok: bool, wordMin: map<char, nat>, sawGray: set<char>, ghost marks: seq<Mark>)
      requires Valid() && IsWord(word) && |result| == WordLength
      modifies this
      ensures Valid() && minCount == old(minCount) && maxCount == old(maxCount)
      ensures ok <==> (ParseHint(result).Some? &&
        forall i | 0 <= i < WordLength :: ParseHint(result).value[i] == Green ==> word[i] in old(positional)[i])
      ensures ok ==> && ParseHint(result) == Some(marks)
                     && (forall j | 0 <= j < WordLength :: positional[j] == Narrow(old(positional)[j], word[j], marks[j]))
                     && (forall c :: Get(wordMin, c, 0) == Tally(word, marks, c, WordLength))
                     && (forall c | c in wordMin :: IsLower(c))
                     && sawGray <= wordMin.Keys
                     && (forall c :: c in sawGray <==> GrayAt(word, marks, c))
    {
      // The marks the hint characters stand for; an unknown character, where
      // the pass stops, is given an arbitrary mark.
      marks := seq(WordLength, j requires 0 <= j < WordLength =>
        if MarkOf(result[j]).Some? then MarkOf(result[j]).value else Gray);
      wordMin, sawGray := map[], {};
      var pos := positional;
      for i := 0 to WordLength
        invariant |pos| == WordLength
        invariant forall j | 0 <= j < i :: MarkOf(result[j]).Some?
        invariant forall j | 0 <= j < i :: marks[j] == Green ==> word[j] in positional[j]
        invariant forall j | 0 <= j < i :: pos[j] == Narrow(positional[j], word[j], marks[j])
        invariant forall j | i <= j < WordLength :: pos[j] == positional[j]
        invariant forall c :: Get(wordMin, c, 0) == Tally(word, marks, c, i)
        invariant (forall c | c in wordMin :: IsLower(c)) && sawGray <= wordMin.Keys
        invariant sawGray == GraySet(word, marks, i)
      {
        var ch, hint := word[i], result[i];
        if hint == 'g' {
          if ch !in pos[i] {
            assert ParseHint(result).Some? ==> ParseHint(result).value[i] == Green by {
              if ParseHint(result).Some? {
                assert MarkChar(ParseHint(result).value[i]) == result[i];
              }
            }
            return false, wordMin, sawGray, marks;
          }
          assert marks[i] == Green;
          pos := pos[i := pos[i] * {ch}];
          wordMin := wordMin[ch := Get(wordMin, ch, 0) + 1];
        } else if hint == 'y' {
          assert marks[i] == Yellow;
          pos := pos[i := pos[i] - {ch}];
          wordMin := wordMin[ch := Get(wordMin, ch, 0) + 1];
        } else {
          if hint != '.' {
            assert MarkOf(result[i]).None?;
            return false, wordMin, sawGray, marks;
          }
          assert marks[i] == Gray;
          wordMin := wordMin[ch := Get(wordMin, ch, 0) + 0];
          sawGray := sawGray + {ch};
        }
      }
      assert ParseHint(result) == Some(marks) by {
        var p := ParseHint(result).value;
        assert forall j | 0 <= j < WordLength :: MarkChar(p[j]) == result[j] == MarkChar(marks[j]);
        assert p == marks;
      }
      GraySetAt(word, marks, WordLength);
      positional := pos;
      ok := true;
    }

    /** The second pass of `update`: for every letter the guess held, check
        that a letter marked gray is not already required more often, fix its
        maximum to the count, and raise its minimum. */
    method RaiseBounds(wordMin: map<char, nat>, sawGray: set<char>) returns (ok: bool)
      requires Valid() && (forall c | c in wordMin :: IsLower(c)) && sawGray <= wordMin.Keys
      modifies this
      ensures Valid() && positional == old(positional)
      ensures ok <==> forall c | c in sawGray :: Get(old(minCount), c, 0) <= Get(wordMin, c, 0)
      ensures ok ==> forall c ::
        && Get(minCount, c, 0) == Max(Get(old(minCount), c, 0), Get(wordMin, c, 0))
        && Get(maxCount, c, 5) == if c in sawGray then Get(wordMin, c, 0) else Get(old(maxCount), c, 5)
    {
      var mn, mx := minCount, maxCount;
      var keys := wordMin.Keys;
      while keys != {}
        invariant keys <= wordMin.Keys
        invariant mn.Keys <= Alphabet() && mx.Keys <= Alphabet()
        invariant forall c | c !in keys ::
          && Get(mn, c, 0) == Max(Get(minCount, c, 0), Get(wordMin, c, 0))
          && Get(mx, c, 5) == (if c in sawGray then Get(wordMin, c, 0) else Get(maxCount, c, 5))
          && (c in sawGray ==> Get(minCount, c, 0) <= Get(wordMin, c, 0))
        invariant forall c | c in keys ::
          Get(mn, c, 0) == Get(minCount, c, 0) && Get(mx, c, 5) == Get(maxCount, c, 5)
        decreases keys
      {
        var c :| c in keys;
        if c in sawGray {
          if Get(mn, c, 0) > wordMin[c] {
            return false;
          }
          mx := mx[c := wordMin[c]];
        }
        if Get(mn, c, 0) < wordMin[c] {
          mn := mn[c := wordMin[c]];
        }
        keys := keys - {c};
      }
      minCount, maxCount := mn, mx;
      return true;
    }

    /** `match`: whether a candidate satisfies every constraint. */
    method Match(word: string) returns (r: Option<bool>)
      requires Valid()
      ensures r == MatchOutcome(Model(), word)
    {
      var lcount: map<char, nat> := map[];
      var i := 0;
      while i < |word|
        invariant 0 <= i <= |word| && i <= WordLength
        invariant forall j | 0 <= j < i :: word[j] in positional[j]
        invariant forall c :: Get(lcount, c, 0) == Occ(word, c, i)
      {
        if i >= WordLength {
          return None;
        }
        if word[i] !in positional[i] {
          return Some(false);
        }
        lcount := lcount[word[i] := Get(lcount, word[i], 0) + 1];
        i := i + 1;
      }
      var keys := minCount.Keys;
      while keys != {}
        invariant keys <= minCount.Keys
        invariant forall c | c in minCount && c !in keys :: Get(lcount, c, 0) >= minCount[c]
        decreases keys
      {
        var c :| c in keys;
        if Get(lcount, c, 0) < minCount[c] {
          assert Model().lo[Index(c)] > Count(word, Letter(Index(c)));
          return Some(false);
        }
        keys := keys - {c};
      }
      keys := maxCount.Keys;
      while keys != {}
        invariant keys <= maxCount.Keys
        invariant forall c | c in maxCount && c !in keys :: Get(lcount, c, 0) <= maxCount[c]
        decreases keys
      {
        var c :| c in keys;
        if Get(lcount, c, 0) > maxCount[c] {
          assert Model().hi[Index(c)] < Count(word, Letter(Index(c)));
          return Some(false);
        }
        keys := keys - {c};
      }
      forall k | 0 <= k < Letters ensures Count(word, Letter(k)) <= 5 {
        CountAtMostLength(word, Letter(k));
      }
      return Some(true);
    }
  }

  /** `guess_result`: the hint string a guess earns against an answer, by a
      first pass that marks greens and tallies the answer's unmatched letters
      and a second pass that hands out yellows from that tally. */
  method GuessResult(guess: string, answer: string) returns (r: Option<string>)
    ensures r == if |guess| == WordLength && |answer| == WordLength
                 then Some(HintString(Hint(guess, answer))) else None
  {
    if !(|guess| == WordLength && |answer| == WordLength) {
      return None;
    }
    var result := new char[WordLength](_ => '.');
    var lcount: map<char, nat> := map[];
    for i := 0 to WordLength
      invariant forall j | 0 <= j < WordLength :: result[j] == if j < i && guess[j] == answer[j] then 'g' else '.'
      invariant forall c :: Get(lcount, c, 0) == Unmatched(guess, answer, c, i)
    {
      if guess[i] == answer[i] {
        result[i] := 'g';
      } else {
        lcount := lcount[answer[i] := Get(lcount, answer[i], 0) + 1];
      }
    }
    MarkYellows(guess, answer, result, lcount);
    return Some(result[..]);
  }

  /** The second pass of `guess_result`: left to right, a non-green position
      whose letter still has unmatched copies in the answer turns yellow and
      uses one of them up. */
  method MarkYellows(guess: string, answer: string, result: array<char>, unmatched: map<char, nat>)
    requires |guess| == WordLength && |answer| == WordLength && result.Length == WordLength
    requires forall j | 0 <= j < WordLength :: result[j] == if guess[j] == answer[j] then 'g' else '.'
    requires forall c :: Get(unmatched, c, 0) == Unmatched(guess, answer, c, WordLength)
    modifies result
    ensures result[..] == HintString(Hint(guess, answer))
  {
    ghost var m := Hint(guess, answer);
    var lcount: map<char, nat> := unmatched;
    for i := 0 to WordLength
      invariant forall j | 0 <= j < i :: result[j] == MarkChar(m[j])
      invariant forall j | i <= j < WordLength :: result[j] == if guess[j] == answer[j] then 'g' else '.'
      invariant forall c :: Get(lcount, c, 0) + Yellows(guess, m, c, i) == Get(unmatched, c, 0)
    {
      HintYellowStep(guess, answer, i);
      HintGreenIff(guess, answer, i);
      if result[i] != 'g' && Get(lcount, guess[i], 0) > 0 {
        result[i] := 'y';
        lcount := lcount[guess[i] := Get(lcount, guess[i], 0) - 1];
      }
    }
    assert result[..] == HintString(m);
  }

  /** `replay_with_answer`, without its printing: a fresh constraint updated
      with the hint each guess earns against the last argument. Returns false
      at the first failed assertion. */
  method ReplayWithAnswer(guesses: seq<string>) returns (c: WordleConstraint, ok: bool)
    requires |guesses| >= 1
    ensures fresh(c) && c.Valid()
    ensures var answer := guesses[|guesses| - 1];
      ok <==> Replay(Init(), guesses[..|guesses| - 1], answer).Some?
    ensures ok ==> c.Model() == Replay(Init(), guesses[..|guesses| - 1], guesses[|guesses| - 1]).value
  {
    var answer := guesses[|guesses| - 1];
    var played := guesses[..|guesses| - 1];
    c := new WordleConstraint();
    var n := 0;
    while n < |played|
      invariant 0 <= n <= |played| && fresh(c) && c.Valid()
      invariant Replay(Init(), played, answer) == Replay(c.Model(), played[n..], answer)
    {
      var result := GuessResult(played[n], answer);
      if result.None? {
        return c, false;
      }
      ParseHintString(Hint(played[n], answer));
      ok := c.Update(played[n], result.value);
      if !ok {
        return c, false;
      }
      assert played[n..][1..] == played[n + 1..];
      n := n + 1;
    }
    return c, true;
  }

  /** With five-letter lower-case guesses and answer, the replay never fails an
      assertion and the answer stays a match. */
  lemma ReplayWithAnswerSound(guesses: seq<string>)
    requires |guesses| >= 1 && forall g | g in guesses :: IsWord(g)
    ensures var answer := guesses[|guesses| - 1];
      var r := Replay(Init(), guesses[..|guesses| - 1], answer);
      r.Some? && MatchOutcome(r.value, answer) == Some(true)
  {
    var answer := guesses[|guesses| - 1];
    assert answer in guesses;
    ReplaySound(guesses[..|guesses| - 1], answer);
  }
}
