/** The constraint engine that matches.py and web/match.ts both implement:
    the abstract state, the effect of one (guess, hint) update, the match test,
    and the reference hint a known answer produces. The two classes that model
    the source's objects (Matches.WordleConstraint and WebMatch.Matcher) are
    proved to follow these definitions. */
module Engine {
  import opened Common

  /** One position of a hint: right letter in the right place, right letter in
      the wrong place, or no further occurrence. */
  datatype Mark = Green | Yellow | Gray

  /** What is known after some guesses: the letters still allowed at each of
      the five positions, and a lower and an upper bound on the number of
      occurrences of each of the 26 letters (indexed from 'a'). */
  datatype Constraint = Constraint(allowed: seq<set<char>>, lo: seq<nat>, hi: seq<nat>)

  predicate WellFormed(s: Constraint) {
    |s.allowed| == WordLength && |s.lo| == Letters && |s.hi| == Letters
  }

  /** The 26 lower-case letters. */
  function Alphabet(): (r: set<char>)
    ensures forall c :: c in r <==> IsLower(c)
  {
    var r := set k | 0 <= k < Letters :: Letter(k);
    assert forall c | IsLower(c) :: c == Letter(Index(c));
    r
  }

  /** The state before any guess: every letter allowed everywhere, between 0
      and 5 occurrences of each. */
  function Init(): (s: Constraint)
    ensures WellFormed(s)
  {
    Constraint(seq(WordLength, _ => Alphabet()), seq(Letters, _ => 0), seq(Letters, _ => 5))
  }

  // ---------------------------------------------------------------------
  // Counting over a hint

  /** Number of positions j < n where w holds c and the mark is green or yellow:
      the occurrences of c that this guess proves. */
  function Tally(w: string, m: seq<Mark>, c: char, n: nat): nat
    requires n <= |w| && n <= |m|
  {
    if n == 0 then 0 else Tally(w, m, c, n - 1) + (if w[n - 1] == c && m[n - 1] != Gray then 1 else 0)
  }

  /** Number of positions j < n where w holds c with a yellow mark. */
  function Yellows(w: string, m: seq<Mark>, c: char, n: nat): nat
    requires n <= |w| && n <= |m|
  {
    if n == 0 then 0 else Yellows(w, m, c, n - 1) + (if w[n - 1] == c && m[n - 1] == Yellow then 1 else 0)
  }

  /** Number of positions j < n where w holds c with a green mark. */
  function Greens(w: string, m: seq<Mark>, c: char, n: nat): nat
    requires n <= |w| && n <= |m|
  {
    if n == 0 then 0 else Greens(w, m, c, n - 1) + (if w[n - 1] == c && m[n - 1] == Green then 1 else 0)
  }

  /** Some position of the guess holds c with a gray mark. */
  predicate GrayAt(w: string, m: seq<Mark>, c: char) {
    exists j | 0 <= j < |w| && j < |m| :: w[j] == c && m[j] == Gray
  }

  /** The letters marked gray among the first n positions. */
  function GraySet(w: string, m: seq<Mark>, n: nat): set<char>
    requires n <= |w| && n <= |m|
  {
    if n == 0 then {} else GraySet(w, m, n - 1) + (if m[n - 1] == Gray then {w[n - 1]} else {})
  }

  lemma {:induction false} GraySetAt(w: string, m: seq<Mark>, n: nat)
    requires n <= |w| && n <= |m|
    ensures forall c :: c in GraySet(w, m, n) <==> exists j | 0 <= j < n :: w[j] == c && m[j] == Gray
  {
    if n > 0 {
      GraySetAt(w, m, n - 1);
    }
  }

  lemma {:induction false} TallySplit(w: string, m: seq<Mark>, c: char, n: nat)
    requires n <= |w| && n <= |m|
    ensures Tally(w, m, c, n) == Greens(w, m, c, n) + Yellows(w, m, c, n)
  {
    if n > 0 {
      TallySplit(w, m, c, n - 1);
    }
  }

  /** Tally only looks at the first n marks. */
  lemma {:induction false} TallyPrefix(w: string, m: seq<Mark>, m': seq<Mark>, c: char, n: nat)
    requires n <= |w| && n <= |m| && n <= |m'| && m[..n] == m'[..n]
    ensures Tally(w, m, c, n) == Tally(w, m', c, n)
  {
    if n > 0 {
      assert m[n - 1] == m[..n][n - 1] == m'[n - 1];
      assert m[..n - 1] == m[..n][..n - 1];
      assert m'[..n - 1] == m'[..n][..n - 1];
      TallyPrefix(w, m, m', c, n - 1);
    }
  }

  // ---------------------------------------------------------------------
  // The textual hint of the Python scripts: 'g' green, 'y' yellow, '.' gray

  function MarkChar(k: Mark): char {
    match k
    case Green => 'g'
    case Yellow => 'y'
    case Gray => '.'
  }

  /** The mark a hint character stands for; None for any other character. */
  function MarkOf(ch: char): (r: Option<Mark>)
    ensures r.Some? ==> MarkChar(r.value) == ch
  {
    if ch == 'g' then Some(Green)
    else if ch == 'y' then Some(Yellow)
    else if ch == '.' then Some(Gray)
    else None
  }

  function HintString(m: seq<Mark>): (r: string)
    ensures |r| == |m|
  {
    seq(|m|, j requires 0 <= j < |m| => MarkChar(m[j]))
  }

  /** Read a hint string; None when some character is not a hint. */
  function ParseHint(r: string): (m: Option<seq<Mark>>)
    ensures m.Some? ==> |m.value| == |r| && HintString(m.value) == r
    ensures m.None? <==> exists j | 0 <= j < |r| :: MarkOf(r[j]).None?
  {
    if forall j | 0 <= j < |r| :: MarkOf(r[j]).Some? then
      var m := seq(|r|, j requires 0 <= j < |r| => MarkOf(r[j]).value);
      assert forall j | 0 <= j < |r| :: HintString(m)[j] == r[j];
      Some(m)
    else None
  }

  /** Printing a hint and reading it back gives the same marks. */
  lemma ParseHintString(m: seq<Mark>)
    ensures ParseHint(HintString(m)) == Some(m)
  {
    var r := HintString(m);
    assert forall j | 0 <= j < |r| :: MarkOf(r[j]) == Some(m[j]);
    var p := ParseHint(r).value;
    assert forall j | 0 <= j < |m| :: p[j] == m[j];
    assert p == m;
  }

  // ---------------------------------------------------------------------
  // One update

  /** The conditions under which the source's update does not fail an
      assertion: the guess is five lower-case letters, the hint has five marks,
      a green letter is still allowed at its position, and a letter marked gray
      is not required more often than this guess shows it. */
  predicate UpdateOk(s: Constraint, w: string, m: seq<Mark>)
    requires WellFormed(s)
  {
    && IsWord(w) && |m| == WordLength
    && (forall i | 0 <= i < WordLength :: m[i] == Green ==> w[i] in s.allowed[i])
    && (forall k | 0 <= k < Letters :: GrayAt(w, m, Letter(k)) ==> s.lo[k] <= Tally(w, m, Letter(k), WordLength))
  }

  /** The letters allowed at a position once letter c got mark k there: a
      green keeps only c, a yellow removes c, a gray leaves the position. */
  function Narrow(allowed: set<char>, c: char, k: Mark): set<char> {
    match k
    case Green => allowed * {c}
    case Yellow => allowed - {c}
    case Gray => allowed
  }

  function NewAllowed(s: Constraint, w: string, m: seq<Mark>, i: nat): set<char>
    requires WellFormed(s) && |w| == WordLength && |m| == WordLength && i < WordLength
  {
    Narrow(s.allowed[i], w[i], m[i])
  }

  function Max(x: nat, y: nat): nat { if x < y then y else x }

  /** The new lower bound for letter k: raised to what this guess proves. */
  function NewLo(s: Constraint, w: string, m: seq<Mark>, k: nat): nat
    requires WellFormed(s) && |w| == WordLength && |m| == WordLength && k < Letters
  {
    Max(s.lo[k], Tally(w, m, Letter(k), WordLength))
  }

  /** The new upper bound for letter k: a gray mark on the letter fixes its
      count to what this guess proves. */
  function NewHi(s: Constraint, w: string, m: seq<Mark>, k: nat): nat
    requires WellFormed(s) && |w| == WordLength && |m| == WordLength && k < Letters
  {
    if GrayAt(w, m, Letter(k)) then Tally(w, m, Letter(k), WordLength) else s.hi[k]
  }

  /** Fold one guess and its hint into the state; None where the source fails
      an assertion. */
  function Update(s: Constraint, w: string, m: seq<Mark>): (r: Option<Constraint>)
    requires WellFormed(s)
    ensures r.Some? <==> UpdateOk(s, w, m)
    ensures r.Some? ==> WellFormed(r.value)
  {
    if !UpdateOk(s, w, m) then None
    else Some(Constraint(
      seq(WordLength, i requires 0 <= i < WordLength => NewAllowed(s, w, m, i)),
      seq(Letters, k requires 0 <= k < Letters => NewLo(s, w, m, k)),
      seq(Letters, k requires 0 <= k < Letters => NewHi(s, w, m, k))))
  }

  /** A candidate word satisfies the state: each letter is allowed at its
      position and each letter's count lies within its bounds. The source also
      tests words shorter than five letters this way. */
  predicate Accepts(s: Constraint, w: string)
    requires WellFormed(s)
  {
    && |w| <= WordLength
    && (forall i | 0 <= i < |w| :: w[i] in s.allowed[i])
    && (forall k | 0 <= k < Letters :: s.lo[k] <= Count(w, Letter(k)) <= s.hi[k])
  }

  // ---------------------------------------------------------------------
  // Properties of one update

  /** A green pins its position to exactly the guessed letter. */
  lemma GreenPins(s: Constraint, w: string, m: seq<Mark>, i: nat)
    requires WellFormed(s) && i < WordLength
    requires Update(s, w, m).Some? && m[i] == Green
    ensures Update(s, w, m).value.allowed[i] == {w[i]}
  {
    var s' := Update(s, w, m).value;
    assert s'.allowed[i] == NewAllowed(s, w, m, i);
  }

  /** Once a position is pinned by a green, a later green of another letter
      there fails the update. */
  lemma RepinFails(s: Constraint, w: string, m: seq<Mark>, w': string, m': seq<Mark>, i: nat)
    requires WellFormed(s) && i < WordLength
    requires Update(s, w, m).Some? && m[i] == Green
    requires |w'| == WordLength && |m'| == WordLength && m'[i] == Green && w'[i] != w[i]
    ensures Update(Update(s, w, m).value, w', m').None?
  {
    GreenPins(s, w, m, i);
  }

  /** A yellow removes its letter from its own position, and a gray leaves
      its position as it was. */
  lemma YellowRemoves(s: Constraint, w: string, m: seq<Mark>, i: nat)
    requires WellFormed(s) && i < WordLength && Update(s, w, m).Some?
    ensures m[i] == Yellow ==> Update(s, w, m).value.allowed[i] == s.allowed[i] - {w[i]}
    ensures m[i] == Gray ==> Update(s, w, m).value.allowed[i] == s.allowed[i]
  {
    var s' := Update(s, w, m).value;
    assert s'.allowed[i] == NewAllowed(s, w, m, i);
  }

  /** Allowed sets only shrink and lower bounds never decrease. */
  lemma UpdateNarrows(s: Constraint, w: string, m: seq<Mark>)
    requires WellFormed(s) && Update(s, w, m).Some?
    ensures var s' := Update(s, w, m).value;
      && (forall i | 0 <= i < WordLength :: s'.allowed[i] <= s.allowed[i])
      && (forall k | 0 <= k < Letters :: s.lo[k] <= s'.lo[k])
  {
    var s' := Update(s, w, m).value;
    forall i | 0 <= i < WordLength ensures s'.allowed[i] <= s.allowed[i] {
      assert s'.allowed[i] == NewAllowed(s, w, m, i);
    }
    forall k | 0 <= k < Letters ensures s.lo[k] <= s'.lo[k] {
      assert s'.lo[k] == NewLo(s, w, m, k);
    }
  }

  /** A gray mark on a letter fixes its count: afterwards its lower and upper
      bound both equal the number of green and yellow marks it got. */
  lemma GrayFixesCount(s: Constraint, w: string, m: seq<Mark>, k: nat)
    requires WellFormed(s) && k < Letters
    requires Update(s, w, m).Some? && GrayAt(w, m, Letter(k))
    ensures Update(s, w, m).value.lo[k] == Update(s, w, m).value.hi[k] == Tally(w, m, Letter(k), WordLength)
  {
    var s' := Update(s, w, m).value;
    assert s'.lo[k] == NewLo(s, w, m, k) && s'.hi[k] == NewHi(s, w, m, k);
  }

  /** Applying the same guess and hint a second time succeeds and changes
      nothing. */
  lemma UpdateIdempotent(s: Constraint, w: string, m: seq<Mark>)
    requires WellFormed(s) && Update(s, w, m).Some?
    ensures Update(Update(s, w, m).value, w, m) == Update(s, w, m)
  {
    var s' := Update(s, w, m).value;
    forall i | 0 <= i < WordLength && m[i] == Green ensures w[i] in s'.allowed[i] {
      assert s'.allowed[i] == NewAllowed(s, w, m, i);
    }
    forall k | 0 <= k < Letters && GrayAt(w, m, Letter(k))
      ensures s'.lo[k] <= Tally(w, m, Letter(k), WordLength)
    {
      assert s'.lo[k] == NewLo(s, w, m, k);
    }
    assert UpdateOk(s', w, m);
    var s'' := Update(s', w, m).value;
    forall i | 0 <= i < WordLength ensures s''.allowed[i] == s'.allowed[i] {
      assert s''.allowed[i] == NewAllowed(s', w, m, i);
      assert s'.allowed[i] == NewAllowed(s, w, m, i);
    }
    forall k | 0 <= k < Letters ensures s''.lo[k] == s'.lo[k] && s''.hi[k] == s'.hi[k] {
      assert s''.lo[k] == NewLo(s', w, m, k) && s'.lo[k] == NewLo(s, w, m, k);
      assert s''.hi[k] == NewHi(s', w, m, k) && s'.hi[k] == NewHi(s, w, m, k);
    }
    assert s''.allowed == s'.allowed && s''.lo == s'.lo && s''.hi == s'.hi;
  }

  // ---------------------------------------------------------------------
  // The reference hint for a guess against a known answer

  /** Number of positions j < n where the guess holds c and is not green. */
  function NonGreen(g: string, a: string, c: char, n: nat): nat
    requires n <= |g| && n <= |a|
  {
    if n == 0 then 0 else NonGreen(g, a, c, n - 1) + (if g[n - 1] == c && g[n - 1] != a[n - 1] then 1 else 0)
  }

  /** Number of positions j < n where the answer holds c and the guess does not
      match it there: the occurrences of c still available for yellows. */
  function Unmatched(g: string, a: string, c: char, n: nat): nat
    requires n <= |g| && n <= |a|
  {
    if n == 0 then 0 else Unmatched(g, a, c, n - 1) + (if a[n - 1] == c && g[n - 1] != a[n - 1] then 1 else 0)
  }

  /** Number of positions j < n where guess and answer both hold c. */
  function Exact(g: string, a: string, c: char, n: nat): nat
    requires n <= |g| && n <= |a|
  {
    if n == 0 then 0 else Exact(g, a, c, n - 1) + (if a[n - 1] == c && g[n - 1] == a[n - 1] then 1 else 0)
  }

  /** The mark of position i: green where the letters agree; otherwise yellow
      while fewer non-green occurrences of the guessed letter lie to the left
      than the answer has unmatched copies of it, gray after that. */
  function HintAt(g: string, a: string, i: nat): Mark
    requires |g| == WordLength && |a| == WordLength && i < WordLength
  {
    if g[i] == a[i] then Green
    else if NonGreen(g, a, g[i], i) < Unmatched(g, a, g[i], WordLength) then Yellow
    else Gray
  }

  /** The hint a guess earns against an answer, as Wordle defines it. */
  function Hint(g: string, a: string): (m: seq<Mark>)
    requires |g| == WordLength && |a| == WordLength
    ensures |m| == WordLength
  {
    seq(WordLength, i requires 0 <= i < WordLength => HintAt(g, a, i))
  }

  function Min(x: nat, y: nat): nat { if x < y then x else y }

  /** The marks m are green exactly where guess and answer agree and, at the
      non-green positions holding c, yellow for the first `budget` of them
      from the left. */
  predicate RankedBy(g: string, a: string, m: seq<Mark>, c: char, budget: nat) {
    && |g| == WordLength && |a| == WordLength && |m| == WordLength
    && (forall i | 0 <= i < WordLength :: m[i] == Green <==> g[i] == a[i])
    && (forall i | 0 <= i < WordLength && g[i] == c && g[i] != a[i] ::
          m[i] == Yellow <==> NonGreen(g, a, c, i) < budget)
  }

  /** Under such marks, the yellows among the first n positions are as many as
      the non-green occurrences there, capped at the budget. */
  lemma {:induction false} YellowsRanked(g: string, a: string, m: seq<Mark>, c: char, budget: nat, n: nat)
    requires RankedBy(g, a, m, c, budget) && n <= WordLength
    ensures Yellows(g, m, c, n) == Min(NonGreen(g, a, c, n), budget)
  {
    if n > 0 {
      YellowsRanked(g, a, m, c, budget, n - 1);
    }
  }

  lemma {:induction false} NonGreenMonotone(g: string, a: string, c: char, i: nat, n: nat)
    requires i <= n <= |g| && n <= |a|
    ensures NonGreen(g, a, c, i) <= NonGreen(g, a, c, n)
  {
    if i < n {
      NonGreenMonotone(g, a, c, i, n - 1);
    }
  }

  lemma {:induction false} GreensExact(g: string, a: string, m: seq<Mark>, c: char, n: nat)
    requires |g| == |a| == |m| == WordLength && n <= WordLength
    requires forall i | 0 <= i < WordLength :: m[i] == Green <==> g[i] == a[i]
    ensures Greens(g, m, c, n) == Exact(g, a, c, n)
  {
    if n > 0 {
      GreensExact(g, a, m, c, n - 1);
    }
  }

  lemma {:induction false} OccSplit(g: string, a: string, c: char, n: nat)
    requires n <= |g| && n <= |a|
    ensures Occ(a, c, n) == Exact(g, a, c, n) + Unmatched(g, a, c, n)
  {
    if n > 0 {
      OccSplit(g, a, c, n - 1);
    }
  }

  lemma HintRanked(g: string, a: string, c: char)
    requires |g| == WordLength && |a| == WordLength
    ensures RankedBy(g, a, Hint(g, a), c, Unmatched(g, a, c, WordLength))
  {
  }

  /** The step a left-to-right hint generator takes at position i: a
      non-green position is yellow exactly while the yellows already handed out
      for its letter are fewer than the answer's unmatched copies of it. */
  lemma HintYellowStep(g: string, a: string, i: nat)
    requires |g| == WordLength && |a| == WordLength && i < WordLength
    ensures Hint(g, a)[i] == Yellow <==>
      g[i] != a[i] && Yellows(g, Hint(g, a), g[i], i) < Unmatched(g, a, g[i], WordLength)
  {
    HintRanked(g, a, g[i]);
    YellowsRanked(g, a, Hint(g, a), g[i], Unmatched(g, a, g[i], WordLength), i);
  }

  /** Position i of the hint is green exactly when guess and answer agree there. */
  lemma HintGreenIff(g: string, a: string, i: nat)
    requires |g| == WordLength && |a| == WordLength && i < WordLength
    ensures Hint(g, a)[i] == Green <==> g[i] == a[i]
  {
  }

  /** The yellows for c never exceed the answer's occurrences of c at positions
      the guess did not match, and green plus yellow marks for c never exceed
      c's occurrences in the answer. */
  lemma HintTallyBound(g: string, a: string, c: char)
    requires |g| == WordLength && |a| == WordLength
    ensures Yellows(g, Hint(g, a), c, WordLength) <= Unmatched(g, a, c, WordLength)
    ensures Tally(g, Hint(g, a), c, WordLength) <= Count(a, c)
  {
    var m := Hint(g, a);
    YellowsRanked(g, a, m, c, Unmatched(g, a, c, WordLength), WordLength);
    TallySplit(g, m, c, WordLength);
    GreensExact(g, a, m, c, WordLength);
    OccSplit(g, a, c, WordLength);
  }

  /** Once a letter is marked gray, its green and yellow marks account for
      every occurrence of it in the answer. */
  lemma HintGrayExact(g: string, a: string, c: char)
    requires |g| == WordLength && |a| == WordLength
    requires GrayAt(g, Hint(g, a), c)
    ensures Tally(g, Hint(g, a), c, WordLength) == Count(a, c)
  {
    var m := Hint(g, a);
    var j :| 0 <= j < WordLength && g[j] == c && m[j] == Gray;
    assert m[j] == HintAt(g, a, j);
    NonGreenMonotone(g, a, c, j, WordLength);
    YellowsRanked(g, a, m, c, Unmatched(g, a, c, WordLength), WordLength);
    TallySplit(g, m, c, WordLength);
    GreensExact(g, a, m, c, WordLength);
    OccSplit(g, a, c, WordLength);
  }

  /** A yellow letter of the reference hint is in the answer. */
  lemma HintYellowPresent(w: string, a: string, i: nat)
    requires IsWord(w) && IsWord(a) && i < WordLength && Hint(w, a)[i] == Yellow
    ensures w[i] in a
  {
    OccSplit(w, a, w[i], WordLength);
    CountPositive(a, w[i]);
  }

  /** Yellows go to the leftmost non-green occurrences: a non-green position
      left of a yellow one with the same letter is yellow too. */
  lemma HintYellowLeftFirst(g: string, a: string, j: nat, i: nat)
    requires |g| == WordLength && |a| == WordLength && j < i < WordLength
    requires g[j] == g[i] && g[j] != a[j] && Hint(g, a)[i] == Yellow
    ensures Hint(g, a)[j] == Yellow
  {
    NonGreenMonotone(g, a, g[i], j + 1, i);
  }

  /** A word guessed against itself is all green. */
  lemma HintSelf(w: string)
    requires |w| == WordLength
    ensures Hint(w, w) == seq(WordLength, _ => Green)
  {
  }

  // ---------------------------------------------------------------------
  // Soundness: hints computed from an answer never contradict it

  lemma CountAtMostLength(w: string, c: char)
    ensures Count(w, c) <= |w|
  {
  }

  /** The starting state accepts every word of at most five lower-case letters. */
  lemma InitAcceptsAll(w: string)
    requires |w| <= WordLength && forall i | 0 <= i < |w| :: IsLower(w[i])
    ensures Accepts(Init(), w)
  {
    forall k | 0 <= k < Letters ensures Count(w, Letter(k)) <= 5 {
      CountAtMostLength(w, Letter(k));
    }
  }

  /** One update with the hint the answer earns never fails an assertion and
      keeps the answer acceptable. */
  lemma HintKeepsAnswer(s: Constraint, g: string, a: string)
    requires WellFormed(s) && IsWord(g) && IsWord(a) && Accepts(s, a)
    ensures Update(s, g, Hint(g, a)).Some?
    ensures Accepts(Update(s, g, Hint(g, a)).value, a)
  {
    var m := Hint(g, a);
    forall k | 0 <= k < Letters
      ensures Tally(g, m, Letter(k), WordLength) <= Count(a, Letter(k))
      ensures GrayAt(g, m, Letter(k)) ==> Tally(g, m, Letter(k), WordLength) == Count(a, Letter(k))
    {
      HintTallyBound(g, a, Letter(k));
      if GrayAt(g, m, Letter(k)) {
        HintGrayExact(g, a, Letter(k));
      }
    }
    assert UpdateOk(s, g, m);
    var s' := Update(s, g, m).value;
    forall i | 0 <= i < WordLength ensures a[i] in s'.allowed[i] {
      assert s'.allowed[i] == NewAllowed(s, g, m, i);
    }
    forall k | 0 <= k < Letters ensures s'.lo[k] <= Count(a, Letter(k)) <= s'.hi[k] {
      assert s'.lo[k] == NewLo(s, g, m, k) && s'.hi[k] == NewHi(s, g, m, k);
    }
  }

  /** Folding every guess with the hint it earns against the answer, as the
      replay mode does; None at the first failed assertion (a guess or answer
      that is not five characters long fails the hint generator's). */
  function Replay(s: Constraint, guesses: seq<string>, a: string): (r: Option<Constraint>)
    requires WellFormed(s)
    ensures r.Some? ==> WellFormed(r.value)
    decreases |guesses|
  {
    if guesses == [] then Some(s)
    else if |guesses[0]| != WordLength || |a| != WordLength then None
    else match Update(s, guesses[0], Hint(guesses[0], a))
      case None => None
      case Some(s') => Replay(s', guesses[1..], a)
  }

  lemma {:induction false} ReplayKeepsAnswer(s: Constraint, guesses: seq<string>, a: string)
    requires WellFormed(s) && IsWord(a) && Accepts(s, a)
    requires forall g | g in guesses :: IsWord(g)
    ensures Replay(s, guesses, a).Some? && Accepts(Replay(s, guesses, a).value, a)
    decreases |guesses|
  {
    if guesses != [] {
      HintKeepsAnswer(s, guesses[0], a);
      ReplayKeepsAnswer(Update(s, guesses[0], Hint(guesses[0], a)).value, guesses[1..], a);
    }
  }

  /** The premise of replaying guesses against a known answer: from the
      starting state, any sequence of valid guesses folded with the hints they
      earn never fails an assertion, and the answer still matches. */
  lemma ReplaySound(guesses: seq<string>, a: string)
    requires IsWord(a) && forall g | g in guesses :: IsWord(g)
    ensures Replay(Init(), guesses, a).Some?
    ensures Accepts(Replay(Init(), guesses, a).value, a)
  {
    InitAcceptsAll(a);
    ReplayKeepsAnswer(Init(), guesses, a);
  }
}
