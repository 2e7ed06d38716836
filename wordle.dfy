/** wordle.py: the case-encoded variant. Each guess is written with its hint
    folded in: an upper-case letter is green, a lower-case letter yellow, and
    '.' stands for a gray position. The guesses and the letters known to be
    absent become one pattern slot per position plus a set of required
    letters, and a dictionary word is printed when it satisfies both. */
module Wordle {
  import opened Common
  import opened Engine

  /** Every guess is five characters long: the script's opening assertion. */
  predicate Lengths(guesses: seq<string>) {
    forall p | 0 <= p < |guesses| :: |guesses[p]| == WordLength
  }

  /** The lower-case letters the first n guesses show at position i. */
  function SeenLower(guesses: seq<string>, i: nat, n: nat): set<char>
    requires Lengths(guesses) && i < WordLength && n <= |guesses|
  {
    set p | 0 <= p < n && IsLower(guesses[p][i]) :: guesses[p][i]
  }

  lemma SeenLowerStep(guesses: seq<string>, i: nat, n: nat)
    requires Lengths(guesses) && i < WordLength && n < |guesses|
    ensures SeenLower(guesses, i, n + 1)
            == SeenLower(guesses, i, n) + (if IsLower(guesses[n][i]) then {guesses[n][i]} else {})
  {
    if IsLower(guesses[n][i]) {
      assert guesses[n][i] in SeenLower(guesses, i, n + 1);
    }
  }

  /** `pno[i]`: the letters known to be absent, plus every lower-case letter
      any guess shows at position i. */
  function Excluded(guesses: seq<string>, notPresent: string, i: nat): set<char>
    requires Lengths(guesses) && i < WordLength
  {
    (set c | c in notPresent) + SeenLower(guesses, i, |guesses|)
  }

  /** The pin of position i: the lower-case form of the upper-case letter
      that the last guess with one there shows. */
  function LastUpper(guesses: seq<string>, i: nat): Option<char>
    requires Lengths(guesses) && i < WordLength
    decreases |guesses|
  {
    if guesses == [] then None
    else
      var g := guesses[|guesses| - 1];
      if IsUpper(g[i]) then Some(ToLower(g[i])) else LastUpper(guesses[..|guesses| - 1], i)
  }

  /** `r`: a pinned letter where some guess has an upper-case letter, and the
      class excluding `pno[i]` elsewhere. */
  function Slots(guesses: seq<string>, notPresent: string): (pat: seq<Slot>)
    requires Lengths(guesses)
    ensures |pat| == WordLength
  {
    seq(WordLength, i requires 0 <= i < WordLength =>
      if LastUpper(guesses, i).Some? then Pin(LastUpper(guesses, i).value) else Exclude(Excluded(guesses, notPresent, i)))
  }

  /** `req`: the lower-case letters of any guess, less the lower-case forms
      of the upper-case letters of any guess. */
  function Req(guesses: seq<string>): set<char> {
    (set p, j | 0 <= p < |guesses| && 0 <= j < |guesses[p]| && IsLower(guesses[p][j]) :: guesses[p][j])
    - (set p, j | 0 <= p < |guesses| && 0 <= j < |guesses[p]| && IsUpper(guesses[p][j]) :: ToLower(guesses[p][j]))
  }

  datatype Query = Query(pattern: seq<Slot>, req: set<char>)

  /** The script's set-up: the length assertion, the loops filling `pno`
      and overwriting `r`, and the `req` comprehension. None where the
      assertion fails. */
  method Prepare(guesses: seq<string>, notPresent: string) returns (q: Option<Query>)
    ensures q == if Lengths(guesses) then Some(Query(Slots(guesses, notPresent), Req(guesses))) else None
  {
    if !(forall p | 0 <= p < |guesses| :: |guesses[p]| == WordLength) {
      return None;
    }
    var absent := set c | c in notPresent;
    var pno: seq<set<char>> := seq(WordLength, _ => absent);
    for i := 0 to WordLength
      invariant |pno| == WordLength
      invariant forall j | 0 <= j < WordLength :: pno[j] == if j < i then Excluded(guesses, notPresent, j) else absent
    {
      for p := 0 to |guesses|
        invariant |pno| == WordLength
        invariant forall j | 0 <= j < WordLength && j != i :: pno[j] == if j < i then Excluded(guesses, notPresent, j) else absent
        invariant pno[i] == absent + SeenLower(guesses, i, p)
      {
        SeenLowerStep(guesses, i, p);
        if IsLower(guesses[p][i]) {
          pno := pno[i := pno[i] + {guesses[p][i]}];
        }
      }
    }
    var r: seq<Slot> := seq(WordLength, i requires 0 <= i < WordLength => Exclude(pno[i]));
    for i := 0 to WordLength
      invariant |r| == WordLength
      invariant forall j | i <= j < WordLength :: r[j] == Exclude(pno[j])
      invariant forall j | 0 <= j < i :: r[j] == Slots(guesses, notPresent)[j]
    {
      for p := 0 to |guesses|
        invariant |r| == WordLength
        invariant forall j | i < j < WordLength :: r[j] == Exclude(pno[j])
        invariant forall j | 0 <= j < i :: r[j] == Slots(guesses, notPresent)[j]
        invariant r[i] == if LastUpper(guesses[..p], i).Some? then Pin(LastUpper(guesses[..p], i).value) else Exclude(pno[i])
      {
        assert guesses[..p + 1][..p] == guesses[..p];
        if IsUpper(guesses[p][i]) {
          r := r[i := Pin(ToLower(guesses[p][i]))];
        }
      }
      assert guesses[..|guesses|] == guesses;
    }
    assert r == Slots(guesses, notPresent);
    return Some(Query(r, Req(guesses)));
  }

  /** A dictionary word is printed: it is lower-case, fully matches the
      pattern, and holds every required letter. */
  predicate Printed(q: Query, word: string) {
    IsLowerStr(word) && FullMatch(q.pattern, word) && forall c | c in q.req :: c in word
  }

  /** The printed words of a dictionary, in dictionary order and with
      their repetitions. */
  function PrintedIn(q: Query, dictionary: seq<string>): (r: seq<string>)
    ensures |r| <= |dictionary|
    ensures forall w :: w in r <==> w in dictionary && Printed(q, w)
  {
    if dictionary == [] then []
    else
      var front := dictionary[..|dictionary| - 1];
      var last := dictionary[|dictionary| - 1];
      assert dictionary == front + [last];
      PrintedIn(q, front) + (if Printed(q, last) then [last] else [])
  }

  /** The dictionary loop, without its printing: the words printed, in
      dictionary order. */
  method PrintedWords(q: Query, dictionary: seq<string>) returns (printed: seq<string>)
    ensures printed == PrintedIn(q, dictionary)
    ensures forall w :: w in printed <==> w in dictionary && Printed(q, w)
    ensures |printed| <= |dictionary|
  {
    printed := [];
    for i := 0 to |dictionary|
      invariant printed == PrintedIn(q, dictionary[..i])
    {
      var word := dictionary[i];
      assert dictionary[..i + 1] == dictionary[..i] + [word];
      if IsLowerStr(word) && FullMatch(q.pattern, word) && forall c | c in q.req :: c in word {
        printed := printed + [word];
      }
    }
    assert dictionary[..|dictionary|] == dictionary;
  }

  // ---------------------------------------------------------------------
  // Properties

  /** A pin comes from an upper-case letter at that position, with no later
      guess showing one there. */
  lemma {:induction false} LastUpperFrom(guesses: seq<string>, i: nat)
    requires Lengths(guesses) && i < WordLength && LastUpper(guesses, i).Some?
    ensures exists p | 0 <= p < |guesses| :: IsUpper(guesses[p][i]) && LastUpper(guesses, i) == Some(ToLower(guesses[p][i]))
                                            && forall p' | p < p' < |guesses| :: !IsUpper(guesses[p'][i])
    decreases |guesses|
  {
    var n := |guesses| - 1;
    if IsUpper(guesses[n][i]) {
      assert LastUpper(guesses, i) == Some(ToLower(guesses[n][i]));
    } else {
      var front := guesses[..n];
      assert LastUpper(guesses, i) == LastUpper(front, i);
      LastUpperFrom(front, i);
      var p :| 0 <= p < n && IsUpper(front[p][i]) && LastUpper(front, i) == Some(ToLower(front[p][i]))
                && forall p' | p < p' < n :: !IsUpper(front[p'][i]);
      assert guesses[p] == front[p];
      forall p' | p < p' < |guesses| ensures !IsUpper(guesses[p'][i]) {
        if p' < n {
          assert guesses[p'] == front[p'];
        }
      }
      assert IsUpper(guesses[p][i]) && LastUpper(guesses, i) == Some(ToLower(guesses[p][i]));
    }
  }

  /** The last upper-case letter at a position wins. */
  lemma {:induction false} LastUpperWins(guesses: seq<string>, i: nat, p: nat)
    requires Lengths(guesses) && i < WordLength && p < |guesses| && IsUpper(guesses[p][i])
    requires forall p' | p < p' < |guesses| :: !IsUpper(guesses[p'][i])
    ensures LastUpper(guesses, i) == Some(ToLower(guesses[p][i]))
    decreases |guesses|
  {
    var n := |guesses| - 1;
    if p < n {
      var front := guesses[..n];
      assert front[p] == guesses[p];
      LastUpperWins(front, i, p);
    }
  }

  /** With no upper-case letter at a position, it is not pinned. */
  lemma {:induction false} NoUpperNoPin(guesses: seq<string>, i: nat)
    requires Lengths(guesses) && i < WordLength
    requires forall p | 0 <= p < |guesses| :: !IsUpper(guesses[p][i])
    ensures LastUpper(guesses, i) == None
    decreases |guesses|
  {
    if guesses != [] {
      var front := guesses[..|guesses| - 1];
      assert forall p | 0 <= p < |front| :: front[p] == guesses[p];
      NoUpperNoPin(front, i);
    }
  }

  /** An upper-case letter anywhere at a position pins it. */
  lemma {:induction false} UpperPins(guesses: seq<string>, i: nat, p: nat)
    requires Lengths(guesses) && i < WordLength && p < |guesses| && IsUpper(guesses[p][i])
    ensures LastUpper(guesses, i).Some?
    decreases |guesses|
  {
    var n := |guesses| - 1;
    if !IsUpper(guesses[n][i]) {
      var front := guesses[..n];
      assert front[p] == guesses[p];
      UpperPins(front, i, p);
    }
  }

  /** Every position is constrained by something: an absent letter, or a
      letter that some guess shows there. A position with neither gives the
      empty class `[^]`, which Python's regular expressions read together
      with the text after it, or reject; the model reads it as any
      character, so its claims about printing are made under this
      condition. */
  predicate Shown(guesses: seq<string>, notPresent: string) {
    forall i | 0 <= i < WordLength :: ShownAt(guesses, notPresent, i)
  }

  predicate ShownAt(guesses: seq<string>, notPresent: string, i: nat) {
    notPresent != [] || exists p | 0 <= p < |guesses| && i < |guesses[p]| :: IsLower(guesses[p][i]) || IsUpper(guesses[p][i])
  }

  /** Under `Shown`, every slot is a pin or a class that excludes at least
      one character: the pattern has no empty class `[^]`. */
  lemma ShownClasses(guesses: seq<string>, notPresent: string)
    requires Lengths(guesses) && Shown(guesses, notPresent)
    ensures forall i | 0 <= i < WordLength :: Slots(guesses, notPresent)[i].Pin? || Slots(guesses, notPresent)[i].banned != {}
  {
    var pat := Slots(guesses, notPresent);
    forall i | 0 <= i < WordLength ensures pat[i].Pin? || pat[i].banned != {} {
      if !pat[i].Pin? {
        assert ShownAt(guesses, notPresent, i);
        if notPresent != [] {
          assert notPresent[0] in Excluded(guesses, notPresent, i);
        } else {
          var p :| 0 <= p < |guesses| && i < |guesses[p]| && (IsLower(guesses[p][i]) || IsUpper(guesses[p][i]));
          if IsUpper(guesses[p][i]) {
            UpperPins(guesses, i, p);
          }
          assert guesses[p][i] in SeenLower(guesses, i, |guesses|);
        }
      }
    }
  }

  /** Every required letter is lower-case, so '.' never is one. */
  lemma ReqLower(guesses: seq<string>, c: char)
    requires c in Req(guesses)
    ensures IsLower(c) && c != '.'
  {
  }

  /** The guesses `wordle.py` expects for words guessed against an answer:
      the green letters in upper case, the yellow ones in lower case, and
      '.' for the gray ones. */
  function CaseHint(w: string, m: seq<Mark>): (g: string)
    requires IsWord(w) && |m| == WordLength
    ensures |g| == WordLength
  {
    seq(WordLength, i requires 0 <= i < WordLength =>
      if m[i] == Green then ToUpper(w[i]) else if m[i] == Yellow then w[i] else '.')
  }

  /** Each guess is the case encoding of a word's hint against the answer. */
  predicate Encodes(guesses: seq<string>, words: seq<string>, a: string)
    requires IsWord(a)
  {
    && |guesses| == |words|
    && (forall p | 0 <= p < |words| :: IsWord(words[p]))
    && (forall p | 0 <= p < |words| :: guesses[p] == CaseHint(words[p], Hint(words[p], a)))
  }

  /** What each encoded character says about the answer: an upper-case
      character is the answer's letter there, a lower-case one is not the
      answer's letter there but is in the answer. */
  lemma EncodedChar(w: string, a: string, i: nat)
    requires IsWord(w) && IsWord(a) && i < WordLength
    ensures var g := CaseHint(w, Hint(w, a));
      && (IsUpper(g[i]) ==> ToLower(g[i]) == a[i])
      && (IsLower(g[i]) ==> g[i] != a[i] && g[i] in a)
  {
    var m := Hint(w, a);
    HintGreenIff(w, a, i);
    if m[i] == Yellow {
      HintYellowPresent(w, a, i);
    }
  }

  /** With correctly encoded guesses and absent letters that are truly
      absent, the answer is printed. */
  lemma AnswerPrinted(guesses: seq<string>, words: seq<string>, notPresent: string, a: string)
    requires IsWord(a) && Encodes(guesses, words, a)
    requires forall c | c in notPresent :: c !in a
    requires Shown(guesses, notPresent)
    ensures Lengths(guesses)
    ensures forall i | 0 <= i < WordLength :: Slots(guesses, notPresent)[i].Pin? || Slots(guesses, notPresent)[i].banned != {}
    ensures Printed(Query(Slots(guesses, notPresent), Req(guesses)), a)
  {
    ShownClasses(guesses, notPresent);
    var pat := Slots(guesses, notPresent);
    forall i | 0 <= i < WordLength ensures SlotMatches(pat[i], a[i]) {
      if LastUpper(guesses, i).Some? {
        LastUpperFrom(guesses, i);
        var p :| 0 <= p < |guesses| && IsUpper(guesses[p][i]) && LastUpper(guesses, i) == Some(ToLower(guesses[p][i]))
                  && forall p' | p < p' < |guesses| :: !IsUpper(guesses[p'][i]);
        EncodedChar(words[p], a, i);
      } else {
        assert a[i] in a;
        forall p | 0 <= p < |guesses| && IsLower(guesses[p][i]) ensures guesses[p][i] != a[i] {
          EncodedChar(words[p], a, i);
        }
      }
    }
    forall c | c in Req(guesses) ensures c in a {
      var p, j :| 0 <= p < |guesses| && 0 <= j < |guesses[p]| && IsLower(guesses[p][j]) && guesses[p][j] == c;
      EncodedChar(words[p], a, j);
    }
    AlphaLowerIff(a);
  }
}
