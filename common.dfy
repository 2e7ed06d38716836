/** Vocabulary shared by every variant of the solver: letters, five-letter
    words, occurrence counts, and one position of a character-class pattern. */
module Common {

  datatype Option<T> = None | Some(value: T)

  /** Number of positions in a Wordle word. */
  const WordLength := 5
  /** Number of letters in the alphabet. */
  const Letters := 26

  /** A lower-case ASCII letter. Python's `islower`/`isalpha` are Unicode-aware;
      the model only admits the 26 ASCII letters. */
  predicate IsLower(c: char) { 'a' <= c <= 'z' }

  predicate IsUpper(c: char) { 'A' <= c <= 'Z' }

  /** Five lower-case letters: what every variant calls a valid word. */
  predicate IsWord(w: string) {
    |w| == WordLength && forall i | 0 <= i < |w| :: IsLower(w[i])
  }

  /** The k-th letter of the alphabet, 0 being 'a'. */
  function Letter(k: int): (c: char)
    requires 0 <= k < Letters
    ensures IsLower(c) && c as int - 'a' as int == k
  {
    ('a' as int + k) as char
  }

  /** The offset of a letter from 'a'. */
  function Index(c: char): (k: int)
    requires IsLower(c)
    ensures 0 <= k < Letters && Letter(k) == c
  {
    c as int - 'a' as int
  }

  /** The lower-case form of an ASCII upper-case letter. */
  function ToLower(c: char): (r: char)
    requires IsUpper(c)
    ensures IsLower(r) && r as int - 'a' as int == c as int - 'A' as int
  {
    (c as int + 32) as char
  }

  /** The upper-case form of an ASCII lower-case letter. */
  function ToUpper(c: char): (r: char)
    requires IsLower(c)
    ensures IsUpper(r) && ToLower(r) == c
  {
    (c as int - 32) as char
  }

  /** `str.isalpha` on ASCII: non-empty and every character a letter. */
  predicate IsAlpha(w: string) {
    |w| > 0 && forall i | 0 <= i < |w| :: IsLower(w[i]) || IsUpper(w[i])
  }

  /** `str.islower` on ASCII: some cased character, and none upper-case. */
  predicate IsLowerStr(w: string) {
    (exists i | 0 <= i < |w| :: IsLower(w[i]) || IsUpper(w[i])) && forall i | 0 <= i < |w| :: !IsUpper(w[i])
  }

  /** Both tests together accept exactly the non-empty strings of lower-case
      letters. */
  lemma AlphaLowerIff(w: string)
    ensures IsAlpha(w) && IsLowerStr(w) <==> |w| > 0 && forall i | 0 <= i < |w| :: IsLower(w[i])
  {
    if |w| > 0 && forall i | 0 <= i < |w| :: IsLower(w[i]) {
      assert IsLower(w[0]);
    }
  }

  /** Number of positions j < n with w[j] == c. */
  function Occ(w: string, c: char, n: nat): (r: nat)
    requires n <= |w|
    ensures r <= n
  {
    if n == 0 then 0 else Occ(w, c, n - 1) + (if w[n - 1] == c then 1 else 0)
  }

  /** Number of occurrences of c in w. */
  function Count(w: string, c: char): nat {
    Occ(w, c, |w|)
  }

  lemma {:induction false} OccPositive(w: string, c: char, n: nat)
    requires n <= |w|
    ensures Occ(w, c, n) > 0 <==> exists j | 0 <= j < n :: w[j] == c
  {
    if n > 0 {
      OccPositive(w, c, n - 1);
    }
  }

  /** A letter occurs in w exactly when its count is positive. */
  lemma CountPositive(w: string, c: char)
    ensures Count(w, c) > 0 <==> c in w
  {
    OccPositive(w, c, |w|);
    if c in w {
      var j :| 0 <= j < |w| && w[j] == c;
    }
  }

  /** One position of a regular expression made of literal letters and
      negated character classes: `x` is Pin(x), `[^...]` is Exclude({...}). */
  datatype Slot = Pin(letter: char) | Exclude(banned: set<char>)

  predicate SlotMatches(s: Slot, c: char) {
    match s
    case Pin(x) => c == x
    case Exclude(b) => c !in b
  }

  /** `re.fullmatch` of the concatenated slots against w. */
  predicate FullMatch(pattern: seq<Slot>, w: string) {
    |w| == |pattern| && forall i | 0 <= i < |w| :: SlotMatches(pattern[i], w[i])
  }

  /** Reading a `defaultdict`: the stored value, or the default for a missing key. */
  function Get(m: map<char, nat>, c: char, default: nat): nat {
    if c in m then m[c] else default
  }
}
