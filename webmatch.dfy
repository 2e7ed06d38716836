/** web/match.ts: the packed word list, the bitset `Matcher` with its
    `update` and `match`, and the hint generator `generate_hint`. */
module WebMatch {
  import opened Common
  import opened Engine
  import opened Packing

  /** An element of a `Uint8Array`. */
  newtype byte = x: int | 0 <= x < 256

  // ---------------------------------------------------------------------
  // Hint codes: HINT_GREEN 2, HINT_YELLOW 1, HINT_GRAY 0

  function CodeOf(k: Mark): byte {
    match k
    case Green => 2
    case Yellow => 1
    case Gray => 0
  }

  /** The mark a hint code stands for; None for any other byte. */
  function MarkOfCode(b: byte): (r: Option<Mark>)
    ensures r.Some? ==> CodeOf(r.value) == b
    ensures r.None? <==> b > 2
  {
    if b == 2 then Some(Green)
    else if b == 1 then Some(Yellow)
    else if b == 0 then Some(Gray)
    else None
  }

  function Codes(m: seq<Mark>): (r: seq<byte>)
    ensures |r| == |m|
  {
    seq(|m|, j requires 0 <= j < |m| => CodeOf(m[j]))
  }

  /** Read a hint array; None when some byte is not a hint code. */
  function ParseCodes(r: seq<byte>): (m: Option<seq<Mark>>)
    ensures m.Some? ==> |m.value| == |r| && Codes(m.value) == r
    ensures m.None? <==> exists j | 0 <= j < |r| :: r[j] > 2
  {
    if forall j | 0 <= j < |r| :: r[j] <= 2 then
      var m := seq(|r|, j requires 0 <= j < |r| => MarkOfCode(r[j]).value);
      assert forall j | 0 <= j < |r| :: Codes(m)[j] == r[j];
      Some(m)
    else None
  }

  /** Encoding marks as codes and reading them back gives the same marks. */
  lemma ParseCodesOf(m: seq<Mark>)
    ensures ParseCodes(Codes(m)) == Some(m)
  {
    var r := Codes(m);
    assert forall j | 0 <= j < |r| :: MarkOfCode(r[j]) == Some(m[j]);
    var p := ParseCodes(r).value;
    assert forall j | 0 <= j < |m| :: p[j] == m[j];
    assert p == m;
  }

  /** What `update(word, result)` does to a state: the hint must be five
      codes, then the engine's update applies. */
  function ApplyCodes(s: Constraint, word: string, result: seq<byte>): Option<Constraint>
    requires WellFormed(s)
  {
    if |result| != WordLength then None
    else match ParseCodes(result)
      case None => None
      case Some(m) => Update(s, word, m)
  }

  /** The allowed letters of each `disallowed_at` entry. */
  function AllowedAll(d: seq<Bitset>): (r: seq<set<char>>)
    ensures |r| == |d|
  {
    seq(|d|, i requires 0 <= i < |d| => Allowed(d[i]))
  }

  lemma {:induction false} TallyAtMost(w: string, m: seq<Mark>, c: char, n: nat)
    requires n <= |w| && n <= |m|
    ensures Tally(w, m, c, n) <= n
  {
    if n > 0 {
      TallyAtMost(w, m, c, n - 1);
    }
  }

  /** The letter bound check of `update`'s second pass is the engine's
      precondition, once the first pass has tallied the guess and collected
      its gray letters. */
  lemma BoundCheckIsUpdateOk(s0: Constraint, word: string, marks: seq<Mark>, tally: seq<nat>, gray: Bitset)
    requires WellFormed(s0) && IsWord(word) && |marks| == WordLength && |tally| == Letters
    requires forall i | 0 <= i < WordLength :: marks[i] == Green ==> word[i] in s0.allowed[i]
    requires forall k | 0 <= k < Letters :: tally[k] == Tally(word, marks, Letter(k), WordLength)
    requires forall c :: c in Members(gray) <==> GrayAt(word, marks, c)
    ensures UpdateOk(s0, word, marks) <==> forall k | 0 <= k < Letters :: Has(gray, k) ==> s0.lo[k] <= tally[k]
  {
    forall k | 0 <= k < Letters ensures Has(gray, k) <==> GrayAt(word, marks, Letter(k)) {
      assert Index(Letter(k)) == k;
    }
  }

  /** The arrays after both passes stand for the engine's update. */
  lemma UpdateAgrees(s0: Constraint, word: string, marks: seq<Mark>, d: seq<Bitset>, lo: seq<nat>, hi: seq<nat>,
                     tally: seq<nat>, gray: Bitset)
    requires WellFormed(s0) && UpdateOk(s0, word, marks) && |tally| == Letters
    requires |d| == WordLength && forall j | 0 <= j < WordLength :: Allowed(d[j]) == Narrow(s0.allowed[j], word[j], marks[j])
    requires forall k | 0 <= k < Letters :: tally[k] == Tally(word, marks, Letter(k), WordLength)
    requires forall c :: c in Members(gray) <==> GrayAt(word, marks, c)
    requires |lo| == Letters && forall k | 0 <= k < Letters :: lo[k] == Max(s0.lo[k], tally[k])
    requires |hi| == Letters && forall k | 0 <= k < Letters :: hi[k] == if Has(gray, k) then tally[k] else s0.hi[k]
    ensures Constraint(AllowedAll(d), lo, hi) == Update(s0, word, marks).value
  {
    var s1 := Update(s0, word, marks).value;
    forall j | 0 <= j < WordLength ensures AllowedAll(d)[j] == s1.allowed[j] {
      assert s1.allowed[j] == NewAllowed(s0, word, marks, j);
    }
    forall k | 0 <= k < Letters ensures lo[k] == s1.lo[k] && hi[k] == s1.hi[k] {
      assert s1.lo[k] == NewLo(s0, word, marks, k);
      assert s1.hi[k] == NewHi(s0, word, marks, k);
      assert Index(Letter(k)) == k;
    }
  }

  /** Number of the first n fields of x that hold k. */
  function FieldCount(x: nat, k: nat, n: nat): nat {
    if n == 0 then 0 else FieldCount(x, k, n - 1) + (if Field(x, n - 1) == k then 1 else 0)
  }

  /** Letter j of the decoded word is allowed at j exactly when its offset's
      bit is clear. */
  lemma FieldAllowed(x: nat, d: seq<Bitset>, j: nat)
    requires ValidPacked(x) && |d| == WordLength && j < WordLength
    ensures DecodeWord(x)[j] in Allowed(d[j]) <==> !Has(d[j], Field(x, j))
  {
    DecodeWordField(x, j);
    assert DecodeWord(x)[j] == Letter(Field(x, j));
  }

  /** Counting fields that hold k counts the decoded word's letter k. */
  lemma {:induction false} FieldCountIsCount(x: nat, k: nat, n: nat)
    requires ValidPacked(x) && k < Letters && n <= WordLength
    ensures FieldCount(x, k, n) == Occ(DecodeWord(x), Letter(k), n)
  {
    if n > 0 {
      FieldCountIsCount(x, k, n - 1);
      DecodeWordField(x, n - 1);
      assert DecodeWord(x)[n - 1] == Letter(Field(x, n - 1));
      assert Letter(Field(x, n - 1)) == Letter(k) <==> Field(x, n - 1) == k;
    }
  }

  /** One more position of the tally, for every letter at once. */
  lemma TallyStep(w: string, m: seq<Mark>, i: nat, chr: nat)
    requires i < |w| && i < |m| && chr < Letters && w[i] == Letter(chr)
    ensures forall k | 0 <= k < Letters ::
      Tally(w, m, Letter(k), i + 1) == Tally(w, m, Letter(k), i) + (if k == chr && m[i] != Gray then 1 else 0)
  {
    forall k | 0 <= k < Letters
      ensures Tally(w, m, Letter(k), i + 1) == Tally(w, m, Letter(k), i) + (if k == chr && m[i] != Gray then 1 else 0)
    {
      assert Letter(k) == Letter(chr) <==> k == chr;
    }
  }

  /** The `disallowed_at` entry after one position of `update` with the given
      hint code: a green allows only its letter, a yellow adds its letter. */
  function Entry(x: Bitset, k: nat, code: byte): Bitset {
    if code == 2 then AllBut(k) else if code == 1 then x + {k} else x
  }

  lemma EntryAllowed(x: Bitset, k: nat, code: byte, m: Mark)
    requires k < 26 && MarkOfCode(code) == Some(m)
    requires code == 2 ==> !Has(x, k)
    ensures m == Green ==> Letter(k) in Allowed(x)
    ensures Allowed(Entry(x, k, code)) == Narrow(Allowed(x), Letter(k), m)
  {
    assert Index(Letter(k)) == k;
    if code == 2 {
      OnlyLetter(k);
    } else if code == 1 {
      AllowedAdd(x, k);
    }
  }

  /** The `local_saw_gray` bitset after the first n positions of `update`. */
  function GrayBits(w: string, r: seq<byte>, n: nat): Bitset
    requires n <= |w| && n <= |r| && forall j | 0 <= j < n :: IsLower(w[j])
  {
    if n == 0 then {}
    else if r[n - 1] == 0 then GrayBits(w, r, n - 1) + {Index(w[n - 1])}
    else GrayBits(w, r, n - 1)
  }

  lemma {:induction false} GrayBitsMembers(w: string, r: seq<byte>, m: seq<Mark>, n: nat)
    requires n <= |w| && n <= |r| && n <= |m| && forall j | 0 <= j < n :: IsLower(w[j])
    requires forall j | 0 <= j < n :: r[j] == 0 <==> m[j] == Gray
    ensures Members(GrayBits(w, r, n)) == GraySet(w, m, n)
  {
    if n > 0 {
      GrayBitsMembers(w, r, m, n - 1);
      if r[n - 1] == 0 {
        MembersAdd(GrayBits(w, r, n - 1), Index(w[n - 1]));
      }
    }
  }

  /** The marks a hint array stands for, with an arbitrary mark for a
      byte that is no hint code. */
  function MarksOf(r: seq<byte>): (m: seq<Mark>)
    ensures |m| == |r|
  {
    seq(|r|, j requires 0 <= j < |r| => if MarkOfCode(r[j]).Some? then MarkOfCode(r[j]).value else Gray)
  }

  lemma CodesMarks(r: seq<byte>)
    ensures ParseCodes(r).Some? ==> ParseCodes(r).value == MarksOf(r)
    ensures (forall j | 0 <= j < |r| :: r[j] <= 2) ==> ParseCodes(r).Some?
  {
    if ParseCodes(r).Some? {
      var p := ParseCodes(r).value;
      assert forall j | 0 <= j < |r| :: CodeOf(p[j]) == r[j] == CodeOf(MarksOf(r)[j]);
      assert p == MarksOf(r);
    }
  }

  /** What the first pass of `update` accepts: a lower-case word, known
      codes, and no green letter its position already rules out. */
  ghost predicate FirstPassOk(word: string, result: seq<byte>, d0: seq<Bitset>)
    requires |word| == WordLength && |result| == WordLength && |d0| == WordLength
  {
    && IsWord(word) && ParseCodes(result).Some?
    && forall i | 0 <= i < WordLength :: ParseCodes(result).value[i] == Green ==> word[i] in Allowed(d0[i])
  }

  /** The check the first pass makes at position j. */
  predicate PositionOk(word: string, result: seq<byte>, d0: seq<Bitset>, j: nat)
    requires j < |word| && j < |result| && j < |d0|
  {
    IsLower(word[j]) && result[j] <= 2 && (result[j] == 2 ==> !Has(d0[j], Index(word[j])))
  }

  /** A position failing its check fails the whole first pass. */
  lemma PositionFails(word: string, result: seq<byte>, d0: seq<Bitset>, i: nat)
    requires |word| == WordLength && |result| == WordLength && |d0| == WordLength && i < WordLength
    requires !PositionOk(word, result, d0, i)
    ensures !FirstPassOk(word, result, d0)
  {
    if IsWord(word) && ParseCodes(result).Some? {
      var m := ParseCodes(result).value;
      assert Codes(m)[i] == result[i];
      assert m[i] == Green && word[i] !in Allowed(d0[i]);
    }
  }

  /** After the first pass of `update` has run through all five positions,
      its bitsets stand for the engine's narrowed positions and gray letters. */
  lemma FirstPassAgrees(word: string, result: seq<byte>, d0: seq<Bitset>, d: seq<Bitset>, gray: Bitset)
    requires |word| == WordLength && |result| == WordLength && |d0| == WordLength && |d| == WordLength
    requires forall j | 0 <= j < WordLength :: IsLower(word[j]) && PositionOk(word, result, d0, j)
    requires d == Entries(d0, word, result, WordLength)
    requires gray == GrayBits(word, result, WordLength)
    ensures FirstPassOk(word, result, d0) && ParseCodes(result) == Some(MarksOf(result))
    ensures forall j | 0 <= j < WordLength :: Allowed(d[j]) == Narrow(Allowed(d0[j]), word[j], MarksOf(result)[j])
    ensures forall c :: c in Members(gray) <==> GrayAt(word, MarksOf(result), c)
  {
    var marks := MarksOf(result);
    CodesMarks(result);
    forall j | 0 <= j < WordLength
      ensures marks[j] == Green ==> word[j] in Allowed(d0[j])
      ensures Allowed(d[j]) == Narrow(Allowed(d0[j]), word[j], marks[j])
    {
      EntryAllowed(d0[j], Index(word[j]), result[j], marks[j]);
    }
    GrayBitsMembers(word, result, marks, WordLength);
    GraySetAt(word, marks, WordLength);
  }

  /** The `disallowed_at` entries after the first i positions of `update`. */
  ghost function Entries(d0: seq<Bitset>, word: string, result: seq<byte>, i: nat): (d: seq<Bitset>)
    requires |d0| == WordLength && i <= |word| && i <= |result| && forall j | 0 <= j < i :: IsLower(word[j])
    ensures |d| == WordLength
  {
    seq(WordLength, j requires 0 <= j < WordLength => if j < i then Entry(d0[j], Index(word[j]), result[j]) else d0[j])
  }

  lemma EntriesStep(d0: seq<Bitset>, word: string, result: seq<byte>, i: nat)
    requires |d0| == WordLength && i < WordLength && i < |word| && i < |result|
    requires forall j | 0 <= j <= i :: IsLower(word[j])
    ensures Entries(d0, word, result, i)[i] == d0[i]
    ensures Entries(d0, word, result, i + 1)
         == Entries(d0, word, result, i)[i := Entry(d0[i], Index(word[i]), result[i])]
  {
  }

  /** The `local_min` counts after the first i positions of `update`. */
  ghost function Tallies(w: string, m: seq<Mark>, i: nat): (t: seq<nat>)
    requires i <= |w| && i <= |m|
    ensures |t| == Letters
  {
    seq(Letters, k requires 0 <= k < Letters => Tally(w, m, Letter(k), i))
  }

  lemma TalliesStep(w: string, m: seq<Mark>, i: nat, chr: nat)
    requires i < |w| && i < |m| && chr < Letters && w[i] == Letter(chr)
    ensures Tallies(w, m, i + 1) == Tallies(w, m, i)[chr := Tallies(w, m, i)[chr] + if m[i] == Gray then 0 else 1]
  {
    TallyStep(w, m, i, chr);
  }

  class Matcher {
    /** `min`: the least number of occurrences of each letter. */
    const min: array<nat>
    /** `max`: the most occurrences of each letter. */
    const max: array<nat>
    /** `disallowed_at`: per position, the bitset of letters not allowed there. */
    const disallowedAt: array<Bitset>
    /** `local_min`: scratch counts of `update`, reused by `match`. */
    const localMin: array<nat>
    /** `local_saw_gray`: scratch bitset of the letters marked gray. */
    const localSawGray: array<Bitset>

    /** The typed arrays have their sizes and are distinct, and every count
        stays within 0..5, so no `Uint8Array` element ever wraps around. */
    ghost predicate Valid()
      reads this, min, max
    {
      && min.Length == Letters && max.Length == Letters && disallowedAt.Length == WordLength
      && localMin.Length == Letters && localSawGray.Length == 1
      && min != max && min != localMin && max != localMin
      && forall k | 0 <= k < Letters :: min[k] <= 5 && max[k] <= 5
    }

    /** The engine state this object stands for. */
    ghost function Model(): (s: Constraint)
      reads this, min, max, disallowedAt
      requires Valid()
      ensures WellFormed(s)
    {
      Constraint(AllowedAll(disallowedAt[..]), min[..], max[..])
    }

    constructor ()
      ensures Valid() && Model() == Init()
      ensures fresh(min) && fresh(max) && fresh(disallowedAt) && fresh(localMin) && fresh(localSawGray)
    {
      min := new nat[Letters](_ => 0);
      max := new nat[Letters](_ => 5);
      disallowedAt := new Bitset[WordLength](_ => {});
      localMin := new nat[Letters](_ => 0);
      localSawGray := new Bitset[1](_ => {});
      new;
      Zero();
      assert Allowed({}) == Alphabet();
      assert AllowedAll(disallowedAt[..]) == seq(WordLength, _ => Alphabet());
    }

    /** `update`: fold one guess and its hint codes into the state. Returns
        false where the source fails an assertion; the source has then already
        changed part of the state, and nothing is promised about it beyond
        the array sizes and count bounds. */
    method Update(word: string, result: seq<byte>) returns (ok: bool)
      requires Valid()
      modifies min, max, disallowedAt, localMin, localSawGray
      ensures Valid()
      ensures ok <==> ApplyCodes(old(Model()), word, result).Some?
      ensures ok ==> Model() == ApplyCodes(old(Model()), word, result).value
    {
      ghost var s0 := Model();
      ghost var d0 := disallowedAt[..];
      ghost var lo0, hi0 := min[..], max[..];
      if !(|word| == WordLength && |result| == WordLength) {
        return false;
      }
      forall k | 0 <= k < Letters {
        localMin[k] := 0;
      }
      localSawGray[0] := {};
      ghost var marks;
      ok, marks := MarkPositions(word, result);
      if !ok {
        return;
      }
      assert min[..] == lo0 && max[..] == hi0;
      forall k | 0 <= k < Letters ensures localMin[k] <= 5 {
        TallyAtMost(word, marks, Letter(k), WordLength);
      }
      BoundCheckIsUpdateOk(s0, word, marks, localMin[..], localSawGray[0]);
      ok := RaiseBounds();
      if ok {
        UpdateAgrees(s0, word, marks, disallowedAt[..], min[..], max[..], localMin[..], localSawGray[0]);
      }
    }

    /** The first pass of `update`: check each letter, narrow its position's
        entry of `disallowed_at` by its hint code, count the green and yellow
        letters into `local_min` and collect the gray ones in
        `local_saw_gray`. */
    method MarkPositions(word: string, result: seq<byte>) returns (ok: bool, ghost marks: seq<Mark>)
      requires Valid() && |word| == WordLength && |result| == WordLength
      requires localSawGray[0] == {} && forall k | 0 <= k < Letters :: localMin[k] == 0
      modifies disallowedAt, localMin, localSawGray
      ensures Valid()
      ensures ok <==> FirstPassOk(word, result, old(disallowedAt[..]))
      ensures ok ==> && ParseCodes(result) == Some(marks)
                     && (forall j | 0 <= j < WordLength ::
                           Allowed(disallowedAt[j]) == Narrow(Allowed(old(disallowedAt[j])), word[j], marks[j]))
                     && (forall k | 0 <= k < Letters :: localMin[k] == Tally(word, marks, Letter(k), WordLength))
                     && (forall c :: c in Members(localSawGray[0]) <==> GrayAt(word, marks, c))
    {
      ghost var d0 := disallowedAt[..];
      // The marks the codes stand for; an unknown code, where the pass stops,
      // is given an arbitrary mark.
      marks := MarksOf(result);
      CodesMarks(result);
      assert localMin[..] == Tallies(word, marks, 0);
      for i := 0 to WordLength
        invariant forall j | 0 <= j < i :: IsLower(word[j]) && PositionOk(word, result, d0, j)
        invariant disallowedAt[..] == Entries(d0, word, result, i)
        invariant localMin[..] == Tallies(word, marks, i)
        invariant localSawGray[0] == GrayBits(word, result, i)
      {
        if !('a' <= word[i] <= 'z') {
          PositionFails(word, result, d0, i);
          return false, marks;
        }
        var chr := word[i] as int - 'a' as int;
        assert Index(word[i]) == chr;
        ok := MarkAt(i, chr, result[i]);
        if !ok {
          PositionFails(word, result, d0, i);
          return;
        }
        EntriesStep(d0, word, result, i);
        TalliesStep(word, marks, i, chr);
      }
      FirstPassAgrees(word, result, d0, disallowedAt[..], localSawGray[0]);
      ok := true;
    }

    /** One position of the first pass of `update`, for the letter with
        offset chr and the hint code at position i. */
    method MarkAt(i: nat, chr: nat, code: byte) returns (ok: bool)
      requires Valid() && i < WordLength && chr < Letters
      modifies disallowedAt, localMin, localSawGray
      ensures ok <==> code <= 2 && (code == 2 ==> !Has(old(disallowedAt[i]), chr))
      ensures ok ==> disallowedAt[..] == old(disallowedAt[..])[i := Entry(old(disallowedAt[i]), chr, code)]
      ensures ok ==> localMin[..] == old(localMin[..])[chr := old(localMin[chr]) + if code == 0 then 0 else 1]
      ensures ok ==> localSawGray[0] == if code == 0 then old(localSawGray[0]) + {chr} else old(localSawGray[0])
    {
      if code == 2 {
        if Has(disallowedAt[i], chr) {
          return false;
        }
        disallowedAt[i] := AllBut(chr);
        localMin[chr] := localMin[chr] + 1;
      } else if code == 1 {
        disallowedAt[i] := disallowedAt[i] + {chr};
        localMin[chr] := localMin[chr] + 1;
      } else {
        if code != 0 {
          return false;
        }
        localSawGray[0] := localSawGray[0] + {chr};
      }
      return true;
    }

    /** The second pass of `update`: a letter marked gray must not already be
        required more often than this guess shows it, and gets that count as
        its maximum; every minimum is raised to this guess's count. */
    method RaiseBounds() returns (ok: bool)
      requires Valid() && forall k | 0 <= k < Letters :: localMin[k] <= 5
      modifies min, max
      ensures Valid()
      ensures ok <==> forall k | 0 <= k < Letters :: Has(localSawGray[0], k) ==> old(min[k]) <= localMin[k]
      ensures ok ==> forall k | 0 <= k < Letters ::
        && min[k] == Max(old(min[k]), localMin[k])
        && max[k] == if Has(localSawGray[0], k) then localMin[k] else old(max[k])
    {
      var gray := localSawGray[0];
      ghost var lo0, hi0, count := min[..], max[..], localMin[..];
      for chr := 0 to Letters
        invariant Valid() && localMin[..] == count
        invariant forall k | chr <= k < Letters :: min[k] == lo0[k] && max[k] == hi0[k]
        invariant forall k | 0 <= k < chr :: Has(gray, k) ==> lo0[k] <= count[k]
        invariant forall k | 0 <= k < chr :: min[k] == Max(lo0[k], count[k])
        invariant forall k | 0 <= k < chr :: max[k] == if Has(gray, k) then count[k] else hi0[k]
      {
        if Has(gray, chr) {
          if !(min[chr] <= localMin[chr]) {
            return false;
          }
          max[chr] := localMin[chr];
        }
        if min[chr] < localMin[chr] {
          min[chr] := localMin[chr];
        }
      }
      return true;
    }

    /** `match`: whether the word a packed number stands for satisfies every
        constraint. Only the scratch array `local_min` is written. */
    method Match(word: nat) returns (r: bool)
      requires Valid() && ValidPacked(word)
      modifies localMin
      ensures Valid()
      ensures r == Accepts(Model(), DecodeWord(word))
    {
      ghost var w := DecodeWord(word);
      var localCount := localMin;
      r := CountLetters(word, localCount);
      if !r {
        return;
      }
      for chr := 0 to Letters
        invariant forall k | 0 <= k < chr :: min[k] <= localCount[k] <= max[k]
      {
        if localCount[chr] < min[chr] || localCount[chr] > max[chr] {
          return false;
        }
      }
      return true;
    }

    /** The first loop of `match`: walk the five fields, stop at a letter its
        position disallows, and count each letter into `localCount`. */
    method CountLetters(word: nat, localCount: array<nat>) returns (ok: bool)
      requires Valid() && ValidPacked(word) && localCount == localMin
      modifies localCount
      ensures ok <==> forall j | 0 <= j < WordLength :: DecodeWord(word)[j] in Allowed(disallowedAt[j])
      ensures ok ==> forall k | 0 <= k < Letters :: localCount[k] == Count(DecodeWord(word), Letter(k))
    {
      forall k | 0 <= k < Letters {
        localCount[k] := 0;
      }
      var x := word;
      for i := 0 to WordLength
        invariant x == Shift(word, i)
        invariant forall j | 0 <= j < i :: !Has(disallowedAt[j], Field(word, j))
        invariant forall k | 0 <= k < Letters :: localCount[k] == FieldCount(word, k, i)
      {
        var chr := x % 32;
        assert chr == Field(word, i);
        if Has(disallowedAt[i], chr) {
          FieldAllowed(word, disallowedAt[..], i);
          return false;
        }
        localCount[chr] := localCount[chr] + 1;
        x := x / 32;
        ShiftShift(word, i);
      }
      forall j | 0 <= j < WordLength ensures DecodeWord(word)[j] in Allowed(disallowedAt[j]) {
        FieldAllowed(word, disallowedAt[..], j);
      }
      forall k | 0 <= k < Letters ensures FieldCount(word, k, WordLength) == Count(DecodeWord(word), Letter(k)) {
        FieldCountIsCount(word, k, WordLength);
      }
      return true;
    }
  }

  // ---------------------------------------------------------------------
  // generate_hint

  /** Number of occurrences of each letter among the first n characters of a. */
  function Occs(a: string, n: nat): (t: seq<nat>)
    requires n <= |a|
    ensures |t| == Letters
  {
    seq(Letters, k requires 0 <= k < Letters => Occ(a, Letter(k), n))
  }

  /** Number of unmatched occurrences of each letter among the first n
      positions. */
  function UnmatchedCounts(g: string, a: string, n: nat): (t: seq<nat>)
    requires n <= |g| && n <= |a|
    ensures |t| == Letters
  {
    seq(Letters, k requires 0 <= k < Letters => Unmatched(g, a, Letter(k), n))
  }

  /** The mark the hint generator gives position i when `ans_count` starts at
      `budget`: green where the letters agree; otherwise yellow while fewer
      non-green occurrences of the guessed letter lie to the left than its
      budget, gray after that. A character outside 'a'..'z' indexes outside
      `ans_count`, reads undefined, and is never yellow. */
  function HintWithAt(g: string, a: string, budget: seq<nat>, i: nat): Mark
    requires |g| == WordLength && |a| == WordLength && |budget| == Letters && i < WordLength
  {
    if g[i] == a[i] then Green
    else if IsLower(g[i]) && NonGreen(g, a, g[i], i) < budget[Index(g[i])] then Yellow
    else Gray
  }

  function HintWith(g: string, a: string, budget: seq<nat>): (m: seq<Mark>)
    requires |g| == WordLength && |a| == WordLength && |budget| == Letters
    ensures |m| == WordLength
  {
    seq(WordLength, i requires 0 <= i < WordLength => HintWithAt(g, a, budget, i))
  }

  /** The hint `generate_hint` computes: its budget for each letter is all of
      the letter's occurrences in the answer, green positions included. */
  function TsHint(g: string, a: string): (m: seq<Mark>)
    requires |g| == WordLength && |a| == WordLength
    ensures |m| == WordLength
  {
    HintWith(g, a, Occs(a, WordLength))
  }

  /** The hint with the first loop counting only the answer letters at
      non-green positions, as matches.py does. */
  function FixedHint(g: string, a: string): (m: seq<Mark>)
    requires |g| == WordLength && |a| == WordLength
    ensures |m| == WordLength
  {
    HintWith(g, a, UnmatchedCounts(g, a, WordLength))
  }

  /** The hint bytes after the first loop over n positions: green where the
      letters agree. */
  function GreenCodes(g: string, a: string, n: nat): (r: seq<byte>)
    requires |g| == WordLength && |a| == WordLength
    ensures |r| == WordLength
  {
    seq(WordLength, j requires 0 <= j < WordLength => if j < n && g[j] == a[j] then 2 else 0)
  }

  /** The hint bytes after the second loop over n positions. */
  function PartialCodes(g: string, a: string, budget: seq<nat>, n: nat): (r: seq<byte>)
    requires |g| == WordLength && |a| == WordLength && |budget| == Letters
    ensures |r| == WordLength
  {
    seq(WordLength, j requires 0 <= j < WordLength =>
      if j < n then CodeOf(HintWithAt(g, a, budget, j)) else if g[j] == a[j] then 2 else 0)
  }

  /** `ans_count` after the second loop over n positions: each letter's budget
      less the yellows handed out so far. */
  function Remaining(g: string, a: string, budget: seq<nat>, n: nat): (t: seq<nat>)
    requires |g| == WordLength && |a| == WordLength && |budget| == Letters && n <= WordLength
    ensures |t| == Letters
  {
    seq(Letters, k requires 0 <= k < Letters => budget[k] - Min(NonGreen(g, a, Letter(k), n), budget[k]))
  }

  lemma OccsStep(a: string, i: nat)
    requires i < |a|
    ensures Occs(a, i + 1) == if IsLower(a[i]) then Occs(a, i)[Index(a[i]) := Occs(a, i)[Index(a[i])] + 1] else Occs(a, i)
  {
    forall k | 0 <= k < Letters ensures Letter(k) == a[i] <==> IsLower(a[i]) && k == Index(a[i]) {
    }
  }

  lemma UnmatchedStep(g: string, a: string, i: nat)
    requires i < |g| && i < |a|
    ensures UnmatchedCounts(g, a, i + 1) ==
      if IsLower(a[i]) && g[i] != a[i] then UnmatchedCounts(g, a, i)[Index(a[i]) := UnmatchedCounts(g, a, i)[Index(a[i])] + 1]
      else UnmatchedCounts(g, a, i)
  {
    forall k | 0 <= k < Letters ensures Letter(k) == a[i] <==> IsLower(a[i]) && k == Index(a[i]) {
    }
  }

  /** One position of the second loop: `ans_count` is positive exactly when
      the position earns a yellow, and it drops by one for that letter then. */
  lemma RemainingStep(g: string, a: string, budget: seq<nat>, i: nat)
    requires |g| == WordLength && |a| == WordLength && |budget| == Letters && i < WordLength
    ensures IsLower(g[i]) ==>
      (HintWithAt(g, a, budget, i) == Yellow <==> g[i] != a[i] && Remaining(g, a, budget, i)[Index(g[i])] > 0)
    ensures Remaining(g, a, budget, i + 1) ==
      if HintWithAt(g, a, budget, i) == Yellow
      then Remaining(g, a, budget, i)[Index(g[i]) := Remaining(g, a, budget, i)[Index(g[i])] - 1]
      else Remaining(g, a, budget, i)
  {
    var r0, r1 := Remaining(g, a, budget, i), Remaining(g, a, budget, i + 1);
    forall k | 0 <= k < Letters
      ensures r1[k] == if HintWithAt(g, a, budget, i) == Yellow && k == Index(g[i]) then r0[k] - 1 else r0[k]
    {
      if IsLower(g[i]) && k == Index(g[i]) {
        assert Letter(k) == g[i];
      } else {
        assert Letter(k) != g[i];
      }
    }
  }

  /** `generate_hint`: None where the source fails its length assertion. */
  method GenerateHint(guess: string, answer: string) returns (r: Option<seq<byte>>)
    ensures r == if |guess| == WordLength && |answer| == WordLength then Some(Codes(TsHint(guess, answer))) else None
  {
    if !(|guess| == WordLength && |answer| == WordLength) {
      return None;
    }
    var hint := new byte[WordLength](_ => 0);
    var ansCount := new nat[Letters](_ => 0);
    for i := 0 to WordLength
      invariant hint[..] == GreenCodes(guess, answer, i)
      invariant ansCount[..] == Occs(answer, i)
    {
      var code := answer[i] as int;
      if guess[i] as int == code {
        hint[i] := 2;
      }
      OccsStep(answer, i);
      var k := code - 'a' as int;
      if 0 <= k < Letters {
        assert Index(answer[i]) == k;
        ansCount[k] := ansCount[k] + 1;
      }
    }
    FillYellows(guess, answer, hint, ansCount, Occs(answer, WordLength));
    return Some(hint[..]);
  }

  /** The second loop of `generate_hint`, for a given starting `ans_count`. */
  method FillYellows(guess: string, answer: string, hint: array<byte>, ansCount: array<nat>, ghost budget: seq<nat>)
    requires |guess| == WordLength && |answer| == WordLength && hint.Length == WordLength
    requires hint[..] == GreenCodes(guess, answer, WordLength)
    requires ansCount[..] == budget && |budget| == Letters
    modifies hint, ansCount
    ensures hint[..] == Codes(HintWith(guess, answer, budget))
  {
    assert ansCount[..] == Remaining(guess, answer, budget, 0);
    for i := 0 to WordLength
      invariant hint[..] == PartialCodes(guess, answer, budget, i)
      invariant ansCount[..] == Remaining(guess, answer, budget, i)
    {
      RemainingStep(guess, answer, budget, i);
      var chr := guess[i] as int - 'a' as int;
      if hint[i] != 2 && 0 <= chr < Letters && ansCount[chr] > 0 {
        assert Index(guess[i]) == chr;
        hint[i] := 1;
        ansCount[chr] := ansCount[chr] - 1;
      }
    }
    assert PartialCodes(guess, answer, budget, WordLength) == Codes(HintWith(guess, answer, budget));
  }

  /** `generate_hint` with the first loop counting an answer letter only where
      the guess does not match it: the hint of matches.py. */
  method GenerateHintFixed(guess: string, answer: string) returns (r: Option<seq<byte>>)
    ensures r == if |guess| == WordLength && |answer| == WordLength then Some(Codes(FixedHint(guess, answer))) else None
  {
    if !(|guess| == WordLength && |answer| == WordLength) {
      return None;
    }
    var hint := new byte[WordLength](_ => 0);
    var ansCount := new nat[Letters](_ => 0);
    for i := 0 to WordLength
      invariant hint[..] == GreenCodes(guess, answer, i)
      invariant ansCount[..] == UnmatchedCounts(guess, answer, i)
    {
      var code := answer[i] as int;
      UnmatchedStep(guess, answer, i);
      if guess[i] as int == code {
        hint[i] := 2;
      } else {
        var k := code - 'a' as int;
        if 0 <= k < Letters {
          assert Index(answer[i]) == k;
          ansCount[k] := ansCount[k] + 1;
        }
      }
    }
    FillYellows(guess, answer, hint, ansCount, UnmatchedCounts(guess, answer, WordLength));
    return Some(hint[..]);
  }

  // ---------------------------------------------------------------------
  // Properties of the hint generator and of a fresh matcher

  /** Yellows for a letter go to its non-green positions from the left, one per
      unit of the letter's budget. */
  lemma HintWithRanked(g: string, a: string, budget: seq<nat>, c: char)
    requires |g| == WordLength && |a| == WordLength && |budget| == Letters && IsLower(c)
    ensures RankedBy(g, a, HintWith(g, a, budget), c, budget[Index(c)])
  {
  }

  /** A character outside 'a'..'z' is never yellow. */
  lemma {:induction false} NoYellowsOutside(g: string, a: string, budget: seq<nat>, c: char, n: nat)
    requires |g| == WordLength && |a| == WordLength && |budget| == Letters && !IsLower(c) && n <= WordLength
    ensures Yellows(g, HintWith(g, a, budget), c, n) == 0
  {
    if n > 0 {
      NoYellowsOutside(g, a, budget, c, n - 1);
    }
  }

  /** The yellows `generate_hint` gives a letter never outnumber the letter's
      occurrences in the answer, and are its leftmost non-green occurrences. */
  lemma TsYellowsBound(g: string, a: string, c: char)
    requires |g| == WordLength && |a| == WordLength
    ensures Yellows(g, TsHint(g, a), c, WordLength) <= Count(a, c)
    ensures IsLower(c) ==> Yellows(g, TsHint(g, a), c, WordLength) == Min(NonGreen(g, a, c, WordLength), Count(a, c))
  {
    if IsLower(c) {
      HintWithRanked(g, a, Occs(a, WordLength), c);
      YellowsRanked(g, a, TsHint(g, a), c, Count(a, c), WordLength);
    } else {
      NoYellowsOutside(g, a, Occs(a, WordLength), c, WordLength);
    }
  }

  /** With the first loop fixed, a lower-case guess gets the hint matches.py
      computes. */
  lemma FixedHintIsHint(g: string, a: string)
    requires IsWord(g) && |a| == WordLength
    ensures FixedHint(g, a) == Hint(g, a)
  {
    forall i | 0 <= i < WordLength ensures FixedHint(g, a)[i] == Hint(g, a)[i] {
      assert Letter(Index(g[i])) == g[i];
    }
  }

  /** With the first loop fixed, updating with the hint a known answer earns
      never fails an assertion and keeps the answer acceptable. */
  lemma FixedHintKeepsAnswer(s: Constraint, g: string, a: string)
    requires WellFormed(s) && IsWord(g) && IsWord(a) && Accepts(s, a)
    ensures ApplyCodes(s, g, Codes(FixedHint(g, a))) == Update(s, g, Hint(g, a))
    ensures ApplyCodes(s, g, Codes(FixedHint(g, a))).Some?
    ensures Accepts(ApplyCodes(s, g, Codes(FixedHint(g, a))).value, a)
  {
    FixedHintIsHint(g, a);
    ParseCodesOf(Hint(g, a));
    HintKeepsAnswer(s, g, a);
  }

  /** As written, `generate_hint` breaks that: guessing "aazzz" against
      "axxxx" marks the second 'a' yellow, as the answer's green 'a' still
      counts, where matches.py marks it gray; the matcher updated with that
      hint then requires two 'a's and rejects the answer. */
  lemma TsHintBreaksReplay()
    ensures TsHint("aazzz", "axxxx") == [Green, Yellow, Gray, Gray, Gray]
    ensures Hint("aazzz", "axxxx") == [Green, Gray, Gray, Gray, Gray]
    ensures ApplyCodes(Init(), "aazzz", Codes(TsHint("aazzz", "axxxx"))).Some?
    ensures !Accepts(ApplyCodes(Init(), "aazzz", Codes(TsHint("aazzz", "axxxx"))).value, "axxxx")
  {
    var g, a := "aazzz", "axxxx";
    var m := [Green, Yellow, Gray, Gray, Gray];
    assert Occ(a, 'a', WordLength) == 1 by {
      assert Occ(a, 'a', 1) == 1;
    }
    assert Letter(Index('a')) == 'a';
    assert NonGreen(g, a, 'a', 1) == 0;
    forall i | 2 <= i < WordLength ensures NonGreen(g, a, 'z', i) >= Occ(a, 'z', WordLength) {
      assert Occ(a, 'z', WordLength) == 0;
    }
    assert TsHint(g, a) == m;
    assert Unmatched(g, a, 'a', WordLength) == 0;
    assert Unmatched(g, a, 'z', WordLength) == 0;
    assert Hint(g, a) == [Green, Gray, Gray, Gray, Gray];
    ParseCodesOf(m);
    var s0 := Init();
    assert 'a' in s0.allowed[0];
    assert UpdateOk(s0, g, m);
    var s1 := Update(s0, g, m).value;
    assert s1.lo[0] == NewLo(s0, g, m, 0);
    assert Tally(g, m, 'a', WordLength) == 2;
    assert Count(a, Letter(0)) == 1;
  }

  /** A fresh matcher accepts every word the packing loop produces. */
  lemma FreshMatchesAll(x: nat)
    requires ValidPacked(x)
    ensures Accepts(Init(), DecodeWord(x))
  {
    PackDecode(x);
    InitAcceptsAll(DecodeWord(x));
  }

  /** The replay mode of web/match.ts on the guess "aazzz" and answer
      "axxxx": the update succeeds and the matcher then rejects the answer. */
  method ReplayRejectsAnswer() returns (updated: bool, accepted: bool)
    ensures updated && !accepted
  {
    var guess, answer := "aazzz", "axxxx";
    assert IsWord(answer);
    PackFields(answer);
    DecodePack(answer);
    var m := new Matcher();
    var hint := GenerateHint(guess, answer);
    updated := m.Update(guess, hint.value);
    TsHintBreaksReplay();
    accepted := m.Match(Pack(answer));
  }
}
