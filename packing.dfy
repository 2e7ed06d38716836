/** The numeric encodings of web/match.ts: the letter bitsets of
    `disallowed_at` and `local_saw_gray`, and the five 5-bit fields of a
    packed word.

    A 32-bit bitset is modelled as the set of its bit positions (0..31):
    `x & (1 << k) != 0` is `k in x`, `x | (1 << k)` is `x + {k}`, and
    `~(1 << k)` is every position but k. A packed word is the number a
    `Uint32Array` element holds, as a `nat`: on such a number `x & 0x1f` is
    `x % 32`, `x >>> 5` is `x / 32`, and the `|` of 5-bit values shifted into
    disjoint fields is their sum with weights 1, 32, 32^2, ... */
module Packing {
  import opened Common

  // ---------------------------------------------------------------------
  // Bitsets: bit k set means letter k is in the set

  /** A `Uint32Array` element read as a bitset: the positions of its set bits. */
  type Bitset = set<nat>

  /** The bit positions below n. */
  function BitsBelow(n: nat): (r: Bitset)
    ensures forall b: nat :: b in r <==> b < n
  {
    if n == 0 then {} else BitsBelow(n - 1) + {n - 1}
  }

  /** The 32 bit positions of a `Uint32Array` element. */
  function AllBits(): Bitset {
    BitsBelow(32)
  }

  /** `x & (1 << k) != 0`. */
  predicate Has(x: Bitset, k: nat) {
    k in x
  }

  /** `~(1 << k)`: every bit but k. */
  function AllBut(k: nat): Bitset {
    AllBits() - {k}
  }

  /** The letters a `disallowed_at` entry still allows. */
  function Allowed(x: Bitset): (r: set<char>)
    ensures forall c :: c in r <==> IsLower(c) && !Has(x, Index(c))
  {
    var r := set k | 0 <= k < Letters && !Has(x, k) :: Letter(k);
    assert forall c | IsLower(c) && !Has(x, Index(c)) :: c == Letter(Index(c)) && c in r;
    r
  }

  /** The letters a `local_saw_gray` entry holds. */
  function Members(x: Bitset): (r: set<char>)
    ensures forall c :: c in r <==> IsLower(c) && Has(x, Index(c))
  {
    var r := set k | 0 <= k < Letters && Has(x, k) :: Letter(k);
    assert forall c | IsLower(c) && Has(x, Index(c)) :: c == Letter(Index(c)) && c in r;
    r
  }

  /** The empty set: a zero entry allows every letter and holds none. */
  lemma Zero()
    ensures Allowed({}) == set k | 0 <= k < Letters :: Letter(k)
    ensures Members({}) == {}
  {
    var all := set k | 0 <= k < Letters :: Letter(k);
    assert forall c | IsLower(c) :: c == Letter(Index(c)) && c in all;
  }

  /** Setting bit k of a `disallowed_at` entry no longer allows letter k. */
  lemma AllowedAdd(x: Bitset, k: nat)
    requires k < Letters
    ensures Allowed(x + {k}) == Allowed(x) - {Letter(k)}
  {
    assert forall c | IsLower(c) :: Index(c) == k <==> c == Letter(k);
  }

  /** Setting bit k of a `local_saw_gray` entry adds letter k. */
  lemma MembersAdd(x: Bitset, k: nat)
    requires k < Letters
    ensures Members(x + {k}) == Members(x) + {Letter(k)}
  {
    assert forall c | IsLower(c) :: Index(c) == k <==> c == Letter(k);
  }

  /** `~(1 << k)` allows letter k alone. */
  lemma OnlyLetter(k: nat)
    requires k < Letters
    ensures Allowed(AllBut(k)) == {Letter(k)}
  {
    assert forall c | IsLower(c) :: Index(c) == k <==> c == Letter(k);
  }

  // ---------------------------------------------------------------------
  // Packed words: letter i in bits 5i..5i+4

  /** `x >>> 5 * j`. */
  function Shift(x: nat, j: nat): nat {
    if j == 0 then x else Shift(x / 32, j - 1)
  }

  /** `(x >>> 5 * j) & 0x1f`, the j-th 5-bit field. */
  function Field(x: nat, j: nat): (f: nat)
    ensures f < 32
  {
    Shift(x, j) % 32
  }

  /** Every field holds a letter offset (0..25) and the bits above the five
      fields are clear: the numbers the packing loop produces. */
  predicate ValidPacked(x: nat) {
    x < 0x200_0000 && forall j | 0 <= j < WordLength :: Field(x, j) < 26
  }

  /** The fields i.. of the packing loop's value for w: the letter offsets
      shifted into place, with `|` on disjoint fields written as `+`. */
  function PackFrom(w: string, i: nat): nat
    requires IsWord(w) && i <= WordLength
    decreases WordLength - i
  {
    if i == WordLength then 0 else Index(w[i]) + 32 * PackFrom(w, i + 1)
  }

  /** One word of the `PACKED_WORDS` loop. */
  function Pack(w: string): nat
    requires IsWord(w)
  {
    PackFrom(w, 0)
  }

  /** `CHAR_CODE_A + (x & 0x1f)`. */
  function DecodeChar(x: nat): char {
    ('a' as int + x % 32) as char
  }

  /** `decode_word`. */
  function DecodeWord(x: nat): (w: string)
    ensures |w| == WordLength
  {
    [DecodeChar(x), DecodeChar(x / 32), DecodeChar(x / 1024), DecodeChar(x / 32768), DecodeChar(x / 1048576)]
  }

  lemma DivMod(a: nat, b: nat)
    requires a < 32
    ensures (a + 32 * b) % 32 == a && (a + 32 * b) / 32 == b
  {
  }

  /** Shifting twice is shifting by the sum. */
  lemma {:induction false} ShiftShift(x: nat, j: nat)
    ensures Shift(x, j) / 32 == Shift(x, j + 1)
  {
    if j > 0 {
      ShiftShift(x / 32, j - 1);
    }
  }

  /** The five shifts `decode_word` writes out. */
  lemma ShiftValues(x: nat)
    ensures Shift(x, 1) == x / 32 && Shift(x, 2) == x / 1024 && Shift(x, 3) == x / 32768
      && Shift(x, 4) == x / 1048576 && Shift(x, 5) == x / 0x200_0000
  {
    assert Shift(x, 2) == Shift(x / 32, 1) == (x / 32) / 32;
    assert Shift(x, 3) == ((x / 32) / 32) / 32;
    assert Shift(x, 4) == (((x / 32) / 32) / 32) / 32;
    assert Shift(x, 5) == ((((x / 32) / 32) / 32) / 32) / 32;
  }

  /** Field j of the decoded word's character. */
  lemma DecodeWordField(x: nat, j: nat)
    requires j < WordLength
    ensures DecodeWord(x)[j] == ('a' as int + Field(x, j)) as char
  {
    ShiftValues(x);
  }

  /** Shifting the packed suffix i by j fields gives the suffix i + j. */
  lemma {:induction false} ShiftPack(w: string, i: nat, j: nat)
    requires IsWord(w) && i + j <= WordLength
    ensures Shift(PackFrom(w, i), j) == PackFrom(w, i + j)
    decreases j
  {
    if j > 0 {
      DivMod(Index(w[i]), PackFrom(w, i + 1));
      ShiftPack(w, i + 1, j - 1);
    }
  }

  /** The packed suffix i stays below 32^(5 - i). */
  lemma {:induction false} PackBound(w: string, i: nat)
    requires IsWord(w) && i <= WordLength
    ensures Shift(PackFrom(w, i), WordLength - i) == 0
  {
    ShiftPack(w, i, WordLength - i);
  }

  /** Letter j of a packed word sits in field j as its offset from 'a', and
      the bits above the five fields are clear. */
  lemma PackFields(w: string)
    requires IsWord(w)
    ensures forall j | 0 <= j < WordLength :: Field(Pack(w), j) == Index(w[j])
    ensures ValidPacked(Pack(w))
  {
    forall j | 0 <= j < WordLength ensures Field(Pack(w), j) == Index(w[j]) {
      ShiftPack(w, 0, j);
      DivMod(Index(w[j]), PackFrom(w, j + 1));
    }
    PackBound(w, 0);
    ShiftValues(Pack(w));
  }

  /** Decoding a packed word gives the word back. */
  lemma DecodePack(w: string)
    requires IsWord(w)
    ensures DecodeWord(Pack(w)) == w
  {
    PackFields(w);
    forall j | 0 <= j < WordLength ensures DecodeWord(Pack(w))[j] == w[j] {
      DecodeWordField(Pack(w), j);
    }
  }

  /** Packing a decoded word gives the number back, for every number the
      packing loop can produce. */
  lemma PackDecode(x: nat)
    requires ValidPacked(x)
    ensures IsWord(DecodeWord(x)) && Pack(DecodeWord(x)) == x
  {
    var w := DecodeWord(x);
    forall j | 0 <= j < WordLength ensures IsLower(w[j]) && Index(w[j]) == Field(x, j) {
      DecodeWordField(x, j);
    }
    UnpackFrom(x, w, 0);
    ShiftValues(x);
  }

  /** The packed suffix i of the decoded word is the number shifted by i. */
  lemma {:induction false} UnpackFrom(x: nat, w: string, i: nat)
    requires IsWord(w) && i <= WordLength && x < 0x200_0000
    requires forall j | 0 <= j < WordLength :: Index(w[j]) == Field(x, j)
    ensures PackFrom(w, i) == Shift(x, i)
    decreases WordLength - i
  {
    if i == WordLength {
      ShiftValues(x);
    } else {
      UnpackFrom(x, w, i + 1);
      ShiftShift(x, i);
    }
  }

  /** The packing loop's value for one word, written out. */
  lemma PackSum(w: string)
    requires IsWord(w)
    ensures Pack(w) == Index(w[0]) + 32 * Index(w[1]) + 1024 * Index(w[2]) + 32768 * Index(w[3]) + 1048576 * Index(w[4])
  {
    assert PackFrom(w, 4) == Index(w[4]);
    assert PackFrom(w, 3) == Index(w[3]) + 32 * Index(w[4]);
    assert PackFrom(w, 2) == Index(w[2]) + 32 * Index(w[3]) + 1024 * Index(w[4]);
    assert PackFrom(w, 1) == Index(w[1]) + 32 * Index(w[2]) + 1024 * Index(w[3]) + 32768 * Index(w[4]);
  }

  /** The `PACKED_WORDS` loop over a word list whose length is a multiple of
      five: one number per word, each decoding back to its word. */
  method PackWords(words: string) returns (buf: array<nat>)
    requires |words| % WordLength == 0 && forall i | 0 <= i < |words| :: IsLower(words[i])
    ensures fresh(buf) && buf.Length == |words| / WordLength
    ensures forall b | 0 <= b < buf.Length ::
      && buf[b] == Pack(words[WordLength * b..WordLength * b + WordLength])
      && ValidPacked(buf[b])
      && DecodeWord(buf[b]) == words[WordLength * b..WordLength * b + WordLength]
  {
    buf := new nat[|words| / WordLength];
    var wi, bi := 0, 0;
    while wi < |words|
      invariant wi == WordLength * bi && wi <= |words|
      invariant forall b | 0 <= b < bi ::
        && buf[b] == Pack(words[WordLength * b..WordLength * b + WordLength])
        && ValidPacked(buf[b])
        && DecodeWord(buf[b]) == words[WordLength * b..WordLength * b + WordLength]
    {
      ghost var w := words[wi..wi + WordLength];
      assert IsWord(w);
      buf[bi] :=
        (words[wi] as int - 'a' as int) +
        32 * (words[wi + 1] as int - 'a' as int) +
        1024 * (words[wi + 2] as int - 'a' as int) +
        32768 * (words[wi + 3] as int - 'a' as int) +
        1048576 * (words[wi + 4] as int - 'a' as int);
      PackSum(w);
      PackFields(w);
      DecodePack(w);
      wi, bi := wi + WordLength, bi + 1;
    }
  }
}
