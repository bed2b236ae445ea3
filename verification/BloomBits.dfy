/** Bit vectors: as booleans, as the set of positions that are set, and packed into 64-bit words. */
module BloomBits {
  import opened Arithmetic

  ghost function Ones(bits: seq<bool>): set<nat> {
    set p: nat | p < |bits| && bits[p]
  }

  // ---------------------------------------------------------------------------------------------
  // Words

  /** A 64-bit word, least significant bit first. */
  type Word = w: seq<bool> | |w| == 64 witness seq(64, _ => false)

  function Zero(): (w: Word) {
    seq(64, _ => false)
  }

  /** `1 << j` */
  function Mask(j: nat): (w: Word)
    requires j < 64
    ensures forall i :: 0 <= i < 64 ==> (w[i] <==> i == j)
  {
    seq(64, i => i == j)
  }

  function Or(w: Word, m: Word): (r: Word)
    ensures forall i :: 0 <= i < 64 ==> (r[i] <==> w[i] || m[i])
  {
    seq(64, i requires 0 <= i < 64 => w[i] || m[i])
  }

  function And(w: Word, m: Word): (r: Word)
    ensures forall i :: 0 <= i < 64 ==> (r[i] <==> w[i] && m[i])
  {
    seq(64, i requires 0 <= i < 64 => w[i] && m[i])
  }

  /** Testing a word against the mask of a position looks at exactly that bit. */
  lemma MaskTest(w: Word, j: nat)
    requires j < 64
    ensures And(w, Mask(j)) == Zero() <==> !w[j]
  {
    var r := And(w, Mask(j));
    assert r[j] == w[j];
    if !w[j] {
      assert r == Zero();
    }
  }

  /** Bit `p % 64` of word `p / 64`. */
  predicate WordBit(words: seq<Word>, p: nat)
    requires p < 64 * |words|
  {
    words[p / 64][p % 64]
  }

  ghost function WordOnes(words: seq<Word>): set<nat> {
    set p: nat | p < 64 * |words| && WordBit(words, p)
  }

  /** The words after one `fetch_or` with the mask of position `p`. */
  function FetchOr(words: seq<Word>, p: nat): (r: seq<Word>)
    requires p < 64 * |words|
    ensures |r| == |words|
  {
    words[p / 64 := Or(words[p / 64], Mask(p % 64))]
  }

  /** One `fetch_or` sets its own bit and no other. */
  lemma FetchOrSetsOneBit(words: seq<Word>, p: nat)
    requires p < 64 * |words|
    ensures WordOnes(FetchOr(words, p)) == WordOnes(words) + {p}
  {
    forall q: nat | q < 64 * |words| ensures WordBit(FetchOr(words, p), q) <==> q == p || WordBit(words, q) {
    }
  }

  /** As many words as are needed and no more. */
  function WordCount(numBits: nat): (n: nat)
    ensures 64 * n - 64 < numBits <= 64 * n || n == numBits == 0
  {
    (numBits + 63) / 64
  }

  /** The words hold exactly the given bits; the bits after the last one are zero. */
  ghost predicate Represents(words: seq<Word>, bits: seq<bool>) {
    |words| == WordCount(|bits|) && WordOnes(words) == Ones(bits)
  }

  // ---------------------------------------------------------------------------------------------
  // Packing

  /** The word with the bits from `base` on, as far as they exist. */
  function Pack(bits: seq<bool>, base: nat): (w: Word)
    ensures forall j :: 0 <= j < 64 ==> (w[j] <==> base + j < |bits| && bits[base + j])
  {
    seq(64, j requires 0 <= j < 64 => base + j < |bits| && bits[base + j])
  }

  /** The blocks of a bit vector. */
  function ToWords(bits: seq<bool>): (words: seq<Word>)
    ensures |words| == WordCount(|bits|)
  {
    seq(WordCount(|bits|), i requires 0 <= i < WordCount(|bits|) => Pack(bits, 64 * i))
  }

  /** A bit vector made of blocks and cut to `numBits` bits. */
  function FromWords(words: seq<Word>, numBits: nat): (bits: seq<bool>)
    requires numBits <= 64 * |words|
    ensures |bits| == numBits
  {
    seq(numBits, p requires 0 <= p < numBits => WordBit(words, p))
  }

  /** Packing keeps every bit and leaves the padding zero. */
  lemma PackingRepresents(bits: seq<bool>)
    ensures Represents(ToWords(bits), bits)
  {
    var words := ToWords(bits);
    forall p: nat | p < 64 * |words| ensures WordBit(words, p) <==> p < |bits| && bits[p] {
      assert words[p / 64] == Pack(bits, 64 * (p / 64));
    }
  }

  /** Words that represent bits give them back. */
  lemma UnpackingRestores(words: seq<Word>, bits: seq<bool>)
    requires Represents(words, bits)
    ensures FromWords(words, |bits|) == bits
  {
    forall p: nat | p < |bits| ensures WordBit(words, p) <==> bits[p] {
      assert p in WordOnes(words) <==> p in Ones(bits);
    }
  }

  // ---------------------------------------------------------------------------------------------
  // Counting

  /** The number of ones, bit by bit. */
  function CountOnes(bits: seq<bool>): nat {
    if bits == [] then 0 else (if bits[0] then 1 else 0) + CountOnes(bits[1..])
  }

  ghost function Shifted(s: set<nat>, d: nat): set<nat> {
    set p: nat | p in s :: p + d
  }

  lemma ShiftedSize(s: set<nat>, d: nat)
    ensures |Shifted(s, d)| == |s|
  {
    InjectiveImageSize(s, (p: nat) => (p + d) as nat, Shifted(s, d));
  }

  lemma OnesSplit(bits: seq<bool>)
    requires bits != []
    ensures Ones(bits) == (if bits[0] then {0} else {}) + Shifted(Ones(bits[1..]), 1)
  {
    forall p | p in Ones(bits) && p > 0 ensures p in Shifted(Ones(bits[1..]), 1) {
      assert bits[1..][p - 1] == bits[p];
      assert p - 1 in Ones(bits[1..]);
    }
  }

  lemma {:induction false} CountOnesIsSize(bits: seq<bool>)
    ensures CountOnes(bits) == |Ones(bits)|
  {
    if bits == [] {
      assert Ones(bits) == {};
    } else {
      CountOnesIsSize(bits[1..]);
      OnesSplit(bits);
      ShiftedSize(Ones(bits[1..]), 1);
      assert 0 !in Shifted(Ones(bits[1..]), 1);
    }
  }

  /** `count_ones` summed over the words. */
  function CountWords(words: seq<Word>): nat {
    if words == [] then 0 else CountOnes(words[0]) + CountWords(words[1..])
  }

  lemma WordOnesSplit(words: seq<Word>)
    requires words != []
    ensures WordOnes(words) == Ones(words[0]) + Shifted(WordOnes(words[1..]), 64)
  {
    var rest := words[1..];
    forall p | p in WordOnes(words) ensures p in Ones(words[0]) + Shifted(WordOnes(rest), 64) {
      if p >= 64 {
        assert (p - 64) / 64 == p / 64 - 1 && (p - 64) % 64 == p % 64;
        assert p - 64 in WordOnes(rest);
      }
    }
    forall p | p in Shifted(WordOnes(rest), 64) ensures p in WordOnes(words) {
      assert (p - 64) / 64 == p / 64 - 1 && (p - 64) % 64 == p % 64;
    }
  }

  /** The sum over the words is the number of bits that are set. */
  lemma {:induction false} CountWordsIsSize(words: seq<Word>)
    ensures CountWords(words) == |WordOnes(words)|
    decreases |words|
  {
    if words == [] {
      assert WordOnes(words) == {};
    } else {
      CountWordsIsSize(words[1..]);
      WordOnesSplit(words);
      CountOnesIsSize(words[0]);
      ShiftedSize(WordOnes(words[1..]), 64);
      assert Ones(words[0]) !! Shifted(WordOnes(words[1..]), 64);
    }
  }

  /** Packing and unpacking restore the bits, and the words count as many ones. */
  lemma PackRoundTrip(bits: seq<bool>)
    ensures FromWords(ToWords(bits), |bits|) == bits
    ensures CountWords(ToWords(bits)) == CountOnes(bits)
  {
    PackingRepresents(bits);
    UnpackingRestores(ToWords(bits), bits);
    CountWordsIsSize(ToWords(bits));
    CountOnesIsSize(bits);
  }
}
