/** The Bloom filter over a bit vector, and its lock-free twin over 64-bit words. */
module Bloom {
  import opened Arithmetic
  import opened BloomBits

  /** The hash of an item under a hash key; any function. */
  type Hash<!K> = (K, nat) -> nat

  function Pos<K>(hash: Hash<K>, item: K, hashKey: nat, numBits: nat): (p: nat)
    requires numBits > 0
    ensures p < numBits
  {
    hash(item, hashKey) % numBits
  }

  /** A position is the hash, up to a multiple of the number of bits. */
  lemma PosIsHash<K>(hash: Hash<K>, item: K, hashKey: nat, numBits: nat)
    requires numBits > 0
    ensures (hash(item, hashKey) - Pos(hash, item, hashKey, numBits)) % numBits == 0
  {
    RestIsMultiple(hash(item, hashKey), numBits);
  }

  /** The positions that an item sets under the hash keys `keys`. */
  ghost function Positions<K>(hash: Hash<K>, keys: seq<nat>, numBits: nat, item: K): set<nat>
    requires keys != [] ==> numBits > 0
  {
    set i | 0 <= i < |keys| :: Pos(hash, item, keys[i], numBits)
  }

  lemma PositionsStep<K>(hash: Hash<K>, keys: seq<nat>, numBits: nat, item: K, i: nat)
    requires i < |keys| && numBits > 0
    ensures Positions(hash, keys[..i + 1], numBits, item) ==
            Positions(hash, keys[..i], numBits, item) + {Pos(hash, item, keys[i], numBits)}
  {
    var a, b := keys[..i], keys[..i + 1];
    forall p | p in Positions(hash, a, numBits, item) ensures p in Positions(hash, b, numBits, item) {
      var j :| 0 <= j < |a| && p == Pos(hash, item, a[j], numBits);
      assert b[j] == a[j];
    }
    assert b[i] == keys[i];
    forall p | p in Positions(hash, b, numBits, item)
      ensures p in Positions(hash, a, numBits, item) + {Pos(hash, item, keys[i], numBits)}
    {
      var j :| 0 <= j < |b| && p == Pos(hash, item, b[j], numBits);
      if j < i {
        assert a[j] == b[j];
      }
    }
  }

  function SaturatingIncrement(n: nat): nat {
    if n + 1 < U64 then n + 1 else n
  }

  // ---------------------------------------------------------------------------------------------
  // The filter over bits

  class Bloom<K> {
    const hash: Hash<K>
    var keys: seq<nat>
    var bits: seq<bool>
    var numBitsSet: nat

    /**
     The length of the bit vector is a 64-bit number, and is not zero if positions are ever computed.
     The counter is the number of bits that are set.
     */
    ghost predicate Valid()
      reads this
    {
      && |bits| < U64
      && (keys != [] ==> |bits| > 0)
      && numBitsSet == |Ones(bits)|
    }

    constructor (hash: Hash<K>, numBits: nat, keys: seq<nat>)
      requires numBits < U64 && (keys != [] ==> numBits > 0)
      ensures Valid() && this.hash == hash && this.keys == keys && |bits| == numBits && Ones(bits) == {}
    {
      this.hash := hash;
      this.keys := keys;
      bits := seq(numBits, _ => false);
      numBitsSet := 0;
      new;
      assert Ones(bits) == {};
    }

    /** Sets one bit and counts it if it was not set; the saturating increment never saturates. */
    method SetPos(pos: nat)
      requires Valid() && pos < |bits|
      modifies this`bits, this`numBitsSet
      ensures Valid() && |bits| == |old(bits)| && Ones(bits) == old(Ones(bits)) + {pos}
      ensures numBitsSet == old(numBitsSet) + if old(bits[pos]) then 0 else 1
    {
      SetBitOnes(bits, pos);
      if !bits[pos] {
        OnesBound(bits[pos := true]);
        numBitsSet := SaturatingIncrement(numBitsSet);
        bits := bits[pos := true];
      }
    }

    /** Sets exactly the positions of the item. */
    method Add(item: K)
      requires Valid()
      modifies this`bits, this`numBitsSet
      ensures Valid() && |bits| == |old(bits)|
      ensures Ones(bits) == old(Ones(bits)) + Positions(hash, keys, |bits|, item)
    {
      var i := 0;
      assert keys[..0] == [];
      while i < |keys|
        invariant 0 <= i <= |keys| && Valid() && |bits| == |old(bits)|
        invariant Ones(bits) == old(Ones(bits)) + Positions(hash, keys[..i], |bits|, item)
      {
        PositionsStep(hash, keys, |bits|, item, i);
        SetPos(Pos(hash, item, keys[i], |bits|));
        i := i + 1;
      }
      assert keys[..|keys|] == keys;
    }

    method Contains(item: K) returns (r: bool)
      requires Valid()
      ensures r <==> Positions(hash, keys, |bits|, item) <= Ones(bits)
    {
      var i := 0;
      assert keys[..0] == [];
      while i < |keys|
        invariant 0 <= i <= |keys|
        invariant Positions(hash, keys[..i], |bits|, item) <= Ones(bits)
      {
        var pos := Pos(hash, item, keys[i], |bits|);
        PositionsStep(hash, keys, |bits|, item, i);
        if !bits[pos] {
          assert pos in Positions(hash, keys, |bits|, item) && pos !in Ones(bits);
          return false;
        }
        i := i + 1;
      }
      assert keys[..|keys|] == keys;
      r := true;
    }

    method Clear()
      requires Valid()
      modifies this`bits, this`numBitsSet
      ensures Valid() && |bits| == |old(bits)| && Ones(bits) == {}
    {
      bits := seq(|bits|, _ => false);
      numBitsSet := 0;
      assert Ones(bits) == {};
    }
  }

  lemma SetBitOnes(bits: seq<bool>, p: nat)
    requires p < |bits|
    ensures Ones(bits[p := true]) == Ones(bits) + {p}
  {
  }

  lemma OnesBound(bits: seq<bool>)
    ensures |Ones(bits)| <= |bits|
  {
    CountOnesIsSize(bits);
    CountOnesBound(bits);
  }

  lemma {:induction false} CountOnesBound(bits: seq<bool>)
    ensures CountOnes(bits) <= |bits|
  {
    if bits != [] {
      CountOnesBound(bits[1..]);
    }
  }

  // ---------------------------------------------------------------------------------------------
  // Runs of the filter over bits

  datatype BloomOp<K> = AddOp(item: K) | ClearOp

  /** The positions that are set after a run. */
  ghost function BloomRun<K>(hash: Hash<K>, keys: seq<nat>, numBits: nat, ones: set<nat>, ops: seq<BloomOp<K>>): set<nat>
    requires keys != [] ==> numBits > 0
    decreases |ops|
  {
    if ops == [] then ones
    else
      match ops[0]
      case AddOp(item) => BloomRun(hash, keys, numBits, ones + Positions(hash, keys, numBits, item), ops[1..])
      case ClearOp => BloomRun(hash, keys, numBits, {}, ops[1..])
  }

  lemma {:induction false} BloomRunKeeps<K>(
    hash: Hash<K>, keys: seq<nat>, numBits: nat, ones: set<nat>, ops: seq<BloomOp<K>>, some: set<nat>)
    requires keys != [] ==> numBits > 0
    requires some <= ones && forall i :: 0 <= i < |ops| ==> ops[i].AddOp?
    ensures some <= BloomRun(hash, keys, numBits, ones, ops)
    decreases |ops|
  {
    if ops != [] {
      BloomRunKeeps(hash, keys, numBits, ones + Positions(hash, keys, numBits, ops[0].item), ops[1..], some);
    }
  }

  /** Whatever was added since the last clear is contained, however many hash keys share a position. */
  lemma {:induction false} NoFalseNegatives<K>(
    hash: Hash<K>, keys: seq<nat>, numBits: nat, ones: set<nat>, ops: seq<BloomOp<K>>, i: nat)
    requires keys != [] ==> numBits > 0
    requires i < |ops| && ops[i].AddOp? && forall j :: i < j < |ops| ==> ops[j].AddOp?
    ensures Positions(hash, keys, numBits, ops[i].item) <= BloomRun(hash, keys, numBits, ones, ops)
    decreases |ops|
  {
    if i == 0 {
      var positions := Positions(hash, keys, numBits, ops[0].item);
      BloomRunKeeps(hash, keys, numBits, ones + positions, ops[1..], positions);
    } else {
      var ones' := if ops[0].AddOp? then ones + Positions(hash, keys, numBits, ops[0].item) else {};
      assert ops[1..][i - 1] == ops[i];
      NoFalseNegatives(hash, keys, numBits, ones', ops[1..], i - 1);
    }
  }

  /** Runs a sequence of operations on the object. */
  method PerformRun<K>(bloom: Bloom<K>, ops: seq<BloomOp<K>>)
    requires bloom.Valid()
    modifies bloom`bits, bloom`numBitsSet
    ensures bloom.Valid() && |bloom.bits| == |old(bloom.bits)|
    ensures Ones(bloom.bits) == BloomRun(bloom.hash, bloom.keys, |bloom.bits|, old(Ones(bloom.bits)), ops)
  {
    var i := 0;
    while i < |ops|
      invariant 0 <= i <= |ops| && bloom.Valid() && |bloom.bits| == |old(bloom.bits)|
      invariant BloomRun(bloom.hash, bloom.keys, |bloom.bits|, old(Ones(bloom.bits)), ops)
                == BloomRun(bloom.hash, bloom.keys, |bloom.bits|, Ones(bloom.bits), ops[i..])
    {
      assert ops[i..][0] == ops[i] && ops[i..][1..] == ops[i + 1..];
      match ops[i] {
        case AddOp(item) => bloom.Add(item);
        case ClearOp => bloom.Clear();
      }
      i := i + 1;
    }
  }

  // ---------------------------------------------------------------------------------------------
  // The filter over words

  class AtomicBloom<K> {
    const hash: Hash<K>
    const numBits: nat
    const keys: seq<nat>
    const bits: array<Word>

    /** There are as many words as needed, and the padding after the last bit is zero. */
    ghost predicate Valid()
      reads bits
    {
      && (keys != [] ==> numBits > 0)
      && bits.Length == WordCount(numBits)
      && forall p :: p in WordOnes(bits[..]) ==> p < numBits
    }

    constructor (hash: Hash<K>, numBits: nat, keys: seq<nat>, words: seq<Word>)
      requires keys != [] ==> numBits > 0
      requires |words| == WordCount(numBits) && forall p :: p in WordOnes(words) ==> p < numBits
      ensures Valid() && this.hash == hash && this.numBits == numBits && this.keys == keys
      ensures fresh(bits) && bits[..] == words
    {
      this.hash, this.numBits, this.keys := hash, numBits, keys;
      bits := new Word[|words|](i requires 0 <= i < |words| => words[i]);
      new;
      assert bits[..] == words;
    }

    /** Sets the positions of the item without interruption; true exactly if the item was not contained before. */
    method Add(item: K) returns (added: bool)
      requires Valid()
      modifies bits
      ensures Valid()
      ensures WordOnes(bits[..]) == old(WordOnes(bits[..])) + Positions(hash, keys, numBits, item)
      ensures added <==> !(Positions(hash, keys, numBits, item) <= old(WordOnes(bits[..])))
    {
      added := false;
      var i := 0;
      assert keys[..0] == [];
      while i < |keys|
        invariant 0 <= i <= |keys| && Valid()
        invariant WordOnes(bits[..]) == old(WordOnes(bits[..])) + Positions(hash, keys[..i], numBits, item)
        invariant added <==> !(Positions(hash, keys[..i], numBits, item) <= old(WordOnes(bits[..])))
      {
        var pos := Pos(hash, item, keys[i], numBits);
        PositionsStep(hash, keys, numBits, item, i);
        FetchOrSetsOneBit(bits[..], pos);
        MaskTest(bits[pos / 64], pos % 64);
        ghost var words := bits[..];
        var prev := bits[pos / 64];
        bits[pos / 64] := Or(prev, Mask(pos % 64));
        assert bits[..] == FetchOr(words, pos);
        added := added || And(prev, Mask(pos % 64)) == Zero();
        i := i + 1;
      }
      assert keys[..|keys|] == keys;
    }

    method Contains(item: K) returns (r: bool)
      requires Valid()
      ensures r <==> Positions(hash, keys, numBits, item) <= WordOnes(bits[..])
    {
      var i := 0;
      assert keys[..0] == [];
      while i < |keys|
        invariant 0 <= i <= |keys|
        invariant Positions(hash, keys[..i], numBits, item) <= WordOnes(bits[..])
      {
        var pos := Pos(hash, item, keys[i], numBits);
        PositionsStep(hash, keys, numBits, item, i);
        MaskTest(bits[pos / 64], pos % 64);
        if And(bits[pos / 64], Mask(pos % 64)) == Zero() {
          assert pos in Positions(hash, keys, numBits, item) && pos !in WordOnes(bits[..]);
          return false;
        }
        i := i + 1;
      }
      assert keys[..|keys|] == keys;
      r := true;
    }
  }

  // ---------------------------------------------------------------------------------------------
  // Conversions

  method ToAtomic<K>(bloom: Bloom<K>) returns (atomic: AtomicBloom<K>)
    requires bloom.Valid()
    ensures atomic.Valid() && fresh(atomic.bits)
    ensures atomic.hash == bloom.hash && atomic.keys == bloom.keys && atomic.numBits == |bloom.bits|
    ensures Represents(atomic.bits[..], bloom.bits)
  {
    PackingRepresents(bloom.bits);
    atomic := new AtomicBloom<K>(bloom.hash, |bloom.bits|, bloom.keys, ToWords(bloom.bits));
  }

  method FromAtomic<K>(atomic: AtomicBloom<K>) returns (bloom: Bloom<K>)
    requires atomic.Valid() && atomic.numBits < U64
    ensures fresh(bloom) && bloom.Valid()
    ensures bloom.hash == atomic.hash && bloom.keys == atomic.keys && |bloom.bits| == atomic.numBits
    ensures Represents(atomic.bits[..], bloom.bits)
  {
    var words := atomic.bits[..];
    bloom := new Bloom<K>(atomic.hash, atomic.numBits, atomic.keys);
    CountWordsIsSize(words);
    CutKeepsOnes(words, atomic.numBits);
    bloom.numBitsSet := CountWords(words);
    bloom.bits := FromWords(words, atomic.numBits);
  }

  /** Cutting off zero padding loses no bit. */
  lemma CutKeepsOnes(words: seq<Word>, numBits: nat)
    requires numBits <= 64 * |words| && forall p :: p in WordOnes(words) ==> p < numBits
    ensures Ones(FromWords(words, numBits)) == WordOnes(words)
  {
  }

  /** There and back again: keys, bits and counter are what they were. */
  method RoundTrip<K>(bloom: Bloom<K>) returns (back: Bloom<K>)
    requires bloom.Valid()
    ensures fresh(back) && back.Valid()
    ensures back.hash == bloom.hash && back.keys == bloom.keys && back.bits == bloom.bits
    ensures back.numBitsSet == bloom.numBitsSet
  {
    var atomic := ToAtomic(bloom);
    back := FromAtomic(atomic);
    UnpackingRestores(atomic.bits[..], bloom.bits);
    UnpackingRestores(atomic.bits[..], back.bits);
  }
}
