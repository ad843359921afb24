// The per-SSTable bloom filter over its byte array. Hashes are any deterministic function of the key.
module BloomFilter {
  import opened Entries

  /** 1 << k for a bit of a byte. */
  function Mask(k: nat): (m: bv8)
    requires k < 8
  {
    if k == 0 then 1 else if k == 1 then 2 else if k == 2 then 4 else if k == 3 then 8
    else if k == 4 then 16 else if k == 5 then 32 else if k == 6 then 64 else 128
  }

  /** CHECK_BIT as a truth value: bit k of the array. */
  predicate Bit(bytes: seq<bv8>, k: nat)
    requires k < 8 * |bytes|
  {
    bytes[k / 8] & Mask(k % 8) != 0
  }

  lemma SetOneBit(b: bv8, k: nat, j: nat)
    requires k < 8 && j < 8
    ensures (b | Mask(k)) & Mask(j) != 0 <==> k == j || b & Mask(j) != 0
  {
    assert (b | Mask(k)) & Mask(j) == (b & Mask(j)) | (Mask(k) & Mask(j));
    if k != j {
      assert Mask(k) & Mask(j) == 0;
    } else {
      assert Mask(k) & Mask(j) == Mask(j);
    }
  }

  /** The byte array as a set of bit positions. */
  ghost function BitSet(bytes: seq<bv8>): (s: set<nat>) {
    set k: nat | k < 8 * |bytes| && Bit(bytes, k)
  }

  /** The bit positions a list of hashes names. */
  ghost function HashBits(hashes: seq<nat>, bits: nat): (s: set<nat>)
    requires bits > 0
  {
    set i | 0 <= i < |hashes| :: hashes[i] % bits
  }

  /** Some hash of the list falls on bit b. */
  ghost predicate NamedBy(hashes: seq<nat>, bits: nat, b: nat)
    requires bits > 0
  {
    exists i :: 0 <= i < |hashes| && hashes[i] % bits == b
  }

  lemma BitSetAfterSet(bytes: seq<bv8>, h: nat)
    requires h < 8 * |bytes|
    ensures BitSet(bytes[h / 8 := bytes[h / 8] | Mask(h % 8)]) == BitSet(bytes) + {h}
  {
    var after := bytes[h / 8 := bytes[h / 8] | Mask(h % 8)];
    forall k: nat | k < 8 * |bytes| ensures Bit(after, k) <==> Bit(bytes, k) || k == h {
      SetOneBit(bytes[h / 8], h % 8, k % 8);
    }
  }

  class Filter {
    const bits: nat
    const bytes: array<bv8>
    var added: nat

    ghost predicate Valid()
      reads this
    {
      bits > 0 && bits <= 8 * bytes.Length
    }

    /**
     * The array is ceil(bits / keyLength) bytes, rounded up further for alignment: `CHAR_LEN`, meant as
     * eight, is defined as KEY_LENGTH. Every bit has a byte when the key length is at most eight.
     */
    constructor (bits: nat, keyLength: nat)
      requires bits > 0 && 0 < keyLength <= 8
      ensures Valid() && this.bits == bits && added == 0 && fresh(bytes)
      ensures bytes.Length == (bits + keyLength - 1) / keyLength
      ensures BitSet(bytes[..]) == {}
    {
      this.bits := bits;
      var length := (bits + keyLength - 1) / keyLength;
      bytes := new bv8[length](_ => 0);
      added := 0;
      BytesCoverBits(bits, keyLength);
      new;
      assert forall k: nat :: k < 8 * bytes.Length ==> bytes[..][k / 8] == 0;
    }

    predicate Empty()
      reads this
    {
      added == 0
    }

    /** bloom_filter_add_string_alt: sets the bits of the hashes and no others. */
    method Add(hashes: seq<nat>)
      requires Valid()
      modifies bytes, this`added
      ensures Valid() && added == old(added) + 1
      ensures BitSet(bytes[..]) == old(BitSet(bytes[..])) + HashBits(hashes, bits)
      ensures forall b :: b in BitSet(bytes[..]) <==> b in old(BitSet(bytes[..])) || NamedBy(hashes, bits, b)
    {
      ghost var before := BitSet(bytes[..]);
      for i := 0 to |hashes|
        modifies bytes
        invariant BitSet(bytes[..]) == before + HashBits(hashes[..i], bits)
      {
        var h := hashes[i] % bits;
        BitSetAfterSet(bytes[..], h);
        HashBitsSnoc(hashes, bits, i);
        UnionAssoc(before, HashBits(hashes[..i], bits), {h});
        SetBit(h);
      }
      assert hashes[..|hashes|] == hashes;
      added := added + 1;
    }

    method SetBit(h: nat)
      requires h < 8 * bytes.Length
      modifies bytes
      ensures bytes[..] == old(bytes[..])[h / 8 := old(bytes[h / 8]) | Mask(h % 8)]
    {
      bytes[h / 8] := bytes[h / 8] | Mask(h % 8);
    }

    /** bloom_filter_check_string_alt, counting one per set bit as its comment means it. */
    method Check(hashes: seq<nat>) returns (present: bool)
      requires Valid()
      ensures present <==> HashBits(hashes, bits) <= BitSet(bytes[..])
      ensures present <==> forall i :: 0 <= i < |hashes| ==> hashes[i] % bits in BitSet(bytes[..])
    {
      var r := 0;
      for i := 0 to |hashes|
        invariant 0 <= r <= i
        invariant r == i <==> forall j :: 0 <= j < i ==> Bit(bytes[..], hashes[j] % bits)
      {
        if bytes[(hashes[i] % bits) / 8] & Mask((hashes[i] % bits) % 8) != 0 {
          r := r + 1;
        }
      }
      present := r == |hashes|;
      HashBitsWithin(bytes[..], hashes, bits);
    }
  }

  lemma UnionAssoc(a: set<nat>, b: set<nat>, c: set<nat>)
    ensures (a + b) + c == a + (b + c)
  {
  }

  lemma HashBitsSnoc(hashes: seq<nat>, bits: nat, i: nat)
    requires bits > 0 && i < |hashes|
    ensures HashBits(hashes[..i + 1], bits) == HashBits(hashes[..i], bits) + {hashes[i] % bits}
  {
    var longer := hashes[..i + 1];
    assert forall j :: 0 <= j < i ==> longer[j] == hashes[..i][j];
    assert longer[i] == hashes[i];
    forall k | k in HashBits(hashes[..i], bits) ensures k in HashBits(longer, bits) {
      var j :| 0 <= j < i && hashes[..i][j] % bits == k;
      assert longer[j] % bits == k;
    }
  }

  lemma HashBitsWithin(bytes: seq<bv8>, hashes: seq<nat>, bits: nat)
    requires 0 < bits <= 8 * |bytes|
    ensures HashBits(hashes, bits) <= BitSet(bytes)
            <==> forall j :: 0 <= j < |hashes| ==> Bit(bytes, hashes[j] % bits)
  {
    if HashBits(hashes, bits) <= BitSet(bytes) {
      forall j | 0 <= j < |hashes| ensures Bit(bytes, hashes[j] % bits) {
        assert hashes[j] % bits in HashBits(hashes, bits);
      }
    }
  }

  lemma BytesCoverBits(bits: nat, keyLength: nat)
    requires bits > 0 && 0 < keyLength <= 8
    ensures bits <= 8 * ((bits + keyLength - 1) / keyLength)
  {
    var q := (bits + keyLength - 1) / keyLength;
    assert bits + keyLength - 1 < (q + 1) * keyLength;
    assert q * keyLength <= q * 8;
  }

  ghost function OrBytes(x: seq<bv8>, y: seq<bv8>): (r: seq<bv8>)
    requires |x| == |y|
  {
    seq(|x|, i requires 0 <= i < |x| => x[i] | y[i])
  }

  ghost function AndBytes(x: seq<bv8>, y: seq<bv8>): (r: seq<bv8>)
    requires |x| == |y|
  {
    seq(|x|, i requires 0 <= i < |x| => x[i] & y[i])
  }

  lemma OrBytesBit(x: seq<bv8>, y: seq<bv8>, k: nat)
    requires |x| == |y| && k < 8 * |x|
    ensures Bit(OrBytes(x, y), k) <==> Bit(x, k) || Bit(y, k)
  {
    var p, q, m := x[k / 8], y[k / 8], Mask(k % 8);
    assert (p | q) & m == (p & m) | (q & m);
  }

  lemma AndBytesBit(x: seq<bv8>, y: seq<bv8>, k: nat)
    requires |x| == |y| && k < 8 * |x|
    ensures Bit(AndBytes(x, y), k) <==> Bit(x, k) && Bit(y, k)
  {
    MaskIsOneBit(k % 8);
    OneBitOfAnd(x[k / 8], y[k / 8], Mask(k % 8));
    assert AndBytes(x, y)[k / 8] == x[k / 8] & y[k / 8];
  }

  predicate OneBit(m: bv8) {
    m == 1 || m == 2 || m == 4 || m == 8 || m == 16 || m == 32 || m == 64 || m == 128
  }

  lemma MaskIsOneBit(k: nat)
    requires k < 8
    ensures OneBit(Mask(k))
  {
  }

  lemma OneBitOfAnd(x: bv8, y: bv8, m: bv8)
    requires OneBit(m)
    ensures (x & y) & m != 0 <==> x & m != 0 && y & m != 0
  {
  }

  lemma OrBytesIsUnion(x: seq<bv8>, y: seq<bv8>)
    requires |x| == |y|
    ensures BitSet(OrBytes(x, y)) == BitSet(x) + BitSet(y)
  {
    forall k: nat | k < 8 * |x| ensures Bit(OrBytes(x, y), k) <==> Bit(x, k) || Bit(y, k) {
      OrBytesBit(x, y, k);
    }
  }

  lemma AndBytesIsIntersection(x: seq<bv8>, y: seq<bv8>)
    requires |x| == |y|
    ensures BitSet(AndBytes(x, y)) == BitSet(x) * BitSet(y)
  {
    forall k: nat | k < 8 * |x| ensures Bit(AndBytes(x, y), k) <==> Bit(x, k) && Bit(y, k) {
      AndBytesBit(x, y, k);
    }
    forall k: nat ensures k in BitSet(AndBytes(x, y)) <==> k in BitSet(x) && k in BitSet(y) {
      InBitSet(AndBytes(x, y), k);
      InBitSet(x, k);
      InBitSet(y, k);
    }
  }

  lemma InBitSet(bytes: seq<bv8>, k: nat)
    ensures k in BitSet(bytes) <==> k < 8 * |bytes| && Bit(bytes, k)
  {
  }

  /** bloom_filter_union, byte by byte; the result may be one of the operands. */
  method Union(res: array<bv8>, a: array<bv8>, b: array<bv8>)
    requires res.Length == a.Length == b.Length
    modifies res
    ensures BitSet(res[..]) == old(BitSet(a[..])) + old(BitSet(b[..]))
  {
    ghost var x, y := a[..], b[..];
    for i := 0 to res.Length
      invariant forall j :: 0 <= j < i ==> res[j] == x[j] | y[j]
      invariant forall j :: i <= j < res.Length ==> a[j] == x[j] && b[j] == y[j]
    {
      res[i] := a[i] | b[i];
    }
    assert res[..] == OrBytes(x, y);
    OrBytesIsUnion(x, y);
  }

  /** bloom_filter_intersect, byte by byte; the result may be one of the operands. */
  method Intersect(res: array<bv8>, a: array<bv8>, b: array<bv8>)
    requires res.Length == a.Length == b.Length
    modifies res
    ensures BitSet(res[..]) == old(BitSet(a[..])) * old(BitSet(b[..]))
  {
    ghost var x, y := a[..], b[..];
    for i := 0 to res.Length
      invariant forall j :: 0 <= j < i ==> res[j] == x[j] & y[j]
      invariant forall j :: i <= j < res.Length ==> a[j] == x[j] && b[j] == y[j]
    {
      res[i] := a[i] & b[i];
    }
    assert res[..] == AndBytes(x, y);
    AndBytesIsIntersection(x, y);
  }

  // ----- What a filter says about keys, over any history -----

  datatype Op = AddKey(key: Key) | UnionWith(other: History)

  /** How a filter came to be: a list of operations, latest first. */
  datatype History = Empty | After(last: Op, before: History)

  /** The set of bits of a filter with that history. `hash` is any deterministic hash function. */
  ghost function Bits(h: History, hash: Key -> seq<nat>, bits: nat): (s: set<nat>)
    requires bits > 0
  {
    match h
    case Empty => {}
    case After(AddKey(key), before) => Bits(before, hash, bits) + HashBits(hash(key), bits)
    case After(UnionWith(other), before) => Bits(before, hash, bits) + Bits(other, hash, bits)
  }

  ghost predicate Inserted(h: History, key: Key) {
    match h
    case Empty => false
    case After(AddKey(k), before) => k == key || Inserted(before, key)
    case After(UnionWith(other), before) => Inserted(before, key) || Inserted(other, key)
  }

  ghost predicate Positive(s: set<nat>, key: Key, hash: Key -> seq<nat>, bits: nat)
    requires bits > 0
  {
    HashBits(hash(key), bits) <= s
  }

  /** A key was inserted somewhere in the history that has a hash on bit b. */
  ghost predicate SetBySome(h: History, hash: Key -> seq<nat>, bits: nat, b: nat)
    requires bits > 0
  {
    exists k :: Inserted(h, k) && NamedBy(hash(k), bits, b)
  }

  lemma {:induction false} BitsAreSetBySome(h: History, hash: Key -> seq<nat>, bits: nat, b: nat)
    requires bits > 0
    ensures b in Bits(h, hash, bits) <==> SetBySome(h, hash, bits, b)
  {
    match h
    case Empty =>
    case After(AddKey(key), before) =>
      BitsAreSetBySome(before, hash, bits, b);
      assert Inserted(h, key);
      if k :| Inserted(before, k) && NamedBy(hash(k), bits, b) {
        assert Inserted(h, k);
      }
    case After(UnionWith(other), before) =>
      BitsAreSetBySome(before, hash, bits, b);
      BitsAreSetBySome(other, hash, bits, b);
      if k :| Inserted(before, k) && NamedBy(hash(k), bits, b) {
        assert Inserted(h, k);
      }
      if k :| Inserted(other, k) && NamedBy(hash(k), bits, b) {
        assert Inserted(h, k);
      }
  }

  /**
   * What a filter says, exactly: a key tests positive if and only if each of its hashes falls together with a hash of
   * some key that was inserted. So there are no false negatives, and no false positives but by such collisions.
   */
  lemma PositiveExactly(h: History, key: Key, hash: Key -> seq<nat>, bits: nat)
    requires bits > 0
    ensures Positive(Bits(h, hash, bits), key, hash, bits)
            <==> forall i :: 0 <= i < |hash(key)| ==> SetBySome(h, hash, bits, hash(key)[i] % bits)
  {
    var hashes := hash(key);
    forall i | 0 <= i < |hashes|
      ensures hashes[i] % bits in HashBits(hashes, bits)
      ensures hashes[i] % bits in Bits(h, hash, bits) <==> SetBySome(h, hash, bits, hashes[i] % bits)
    {
      BitsAreSetBySome(h, hash, bits, hashes[i] % bits);
    }
  }

  /** No false negatives: a key inserted anywhere in the history, through any unions, tests positive. */
  lemma {:induction false} NoFalseNegatives(h: History, key: Key, hash: Key -> seq<nat>, bits: nat)
    requires bits > 0 && Inserted(h, key)
    ensures Positive(Bits(h, hash, bits), key, hash, bits)
  {
    match h
    case After(AddKey(k), before) =>
      if k != key {
        NoFalseNegatives(before, key, hash, bits);
      }
    case After(UnionWith(other), before) =>
      if Inserted(before, key) {
        NoFalseNegatives(before, key, hash, bits);
      } else {
        NoFalseNegatives(other, key, hash, bits);
      }
  }

  /** A key positive in an intersection is positive in both operands, and conversely. */
  lemma IntersectionPositive(s: set<nat>, t: set<nat>, key: Key, hash: Key -> seq<nat>, bits: nat)
    requires bits > 0
    ensures Positive(s * t, key, hash, bits) <==> Positive(s, key, hash, bits) && Positive(t, key, hash, bits)
  {
  }

  // ----- The check as written -----

  function MaskValue(k: nat): (v: nat)
    requires k < 8
  {
    if k == 0 then 1 else 2 * MaskValue(k - 1)
  }

  /** As written the loop adds the bit masks themselves. */
  ghost function MaskSum(bytes: seq<bv8>, hashes: seq<nat>, bits: nat): (sum: nat)
    requires 0 < bits <= 8 * |bytes|
    decreases |hashes|
  {
    if hashes == [] then 0
    else
      var h := hashes[0] % bits;
      (if Bit(bytes, h) then MaskValue(h % 8) else 0) + MaskSum(bytes, hashes[1..], bits)
  }

  lemma {:induction false} MaskSumOfSetBits(bytes: seq<bv8>, hashes: seq<nat>, bits: nat)
    requires 0 < bits <= 8 * |bytes|
    requires forall i :: 0 <= i < |hashes| ==> Bit(bytes, hashes[i] % bits)
    ensures MaskSum(bytes, hashes, bits) >= |hashes|
    ensures MaskSum(bytes, hashes, bits) == |hashes| <==>
            forall i :: 0 <= i < |hashes| ==> (hashes[i] % bits) % 8 == 0
    decreases |hashes|
  {
    if hashes != [] {
      assert forall i :: 0 <= i < |hashes[1..]| ==> hashes[1..][i] == hashes[i + 1];
      MaskSumOfSetBits(bytes, hashes[1..], bits);
      var k := (hashes[0] % bits) % 8;
      MaskValueOne(k);
      if MaskSum(bytes, hashes, bits) == |hashes| {
        forall i | 0 <= i < |hashes| ensures (hashes[i] % bits) % 8 == 0 {
          if i > 0 {
            assert hashes[i] == hashes[1..][i - 1];
          }
        }
      }
    }
  }

  lemma {:induction false} MaskValueOne(k: nat)
    requires k < 8
    ensures MaskValue(k) >= 1 && (MaskValue(k) == 1 <==> k == 0)
  {
    if k > 0 {
      MaskValueOne(k - 1);
    }
  }

  /**
   * The check as written accepts a key that was added exactly when all its bits are the lowest of their
   * bytes; any other added key is reported absent.
   */
  lemma WrittenCheckExactly(bytes: seq<bv8>, hashes: seq<nat>, bits: nat)
    requires 0 < bits <= 8 * |bytes|
    requires forall i :: 0 <= i < |hashes| ==> Bit(bytes, hashes[i] % bits)
    ensures MaskSum(bytes, hashes, bits) == |hashes| <==>
            forall i :: 0 <= i < |hashes| ==> (hashes[i] % bits) % 8 == 0
  {
    MaskSumOfSetBits(bytes, hashes, bits);
  }

  /** One added key with one hash at bit 1 is reported absent. */
  lemma WrittenCheckFalseNegative()
    ensures Bit([2], 1) && MaskSum([2], [1], 8) != |[1]|
  {
    assert [1][1..] == [];
    assert MaskSum([2], [1], 8) == MaskValue(1) + MaskSum([2], [], 8);
    assert MaskValue(1) == 2;
  }
}
