// Keys and values are byte strings of a fixed length, compared with memcmp. Read as big-endian numbers they
// have the same order and the same equality, so the other modules use numbers.
module KeyBytes {
  import opened Entries
  import opened Products

  type Byte = b: nat | b < 256

  /** memcmp: the sign of the first difference. */
  function Memcmp(a: seq<Byte>, b: seq<Byte>): (sign: int)
    requires |a| == |b|
  {
    if a == [] then 0
    else if a[0] != b[0] then (if a[0] < b[0] then -1 else 1)
    else Memcmp(a[1..], b[1..])
  }

  function Pow256(n: nat): (p: nat)
    ensures p > 0
  {
    if n == 0 then 1 else 256 * Pow256(n - 1)
  }

  function ToKey(a: seq<Byte>): (k: Key) {
    if a == [] then 0 else a[0] * Pow256(|a| - 1) + ToKey(a[1..])
  }

  lemma {:induction false} ToKeyBelow(a: seq<Byte>)
    ensures ToKey(a) < Pow256(|a|)
  {
    if a != [] {
      ToKeyBelow(a[1..]);
      ProductStep(Pow256(|a| - 1), a[0], 256);
      Distribute(a[0], 1, Pow256(|a| - 1));
    }
  }

  lemma HigherByteWins(x: nat, y: nat, low: nat, low': nat, unit: nat)
    requires x < y && low < unit
    ensures x * unit + low < y * unit + low'
  {
    ProductStep(unit, x, y);
    Distribute(x, 1, unit);
  }

  /** memcmp orders byte strings as the order of numbers does, and finds exactly the equal ones equal. */
  lemma {:induction false} MemcmpIsKeyOrder(a: seq<Byte>, b: seq<Byte>)
    requires |a| == |b|
    ensures Memcmp(a, b) < 0 <==> ToKey(a) < ToKey(b)
    ensures Memcmp(a, b) == 0 <==> ToKey(a) == ToKey(b)
    ensures ToKey(a) == ToKey(b) <==> a == b
  {
    if a != [] {
      var unit := Pow256(|a| - 1);
      MemcmpIsKeyOrder(a[1..], b[1..]);
      ToKeyBelow(a[1..]);
      ToKeyBelow(b[1..]);
      if a[0] < b[0] {
        HigherByteWins(a[0], b[0], ToKey(a[1..]), ToKey(b[1..]), unit);
      } else if b[0] < a[0] {
        HigherByteWins(b[0], a[0], ToKey(b[1..]), ToKey(a[1..]), unit);
      } else {
        assert a == [a[0]] + a[1..] && b == [b[0]] + b[1..];
      }
    }
  }

  /** The null key is the string of zero bytes, and no other. */
  lemma {:induction false} NullKeyIsAllZeros(a: seq<Byte>)
    ensures ToKey(a) == NULL_KEY <==> forall i :: 0 <= i < |a| ==> a[i] == 0
  {
    if a != [] {
      NullKeyIsAllZeros(a[1..]);
      ProductStep(Pow256(|a| - 1), 0, a[0]);
      assert forall i :: 1 <= i < |a| ==> a[i] == a[1..][i - 1];
      assert (forall i :: 0 <= i < |a| ==> a[i] == 0) ==> forall i :: 0 <= i < |a[1..]| ==> a[1..][i] == 0;
    }
  }
}
