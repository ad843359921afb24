// How many buffers an SSTable gives away: the fixed fraction of its stock, and the shares of the next
// level's SSTables in proportion to the sizes of their request batches.
module BufferShares {
  import opened Products

  function Max(a: nat, b: nat): nat {
    if a > b then a else b
  }

  function Min(a: nat, b: nat): nat {
    if a < b then a else b
  }

  /** Buffers an idle SSTable passes up: one factor-th of its stock (capped at the fair number), at least one. */
  function ToGive(stock: nat, height: nat, factor: nat): (n: nat)
    requires factor > 0
  {
    if stock == 0 then 0 else Max(Min(stock, height) / factor, 1)
  }

  lemma DivideAtMost(a: nat, factor: nat)
    requires factor > 0
    ensures a / factor <= a
    ensures factor > 1 && a > 0 ==> a / factor < a
  {
    var q := a / factor;
    Quotient(a, factor);
    ProductStep(q, 1, factor);
    ProductStep(q, 2, factor);
  }

  /** The gift never exceeds the stock. */
  lemma GiftWithinStock(stock: nat, height: nat, factor: nat)
    requires factor > 0
    ensures ToGive(stock, height, factor) <= stock
    ensures stock > 0 ==> ToGive(stock, height, factor) > 0
  {
    DivideAtMost(Min(stock, height), factor);
  }

  /**
   * The comment in the source says an SSTable never runs out of buffers. It does exactly when its stock
   * is one, or when the factor is one and the stock is at most the fair number.
   */
  lemma RunsOutExactly(stock: nat, height: nat, factor: nat)
    requires factor > 0 && stock > 0
    ensures stock - ToGive(stock, height, factor) == 0 <==> stock == 1 || (factor == 1 && stock <= height)
  {
    DivideAtMost(Min(stock, height), factor);
    if factor == 1 {
      assert Min(stock, height) / 1 == Min(stock, height);
    }
  }

  // ----- Proportional shares -----

  function Sum(s: seq<nat>): (n: nat) {
    if s == [] then 0 else Sum(s[..|s| - 1]) + s[|s| - 1]
  }

  /** The whole number of buffers, out of `limit`, due to a batch of `size` out of `total` requests. */
  function Share(size: nat, total: nat, limit: nat): (n: nat)
    requires total > 0
  {
    size * limit / total
  }

  function Shares(sizes: seq<nat>, total: nat, limit: nat): (s: seq<nat>)
    requires total > 0
    ensures |s| == |sizes|
    ensures forall i :: 0 <= i < |s| ==> s[i] == Share(sizes[i], total, limit)
  {
    seq(|sizes|, i requires 0 <= i < |sizes| => Share(sizes[i], total, limit))
  }

  lemma {:induction false} SharesScaled(sizes: seq<nat>, total: nat, limit: nat)
    requires total > 0
    ensures Sum(Shares(sizes, total, limit)) * total <= Sum(sizes) * limit
    decreases |sizes|
  {
    if sizes != [] {
      var front, size := sizes[..|sizes| - 1], sizes[|sizes| - 1];
      var shares := Shares(sizes, total, limit);
      SharesScaled(front, total, limit);
      assert shares[..|shares| - 1] == Shares(front, total, limit);
      Distribute(Sum(Shares(front, total, limit)), Share(size, total, limit), total);
      Distribute(Sum(front), size, limit);
      ShareScaled(size, total, limit);
    }
  }

  lemma ShareScaled(size: nat, total: nat, limit: nat)
    requires total > 0
    ensures Share(size, total, limit) * total <= size * limit
  {
    Quotient(size * limit, total);
  }

  /** The shares fit: batches that together are no larger than the total get no more than the limit. */
  lemma SharesFit(sizes: seq<nat>, total: nat, limit: nat)
    requires total > 0 && Sum(sizes) <= total
    ensures Sum(Shares(sizes, total, limit)) <= limit
  {
    var given := Sum(Shares(sizes, total, limit));
    SharesScaled(sizes, total, limit);
    ProductStep(limit, Sum(sizes), total);
    CancelFactor(given, limit, total);
  }

  lemma {:induction false} PrefixSum(s: seq<nat>, i: nat)
    requires i <= |s|
    ensures Sum(s[..i]) <= Sum(s)
    decreases |s|
  {
    if i < |s| {
      assert s[..i] == s[..|s| - 1][..i];
      PrefixSum(s[..|s| - 1], i);
    } else {
      assert s[..i] == s;
    }
  }

  /** So no guard of the hand-out loop ever cuts a share short: before share i, at least that much is left. */
  lemma NoShareCutShort(sizes: seq<nat>, total: nat, limit: nat, i: nat)
    requires total > 0 && Sum(sizes) <= total && i < |sizes|
    ensures var shares := Shares(sizes, total, limit);
            Sum(shares[..i]) + shares[i] <= limit
  {
    var shares := Shares(sizes, total, limit);
    SharesFit(sizes, total, limit);
    PrefixSum(shares, i + 1);
    assert shares[..i + 1][..i] == shares[..i];
  }

  /**
   * As written the proportion is an integer division, so a batch gets all or nothing. That is its share
   * exactly when it is the whole total, or so small that its share rounds to nothing.
   */
  lemma WrittenShareExactly(size: nat, total: nat, limit: nat)
    requires 0 < total && size <= total
    ensures (size / total) * limit == Share(size, total, limit) <==> size == total || size * limit < total
  {
    QuotientOf(total, if size == total then 1 else 0, if size == total then 0 else size);
    if size == total {
      QuotientOf(total, limit, 0);
      assert size * limit == limit * total + 0;
    } else {
      Quotient(size * limit, total);
      ProductStep(total, 1, size * limit / total);
    }
  }
}
