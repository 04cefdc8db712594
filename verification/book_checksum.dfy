/** The book checksum as a fold over the abstract book: bids from the highest level down,
    then asks from the lowest up, each level's orders in queue order. */
module BookChecksum {
  import opened Types
  import opened PriceTimeBook
  import opened LevelTotals
  import opened Checksum

  const BOOK_SEED: bv64 := 0x45584348424f4f4b

  function HashOrder(h: bv64, id: u64, e: Entry): bv64 {
    HashCombine(HashCombine(HashCombine(h, Word(id)), Word(e.account)), Word(e.qty))
  }

  function HashQueue(h: bv64, orders: map<u64, Entry>, q: seq<u64>): bv64
    decreases |q|
  {
    if q == [] then h
    else HashQueue(if q[0] in orders then HashOrder(h, q[0], orders[q[0]]) else h, orders, q[1..])
  }

  /** A level: its price, its quantity, its orders. */
  function HashLevel(h: bv64, b: Book, buy: bool, i: nat): bv64
    requires i < |b.Side(buy)|
  {
    var q := b.Side(buy)[i];
    HashQueue(HashCombine(HashCombine(h, Word((b.ladder.minPrice + i) % W64)), Word(QueueQty(b.orders, q) % W64)),
              b.orders, q)
  }

  /** The occupied bid levels below `n`, highest first. */
  function HashBids(h: bv64, b: Book, n: nat): bv64
    requires n <= |b.bids|
    decreases n
  {
    if n == 0 then h
    else HashBids(if b.bids[n - 1] == [] then h else HashLevel(h, b, true, n - 1), b, n - 1)
  }

  /** The occupied ask levels from `i` on, lowest first. */
  function HashAsks(h: bv64, b: Book, i: nat): bv64
    requires i <= |b.asks|
    decreases |b.asks| - i
  {
    if i == |b.asks| then h
    else HashAsks(if b.asks[i] == [] then h else HashLevel(h, b, false, i), b, i + 1)
  }

  function BookHash(b: Book): bv64 {
    HashAsks(HashBids(HashCombine(BOOK_SEED, Word(b.symbol)), b, |b.bids|), b, 0)
  }

  lemma {:induction false} SkipBids(h: bv64, b: Book, n: nat, m: nat)
    requires m <= n <= |b.bids| && forall j :: m <= j < n ==> b.bids[j] == []
    ensures HashBids(h, b, n) == HashBids(h, b, m)
    decreases n
  {
    hide HashLevel, HashCombine, Word;
    if m < n { SkipBids(h, b, n - 1, m); }
  }

  lemma {:induction false} SkipAsks(h: bv64, b: Book, i: nat, j: nat)
    requires i <= j <= |b.asks| && forall k :: i <= k < j ==> b.asks[k] == []
    ensures HashAsks(h, b, i) == HashAsks(h, b, j)
    decreases j - i
  {
    hide HashLevel, HashCombine, Word;
    if i < j { SkipAsks(h, b, i + 1, j); }
  }
}
