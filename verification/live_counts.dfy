/** What the count of live orders counts. */
module LiveCounts {
  import opened Types
  import opened PriceTimeBook
  import opened Arena
  import opened Books
  import opened Replica
  import opened BookManagers

  /** The resting orders of symbols 1 to `n`, each with its symbol. */
  function Resting(books: seq<Book>, n: nat): set<(int, u64)>
    requires n < |books|
  {
    set s: int, id: u64 | 1 <= s <= n && id in books[s].orders :: (s, id)
  }

  function Tagged(s: int, ids: set<u64>): set<(int, u64)> {
    set id | id in ids :: (s, id)
  }

  lemma {:induction false} TaggedCount(s: int, ids: set<u64>)
    ensures |Tagged(s, ids)| == |ids|
    decreases |ids|
  {
    if ids == {} {
      assert Tagged(s, ids) == {};
    } else {
      var id :| id in ids;
      TaggedCount(s, ids - {id});
      assert Tagged(s, ids) == Tagged(s, ids - {id}) + {(s, id)} && (s, id) !in Tagged(s, ids - {id});
    }
  }

  lemma OneMoreSymbol(books: seq<Book>, n: nat)
    requires 0 < n < |books|
    ensures Resting(books, n) == Resting(books, n - 1) + Tagged(n, books[n].orders.Keys)
    ensures Resting(books, n - 1) !! Tagged(n, books[n].orders.Keys)
  {
    var before, mine := Resting(books, n - 1), Tagged(n, books[n].orders.Keys);
    forall x | x in Resting(books, n) ensures x in before + mine {
      if x.0 == n { assert x.1 in books[n].orders.Keys; }
    }
    forall x | x in before + mine ensures x in Resting(books, n) {}
  }

  /** The count is of the resting orders of all symbols, an id resting under two of them twice. */
  lemma {:induction false} CountsResting(books: seq<Book>, n: nat)
    requires n < |books|
    ensures LiveOrders(books, n) == |Resting(books, n)|
  {
    if n == 0 {
      assert Resting(books, 0) == {};
    } else {
      CountsResting(books, n - 1);
      var before, mine := Resting(books, n - 1), Tagged(n, books[n].orders.Keys);
      TaggedCount(n, books[n].orders.Keys);
      OneMoreSymbol(books, n);
      assert |before + mine| == |before| + |mine|;
    }
  }

  function Entries(index: map<u64, u32>, ids: set<u64>): set<(int, u64)>
    requires ids <= index.Keys
  {
    set id | id in ids :: (index[id] as int, id)
  }

  lemma {:induction false} EntriesCount(index: map<u64, u32>, ids: set<u64>)
    requires ids <= index.Keys
    ensures |Entries(index, ids)| == |ids|
    decreases |ids|
  {
    if ids == {} {
      assert Entries(index, ids) == {};
    } else {
      var id :| id in ids;
      EntriesCount(index, ids - {id});
      var e := (index[id] as int, id);
      assert Entries(index, ids) == Entries(index, ids - {id}) + {e} && e !in Entries(index, ids - {id});
    }
  }

  lemma IndexedResting(m: Books)
    requires ValidBooks(m) && IndexAgrees(m)
    ensures Resting(m.books, |m.books| - 1) == Entries(m.index, m.index.Keys)
  {
    hide Valid;
    var n := |m.books| - 1;
    forall x | x in Resting(m.books, n) ensures x in Entries(m.index, m.index.Keys) {
      assert KnownSymbol(m, x.0) && x.1 in m.books[x.0].orders;
      assert x.1 in m.index && m.index[x.1] == x.0;
    }
    forall x | x in Entries(m.index, m.index.Keys) ensures x in Resting(m.books, n) {
      assert x.1 in m.books[m.index[x.1]].orders;
    }
  }

  /** While the index agrees with the books, it is the size of the index. */
  lemma CountsIndex(m: Books)
    requires ValidBooks(m) && IndexAgrees(m)
    ensures LiveOrders(m.books, |m.books| - 1) == |m.index|
  {
    hide IndexAgrees, BookOk, Resting, Entries, LiveOrders;
    CountsResting(m.books, |m.books| - 1);
    EntriesCount(m.index, m.index.Keys);
    IndexedResting(m);
  }

  // ---- levels ----

  function OccupiedLevels(qs: seq<seq<u64>>): set<int> {
    set i | 0 <= i < |qs| && qs[i] != []
  }

  /** The count of levels is of those that hold an order. */
  lemma {:induction false} CountsLevels(qs: seq<seq<u64>>)
    ensures Occupied(qs) == |OccupiedLevels(qs)|
  {
    if qs == [] {
      assert OccupiedLevels(qs) == {};
    } else {
      var n := |qs| - 1;
      CountsLevels(qs[..n]);
      var before := OccupiedLevels(qs[..n]);
      assert OccupiedLevels(qs) == if qs[n] == [] then before else before + {n};
      assert n !in before;
    }
  }
}
