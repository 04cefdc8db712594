/** What enters the book checksum: it is a fold over words, and the words tell the book. */
module ChecksumWords {
  import opened Types
  import opened PriceTimeBook
  import opened MatchTheorems
  import opened LevelTotals
  import opened Checksum
  import opened BookChecksum

  /** The mixing step over a sequence of words. */
  function Fold(h: bv64, ws: seq<u64>): bv64
    decreases |ws|
  {
    if ws == [] then h else Fold(HashCombine(h, Word(ws[0])), ws[1..])
  }

  lemma {:induction false} FoldJoins(h: bv64, ws: seq<u64>, more: seq<u64>)
    ensures Fold(h, ws + more) == Fold(Fold(h, ws), more)
    decreases |ws|
  {
    hide HashCombine, Word;
    if ws == [] {
      assert ws + more == more;
    } else {
      assert (ws + more)[1..] == ws[1..] + more;
      FoldJoins(HashCombine(h, Word(ws[0])), ws[1..], more);
    }
  }

  // ---- the book as rows ----

  /** A resting order as the checksum sees it: its side is not there. */
  datatype Line = Line(id: u64, account: u32, qty: u32)

  /** An occupied level: its price and its orders, oldest first. */
  datatype Row = Row(price: int, lines: seq<Line>)

  function LinesOf(orders: map<u64, Entry>, q: seq<u64>): seq<Line>
    decreases |q|
  {
    if q == [] then []
    else (if q[0] in orders then [Line(q[0], orders[q[0]].account, orders[q[0]].qty)] else [])
         + LinesOf(orders, q[1..])
  }

  function RowAt(b: Book, buy: bool, i: nat): Row
    requires i < |b.Side(buy)|
  {
    Row(b.ladder.minPrice + i, LinesOf(b.orders, b.Side(buy)[i]))
  }

  /** The occupied bid levels below `n`, highest first. */
  function BidRows(b: Book, n: nat): seq<Row>
    requires n <= |b.bids|
    decreases n
  {
    if n == 0 then []
    else (if b.bids[n - 1] == [] then [] else [RowAt(b, true, n - 1)]) + BidRows(b, n - 1)
  }

  /** The occupied ask levels from `i` on, lowest first. */
  function AskRows(b: Book, i: nat): seq<Row>
    requires i <= |b.asks|
    decreases |b.asks| - i
  {
    if i == |b.asks| then []
    else (if b.asks[i] == [] then [] else [RowAt(b, false, i)]) + AskRows(b, i + 1)
  }

  function Bids(b: Book): seq<Row> {
    BidRows(b, |b.bids|)
  }

  function Asks(b: Book): seq<Row> {
    AskRows(b, 0)
  }

  // ---- its words ----

  function LineWords(lines: seq<Line>): seq<u64> {
    if lines == [] then [] else [lines[0].id, lines[0].account, lines[0].qty] + LineWords(lines[1..])
  }

  function TotalQty(lines: seq<Line>): nat {
    if lines == [] then 0 else lines[0].qty + TotalQty(lines[1..])
  }

  /** A level: its price, its quantity, then each order's id, account and quantity. */
  function RowWords(row: Row): seq<u64> {
    [row.price % W64, TotalQty(row.lines) % W64] + LineWords(row.lines)
  }

  function RowsWords(rows: seq<Row>): seq<u64> {
    if rows == [] then [] else RowWords(rows[0]) + RowsWords(rows[1..])
  }

  /** The symbol, the bid levels from the best down, the ask levels from the best up. */
  function BookWords(b: Book): seq<u64> {
    [b.symbol] + RowsWords(Bids(b) + Asks(b))
  }

  // ---- the checksum is the fold of the words ----

  lemma {:induction false} QueueIsFold(h: bv64, orders: map<u64, Entry>, q: seq<u64>)
    ensures HashQueue(h, orders, q) == Fold(h, LineWords(LinesOf(orders, q)))
    decreases |q|
  {
    hide HashCombine, Word;
    if q != [] {
      var rest := LinesOf(orders, q[1..]);
      if q[0] in orders {
        var e := orders[q[0]];
        var line := Line(q[0], e.account, e.qty);
        QueueIsFold(HashOrder(h, q[0], e), orders, q[1..]);
        assert ([line] + rest)[1..] == rest;
        ThreeWords(h, q[0], e.account, e.qty, LineWords(rest));
      } else {
        QueueIsFold(h, orders, q[1..]);
        assert [] + rest == rest;
      }
    }
  }

  lemma TwoWords(h: bv64, x: u64, y: u64, more: seq<u64>)
    ensures Fold(h, [x, y] + more) == Fold(HashCombine(HashCombine(h, Word(x)), Word(y)), more)
  {
    hide HashCombine, Word;
    assert ([x, y] + more)[1..] == [y] + more && ([y] + more)[1..] == more;
  }

  lemma ThreeWords(h: bv64, x: u64, y: u64, z: u64, more: seq<u64>)
    ensures Fold(h, [x, y, z] + more)
      == Fold(HashCombine(HashCombine(HashCombine(h, Word(x)), Word(y)), Word(z)), more)
  {
    hide HashCombine, Word;
    assert ([x, y, z] + more)[1..] == [y, z] + more;
    TwoWords(HashCombine(h, Word(x)), y, z, more);
  }

  lemma {:induction false} LinesTotal(orders: map<u64, Entry>, q: seq<u64>)
    ensures TotalQty(LinesOf(orders, q)) == QueueQty(orders, q)
    decreases |q|
  {
    if q != [] {
      LinesTotal(orders, q[1..]);
      FirstQty(orders, q);
      var rest := LinesOf(orders, q[1..]);
      if q[0] in orders {
        assert ([Line(q[0], orders[q[0]].account, orders[q[0]].qty)] + rest)[1..] == rest;
      } else {
        assert [] + rest == rest;
      }
    }
  }

  lemma {:induction false} FirstQty(orders: map<u64, Entry>, q: seq<u64>)
    requires q != []
    ensures QueueQty(orders, q) == QtyOf(orders, q[0]) + QueueQty(orders, q[1..])
  {
    var n := |q| - 1;
    if n > 0 {
      FirstQty(orders, q[..n]);
      assert q[1..][..n - 1] == q[..n][1..];
    } else {
      assert q[..0] == [] && q[1..] == [];
    }
  }

  lemma LevelIsFold(h: bv64, b: Book, buy: bool, i: nat)
    requires i < |b.Side(buy)|
    ensures HashLevel(h, b, buy, i) == Fold(h, RowWords(RowAt(b, buy, i)))
  {
    hide HashCombine, Word, HashQueue;
    var q, row := b.Side(buy)[i], RowAt(b, buy, i);
    LinesTotal(b.orders, q);
    TwoWords(h, row.price % W64, TotalQty(row.lines) % W64, LineWords(row.lines));
    QueueIsFold(HashCombine(HashCombine(h, Word(row.price % W64)), Word(TotalQty(row.lines) % W64)), b.orders, q);
  }

  lemma FirstRow(h: bv64, row: Row, rows: seq<Row>)
    ensures Fold(h, RowsWords([row] + rows)) == Fold(Fold(h, RowWords(row)), RowsWords(rows))
  {
    assert ([row] + rows)[1..] == rows;
    FoldJoins(h, RowWords(row), RowsWords(rows));
  }

  lemma {:induction false} BidsAreFold(h: bv64, b: Book, n: nat)
    requires n <= |b.bids|
    ensures HashBids(h, b, n) == Fold(h, RowsWords(BidRows(b, n)))
    decreases n
  {
    hide HashLevel, Fold, RowWords;
    if n == 0 {
      NoWords(h);
    } else if b.bids[n - 1] == [] {
      BidsAreFold(h, b, n - 1);
      assert [] + BidRows(b, n - 1) == BidRows(b, n - 1);
    } else {
      LevelIsFold(h, b, true, n - 1);
      BidsAreFold(HashLevel(h, b, true, n - 1), b, n - 1);
      FirstRow(h, RowAt(b, true, n - 1), BidRows(b, n - 1));
    }
  }

  lemma {:induction false} AsksAreFold(h: bv64, b: Book, i: nat)
    requires i <= |b.asks|
    ensures HashAsks(h, b, i) == Fold(h, RowsWords(AskRows(b, i)))
    decreases |b.asks| - i
  {
    hide HashLevel, Fold, RowWords;
    if i == |b.asks| {
      NoWords(h);
    } else if b.asks[i] == [] {
      AsksAreFold(h, b, i + 1);
      assert [] + AskRows(b, i + 1) == AskRows(b, i + 1);
    } else {
      LevelIsFold(h, b, false, i);
      AsksAreFold(HashLevel(h, b, false, i), b, i + 1);
      FirstRow(h, RowAt(b, false, i), AskRows(b, i + 1));
    }
  }

  lemma NoWords(h: bv64)
    ensures Fold(h, RowsWords([])) == h
  {}

  lemma {:induction false} RowsJoin(rows: seq<Row>, more: seq<Row>)
    ensures RowsWords(rows + more) == RowsWords(rows) + RowsWords(more)
  {
    hide RowWords;
    if rows == [] {
      assert rows + more == more;
    } else {
      assert (rows + more)[1..] == rows[1..] + more;
      RowsJoin(rows[1..], more);
    }
  }

  /** The checksum of a book is the fold of its words. */
  lemma BookHashIsFold(b: Book)
    ensures BookHash(b) == Fold(0x45584348424f4f4b, BookWords(b))
  {
    hide HashCombine, Word, HashBids, HashAsks, RowsWords, BidRows, AskRows;
    var h := HashCombine(BOOK_SEED, Word(b.symbol));
    BidsAreFold(h, b, |b.bids|);
    AsksAreFold(HashBids(h, b, |b.bids|), b, 0);
    RowsJoin(Bids(b), Asks(b));
    FoldJoins(h, RowsWords(Bids(b)), RowsWords(Asks(b)));
    assert BookWords(b)[1..] == RowsWords(Bids(b)) + RowsWords(Asks(b));
  }

  // ---- the words tell the rows ----

  /** What the rows of a valid book are like. */
  ghost predicate RowOk(row: Row) {
    && 0 < row.price < W64 && TotalQty(row.lines) < W32 && row.lines != []
    && forall line <- row.lines :: line.qty > 0
  }

  ghost predicate RowsOk(rows: seq<Row>) {
    forall row <- rows :: RowOk(row)
  }

  lemma HasTotal(lines: seq<Line>)
    requires lines != [] && forall line <- lines :: line.qty > 0
    ensures TotalQty(lines) > 0
  {
    assert lines[0] in lines;
  }

  /** Two orders' words with the same total before whatever follows: the total says where the
      orders end. */
  lemma {:induction false} LinesFromWords(lines: seq<Line>, lines': seq<Line>, more: seq<u64>, more': seq<u64>)
    requires (forall line <- lines :: line.qty > 0) && (forall line <- lines' :: line.qty > 0)
    requires TotalQty(lines) == TotalQty(lines') && LineWords(lines) + more == LineWords(lines') + more'
    ensures lines == lines' && more == more'
  {
    if lines != [] { HasTotal(lines); }
    if lines' != [] { HasTotal(lines'); }
    if lines == [] {
      assert LineWords(lines) + more == more && LineWords(lines') + more' == more';
    } else {
      var ws, ws' := LineWords(lines) + more, LineWords(lines') + more';
      var rest, rest' := LineWords(lines[1..]) + more, LineWords(lines'[1..]) + more';
      assert ws == [lines[0].id, lines[0].account, lines[0].qty] + rest;
      assert ws' == [lines'[0].id, lines'[0].account, lines'[0].qty] + rest';
      assert ws[0] == ws'[0] && ws[1] == ws'[1] && ws[2] == ws'[2] && ws[3..] == rest && ws'[3..] == rest';
      LinesFromWords(lines[1..], lines'[1..], more, more');
      assert lines == [lines[0]] + lines[1..] && lines' == [lines'[0]] + lines'[1..];
    }
  }

  lemma RowParts(row: Row, more: seq<u64>)
    requires RowOk(row)
    ensures var ws := RowWords(row) + more;
      |ws| >= 2 && ws[0] == row.price && ws[1] == TotalQty(row.lines) && ws[2..] == LineWords(row.lines) + more
  {}

  lemma {:induction false} RowsFromWords(rows: seq<Row>, rows': seq<Row>)
    requires RowsOk(rows) && RowsOk(rows') && RowsWords(rows) == RowsWords(rows')
    ensures rows == rows'
  {
    hide LineWords, RowWords;
    if rows != [] { FirstParts(rows); }
    if rows' != [] { FirstParts(rows'); }
    if rows != [] {
      var more, more' := RowsWords(rows[1..]), RowsWords(rows'[1..]);
      LinesFromWords(rows[0].lines, rows'[0].lines, more, more');
      RowsFromWords(rows[1..], rows'[1..]);
      assert rows == [rows[0]] + rows[1..] && rows' == [rows'[0]] + rows'[1..];
    }
  }

  lemma FirstParts(rows: seq<Row>)
    requires rows != [] && RowsOk(rows)
    ensures RowOk(rows[0]) && RowsOk(rows[1..])
    ensures var ws := RowsWords(rows);
      && |ws| >= 2 && ws[0] == rows[0].price && ws[1] == TotalQty(rows[0].lines)
      && ws[2..] == LineWords(rows[0].lines) + RowsWords(rows[1..])
  {
    assert rows[0] in rows && forall row <- rows[1..] :: row in rows;
    RowParts(rows[0], RowsWords(rows[1..]));
  }

  lemma {:induction false} LinesPositive(orders: map<u64, Entry>, q: seq<u64>)
    requires Positive(orders) && forall id <- q :: id in orders
    ensures |LinesOf(orders, q)| == |q| && forall line <- LinesOf(orders, q) :: line.qty > 0
    ensures forall k :: 0 <= k < |q| ==>
      var e := orders[q[k]]; LinesOf(orders, q)[k] == Line(q[k], e.account, e.qty)
    decreases |q|
  {
    if q != [] {
      assert q[0] in q && forall id <- q[1..] :: id in q;
      LinesPositive(orders, q[1..]);
    }
  }

  lemma RowIsOk(b: Book, buy: bool, i: nat)
    requires Valid(b) && LevelsFit(b) && i < |b.Side(buy)| && b.Side(buy)[i] != []
    ensures RowOk(RowAt(b, buy, i))
  {
    var q := b.Side(buy)[i];
    assert QueueOk(b, buy, i, q) && LevelFits(b, buy, i);
    LinesPositive(b.orders, q);
    LinesTotal(b.orders, q);
  }

  lemma RowAtIs(b: Book, buy: bool, i: nat)
    requires Valid(b) && LevelsFit(b) && i < |b.Side(buy)| && b.Side(buy)[i] != []
    ensures RowOk(RowAt(b, buy, i)) && RowOf(b, buy, RowAt(b, buy, i))
    ensures RowAt(b, buy, i).price == b.ladder.minPrice + i
  {
    RowIsOk(b, buy, i);
    hide RowOk, Shaped;
  }

  /** The rows of a side are its occupied levels, best first. */
  lemma {:induction false} BidRowsAre(b: Book, n: nat)
    requires Valid(b) && LevelsFit(b) && n <= |b.bids|
    ensures RowsOk(BidRows(b, n))
    ensures forall row <- BidRows(b, n) :: RowOf(b, true, row) && row.price < b.ladder.minPrice + n
    ensures forall i :: 0 <= i < n && b.bids[i] != [] ==> RowAt(b, true, i) in BidRows(b, n)
    ensures forall j, k :: 0 <= j < k < |BidRows(b, n)| ==> BidRows(b, n)[j].price > BidRows(b, n)[k].price
    decreases n
  {
    hide RowOk, Shaped, LevelsFit, RowOf, RowAt, Positive;
    if n > 0 {
      BidRowsAre(b, n - 1);
      if b.bids[n - 1] != [] { RowAtIs(b, true, n - 1); }
    }
  }

  lemma {:induction false} AskRowsAre(b: Book, i: nat)
    requires Valid(b) && LevelsFit(b) && i <= |b.asks|
    ensures RowsOk(AskRows(b, i))
    ensures forall row <- AskRows(b, i) :: RowOf(b, false, row) && row.price >= b.ladder.minPrice + i
    ensures forall k :: i <= k < |b.asks| && b.asks[k] != [] ==> RowAt(b, false, k) in AskRows(b, i)
    ensures forall j, k :: 0 <= j < k < |AskRows(b, i)| ==> AskRows(b, i)[j].price < AskRows(b, i)[k].price
    decreases |b.asks| - i
  {
    hide RowOk, Shaped, LevelsFit, RowOf, RowAt, Positive;
    if i < |b.asks| {
      AskRowsAre(b, i + 1);
      if b.asks[i] != [] { RowAtIs(b, false, i); }
    }
  }

  /** The row is an occupied level of that side. */
  ghost predicate RowOf(b: Book, buy: bool, row: Row) {
    var i := row.price - b.ladder.minPrice;
    0 <= i < |b.Side(buy)| && b.Side(buy)[i] != [] && row == RowAt(b, buy, i)
  }

  // ---- the rows tell the book, but not which side ----

  /** The same queues of the same orders. The code of a side is told by the side only. */
  ghost predicate SameOrders(b: Book, b': Book) {
    && b'.bids == b.bids && b'.asks == b.asks && b'.orders.Keys == b.orders.Keys
    && forall id <- b.orders :: Alike(b.orders[id], b'.orders[id])
  }

  predicate Alike(e: Entry, e': Entry) {
    e'.account == e.account && e'.price == e.price && e'.qty == e.qty && IsBuy(e'.side) == IsBuy(e.side)
  }

  /** The first book has no bids, and its best ask level is the only bid level of the second. */
  ghost predicate BestAskIsBid(b: Book, b': Book) {
    Bids(b) == [] && Asks(b) != [] && Bids(b') == [Asks(b)[0]] && Asks(b') == Asks(b)[1..]
  }

  function RowsOn(b: Book, buy: bool): seq<Row> {
    if buy then Bids(b) else Asks(b)
  }

  lemma RowsOnAre(b: Book, buy: bool)
    requires Valid(b) && LevelsFit(b)
    ensures RowsOk(RowsOn(b, buy))
    ensures forall row <- RowsOn(b, buy) :: RowOf(b, buy, row)
    ensures forall i :: 0 <= i < |b.Side(buy)| && b.Side(buy)[i] != [] ==> RowAt(b, buy, i) in RowsOn(b, buy)
  {
    BidRowsAre(b, |b.bids|);
    AskRowsAre(b, 0);
    hide RowAt, RowOf, RowOk, BidRows, AskRows, Shaped, LevelsFit;
  }

  /** Every occupied level of one book is that level of the other. */
  lemma LevelTold(b: Book, b': Book, buy: bool, i: nat)
    requires Valid(b) && LevelsFit(b) && Valid(b') && LevelsFit(b') && b.ladder == b'.ladder
    requires RowsOn(b, buy) == RowsOn(b', buy) && i < |b.Side(buy)| && b.Side(buy)[i] != []
    ensures i < |b'.Side(buy)| && b'.Side(buy)[i] == b.Side(buy)[i]
    ensures forall id <- b.Side(buy)[i] :: id in b.orders && id in b'.orders && Alike(b.orders[id], b'.orders[id])
  {
    RowsOnAre(b, buy);
    RowsOnAre(b', buy);
    var row := RowAt(b, buy, i);
    assert RowOf(b', buy, row);
    hide RowsOn, LevelsFit, RowOk, Bids, Asks, LineWords, TotalQty, Positive;
    var q, q' := b.Side(buy)[i], b'.Side(buy)[i];
    assert QueueOk(b, buy, i, q) && QueueOk(b', buy, i, q');
    hide Shaped;
    LinesPositive(b.orders, q);
    LinesPositive(b'.orders, q');
    forall k | 0 <= k < |q| ensures q'[k] == q[k] && Alike(b.orders[q[k]], b'.orders[q[k]]) {
      assert row.lines[k] == LinesOf(b.orders, q)[k] == LinesOf(b'.orders, q')[k];
    }
  }

  ghost predicate SameLevel(b: Book, b': Book, buy: bool, i: nat) {
    i < |b.Side(buy)| ==> i < |b'.Side(buy)| && b'.Side(buy)[i] == b.Side(buy)[i]
  }

  lemma RowsTellSides(b: Book, b': Book)
    requires Valid(b) && LevelsFit(b) && Valid(b') && LevelsFit(b') && b.ladder == b'.ladder
    requires Bids(b) == Bids(b') && Asks(b) == Asks(b')
    ensures SameOrders(b, b')
  {
    forall buy: bool, i: nat ensures SameLevel(b, b', buy, i) {
      if i < |b.Side(buy)| {
        assert |b'.Side(buy)| == |b.Side(buy)|;
        if b.Side(buy)[i] != [] {
          LevelTold(b, b', buy, i);
        } else if b'.Side(buy)[i] != [] {
          LevelTold(b', b, buy, i);
        }
      }
    }
    hide Bids, Asks;
    SidesAlike(b, b', true);
    SidesAlike(b, b', false);
    OrdersTold(b, b');
    OrdersTold(b', b);
  }

  lemma SidesAlike(b: Book, b': Book, buy: bool)
    requires Valid(b) && Valid(b') && b.ladder == b'.ladder && forall i: nat :: SameLevel(b, b', buy, i)
    ensures b'.Side(buy) == b.Side(buy)
  {
    forall i | 0 <= i < |b.Side(buy)| ensures b'.Side(buy)[i] == b.Side(buy)[i] {
      assert SameLevel(b, b', buy, i);
    }
  }

  lemma OrdersTold(b: Book, b': Book)
    requires Valid(b) && LevelsFit(b) && Valid(b') && LevelsFit(b') && b.ladder == b'.ladder
    requires Bids(b) == Bids(b') && Asks(b) == Asks(b')
    ensures forall id <- b.orders :: id in b'.orders && Alike(b.orders[id], b'.orders[id])
  {
    forall id <- b.orders ensures id in b'.orders && Alike(b.orders[id], b'.orders[id]) {
      var e := b.orders[id];
      assert Placed(b, id, e);
      LevelTold(b, b', IsBuy(e.side), b.LevelOf(e.price));
    }
  }

  ghost predicate Rising(rows: seq<Row>) {
    forall j, k :: 0 <= j < k < |rows| ==> rows[j].price < rows[k].price
  }

  ghost predicate Falling(rows: seq<Row>) {
    forall j, k :: 0 <= j < k < |rows| ==> rows[j].price > rows[k].price
  }

  ghost predicate AllBelow(bids: seq<Row>, asks: seq<Row>) {
    forall bid <- bids, ask <- asks :: bid.price < ask.price
  }

  lemma Falls(rows: seq<Row>, k: nat)
    requires Falling(rows) && k + 1 < |rows|
    ensures rows[k].price > rows[k + 1].price
  {}

  lemma Rises(rows: seq<Row>, k: nat)
    requires Rising(rows) && k + 1 < |rows|
    ensures rows[k].price < rows[k + 1].price
  {}

  lemma IsBelow(bids: seq<Row>, asks: seq<Row>, j: nat, k: nat)
    requires AllBelow(bids, asks) && j < |bids| && k < |asks|
    ensures bids[j].price < asks[k].price
  {}

  /** The same rows, split at different points: the bids of the first are none, of the second
      one. More would have to fall and rise, or an ask stand below a bid. */
  lemma SplitRows(down: seq<Row>, up: seq<Row>, down': seq<Row>, up': seq<Row>)
    requires down + up == down' + up' && |down| < |down'|
    requires Rising(up) && Falling(down') && AllBelow(down, up)
    ensures down == [] && up != [] && down' == [up[0]] && up' == up[1..]
  {
    hide Rising, Falling, AllBelow;
    var n, all := |down|, down + up;
    assert all[n] == up[0] == down'[n];
    if n + 1 < |down'| {
      assert all[n + 1] == up[1] == down'[n + 1];
      Rises(up, 0);
      Falls(down', n);
    } else if n > 0 {
      assert all[n - 1] == down[n - 1] == down'[n - 1];
      IsBelow(down, up, n - 1, 0);
      Falls(down', n - 1);
    } else {
      assert down' == all[..1] && up' == all[1..] && up == all;
    }
  }

  lemma SplitOnce(b: Book, b': Book)
    requires Valid(b) && LevelsFit(b) && Valid(b') && LevelsFit(b') && b.ladder == b'.ladder && Uncrossed(b)
    requires Bids(b) + Asks(b) == Bids(b') + Asks(b') && |Bids(b)| < |Bids(b')|
    ensures BestAskIsBid(b, b')
  {
    BidRowsAre(b, |b.bids|);
    AskRowsAre(b, 0);
    BidRowsAre(b', |b'.bids|);
    hide RowAt, RowOf, RowOk, BidRows, AskRows, Shaped, LevelsFit, Uncrossed, Positive;
    forall bid <- Bids(b), ask <- Asks(b) ensures bid.price < ask.price {
      BidBelowAsk(b, bid, ask);
    }
    SplitRows(Bids(b), Asks(b), Bids(b'), Asks(b'));
  }

  lemma BidBelowAsk(b: Book, bid: Row, ask: Row)
    requires Valid(b) && Uncrossed(b) && RowOf(b, true, bid) && RowOf(b, false, ask)
    ensures bid.price < ask.price
  {
    var i, j := bid.price - b.ladder.minPrice, ask.price - b.ladder.minPrice;
    assert QueueOk(b, true, i, b.bids[i]) && QueueOk(b, false, j, b.asks[j]);
    var x, y := b.bids[i][0], b.asks[j][0];
    assert b.orders[x].price < b.orders[y].price;
  }

  lemma {:induction false} SameLines(orders: map<u64, Entry>, orders': map<u64, Entry>, q: seq<u64>)
    requires orders.Keys == orders'.Keys && forall id <- orders :: Alike(orders[id], orders'[id])
    ensures LinesOf(orders, q) == LinesOf(orders', q)
    decreases |q|
  {
    if q != [] { SameLines(orders, orders', q[1..]); }
  }

  lemma {:induction false} SameBidRows(b: Book, b': Book, n: nat)
    requires SameOrders(b, b') && b.ladder == b'.ladder && n <= |b.bids|
    ensures BidRows(b, n) == BidRows(b', n)
    decreases n
  {
    if n > 0 {
      SameBidRows(b, b', n - 1);
      SameLines(b.orders, b'.orders, b.bids[n - 1]);
    }
  }

  lemma {:induction false} SameAskRows(b: Book, b': Book, i: nat)
    requires SameOrders(b, b') && b.ladder == b'.ladder && i <= |b.asks|
    ensures AskRows(b, i) == AskRows(b', i)
    decreases |b.asks| - i
  {
    if i < |b.asks| {
      SameAskRows(b, b', i + 1);
      SameLines(b.orders, b'.orders, b.asks[i]);
    }
  }

  /** Two uncrossed books of one symbol and price band put the same words into the checksum
      exactly when they hold the same queues of the same orders, or differ only in that the one
      level that is best ask of a book without bids is the only bid level of the other: the
      words do not tell a level's side. */
  lemma SameWordsExactly(b: Book, b': Book)
    requires Valid(b) && LevelsFit(b) && Uncrossed(b) && Valid(b') && LevelsFit(b') && Uncrossed(b')
    requires b.symbol == b'.symbol && b.ladder == b'.ladder
    ensures BookWords(b) == BookWords(b') <==> SameOrders(b, b') || BestAskIsBid(b, b') || BestAskIsBid(b', b)
  {
    hide Shaped, LevelsFit, Uncrossed, RowsWords, BidRows, AskRows, Positive;
    var rows, rows' := Bids(b) + Asks(b), Bids(b') + Asks(b');
    if SameOrders(b, b') {
      SameBidRows(b, b', |b.bids|);
      SameAskRows(b, b', 0);
    } else if BookWords(b) == BookWords(b') {
      RowsOnAre(b, true);
      RowsOnAre(b, false);
      RowsOnAre(b', true);
      RowsOnAre(b', false);
      hide SameOrders, RowOk, RowOf;
      assert BookWords(b)[1..] == RowsWords(rows) && BookWords(b')[1..] == RowsWords(rows');
      RowsFromWords(rows, rows');
      if |Bids(b)| == |Bids(b')| {
        assert Bids(b) == rows[..|Bids(b)|] && Asks(b) == rows[|Bids(b)|..];
        assert Bids(b') == rows[..|Bids(b)|] && Asks(b') == rows[|Bids(b)|..];
        RowsTellSides(b, b');
      } else if |Bids(b)| < |Bids(b')| {
        SplitOnce(b, b');
      } else {
        SplitOnce(b', b);
      }
    } else {
      FlippedRows(b, b');
      FlippedRows(b', b);
    }
  }

  lemma FlippedRows(b: Book, b': Book)
    ensures BestAskIsBid(b, b') ==> Bids(b) + Asks(b) == Bids(b') + Asks(b')
  {
    hide BidRows, AskRows;
  }

  // ---- a lone order ----

  lemma {:induction false} LoneBidRow(b: Book, n: nat, i: nat)
    requires n <= |b.bids| && i < |b.bids| && b.bids[i] != []
    requires forall j :: 0 <= j < |b.bids| && j != i ==> b.bids[j] == []
    ensures BidRows(b, n) == if i < n then [RowAt(b, true, i)] else []
    decreases n
  {
    hide RowAt;
    if n > 0 { LoneBidRow(b, n - 1, i); }
  }

  lemma {:induction false} LoneAskRow(b: Book, n: nat, i: nat)
    requires n <= |b.asks| && i < |b.asks| && b.asks[i] != []
    requires forall j :: 0 <= j < |b.asks| && j != i ==> b.asks[j] == []
    ensures AskRows(b, n) == if n <= i then [RowAt(b, false, i)] else []
    decreases |b.asks| - n
  {
    hide RowAt;
    if n < |b.asks| { LoneAskRow(b, n + 1, i); }
  }

  lemma {:induction false} NoBidRows(b: Book, n: nat)
    requires n <= |b.bids| && forall j :: 0 <= j < |b.bids| ==> b.bids[j] == []
    ensures BidRows(b, n) == []
    decreases n
  {
    if n > 0 { NoBidRows(b, n - 1); }
  }

  lemma {:induction false} NoAskRows(b: Book, n: nat)
    requires n <= |b.asks| && forall j :: 0 <= j < |b.asks| ==> b.asks[j] == []
    ensures AskRows(b, n) == []
    decreases |b.asks| - n
  {
    if n < |b.asks| { NoAskRows(b, n + 1); }
  }

  /** The book of one order. */
  function Lone(symbol: u32, ladder: Ladder, id: u64, e: Entry): (b: Book)
    requires ladder.Valid() && ladder.InBand(e.price)
    ensures b.symbol == symbol
  {
    Rest(EmptyBook(symbol, ladder), id, e)
  }

  predicate NoneAt(qs: seq<seq<u64>>) {
    forall j :: 0 <= j < |qs| ==> qs[j] == []
  }

  predicate OnlyAt(qs: seq<seq<u64>>, i: int, id: u64) {
    0 <= i < |qs| && qs[i] == [id] && forall j :: 0 <= j < |qs| && j != i ==> qs[j] == []
  }

  lemma LoneShape(symbol: u32, ladder: Ladder, id: u64, e: Entry)
    requires ladder.Valid() && ladder.InBand(e.price)
    ensures var b, i := Lone(symbol, ladder, id, e), e.price - ladder.minPrice;
      && b.ladder == ladder && b.orders == map[id := e]
      && if IsBuy(e.side) then OnlyAt(b.bids, i, id) && NoneAt(b.asks) else NoneAt(b.bids) && OnlyAt(b.asks, i, id)
  {
    hide Shaped;
    assert forall i :: 0 <= i < ladder.Levels() ==> EmptyBook(symbol, ladder).bids[i] == [];
    assert forall i :: 0 <= i < ladder.Levels() ==> EmptyBook(symbol, ladder).asks[i] == [];
  }

  lemma LoneRows(symbol: u32, ladder: Ladder, id: u64, e: Entry)
    requires ladder.Valid() && ladder.InBand(e.price)
    ensures var b := Lone(symbol, ladder, id, e); Bids(b) + Asks(b) == [Row(e.price, [Line(id, e.account, e.qty)])]
  {
    hide BidRows, AskRows, LinesOf, Shaped, Lone;
    LoneShape(symbol, ladder, id, e);
    var b, i := Lone(symbol, ladder, id, e), e.price - ladder.minPrice;
    LoneLine(b.orders, id);
    if IsBuy(e.side) {
      LoneBidRow(b, |b.bids|, i);
      NoAskRows(b, 0);
    } else {
      NoBidRows(b, |b.bids|);
      LoneAskRow(b, 0, i);
    }
  }

  /** A book with one order hashes alike whichever side the order is on. */
  lemma LoneOrderHasNoSide(symbol: u32, ladder: Ladder, id: u64, account: u32, price: i64, qty: u32)
    requires ladder.Valid() && ladder.InBand(price)
    ensures BookHash(Lone(symbol, ladder, id, Entry(account, BUY, price, qty)))
      == BookHash(Lone(symbol, ladder, id, Entry(account, SELL, price, qty)))
  {
    hide Fold, RowsWords, Bids, Asks, BookHash, Lone;
    LoneRows(symbol, ladder, id, Entry(account, BUY, price, qty));
    LoneRows(symbol, ladder, id, Entry(account, SELL, price, qty));
    BookHashIsFold(Lone(symbol, ladder, id, Entry(account, BUY, price, qty)));
    BookHashIsFold(Lone(symbol, ladder, id, Entry(account, SELL, price, qty)));
  }

  lemma LoneLine(orders: map<u64, Entry>, id: u64)
    requires id in orders
    ensures LinesOf(orders, [id]) == [Line(id, orders[id].account, orders[id].qty)]
  {
    assert [id][1..] == [];
  }
}
