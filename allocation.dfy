/** Equal-weight allocation: the portfolio value split evenly over the rows, then a whole
    number of shares per row. Floats are idealised as exact reals. */
module Allocation {
  import opened Table

  /** position_size = val / number of rows (the division fails for an empty table). */
  function PositionSize(val: real, rowCount: nat): (size: real)
    requires rowCount > 0
    ensures size * rowCount as real == val
    ensures val >= 0.0 ==> size >= 0.0
  {
    val / rowCount as real
  }

  lemma MulMonoReal(a: real, b: real, c: real)
    requires a <= b && c >= 0.0
    ensures a * c <= b * c
  {
  }

  lemma MulStrict(a: real, b: real, c: real)
    requires a < b && c > 0.0
    ensures a * c < b * c
  {
  }

  /** For a positive price, floor(x / price) whole shares cost at most x, and one more share
      would cost more than x. */
  lemma FloorBounds(x: real, price: real)
    requires price > 0.0
    ensures (x / price).Floor as real * price <= x < ((x / price).Floor + 1) as real * price
  {
    var q := x / price;
    var f := q.Floor;
    assert q * price == x;
    calc {
      f as real * price;
    <= { MulMonoReal(f as real, q, price); }
      q * price;
    ==
      x;
    }
    calc {
      x;
    ==
      q * price;
    < { MulStrict(q, (f + 1) as real, price); }
      (f + 1) as real * price;
    }
  }

  /** math.floor(position_size / price): the most whole shares the position can pay for at a
      positive price, never negative for a non-negative position. */
  function SharesFor(positionSize: real, price: real): (s: int)
    requires price != 0.0
    ensures price > 0.0 ==> s as real * price <= positionSize < (s + 1) as real * price
    ensures price > 0.0 && positionSize >= 0.0 ==> s >= 0
  {
    if price > 0.0 then
      FloorBounds(positionSize, price);
      (positionSize / price).Floor
    else
      (positionSize / price).Floor
  }

  /** The share count is the unique whole number satisfying the bounds above: a price that
      divides the position exactly gives the quotient, a price above it gives 0. */
  lemma SharesUnique(positionSize: real, price: real, m: int)
    requires price > 0.0
    requires m as real * price <= positionSize < (m + 1) as real * price
    ensures SharesFor(positionSize, price) == m
  {
  }

  /** A price that divides the position exactly buys the quotient. */
  lemma SharesExact(positionSize: real, price: real, m: int)
    requires price > 0.0 && positionSize == m as real * price
    ensures SharesFor(positionSize, price) == m
  {
    SharesUnique(positionSize, price, m);
  }

  /** A price above a non-negative position buys no share. */
  lemma SharesNone(positionSize: real, price: real)
    requires 0.0 <= positionSize < price
    ensures SharesFor(positionSize, price) == 0
  {
    SharesUnique(positionSize, price, 0);
  }

  /** The table after the allocation loop: each row's share count overwritten, nothing else. */
  function Allocated(rows: seq<Row>, positionSize: real): seq<Row>
    requires forall i :: 0 <= i < |rows| ==> rows[i].price != 0.0
  {
    seq(|rows|, i requires 0 <= i < |rows| => rows[i].(shares := Count(SharesFor(positionSize, rows[i].price))))
  }

  /** The allocation keeps the row count, the row order and the Ticker, Stock Price and Market
      Capitalization columns, and each share count satisfies the floor bounds. */
  lemma AllocatedRows(rows: seq<Row>, positionSize: real)
    requires forall i :: 0 <= i < |rows| ==> rows[i].price != 0.0
    ensures |Allocated(rows, positionSize)| == |rows|
    ensures forall i :: 0 <= i < |rows| ==>
      var r := Allocated(rows, positionSize)[i];
      r.ticker == rows[i].ticker && r.price == rows[i].price && r.marketCap == rows[i].marketCap &&
      r.shares.Count? &&
      (rows[i].price > 0.0 ==> r.shares.n as real * r.price <= positionSize < (r.shares.n + 1) as real * r.price)
  {
  }

  /** With positive prices and a non-negative position, no allocated share count is negative. */
  lemma AllocatedNonNegative(rows: seq<Row>, positionSize: real)
    requires positionSize >= 0.0
    requires forall i :: 0 <= i < |rows| ==> rows[i].price > 0.0
    ensures forall r :: r in Allocated(rows, positionSize) ==> r.shares.Count? && r.shares.n >= 0
  {
    var a := Allocated(rows, positionSize);
    forall r | r in a
      ensures r.shares.Count? && r.shares.n >= 0
    {
      var i :| 0 <= i < |a| && a[i] == r;
      assert r.shares == Count(SharesFor(positionSize, rows[i].price));
    }
  }

  /** Money spent on one row's trade: its shares times its price, nothing for 'N/A'. */
  function Spent(r: Row): real
  {
    if r.shares.Count? then r.shares.n as real * r.price else 0.0
  }

  /** Money spent on the recommended trades: shares times price summed over the rows. */
  function Cost(rows: seq<Row>): real
  {
    if |rows| == 0 then 0.0 else Cost(rows[..|rows| - 1]) + Spent(rows[|rows| - 1])
  }

  /** With positive prices and a non-negative portfolio, the trades never cost more than the
      portfolio: each row spends at most its position size, and the positions add up to val.
      No share count is negative either. */
  lemma {:induction false} CostWithinPortfolio(rows: seq<Row>, val: real)
    requires |rows| > 0 && val >= 0.0
    requires forall i :: 0 <= i < |rows| ==> rows[i].price > 0.0
    ensures forall r :: r in Allocated(rows, PositionSize(val, |rows|)) ==> r.shares.Count? && r.shares.n >= 0
    ensures Cost(Allocated(rows, PositionSize(val, |rows|))) <= val
  {
    var p := PositionSize(val, |rows|);
    var a := Allocated(rows, p);
    AllocatedNonNegative(rows, p);
    calc {
      Cost(a);
    == { assert a[..|rows|] == a; }
      Cost(a[..|rows|]);
    <= { CostBound(rows, p, |rows|); }
      |rows| as real * p;
    ==
      val;
    }
  }

  /** A row allocated from a position at a positive price spends at most the position. */
  lemma SpentWithinPosition(rows: seq<Row>, p: real, i: nat)
    requires i < |rows|
    requires forall i :: 0 <= i < |rows| ==> rows[i].price > 0.0
    ensures Spent(Allocated(rows, p)[i]) <= p
  {
    var n := SharesFor(p, rows[i].price);
    assert Allocated(rows, p)[i] == rows[i].(shares := Count(n));
  }

  lemma {:induction false} CostBound(rows: seq<Row>, p: real, k: nat)
    requires k <= |rows|
    requires forall i :: 0 <= i < |rows| ==> rows[i].price > 0.0
    ensures Cost(Allocated(rows, p)[..k]) <= k as real * p
  {
    if k > 0 {
      var a := Allocated(rows, p);
      CostBound(rows, p, k - 1);
      SpentWithinPosition(rows, p, k - 1);
      calc {
        Cost(a[..k]);
      == { assert a[..k][..k - 1] == a[..k - 1]; }
        Cost(a[..k - 1]) + Spent(a[k - 1]);
      <=
        (k - 1) as real * p + p;
      ==
        k as real * p;
      }
    }
  }

  /** The allocation loop of main: every row's "Number of shares to buy" overwritten in place
      with floor(position_size / price), where position_size = val / number of rows. */
  method Allocate(rows: array<Row>, val: real) returns (positionSize: real)
    requires rows.Length > 0
    requires forall i :: 0 <= i < rows.Length ==> rows[i].price != 0.0
    modifies rows
    ensures positionSize == PositionSize(val, rows.Length)
    ensures rows[..] == Allocated(old(rows[..]), positionSize)
  {
    positionSize := val / rows.Length as real;
    for i := 0 to rows.Length
      invariant forall j :: 0 <= j < i ==>
        rows[j] == old(rows[j]).(shares := Count(SharesFor(positionSize, old(rows[j]).price)))
      invariant forall j :: i <= j < rows.Length ==> rows[j] == old(rows[j])
    {
      rows[i] := rows[i].(shares := Count(SharesFor(positionSize, rows[i].price)));
    }
  }

  /** The worked example: $10,000 over two rows priced 100 and 250 buys 50 and 20 shares. */
  lemma TwoStockExample()
    ensures var rows := [Row("A", 100.0, 0.0, NA), Row("B", 250.0, 0.0, NA)];
      var p := PositionSize(10000.0, 2);
      p == 5000.0 &&
      Allocated(rows, p) == [Row("A", 100.0, 0.0, Count(50)), Row("B", 250.0, 0.0, Count(20))]
  {
    SharesUnique(5000.0, 100.0, 50);
    SharesUnique(5000.0, 250.0, 20);
  }
}
