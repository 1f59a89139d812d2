/**
  The raw cars table built straight from the form, without replaying it:
  every first claim, then every wanted second claim, names cleaned, rows
  ordered by national id, and one row kept per plate.
 */
module RawCars {
  import opened Cars
  import opened Registry
  import opened Names

  predicate SortedById(rows: seq<Car>) {
    forall i, j :: 0 <= i < j < |rows| ==> rows[i].id <= rows[j].id
  }

  /** The first claim of every form row, in form order. */
  function FirstCars(reqs: seq<Request>): (r: seq<Car>)
    ensures |r| == |reqs|
    ensures forall k :: 0 <= k < |reqs| ==> r[k] == FirstCar(reqs[k])
  {
    if |reqs| == 0 then [] else [FirstCar(reqs[0])] + FirstCars(reqs[1..])
  }

  /** The second claim of every form row that asks for another car, in form order. */
  function SecondCars(reqs: seq<Request>): (r: seq<Car>)
    ensures |r| <= |reqs|
    ensures forall k :: 0 <= k < |reqs| && WantsSecondCar(reqs[k]) ==> SecondCar(reqs[k]) in r
    ensures forall c :: c in r ==> exists q :: q in reqs && WantsSecondCar(q) && c == SecondCar(q)
  {
    if |reqs| == 0 then []
    else
      var rest := SecondCars(reqs[1..]);
      assert forall q :: q in reqs[1..] ==> q in reqs;
      if WantsSecondCar(reqs[0]) then [SecondCar(reqs[0])] + rest else rest
  }

  /**
    The second claims of two stretches of the form are those of the first
    stretch followed by those of the second. With SecondCarsOfOne: one row
    per wanted form row, in form order.
   */
  lemma {:induction false} SecondCarsAppend(a: seq<Request>, b: seq<Request>)
    ensures SecondCars(a + b) == SecondCars(a) + SecondCars(b)
  {
    if |a| == 0 {
      assert a + b == b;
    } else {
      var ab := a + b;
      assert ab[0] == a[0] && ab[1..] == a[1..] + b;
      SecondCarsAppend(a[1..], b);
      SecondCarsCons(ab);
      SecondCarsCons(a);
    }
  }

  lemma SecondCarsCons(reqs: seq<Request>)
    requires |reqs| > 0
    ensures SecondCars(reqs) ==
              (if WantsSecondCar(reqs[0]) then [SecondCar(reqs[0])] else []) + SecondCars(reqs[1..])
  {
  }

  /** A single form row contributes its second claim exactly when it asks for another car. */
  lemma SecondCarsOfOne(q: Request)
    ensures SecondCars([q]) == if WantsSecondCar(q) then [SecondCar(q)] else []
  {
    assert [q][1..] == [];
  }

  /** All claims of the form as one table: first claims, then second claims. */
  function AllCars(reqs: seq<Request>): (r: seq<Car>)
    ensures |reqs| <= |r| <= 2 * |reqs|
    ensures forall k :: 0 <= k < |reqs| ==> r[k] == FirstCar(reqs[k])
    ensures r[|reqs|..] == SecondCars(reqs)
    ensures forall c :: c in r <==>
              exists q :: q in reqs && (c == FirstCar(q) || (WantsSecondCar(q) && c == SecondCar(q)))
  {
    var firsts := FirstCars(reqs);
    var r := firsts + SecondCars(reqs);
    assert forall q :: q in reqs ==> FirstCar(q) in firsts by {
      forall q | q in reqs ensures FirstCar(q) in firsts {
        var k :| 0 <= k < |reqs| && reqs[k] == q;
        assert firsts[k] == FirstCar(q);
      }
    }
    r
  }

  /** Puts `car` into an id-ordered table, before the rows with an equal or larger id. */
  function Insert(car: Car, rows: seq<Car>): (r: seq<Car>)
    requires SortedById(rows)
    ensures SortedById(r)
    ensures multiset(r) == multiset(rows) + multiset{car}
  {
    if |rows| == 0 then [car]
    else if car.id <= rows[0].id then
      PrependSorted(car, rows);
      [car] + rows
    else
      var rest := Insert(car, rows[1..]);
      assert rows == [rows[0]] + rows[1..];
      InsertStep(car, rows, rest);
      [rows[0]] + rest
  }

  lemma InsertStep(car: Car, rows: seq<Car>, rest: seq<Car>)
    requires |rows| > 0 && SortedById(rows) && rows[0].id < car.id
    requires SortedById(rest)
    requires multiset(rest) == multiset(rows[1..]) + multiset{car}
    ensures SortedById([rows[0]] + rest)
  {
    forall c | c in rest
      ensures rows[0].id <= c.id
    {
      assert c in multiset(rest);
      if c != car {
        assert c in multiset(rows[1..]);
        var k :| 0 <= k < |rows[1..]| && rows[1..][k] == c;
        assert rows[k + 1] == c;
      }
    }
    PrependSorted(rows[0], rest);
  }

  lemma PrependSorted(car: Car, rows: seq<Car>)
    requires SortedById(rows)
    requires forall c :: c in rows ==> car.id <= c.id
    ensures SortedById([car] + rows)
  {
    var r := [car] + rows;
    forall i, j | 0 <= i < j < |r|
      ensures r[i].id <= r[j].id
    {
      if i == 0 {
        assert r[j] == rows[j - 1];
        assert rows[j - 1] in rows;
      } else {
        assert r[i] == rows[i - 1] && r[j] == rows[j - 1];
      }
    }
  }

  /**
    The ordering by national id: a permutation of the rows with ids in
    non-decreasing order. Rows with equal ids are kept in their original order.
   */
  function SortById(rows: seq<Car>): (r: seq<Car>)
    ensures SortedById(r)
    ensures multiset(r) == multiset(rows)
  {
    if |rows| == 0 then []
    else
      assert rows == [rows[0]] + rows[1..];
      Insert(rows[0], SortById(rows[1..]))
  }

  /**
    drop_duplicates on car_id: the first row of each plate is kept, later
    rows with the same plate are dropped, order is kept
    (DropDuplicatePlatesIsSubsequence).
   */
  function DropDuplicatePlates(rows: seq<Car>): (r: seq<Car>)
    ensures forall k :: 0 <= k < |r| ==> r[k] in rows
    ensures forall p :: Absent(r, p) <==> Absent(rows, p)
    ensures |r| <= |rows|
  {
    if |rows| == 0 then []
    else
      var n := |rows|;
      var prev := DropDuplicatePlates(rows[..n - 1]);
      DropStep(rows, prev);
      if !Absent(prev, rows[n - 1].carId) then prev else prev + [rows[n - 1]]
  }

  lemma DropStep(rows: seq<Car>, prev: seq<Car>)
    requires |rows| > 0
    requires forall k :: 0 <= k < |prev| ==> prev[k] in rows[..|rows| - 1]
    requires forall p :: Absent(prev, p) <==> Absent(rows[..|rows| - 1], p)
    ensures forall k :: 0 <= k < |prev| ==> prev[k] in rows
    ensures forall p :: Absent(prev + [rows[|rows| - 1]], p) <==> Absent(rows, p)
    ensures !Absent(prev, rows[|rows| - 1].carId) ==> forall p :: Absent(prev, p) <==> Absent(rows, p)
  {
    var n := |rows|;
    var init := rows[..n - 1];
    var last := rows[n - 1];
    assert rows == init + [last];
    AbsentAppend(init, last);
    AbsentAppend(prev, last);
  }

  lemma AbsentAppend(rows: seq<Car>, car: Car)
    ensures forall p :: Absent(rows + [car], p) <==> Absent(rows, p) && p != car.carId
  {
    var ext := rows + [car];
    assert forall k :: 0 <= k < |rows| ==> ext[k] == rows[k];
    assert ext[|rows|] == car;
  }

  /** `car` is in `rows` at a position before which no row carries its plate. */
  ghost predicate FirstOfItsPlate(rows: seq<Car>, car: Car) {
    exists i :: 0 <= i < |rows| && rows[i] == car && Absent(rows[..i], car.carId)
  }

  /** After dropping duplicates no plate is left on two rows. */
  lemma {:induction false} DropDuplicatePlatesDistinct(rows: seq<Car>)
    ensures DistinctPlates(DropDuplicatePlates(rows))
  {
    if |rows| > 0 {
      var n := |rows|;
      DropDuplicatePlatesDistinct(rows[..n - 1]);
    }
  }

  /** Every kept row is the first row of its plate in the input. */
  lemma {:induction false} DropDuplicatePlatesKeepsFirst(rows: seq<Car>)
    ensures forall c :: c in DropDuplicatePlates(rows) ==> FirstOfItsPlate(rows, c)
  {
    if |rows| > 0 {
      var n := |rows|;
      var init := rows[..n - 1];
      var prev := DropDuplicatePlates(init);
      DropDuplicatePlatesKeepsFirst(init);
      forall c | c in prev
        ensures FirstOfItsPlate(rows, c)
      {
        var i :| 0 <= i < |init| && init[i] == c && Absent(init[..i], c.carId);
        assert init[..i] == rows[..i];
        assert rows[i] == c;
      }
      if Absent(prev, rows[n - 1].carId) {
        assert Absent(rows[..n - 1], rows[n - 1].carId);
        assert rows[n - 1] == rows[n - 1];
      }
    }
  }

  /** `r` is the rows of `rows` at the strictly increasing positions `js`. */
  ghost predicate PicksAt(r: seq<Car>, rows: seq<Car>, js: seq<int>) {
    && |js| == |r|
    && (forall k :: 0 <= k < |js| ==> 0 <= js[k] < |rows| && r[k] == rows[js[k]])
    && (forall k, l :: 0 <= k < l < |js| ==> js[k] < js[l])
  }

  /** `r` is a subsequence of `rows`: some of its rows, in their order. */
  ghost predicate Subsequence(r: seq<Car>, rows: seq<Car>) {
    exists js :: PicksAt(r, rows, js)
  }

  /**
    The kept rows are a subsequence of the input: they keep their relative
    order. With DropDuplicatePlatesKeepsFirst and DropDuplicatePlatesDistinct
    this fixes the result: the first row of each plate, in input order.
   */
  lemma {:induction false} DropDuplicatePlatesIsSubsequence(rows: seq<Car>)
    ensures Subsequence(DropDuplicatePlates(rows), rows)
  {
    var js := KeptPositions(rows);
  }

  /** The positions of the kept rows, as a witness for the subsequence. */
  lemma {:induction false} KeptPositions(rows: seq<Car>) returns (js: seq<int>)
    ensures PicksAt(DropDuplicatePlates(rows), rows, js)
    ensures forall k :: 0 <= k < |js| ==> js[k] < |rows|
  {
    if |rows| == 0 {
      js := [];
    } else {
      var n := |rows|;
      var init := rows[..n - 1];
      var prev := DropDuplicatePlates(init);
      var pjs := KeptPositions(init);
      assert forall k :: 0 <= k < |pjs| ==> prev[k] == rows[pjs[k]];
      if Absent(prev, rows[n - 1].carId) {
        js := pjs + [n - 1];
        assert DropDuplicatePlates(rows) == prev + [rows[n - 1]];
      } else {
        js := pjs;
        assert DropDuplicatePlates(rows) == prev;
      }
    }
  }

  /** Dropping rows from an id-ordered table keeps it id-ordered. */
  lemma {:induction false} DropDuplicatePlatesKeepsOrder(rows: seq<Car>)
    requires SortedById(rows)
    ensures SortedById(DropDuplicatePlates(rows))
  {
    if |rows| > 0 {
      var n := |rows|;
      var init := rows[..n - 1];
      SortedPrefix(rows, n - 1);
      DropDuplicatePlatesKeepsOrder(init);
      var prev := DropDuplicatePlates(init);
      if Absent(prev, rows[n - 1].carId) {
        LastIsLargest(rows, prev);
        AppendSorted(prev, rows[n - 1]);
      }
    }
  }

  lemma SortedPrefix(rows: seq<Car>, m: nat)
    requires SortedById(rows) && m <= |rows|
    ensures SortedById(rows[..m])
  {
    var p := rows[..m];
    forall i, j | 0 <= i < j < |p|
      ensures p[i].id <= p[j].id
    {
      assert p[i] == rows[i] && p[j] == rows[j];
    }
  }

  lemma LastIsLargest(rows: seq<Car>, prev: seq<Car>)
    requires SortedById(rows) && |rows| > 0
    requires forall k :: 0 <= k < |prev| ==> prev[k] in rows[..|rows| - 1]
    ensures forall c :: c in prev ==> c.id <= rows[|rows| - 1].id
  {
    var n := |rows|;
    forall c | c in prev
      ensures c.id <= rows[n - 1].id
    {
      var k :| 0 <= k < |prev| && prev[k] == c;
      var j :| 0 <= j < n - 1 && rows[..n - 1][j] == c;
      assert rows[j] == c;
    }
  }

  lemma AppendSorted(rows: seq<Car>, car: Car)
    requires SortedById(rows)
    requires forall c :: c in rows ==> c.id <= car.id
    ensures SortedById(rows + [car])
  {
    var r := rows + [car];
    forall i, j | 0 <= i < j < |r|
      ensures r[i].id <= r[j].id
    {
      assert r[i] == rows[i];
      assert rows[i] in rows;
    }
  }

  /** Cleaning names never changes which plates the table holds. */
  lemma FormatNamesKeepsPlates(rows: seq<Car>)
    ensures forall p :: Absent(FormatNames(rows), p) <==> Absent(rows, p)
  {
  }

  /** Reordering rows never changes which plates the table holds. */
  lemma PermutationKeepsPlates(a: seq<Car>, b: seq<Car>)
    requires multiset(a) == multiset(b)
    ensures forall p :: Absent(a, p) <==> Absent(b, p)
  {
    forall p | !Absent(a, p)
      ensures !Absent(b, p)
    {
      var k :| 0 <= k < |a| && a[k].carId == p;
      assert a[k] in multiset(b);
    }
    forall p | !Absent(b, p)
      ensures !Absent(a, p)
    {
      var k :| 0 <= k < |b| && b[k].carId == p;
      assert b[k] in multiset(a);
    }
  }

  /** In an id-ordered table, the first row of a plate has the lowest id among that plate's rows. */
  lemma FirstOfSortedHasLowestId(rows: seq<Car>, c: Car, d: Car)
    requires SortedById(rows)
    requires FirstOfItsPlate(rows, c)
    requires d in rows && d.carId == c.carId
    ensures c.id <= d.id
  {
    var i :| 0 <= i < |rows| && rows[i] == c && Absent(rows[..i], c.carId);
    var j :| 0 <= j < |rows| && rows[j] == d;
    forall k | 0 <= k < i
      ensures rows[k].carId != c.carId
    {
      assert rows[..i][k] == rows[k];
    }
    assert i <= j;
  }

  /**
    process_raw_cars_db: every claim of the form, names cleaned, ordered by
    id, one row per plate. Which of several rows with the same plate and the
    same id survives is not fixed by the source; the kept row always has the
    lowest id among the rows with its plate.
   */
  function ProcessRawCarsDb(reqs: seq<Request>): (r: seq<Car>)
    ensures DistinctPlates(r)
    ensures SortedById(r)
    ensures forall p :: Absent(r, p) <==> Absent(AllCars(reqs), p)
    ensures forall c :: c in r ==> c in FormatNames(AllCars(reqs))
    ensures forall c, d :: c in r && d in FormatNames(AllCars(reqs)) && d.carId == c.carId ==> c.id <= d.id
  {
    var formatted := FormatNames(AllCars(reqs));
    var sorted := SortById(formatted);
    var r := DropDuplicatePlates(sorted);
    DropDuplicatePlatesDistinct(sorted);
    DropDuplicatePlatesKeepsOrder(sorted);
    DropDuplicatePlatesKeepsFirst(sorted);
    FormatNamesKeepsPlates(AllCars(reqs));
    PermutationKeepsPlates(sorted, formatted);
    ProcessRawCarsDbFacts(formatted, sorted, r);
    r
  }

  lemma ProcessRawCarsDbFacts(formatted: seq<Car>, sorted: seq<Car>, r: seq<Car>)
    requires SortedById(sorted) && multiset(sorted) == multiset(formatted)
    requires forall k :: 0 <= k < |r| ==> r[k] in sorted
    requires forall c :: c in r ==> FirstOfItsPlate(sorted, c)
    ensures forall c :: c in r ==> c in formatted
    ensures forall c, d :: c in r && d in formatted && d.carId == c.carId ==> c.id <= d.id
  {
    forall c | c in r
      ensures c in formatted
    {
      var k :| 0 <= k < |r| && r[k] == c;
      assert c in multiset(sorted);
    }
    forall c, d | c in r && d in formatted && d.carId == c.carId
      ensures c.id <= d.id
    {
      assert d in multiset(sorted);
      FirstOfSortedHasLowestId(sorted, c, d);
    }
  }
}
