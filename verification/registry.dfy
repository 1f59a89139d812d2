/**
  The cars table as a sequence of rows, and the four operations the request
  handlers perform on it: look a plate up, add a car, replace a plate and
  remove a car. A row's position is its index: the table is re-indexed after
  every insertion and deletion.
 */
module Registry {
  import opened Cars

  /** No two rows carry the same plate. */
  ghost predicate DistinctPlates(db: seq<Car>) {
    forall i, j :: 0 <= i < j < |db| ==> db[i].carId != db[j].carId
  }

  /** Row `i` carries `plate` and no other row does. */
  ghost predicate IsSoleMatch(db: seq<Car>, plate: Plate, i: int) {
    && 0 <= i < |db|
    && db[i].carId == plate
    && forall j :: 0 <= j < |db| && db[j].carId == plate ==> j == i
  }

  ghost predicate PresentOnce(db: seq<Car>, plate: Plate) {
    exists i :: IsSoleMatch(db, plate, i)
  }

  /** No row carries `plate`. */
  predicate Absent(db: seq<Car>, plate: Plate) {
    forall i :: 0 <= i < |db| ==> db[i].carId != plate
  }

  ghost predicate Ambiguous(db: seq<Car>, plate: Plate) {
    exists i, j :: 0 <= i < j < |db| && db[i].carId == plate && db[j].carId == plate
  }

  /** Positions of all rows carrying `plate`, in increasing order. */
  function MatchIndices(db: seq<Car>, plate: Plate): (r: seq<nat>)
    ensures forall k :: 0 <= k < |r| ==> r[k] < |db| && db[r[k]].carId == plate
    ensures forall i :: 0 <= i < |db| && db[i].carId == plate ==> i in r
    ensures forall k, l :: 0 <= k < l < |r| ==> r[k] < r[l]
  {
    if |db| == 0 then []
    else
      var prev := MatchIndices(db[..|db| - 1], plate);
      if db[|db| - 1].carId == plate then prev + [|db| - 1] else prev
  }

  lemma {:induction false} MatchIndicesAbsent(db: seq<Car>, plate: Plate)
    requires Absent(db, plate)
    ensures MatchIndices(db, plate) == []
  {
    if |db| > 0 {
      MatchIndicesAbsent(db[..|db| - 1], plate);
    }
  }

  lemma {:induction false} MatchIndicesSole(db: seq<Car>, plate: Plate, i: int)
    requires IsSoleMatch(db, plate, i)
    ensures MatchIndices(db, plate) == [i]
  {
    var n := |db|;
    if i == n - 1 {
      MatchIndicesAbsent(db[..n - 1], plate);
    } else {
      MatchIndicesSole(db[..n - 1], plate, i);
    }
  }

  /**
    The lookup: the position of the row carrying `plate` when there is exactly
    one, and an empty list both when no row and when several rows carry it.
   */
  function FindCarIdx(plate: Plate, db: seq<Car>): (r: seq<nat>)
    ensures |r| <= 1
    ensures forall i :: r == [i] <==> IsSoleMatch(db, plate, i)
    ensures r != [] <==> PresentOnce(db, plate)
    ensures r == [] <==> Absent(db, plate) || Ambiguous(db, plate)
  {
    var idx := MatchIndices(db, plate);
    FindCarIdxFacts(plate, db, idx);
    if |idx| == 1 then idx else []
  }

  lemma FindCarIdxFacts(plate: Plate, db: seq<Car>, idx: seq<nat>)
    requires idx == MatchIndices(db, plate)
    ensures forall i :: IsSoleMatch(db, plate, i) ==> idx == [i]
    ensures |idx| == 1 ==> IsSoleMatch(db, plate, idx[0])
    ensures |idx| == 1 ==> PresentOnce(db, plate)
    ensures |idx| == 0 <==> Absent(db, plate)
    ensures |idx| >= 2 <==> Ambiguous(db, plate)
  {
    forall i | IsSoleMatch(db, plate, i)
      ensures idx == [i]
    {
      MatchIndicesSole(db, plate, i);
    }
    if |idx| == 1 {
      assert IsSoleMatch(db, plate, idx[0]);
    }
    if |idx| >= 2 {
      assert idx[0] < idx[1];
    }
    if Ambiguous(db, plate) {
      var i, j :| 0 <= i < j < |db| && db[i].carId == plate && db[j].carId == plate;
      assert i in idx && j in idx;
      var a :| 0 <= a < |idx| && idx[a] == i;
      var b :| 0 <= b < |idx| && idx[b] == j;
      assert a != b;
    }
  }

  /**
    add_car: the car is skipped when its plate is on exactly one row and
    appended otherwise, including when several rows already carry it.
   */
  function AddCar(car: Car, db: seq<Car>): (r: seq<Car>)
    ensures PresentOnce(db, car.carId) ==> r == db
    ensures !PresentOnce(db, car.carId) ==> r == db + [car]
  {
    if |FindCarIdx(car.carId, db)| > 0 then db else db + [car]
  }

  /** Sets the plate of every row whose position is listed in `idx`. */
  function SetPlates(db: seq<Car>, idx: seq<nat>, plate: Plate): (r: seq<Car>)
    requires forall k :: 0 <= k < |idx| ==> idx[k] < |db|
    ensures |r| == |db|
    ensures forall i :: 0 <= i < |db| && i in idx ==> r[i] == db[i].(carId := plate)
    ensures forall i :: 0 <= i < |db| && i !in idx ==> r[i] == db[i]
    decreases |idx|
  {
    if |idx| == 0 then db
    else SetPlates(db[idx[0] := db[idx[0]].(carId := plate)], idx[1..], plate)
  }

  /** Keeps, in order, the rows whose position is not listed in `idx`. */
  function DropRows(db: seq<Car>, idx: seq<nat>): (r: seq<Car>)
    ensures |r| <= |db|
    ensures forall c :: c in r ==> c in db
  {
    if |db| == 0 then []
    else
      var rest := DropRows(db[..|db| - 1], idx);
      if |db| - 1 in idx then rest else rest + [db[|db| - 1]]
  }

  lemma {:induction false} DropRowsNone(db: seq<Car>, idx: seq<nat>)
    requires forall i :: 0 <= i < |db| ==> i !in idx
    ensures DropRows(db, idx) == db
  {
    if |db| > 0 {
      DropRowsNone(db[..|db| - 1], idx);
      assert db[..|db| - 1] + [db[|db| - 1]] == db;
    }
  }

  lemma {:induction false} DropRowsOne(db: seq<Car>, i: nat)
    requires i < |db|
    ensures DropRows(db, [i]) == db[..i] + db[i + 1..]
  {
    var n := |db|;
    if i == n - 1 {
      DropRowsNone(db[..n - 1], [i]);
    } else {
      DropRowsOne(db[..n - 1], i);
      assert db[..n - 1][..i] == db[..i];
      assert db[..n - 1][i + 1..] + [db[n - 1]] == db[i + 1..];
    }
  }

  /**
    handle_replace_car: the row that alone carries `oldPlate` gets `newPlate`;
    with no such row the table is returned as it was. The lookup result is
    applied unconditionally: an empty index list updates nothing.
   */
  function HandleReplaceCar(db: seq<Car>, oldPlate: Plate, newPlate: Plate): (r: seq<Car>)
    ensures forall i :: IsSoleMatch(db, oldPlate, i) ==> r == db[i := db[i].(carId := newPlate)]
    ensures !PresentOnce(db, oldPlate) ==> r == db
  {
    var idx := FindCarIdx(oldPlate, db);
    var r := SetPlates(db, idx, newPlate);
    assert idx == [] ==> r == db;
    r
  }

  /**
    handle_remove_car: the row that alone carries `plate` is deleted and the
    others keep their order; with no such row the table is returned as it was.
   */
  function HandleRemoveCar(db: seq<Car>, plate: Plate): (r: seq<Car>)
    ensures forall i :: IsSoleMatch(db, plate, i) ==> r == db[..i] + db[i + 1..]
    ensures !PresentOnce(db, plate) ==> r == db
  {
    var idx := FindCarIdx(plate, db);
    DropRowsAtMostOne(db, idx);
    DropRows(db, idx)
  }

  lemma DropRowsAtMostOne(db: seq<Car>, idx: seq<nat>)
    requires |idx| <= 1
    requires forall k :: 0 <= k < |idx| ==> idx[k] < |db|
    ensures idx == [] ==> DropRows(db, idx) == db
    ensures |idx| == 1 ==> DropRows(db, idx) == db[..idx[0]] + db[idx[0] + 1..]
  {
    if idx == [] {
      DropRowsNone(db, idx);
    } else {
      assert idx == [idx[0]];
      DropRowsOne(db, idx[0]);
    }
  }
}
