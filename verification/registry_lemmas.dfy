/**
  What the registry operations do to plate uniqueness, and the behaviour of
  repeated operations on the same plate.
 */
module RegistryLemmas {
  import opened Cars
  import opened Registry

  /** In a table without repeated plates, a plate is either absent or on exactly one row. */
  lemma {:induction false} DistinctAbsentOrOnce(db: seq<Car>, plate: Plate)
    requires DistinctPlates(db)
    ensures Absent(db, plate) <==> !PresentOnce(db, plate)
  {
    if !Absent(db, plate) {
      var i :| 0 <= i < |db| && db[i].carId == plate;
      assert IsSoleMatch(db, plate, i);
    }
  }

  /** Adding a car never creates a repeated plate. */
  lemma {:induction false} AddCarKeepsPlatesDistinct(car: Car, db: seq<Car>)
    requires DistinctPlates(db)
    ensures DistinctPlates(AddCar(car, db))
  {
    DistinctAbsentOrOnce(db, car.carId);
  }

  /**
    Adding the same car twice to a table that does not hold its plate leaves
    exactly one new row: the second attempt is skipped.
   */
  lemma {:induction false} AddCarTwice(car: Car, db: seq<Car>)
    requires Absent(db, car.carId)
    ensures AddCar(car, AddCar(car, db)) == db + [car]
  {
    var db1 := db + [car];
    assert !PresentOnce(db, car.carId);
    assert IsSoleMatch(db1, car.carId, |db|);
  }

  /** When a plate is already on two rows, adding it again appends a third row. */
  lemma {:induction false} AddCarAppendsWhenAmbiguous(car: Car, db: seq<Car>)
    requires Ambiguous(db, car.carId)
    ensures AddCar(car, db) == db + [car]
  {
    var r := FindCarIdx(car.carId, db);
    assert r == [];
  }

  /** Removing a row never creates a repeated plate. */
  lemma {:induction false} RemoveCarKeepsPlatesDistinct(db: seq<Car>, plate: Plate)
    requires DistinctPlates(db)
    ensures DistinctPlates(HandleRemoveCar(db, plate))
  {
    if PresentOnce(db, plate) {
      var i :| IsSoleMatch(db, plate, i);
      var r := db[..i] + db[i + 1..];
      assert forall k :: 0 <= k < |r| ==> r[k] == db[if k < i then k else k + 1];
    }
  }

  /** After a successful removal the plate is gone, whatever other plates repeat. */
  lemma {:induction false} RemoveCarMakesPlateAbsent(db: seq<Car>, plate: Plate)
    requires PresentOnce(db, plate)
    ensures Absent(HandleRemoveCar(db, plate), plate)
  {
    var i :| IsSoleMatch(db, plate, i);
    var r := db[..i] + db[i + 1..];
    assert forall k :: 0 <= k < |r| ==> r[k] == db[if k < i then k else k + 1];
  }

  /** Removing the same plate twice: the second removal finds nothing and changes nothing. */
  lemma {:induction false} RemoveCarTwice(db: seq<Car>, plate: Plate)
    ensures HandleRemoveCar(HandleRemoveCar(db, plate), plate) == HandleRemoveCar(db, plate)
  {
    var db1 := HandleRemoveCar(db, plate);
    if PresentOnce(db, plate) {
      RemoveCarMakesPlateAbsent(db, plate);
      assert !PresentOnce(db1, plate);
    }
  }

  /** Replacing a plate by one not yet in the table never creates a repeated plate. */
  lemma {:induction false} ReplaceCarKeepsPlatesDistinct(db: seq<Car>, oldPlate: Plate, newPlate: Plate)
    requires DistinctPlates(db)
    requires Absent(db, newPlate) || newPlate == oldPlate
    ensures DistinctPlates(HandleReplaceCar(db, oldPlate, newPlate))
  {
  }

  /**
    Without the freshness condition above, replacing can repeat a plate: the
    new plate is not looked up before it is written.
   */
  lemma ReplaceCarCanRepeatPlate()
    ensures var db := [Car(0, "", "Doe", "Main", "1", 0, "Jane", 1, 100),
                       Car(0, "", "Roe", "Main", "2", 0, "John", 2, 200)];
            DistinctPlates(db) && !DistinctPlates(HandleReplaceCar(db, 100, 200))
  {
    var db := [Car(0, "", "Doe", "Main", "1", 0, "Jane", 1, 100),
               Car(0, "", "Roe", "Main", "2", 0, "John", 2, 200)];
    assert IsSoleMatch(db, 100, 0);
    var r := HandleReplaceCar(db, 100, 200);
    assert r[0].carId == 200 && r[1].carId == 200;
  }
}
