/**
  Properties of the dispatch and of the replay of a whole form.
 */
module EngineLemmas {
  import opened Cars
  import opened Registry
  import opened RegistryLemmas
  import opened Engine

  /**
    A new household whose plates are not yet in the table gets its first car
    appended, then its second car when one is wanted and its plate differs.
    Other plates of the table may repeat.
   */
  lemma {:induction false} RegisterNewAppendsClaims(req: Request, db: seq<Car>)
    requires Classify(req) == RegisterNew
    requires Absent(db, req.carId) && Absent(db, req.carId2)
    ensures HandleRequest(req, db) ==
              if WantsSecondCar(req) && req.carId2 != req.carId
              then db + [FirstCar(req), SecondCar(req)]
              else db + [FirstCar(req)]
  {
    HandleRequestDispatch(req, db);
    var db1 := db + [FirstCar(req)];
    assert !PresentOnce(db, req.carId);
    if WantsSecondCar(req) {
      if req.carId2 != req.carId {
        assert Absent(db1, req.carId2);
        assert !PresentOnce(db1, req.carId2);
        assert db1 + [SecondCar(req)] == db + [FirstCar(req), SecondCar(req)];
      } else {
        assert IsSoleMatch(db1, req.carId2, |db|);
      }
    }
  }

  /**
    What one form row does to any table, branch by branch, in terms of
    which plates the table already holds exactly once.
   */
  lemma {:induction false} HandleRequestDispatch(req: Request, db: seq<Car>)
    ensures Classify(req) == RegisterNew || Classify(req) == Legacy ==>
              var db1 := if PresentOnce(db, req.carId) then db else db + [FirstCar(req)];
              HandleRequest(req, db) ==
                if WantsSecondCar(req) && !PresentOnce(db1, req.carId2)
                then db1 + [SecondCar(req)]
                else db1
    ensures Classify(req) == AddSecond ==>
              HandleRequest(req, db) ==
                if PresentOnce(db, req.carId2) then db else db + [SecondCar(req)]
    ensures Classify(req) == ReplaceExisting ==>
              HandleRequest(req, db) == HandleReplaceCar(db, req.carIdToBeReplaced, req.carIdToReplace)
    ensures Classify(req) == RemoveExisting ==>
              HandleRequest(req, db) == HandleRemoveCar(db, req.carIdToRemove)
    ensures Classify(req) == Unrecognised ==> HandleRequest(req, db) == db
  {
    if Classify(req) == RegisterNew {
      assert HandleRequest(req, db) == HandleAddNewCarsLegacy(req, db);
    }
  }

  /** Unless another car is wanted, a new household's second claim is never read. */
  lemma {:induction false} RegisterNewIgnoresUnwantedSecondClaim(
    req: Request, db: seq<Car>, name2: string, id2: int, carId2: Plate)
    requires Classify(req) == RegisterNew
    requires !WantsSecondCar(req)
    ensures HandleRequest(req, db) == AddCar(FirstCar(req), db)
    ensures HandleRequest(req, db) == HandleRequest(req.(name2 := name2, id2 := id2, carId2 := carId2), db)
  {
    var req' := req.(name2 := name2, id2 := id2, carId2 := carId2);
    assert Classify(req') == RegisterNew;
    assert FirstCar(req') == FirstCar(req);
  }

  /** The add-second-car action reads only the second claim; the first claim is ignored. */
  lemma {:induction false} AddSecondIgnoresFirstClaim(
    req: Request, db: seq<Car>, name: string, id: int, carId: Plate)
    requires Classify(req) == AddSecond
    ensures HandleRequest(req, db) == AddCar(SecondCar(req), db)
    ensures HandleRequest(req, db) == HandleRequest(req.(name := name, id := id, carId := carId), db)
  {
    var req' := req.(name := name, id := id, carId := carId);
    assert Classify(req') == AddSecond;
    assert SecondCar(req') == SecondCar(req);
  }

  /**
    A row without an `is_registered` column is handled like a new household:
    first claim, then the second one when another car is wanted.
   */
  lemma {:induction false} LegacyActsAsRegisterNew(req: Request, db: seq<Car>)
    requires Classify(req) == Legacy
    ensures HandleRequest(req, db) == HandleRequest(req.(isRegistered := Some(NoOrUnknown)), db)
  {
    var req' := req.(isRegistered := Some(NoOrUnknown));
    assert Classify(req') == RegisterNew;
    assert FirstCar(req') == FirstCar(req) && SecondCar(req') == SecondCar(req);
  }

  /** A row whose answers match no known combination leaves the table as it was. */
  lemma {:induction false} UnrecognisedIsIgnored(req: Request, db: seq<Car>)
    requires req.isRegistered.Some?
    requires req.isRegistered != Some(NoOrUnknown)
    requires req.isRegistered == Some(Yes) ==>
               req.action != ReplaceAction && req.action != AddSecondAction && req.action != RemoveAction
    ensures HandleRequest(req, db) == db
  {
    assert Classify(req) == Unrecognised;
  }

  /**
    Replace and remove rows touch the table only through their target plates:
    the claim columns (`another_car`, `name`, `id`, `car_id`, `name_2`,
    `id_2`, `car_id_2`) never influence the result.
   */
  lemma {:induction false} ReplaceAndRemoveUseOnlyTargets(
    req: Request, db: seq<Car>, anotherCar: string,
    name: string, id: int, carId: Plate, name2: string, id2: int, carId2: Plate)
    requires Classify(req) == ReplaceExisting || Classify(req) == RemoveExisting
    ensures HandleRequest(req, db) ==
              HandleRequest(req.(anotherCar := anotherCar, name := name, id := id, carId := carId,
                                 name2 := name2, id2 := id2, carId2 := carId2), db)
  {
    var req' := req.(anotherCar := anotherCar, name := name, id := id, carId := carId,
                     name2 := name2, id2 := id2, carId2 := carId2);
    assert Classify(req') == Classify(req);
  }

  /** A replace row whose new plate is not yet in the table, or is the old one, is safe. */
  ghost predicate SafeOn(req: Request, db: seq<Car>) {
    Classify(req) == ReplaceExisting ==>
      Absent(db, req.carIdToReplace) || req.carIdToReplace == req.carIdToBeReplaced
  }

  /** One row never repeats a plate, given a replacement plate that is new to the table. */
  lemma {:induction false} HandleRequestKeepsPlatesDistinct(req: Request, db: seq<Car>)
    requires DistinctPlates(db)
    requires SafeOn(req, db)
    ensures DistinctPlates(HandleRequest(req, db))
  {
    match Classify(req)
    case RegisterNew =>
      AddCarKeepsPlatesDistinct(FirstCar(req), db);
      AddCarKeepsPlatesDistinct(SecondCar(req), AddCar(FirstCar(req), db));
    case Legacy =>
      AddCarKeepsPlatesDistinct(FirstCar(req), db);
      AddCarKeepsPlatesDistinct(SecondCar(req), AddCar(FirstCar(req), db));
    case ReplaceExisting =>
      ReplaceCarKeepsPlatesDistinct(db, req.carIdToBeReplaced, req.carIdToReplace);
    case AddSecond =>
      AddCarKeepsPlatesDistinct(SecondCar(req), db);
    case RemoveExisting =>
      RemoveCarKeepsPlatesDistinct(db, req.carIdToRemove);
    case Unrecognised =>
  }

  /** Replaying two consecutive stretches of the form is replaying one after the other. */
  lemma {:induction false} ReplayAppend(a: seq<Request>, b: seq<Request>, db: seq<Car>)
    ensures Replay(a + b, db) == Replay(b, Replay(a, db))
  {
    if |b| == 0 {
      assert a + b == a;
    } else {
      var n := |b|;
      ReplayAppend(a, b[..n - 1], db);
      assert (a + b)[..|a + b| - 1] == a + b[..n - 1];
      assert (a + b)[|a + b| - 1] == b[n - 1];
    }
  }

  /** A form with no replace rows, replayed on a table without repeats, yields none. */
  lemma {:induction false} ReplayKeepsPlatesDistinct(reqs: seq<Request>, db: seq<Car>)
    requires DistinctPlates(db)
    requires forall k :: 0 <= k < |reqs| ==> Classify(reqs[k]) != ReplaceExisting
    ensures DistinctPlates(Replay(reqs, db))
  {
    if |reqs| > 0 {
      var n := |reqs|;
      ReplayKeepsPlatesDistinct(reqs[..n - 1], db);
      HandleRequestKeepsPlatesDistinct(reqs[n - 1], Replay(reqs[..n - 1], db));
    }
  }

  /**
    The plates a row can bring into the table: a new or legacy row its first
    claim and, when another car is wanted, its second; an add-second row its
    second claim; a replace row its replacement plate; any other row none.
   */
  ghost predicate Introduces(req: Request, plate: Plate) {
    match Classify(req)
    case RegisterNew => plate == req.carId || (WantsSecondCar(req) && plate == req.carId2)
    case Legacy => plate == req.carId || (WantsSecondCar(req) && plate == req.carId2)
    case AddSecond => plate == req.carId2
    case ReplaceExisting => plate == req.carIdToReplace
    case RemoveExisting => false
    case Unrecognised => false
  }

  /** A plate neither in the table nor brought in by the row is not in the table afterwards. */
  lemma {:induction false} HandleRequestKeepsPlateAbsent(req: Request, db: seq<Car>, plate: Plate)
    requires Absent(db, plate)
    requires !Introduces(req, plate)
    ensures Absent(HandleRequest(req, db), plate)
  {
    var r := HandleRequest(req, db);
    forall k | 0 <= k < |r|
      ensures r[k].carId != plate
    {
      match Classify(req)
      case RegisterNew =>
        assert k < |db| ==> db[k] == r[k];
      case Legacy =>
        assert k < |db| ==> db[k] == r[k];
      case AddSecond =>
        assert k < |db| ==> db[k] == r[k];
      case ReplaceExisting =>
        if !PresentOnce(db, req.carIdToBeReplaced) {
          assert db[k] == r[k];
        } else {
          var i :| IsSoleMatch(db, req.carIdToBeReplaced, i);
          assert k != i ==> db[k] == r[k];
        }
      case RemoveExisting =>
        if !PresentOnce(db, req.carIdToRemove) {
          assert db[k] == r[k];
        } else {
          var i :| IsSoleMatch(db, req.carIdToRemove, i);
          assert r[k] == db[if k < i then k else k + 1];
        }
      case Unrecognised =>
        assert db[k] == r[k];
    }
  }

  /** A plate neither in the starting table nor brought in by any row is not in the replayed table. */
  lemma {:induction false} ReplayKeepsPlateAbsent(reqs: seq<Request>, db: seq<Car>, plate: Plate)
    requires Absent(db, plate)
    requires forall j :: 0 <= j < |reqs| ==> !Introduces(reqs[j], plate)
    ensures Absent(Replay(reqs, db), plate)
  {
    if |reqs| > 0 {
      var n := |reqs|;
      var prefix := reqs[..n - 1];
      assert forall j :: 0 <= j < |prefix| ==> prefix[j] == reqs[j];
      ReplayKeepsPlateAbsent(prefix, db, plate);
      HandleRequestKeepsPlateAbsent(reqs[n - 1], Replay(prefix, db), plate);
    }
  }

  /**
    Every replace row's new plate is new: not in the starting table and not
    a plate any other row can bring in.
   */
  ghost predicate FreshReplacements(reqs: seq<Request>, db: seq<Car>) {
    forall k :: 0 <= k < |reqs| && Classify(reqs[k]) == ReplaceExisting ==>
      && Absent(db, reqs[k].carIdToReplace)
      && forall j :: 0 <= j < |reqs| && j != k ==> !Introduces(reqs[j], reqs[k].carIdToReplace)
  }

  /**
    The uniqueness of plates survives a whole replay, replace rows included,
    when every replacement plate is new.
   */
  lemma {:induction false} ReplayKeepsPlatesDistinctWithFreshReplacements(reqs: seq<Request>, db: seq<Car>)
    requires DistinctPlates(db)
    requires FreshReplacements(reqs, db)
    ensures DistinctPlates(Replay(reqs, db))
  {
    if |reqs| > 0 {
      var n := |reqs|;
      var prefix := reqs[..n - 1];
      var last := reqs[n - 1];
      assert FreshReplacements(prefix, db) by {
        forall k | 0 <= k < |prefix| && Classify(prefix[k]) == ReplaceExisting
          ensures Absent(db, prefix[k].carIdToReplace)
          ensures forall j :: 0 <= j < |prefix| && j != k ==> !Introduces(prefix[j], prefix[k].carIdToReplace)
        {
          assert prefix[k] == reqs[k];
          assert forall j :: 0 <= j < |prefix| ==> prefix[j] == reqs[j];
        }
      }
      ReplayKeepsPlatesDistinctWithFreshReplacements(prefix, db);
      var mid := Replay(prefix, db);
      if Classify(last) == ReplaceExisting {
        assert forall j :: 0 <= j < |prefix| ==> prefix[j] == reqs[j];
        ReplayKeepsPlateAbsent(prefix, db, last.carIdToReplace);
      }
      HandleRequestKeepsPlatesDistinct(last, mid);
    }
  }
}
