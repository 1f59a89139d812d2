/**
  The reconciliation engine: one form row is classified by its survey answers
  and routed to a handler, and the whole sorted form is replayed row by row
  onto a cars table that starts empty.
 */
module Engine {
  import opened Cars
  import opened Registry

  /** What a form row asks for, as decided by `is_registered` and `action`. */
  datatype Kind =
    | RegisterNew      // not registered yet: add the first car, maybe a second
    | ReplaceExisting  // registered: swap one plate for another
    | AddSecond        // registered: add the second claim only
    | RemoveExisting   // registered: drop one plate
    | Unrecognised     // any other combination of answers: nothing happens
    | Legacy           // the row has no `is_registered` column at all

  function Classify(req: Request): (k: Kind)
    ensures k == Legacy <==> req.isRegistered.None?
    ensures k == RegisterNew <==> req.isRegistered == Some(NoOrUnknown)
    ensures k == ReplaceExisting <==> req.isRegistered == Some(Yes) && req.action == ReplaceAction
    ensures k == AddSecond <==> req.isRegistered == Some(Yes) && req.action == AddSecondAction
    ensures k == RemoveExisting <==> req.isRegistered == Some(Yes) && req.action == RemoveAction
  {
    match req.isRegistered
    case None => Legacy
    case Some(answer) =>
      if answer == NoOrUnknown then RegisterNew
      else if answer == Yes then
        if req.action == ReplaceAction then ReplaceExisting
        else if req.action == AddSecondAction then AddSecond
        else if req.action == RemoveAction then RemoveExisting
        else Unrecognised
      else Unrecognised
  }

  /**
    handle_add_new_cars_legacy: adds the first claim, then the second claim
    only when the row says another car is wanted. Both go through AddCar, so
    either may be skipped.
   */
  function HandleAddNewCarsLegacy(req: Request, db: seq<Car>): (r: seq<Car>)
    ensures |db| <= |r| && r[..|db|] == db
    ensures forall k :: |db| <= k < |r| ==>
              r[k] == FirstCar(req) || (WantsSecondCar(req) && r[k] == SecondCar(req))
    ensures |r| <= |db| + (if WantsSecondCar(req) then 2 else 1)
    ensures !PresentOnce(db, req.carId) ==> |r| > |db| && r[|db|] == FirstCar(req)
    ensures var db1 := if PresentOnce(db, req.carId) then db else db + [FirstCar(req)];
            r == if WantsSecondCar(req) && !PresentOnce(db1, req.carId2)
                 then db1 + [SecondCar(req)]
                 else db1
  {
    var db1 := AddCar(FirstCar(req), db);
    if WantsSecondCar(req) then AddCar(SecondCar(req), db1) else db1
  }

  /** The row with its dispatch-only columns cleared, as handle_add_new_cars drops them. */
  function DropDispatchColumns(req: Request): Request {
    req.(isRegistered := None, action := "", carIdToBeReplaced := 0, carIdToReplace := 0, carIdToRemove := 0)
  }

  /**
    handle_add_new_cars: the legacy handler after the dispatch-only columns
    are dropped; those columns never influence the result.
   */
  function HandleAddNewCars(req: Request, db: seq<Car>): (r: seq<Car>)
    ensures forall other: Request :: DropDispatchColumns(other) == DropDispatchColumns(req) ==>
              r == HandleAddNewCarsLegacy(other, db)
  {
    HandleAddNewCarsLegacy(req, db)
  }

  /** handle_add_second_car: only the second claim is considered. */
  function HandleAddSecondCar(req: Request, db: seq<Car>): (r: seq<Car>)
    ensures PresentOnce(db, req.carId2) ==> r == db
    ensures !PresentOnce(db, req.carId2) ==> r == db + [SecondCar(req)]
  {
    AddCar(SecondCar(req), db)
  }

  /** handle_request: routes one form row to its handler. */
  function HandleRequest(req: Request, db: seq<Car>): (r: seq<Car>)
  {
    match Classify(req)
    case RegisterNew => HandleAddNewCars(req, db)
    case ReplaceExisting => HandleReplaceCar(db, req.carIdToBeReplaced, req.carIdToReplace)
    case AddSecond => HandleAddSecondCar(req, db)
    case RemoveExisting => HandleRemoveCar(db, req.carIdToRemove)
    case Unrecognised => db
    case Legacy => HandleAddNewCarsLegacy(req, db)
  }

  /** The driver loop: a left fold of HandleRequest over the rows, oldest first. */
  function Replay(reqs: seq<Request>, db: seq<Car>): seq<Car>
  {
    if |reqs| == 0 then db
    else HandleRequest(reqs[|reqs| - 1], Replay(reqs[..|reqs| - 1], db))
  }

  /** The cars table the driver builds, row by row, from an empty table. */
  method BuildCarsDb(reqs: seq<Request>) returns (db: seq<Car>)
    ensures db == Replay(reqs, [])
  {
    db := [];
    var i := 0;
    while i < |reqs|
      invariant 0 <= i <= |reqs|
      invariant db == Replay(reqs[..i], [])
    {
      assert reqs[..i + 1][..i] == reqs[..i];
      db := HandleRequest(reqs[i], db);
      i := i + 1;
    }
    assert reqs[..|reqs|] == reqs;
  }
}
