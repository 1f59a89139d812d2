/**
  Records of the vehicle-registration form and of the cars table it feeds.

  A form row carries up to two vehicle claims side by side: the first one in
  the columns `name`, `id`, `car_id` and the second one in `name_2`, `id_2`,
  `car_id_2`. A row of the cars table keeps the household columns of the form
  and exactly one claim.
 */
module Cars {

  datatype Option<T> = None | Some(value: T)

  /** A licence plate, as the integer the form column is cast to. */
  type Plate = int

  /** A submission instant; only its order matters and the requests arrive already sorted. */
  type Timestamp = int

  /** One row of the cars table (the columns of the initial empty table). */
  datatype Car = Car(
    ts: Timestamp,
    email: string,
    surname: string,
    street: string,
    homeNumber: string,
    aptNumber: int,
    name: string,
    id: int,
    carId: Plate)

  /** One form row after its columns were given their English names. */
  datatype Request = Request(
    ts: Timestamp,
    email: string,
    surname: string,
    street: string,
    homeNumber: string,
    aptNumber: int,
    // None when the row has no `is_registered` column at all
    isRegistered: Option<string>,
    action: string,
    carIdToBeReplaced: Plate,
    carIdToReplace: Plate,
    carIdToRemove: Plate,
    name: string,
    id: int,
    carId: Plate,
    anotherCar: string,
    name2: string,
    id2: int,
    carId2: Plate)

  /** The fixed survey answers the engine branches on. */
  const Yes: string := "כן"
  const NoOrUnknown: string := "לא/לא יודע"
  const ReplaceAction: string := "להחליף רכב קיים ברכב חדש"
  const AddSecondAction: string := "להוסיף רכב שני למשפחה"
  const RemoveAction: string := "להסיר רכב קיים"

  /** The row asks for a second car to be registered as well. */
  predicate WantsSecondCar(req: Request) {
    req.anotherCar == Yes
  }

  /** The household columns of `req` together with its first vehicle claim. */
  function FirstCar(req: Request): Car {
    Car(req.ts, req.email, req.surname, req.street, req.homeNumber, req.aptNumber,
        req.name, req.id, req.carId)
  }

  /** The household columns of `req` together with its second vehicle claim. */
  function SecondCar(req: Request): Car {
    Car(req.ts, req.email, req.surname, req.street, req.homeNumber, req.aptNumber,
        req.name2, req.id2, req.carId2)
  }
}
