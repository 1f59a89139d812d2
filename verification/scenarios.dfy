/**
  Small worked replays: the behaviour the engine is expected to show on
  concrete forms, each proved for the exact rows given.
 */
module Scenarios {
  import opened Cars
  import opened Registry
  import opened Engine

  /** A form row of the household "Doe, Main 1" with the given answers and plates. */
  function Row(registered: string, action: string, target: Plate, replacement: Plate,
               plate: Plate, another: string, plate2: Plate): Request
  {
    Request(0, "doe@example.com", "Doe", "Main", "1", 0, Some(registered), action,
            target, replacement, target,
            "Jane", 1, plate, another, "Bob", 2, plate2)
  }

  function Register(plate: Plate): Request {
    Row(NoOrUnknown, "", 0, 0, plate, "", 0)
  }

  function RegisterTwo(plate: Plate, plate2: Plate): Request {
    Row(NoOrUnknown, "", 0, 0, plate, Yes, plate2)
  }

  function Replace(target: Plate, replacement: Plate): Request {
    Row(Yes, ReplaceAction, target, replacement, 0, "", 0)
  }

  function AddSecondCar(plate: Plate, plate2: Plate): Request {
    Row(Yes, AddSecondAction, 0, 0, plate, "", plate2)
  }

  function Remove(target: Plate): Request {
    Row(Yes, RemoveAction, target, 0, 0, "", 0)
  }

  /** Registering the same plate twice keeps one row for it. */
  lemma DuplicateRegistrationKeepsOneRow()
    ensures Replay([Register(100), Register(100)], []) == [FirstCar(Register(100))]
  {
    var db1 := [FirstCar(Register(100))];
    assert Replay([Register(100)], []) == db1 by {
      assert [Register(100)][..0] == [];
    }
    assert [Register(100), Register(100)][..1] == [Register(100)];
    assert IsSoleMatch(db1, 100, 0);
  }

  /** A household registering two cars gets both rows, first claim first. */
  lemma RegisterTwoCars()
    ensures Replay([RegisterTwo(100, 300)], []) == [FirstCar(RegisterTwo(100, 300)), SecondCar(RegisterTwo(100, 300))]
  {
    var req := RegisterTwo(100, 300);
    assert [req][..0] == [];
    var db1 := [FirstCar(req)];
    assert !PresentOnce(db1, 300) by {
      assert Absent(db1, 300);
    }
  }

  /** Replacing plate 100 by 200 keeps the row and changes only its plate. */
  lemma ReplaceKeepsOwner()
    ensures var car := FirstCar(Register(100));
            Replay([Replace(100, 200)], [car]) == [car.(carId := 200)]
  {
    var car := FirstCar(Register(100));
    assert [Replace(100, 200)][..0] == [];
    assert IsSoleMatch([car], 100, 0);
  }

  /** Removing plate 100 twice: the second removal finds nothing and changes nothing. */
  lemma RemoveTwiceSecondIsNoOp()
    ensures var car := FirstCar(Register(100));
            Replay([Remove(100)], [car]) == [] && Replay([Remove(100), Remove(100)], [car]) == []
  {
    var car := FirstCar(Register(100));
    assert [Remove(100)][..0] == [];
    assert [Remove(100), Remove(100)][..1] == [Remove(100)];
    assert IsSoleMatch([car], 100, 0);
    assert !PresentOnce([], 100);
  }

  /** The add-second-car action adds the second claim and ignores the first. */
  lemma AddSecondCarAddsOneRow()
    ensures var car := FirstCar(Register(100));
            Replay([AddSecondCar(100, 300)], [car]) == [car, SecondCar(AddSecondCar(100, 300))]
  {
    var car := FirstCar(Register(100));
    assert [AddSecondCar(100, 300)][..0] == [];
    assert Absent([car], 300);
  }

  /** The same two rows in the other order give another table: order matters. */
  lemma OrderMatters()
    ensures Replay([Register(100), Remove(100)], []) == []
    ensures Replay([Remove(100), Register(100)], []) == [FirstCar(Register(100))]
  {
    var car := FirstCar(Register(100));
    assert [Register(100), Remove(100)][..1] == [Register(100)];
    assert [Remove(100), Register(100)][..1] == [Remove(100)];
    assert [Register(100)][..0] == [];
    assert [Remove(100)][..0] == [];
    assert IsSoleMatch([car], 100, 0);
    assert !PresentOnce([], 100);
  }
}
