# LPR cars-table reconciliation, modelled in Dafny

This project models the request-reconciliation engine of the LPR updater
(`lpr.py`). The input is a time-sorted list of registration form rows. Each row
is replayed against a cars table that holds one row per vehicle, and the final
table feeds a licence-plate-recognition allow-list.

The modules follow the parts of `lpr.py`:

- `Cars` (`cars.dfy`) defines the records. `Car` is one row of the cars table. `Request` is one form row with its two vehicle claims, `name/id/car_id` and `name_2/id_2/car_id_2`. The five fixed Hebrew survey answers are constants here.
- `Registry` (`registry.dfy`) holds the table operations on `seq<Car>`:
  - `FindCarIdx`, the unique-match lookup;
  - `AddCar`;
  - `HandleReplaceCar`;
  - `HandleRemoveCar`.

  The source tests `idx is not []`, which is always true. The model mirrors that by always applying the index list the lookup returns. An empty list updates or drops nothing.
- `RegistryLemmas` (`registry_lemmas.dfy`) proves what each operation does to plate uniqueness, and what repeated operations on one plate do.
- `Engine` (`engine.dfy`) handles dispatch:
  - `Classify` turns the `is_registered`/`action` answers into a closed `Kind`, with `Unrecognised` for any other combination and `Legacy` for a row without the `is_registered` column;
  - `HandleRequest` routes a row to its handler;
  - `Replay` is the driver loop, a left fold over the rows;
  - `BuildCarsDb` is the same loop written as a `while` loop.
- `EngineLemmas` (`engine_lemmas.dfy`) states the dispatch properties and the replay properties.
- `Scenarios` (`scenarios.dfy`) replays small concrete forms.
- `Names` (`names.dfy`) models `format_names`:
  - `Strip` is `rstrip(" ").lstrip(" ")`;
  - `RemoveAll` is `str.replace(pat, "")`;
  - `Split`, `Join` and `Concat` give a second characterisation of `RemoveAll`: `Split` cuts at the leftmost occurrences as `str.split` does, `RemoveAll` is `"".join(s.split(pat))`, and `pat.join(s.split(pat)) == s`.
- `NameExamples` (`name_examples.dfy`) works the two shapes of name that matter through `FormatName`: a one-word given name followed by the surname after one space, and after two.
- `RawCars` (`rawcars.dfy`) models `process_raw_cars_db`. It flattens the first claims and the wanted second claims, cleans the names, orders the rows by `id`, and keeps the first row of each `car_id`.

Timestamps are opaque integers. The form arrives already sorted, and the model never compares timestamps.

Plates and national ids are plain integers that are always present.

Some behaviour of the code is easy to misread; the model follows the code:

- Plates are not unique in the table. `handle_replace_car` writes the new plate without looking it up, so a replacement can give two rows the same plate. `RegistryLemmas.ReplaceCarCanRepeatPlate` exhibits such a table. Uniqueness is proved for add and remove, for replace with a fresh plate, and for a whole replay whose replacement plates are fresh (`EngineLemmas.ReplayKeepsPlatesDistinctWithFreshReplacements`).
- `add_car` skips the insert only when the plate is on exactly one row. With two or more rows the lookup reports nothing, and the car is appended again (`RegistryLemmas.AddCarAppendsWhenAmbiguous`).
- Duplicate plates, missing or ambiguous targets and unrecognised rows are at most printed; nothing collects them. The model returns the table alone.
- The `idx is not []` test in the replace and remove handlers is always true, but applying an empty index list is a no-op. A target that is missing or on several rows therefore leaves the table unchanged, as `HandleReplaceCar` and `HandleRemoveCar` state.
- `format_names` trims before it deletes `" " + surname` and does not trim again. A double space before the surname therefore leaves a trailing space: "Jane  Doe" with surname "Doe" gives "Jane ", and so does any one-word given name with two spaces before the surname (`NameExamples.GivenNameCanEndInSpace`). The cleaned surname has no surrounding spaces, and the cleaned name never starts with a space, but it may end with one.

## Model

| member | source | states |
|---|---|---|
| Cars.WantsSecondCar | lpr.py:106 | a field test with no contract of its own: the row's `another_car` answer is exactly "כן" (the same test filters the second claims at line 62) |
| Cars.FirstCar | lpr.py:104 | a field projection with no contract of its own: the household columns with `name/id/car_id`, as the drop of the second-claim columns builds it here and at line 61 |
| Cars.SecondCar | lpr.py:107 | a field projection with no contract of its own: the household columns with `name_2/id_2/car_id_2` renamed to `name/id/car_id`, as here and at lines 62 and 120 |
| Registry.MatchIndices | lpr.py:144 | the result lists exactly the positions whose row carries the plate, in strictly increasing order |
| Registry.FindCarIdx | lpr.py:143-153 | the result is `[i]` exactly when row `i` is the only row with the plate; it is empty exactly when no row or at least two rows carry the plate |
| Registry.AddCar | lpr.py:124-129 | a plate on exactly one row leaves the table unchanged; otherwise (absent or repeated) the car is appended after all existing rows, which stay as they were |
| Registry.SetPlates | lpr.py:134 | the listed rows get the new plate and keep every other column; unlisted rows and the length are unchanged |
| Registry.DropRowsOne | lpr.py:140 | dropping one listed position removes exactly that row, and the other rows keep their relative order |
| Registry.DropRows | lpr.py:140 | `drop(index=idx).reset_index(drop=True)`: never adds a row and keeps only rows of the table |
| Registry.DropRowsNone | lpr.py:140 | dropping with the empty index list the lookup returns when no row alone carries the plate changes nothing |
| Registry.HandleReplaceCar | lpr.py:131-135 | on a unique match only that row's plate becomes the replacement, and all other columns, rows, order and length are kept; on zero or several matches the table is unchanged |
| Registry.HandleRemoveCar | lpr.py:137-141 | on a unique match exactly that row is removed and the rest keep their order; on zero or several matches the table is unchanged |
| RegistryLemmas.DistinctAbsentOrOnce | lpr.py:143-153 | in a table without repeated plates a plate is absent exactly when it is not on exactly one row, so the lookup's "not unique" case cannot arise |
| RegistryLemmas.AddCarKeepsPlatesDistinct | lpr.py:124-129 | if all plates are pairwise distinct before add_car, they are pairwise distinct after |
| RegistryLemmas.AddCarTwice | lpr.py:124-129 | adding the same car twice when its plate is absent leaves exactly one new row |
| RegistryLemmas.AddCarAppendsWhenAmbiguous | lpr.py:125 | a plate already on two rows is appended again, because the lookup reports nothing |
| RegistryLemmas.RemoveCarKeepsPlatesDistinct | lpr.py:137-141 | removing never creates a repeated plate |
| RegistryLemmas.RemoveCarMakesPlateAbsent | lpr.py:137-141 | after a successful removal no row carries the plate, even when other plates repeat |
| RegistryLemmas.RemoveCarTwice | lpr.py:137-141 | a second removal of the same plate changes nothing, in any table |
| RegistryLemmas.ReplaceCarKeepsPlatesDistinct | lpr.py:131-135 | replacing with a plate that is not in the table, or with the same plate, keeps plates distinct |
| RegistryLemmas.ReplaceCarCanRepeatPlate | lpr.py:134 | replacing plate 100 by 200 in a table already holding 200 yields two rows with plate 200 |
| Engine.Classify | lpr.py:86-99 | the kind is decided by the fixed answers: a missing `is_registered` column gives the legacy path, "לא/לא יודע" gives a new registration, "כן" with one of the three actions gives replace, add-second or remove; every other combination is unrecognised |
| Engine.HandleAddNewCarsLegacy | lpr.py:103-112 | the first claim is appended unless its plate is on exactly one row; then, only when another car is wanted, the second claim is appended unless its plate is on exactly one row of that table; so rows are only appended, at most two |
| Engine.HandleAddNewCars | lpr.py:114-116 | the dispatch-only columns (`is_registered`, `action`, the three target plates) never influence the result |
| Engine.HandleAddSecondCar | lpr.py:118-122 | only the second claim is added, under add_car's rule |
| Engine.HandleRequest | lpr.py:86-101 | no contract of its own: `EngineLemmas.HandleRequestDispatch` states each branch |
| Engine.Replay | lpr.py:160-161 | no contract of its own: the fold is specified by `Engine.BuildCarsDb`, `EngineLemmas.ReplayAppend` and the replay lemmas below |
| Engine.BuildCarsDb | lpr.py:155-161 | the loop from an empty table computes the left fold of HandleRequest over the rows in order |
| EngineLemmas.HandleRequestDispatch | lpr.py:86-122 | for every table: a new or legacy row adds its first claim, then its wanted second claim, each unless its plate is on exactly one row; add-second adds only the second claim under the same rule; replace and remove call their handlers on the target plates; any other row leaves the table unchanged |
| EngineLemmas.RegisterNewAppendsClaims | lpr.py:103-116 | a new household whose two plates are not in the table, whatever other plates repeat, gets its first car appended, then its second car when one is wanted and its plate differs from the first |
| EngineLemmas.RegisterNewIgnoresUnwantedSecondClaim | lpr.py:106 | without another_car == "כן" the result equals adding the first car alone and does not depend on the second claim |
| EngineLemmas.AddSecondIgnoresFirstClaim | lpr.py:118-122 | the add-second-car action adds only the second claim, and its result does not depend on the first claim's name, id or plate |
| EngineLemmas.LegacyActsAsRegisterNew | lpr.py:97-99 | a row without `is_registered` is handled exactly as a new-household row |
| EngineLemmas.UnrecognisedIsIgnored | lpr.py:86-101 | an unrecognised `is_registered`/`action` combination returns the table unchanged |
| EngineLemmas.ReplaceAndRemoveUseOnlyTargets | lpr.py:90-96 | for replace and remove rows the result does not change when any claim column (`another_car`, `name/id/car_id`, `name_2/id_2/car_id_2`) changes |
| EngineLemmas.HandleRequestKeepsPlatesDistinct | lpr.py:86-101 | one row keeps plates distinct when a replace row's new plate is not already in the table |
| EngineLemmas.HandleRequestKeepsPlateAbsent | lpr.py:86-141 | a plate not in the table stays absent unless the row can bring it in: the first claim or wanted second claim of a new or legacy row, the second claim of an add-second row, or the replacement plate of a replace row |
| EngineLemmas.ReplayAppend | lpr.py:160-161 | replaying `a + b` is replaying `b` on the result of replaying `a` |
| EngineLemmas.ReplayKeepsPlateAbsent | lpr.py:160-161 | a plate neither in the starting table nor brought in by any row, in the sense above, never appears in the replayed table |
| EngineLemmas.ReplayKeepsPlatesDistinct | lpr.py:160-161 | a form without replace rows never produces a repeated plate |
| EngineLemmas.ReplayKeepsPlatesDistinctWithFreshReplacements | lpr.py:160-161 | plates stay distinct through a whole replay, replace rows included, when every replacement plate is new to the table and no other row can bring it in |
| Scenarios.DuplicateRegistrationKeepsOneRow | lpr.py:124-129 | registering plate 100 twice leaves one row for it |
| Scenarios.RegisterTwoCars | lpr.py:103-112 | a new household with two cars gets both rows, first claim first |
| Scenarios.ReplaceKeepsOwner | lpr.py:131-135 | replacing 100 by 200 keeps the row and changes only the plate |
| Scenarios.RemoveTwiceSecondIsNoOp | lpr.py:137-141 | the second removal of plate 100 leaves the table unchanged |
| Scenarios.AddSecondCarAddsOneRow | lpr.py:118-122 | the add-second-car action adds exactly one row, for plate 300 |
| Scenarios.OrderMatters | lpr.py:160-161 | register-then-remove and remove-then-register give different tables |
| Names.RStrip | lpr.py:80-81 | `rstrip(" ")`: a prefix of the input, only spaces were cut after it, and it does not end in a space |
| Names.LStrip | lpr.py:80-81 | `lstrip(" ")`: a suffix of the input, only spaces were cut before it, and it does not start with a space |
| Names.Strip | lpr.py:80-81 | the result has no leading or trailing space, and the input is the result with only spaces added around it |
| Names.StripTrimmed | lpr.py:80-81 | trimming a string without surrounding spaces leaves it unchanged |
| Names.Split | lpr.py:83 | at least one piece; the first piece is a prefix of the string; no piece contains the pattern |
| Names.SplitLeftmost | lpr.py:83 | the first piece runs up to the leftmost occurrence of the pattern, or is all of the string when there is none |
| Names.SplitRest | lpr.py:83 | the pieces after the first are the split of what follows that occurrence, so every cut is at the leftmost occurrence not overlapping an earlier one |
| Names.JoinSplit | lpr.py:83 | joining the pieces back with the pattern gives the original string |
| Names.RemoveAll | lpr.py:83 | `str.replace(pat, "")` never lengthens the string; what it deletes is stated by `RemoveAllIsConcatOfSplit` and `RemoveAllAbsent` |
| Names.RemoveAllIsConcatOfSplit | lpr.py:83 | deleting the pattern equals concatenating the split pieces, so exactly the non-overlapping occurrences are removed |
| Names.RemoveAllAbsent | lpr.py:83 | a name that does not contain `" " + surname` is left unchanged |
| Names.RemoveAllKeepsPrefix | lpr.py:83 | a prefix without the pattern's first character survives the deletion unchanged |
| Names.FormatName | lpr.py:78-84 | only surname and name change; the surname is the old surname without its surrounding spaces; the new name never starts with a space |
| Names.FormatNameRemovesSurname | lpr.py:80-83 | the new name is the trimmed name cut at every non-overlapping `" " + surname` and glued back without it; a trimmed name without that pattern comes out unchanged |
| Names.FormatNames | lpr.py:78-84 | same number of rows, each row cleaned in place |
| Names.FormatNameOfTrimmed | lpr.py:80-83 | a row whose names carry no surrounding spaces only has `" " + surname` deleted from its name |
| NameExamples.RemoveSurnameAfterOneSpace | lpr.py:83 | a one-word given name, one space and the surname is deleted down to the given name |
| NameExamples.RemoveSurnameAfterTwoSpaces | lpr.py:83 | with two spaces before the surname, the deletion leaves the given name and one space |
| NameExamples.GivenNameLosesSurname | lpr.py:78-84 | a row named like "Jane Doe" with surname "Doe" comes out as "Jane", its surname unchanged |
| NameExamples.GivenNameCanEndInSpace | lpr.py:79-83 | a row named like "Jane  Doe" with surname "Doe" comes out as "Jane ", with a trailing space |
| RawCars.FirstCars | lpr.py:61 | one first-claim row per form row, in form order |
| RawCars.SecondCars | lpr.py:62 | a second-claim row is present exactly for the form rows with another_car == "כן" |
| RawCars.SecondCarsAppend | lpr.py:62 | the second claims of `a + b` are those of `a` followed by those of `b`; with `SecondCarsOfOne`, one row per wanted form row, in form order |
| RawCars.SecondCarsOfOne | lpr.py:62 | one form row gives `[its second claim]` when it wants another car and nothing otherwise |
| RawCars.AllCars | lpr.py:61-63 | the flattened table is one first claim per form row in order, followed by exactly the second-claim rows; so it holds exactly the first claims and the wanted second claims |
| RawCars.SortById | lpr.py:67 | the result is ordered by id and is a permutation of the input |
| RawCars.DropDuplicatePlates | lpr.py:68 | every kept row is an input row, and a plate is in the result exactly when it is in the input |
| RawCars.DropDuplicatePlatesDistinct | lpr.py:68 | the kept rows have pairwise distinct plates |
| RawCars.DropDuplicatePlatesKeepsFirst | lpr.py:68 | every kept row is the first row of its plate in the input |
| RawCars.DropDuplicatePlatesIsSubsequence | lpr.py:68 | the kept rows are a subsequence of the input: they keep their relative input order |
| RawCars.DropDuplicatePlatesKeepsOrder | lpr.py:67-68 | dropping rows from an id-ordered table keeps it id-ordered |
| RawCars.ProcessRawCarsDb | lpr.py:60-70 | the output has distinct plates and is ordered by id; it holds exactly the plates of the flattened claims; each row is a cleaned input row; the kept row of each plate has the lowest id among that plate's rows |

## Left out

- Loading the form (`load_from_gbq`, `load_inquiries`: BigQuery, credentials, CSV, column renaming and `Int64` casts) is I/O. The model starts from typed `Request` records.
- `parse_ts` and the timestamp sort of the form are library code. The model takes the rows as already ordered.
- `export_to_lpr_format` and the report block (grouping by household, counts, the cutoff date, CSV output) are downstream consumers of the table.
- Pandas missing values (NA plates, ids or answers) are not modelled. A missing answer behaves like any unrecognised text.
- The `print` calls for "already exists", "not unique" and "shouldn't get here" are side effects and are not modelled. There is no anomaly log, because the code keeps none.
- Columns outside the cars table are not carried. In pandas, a legacy row or a `process_raw_cars_db` row keeps such extra columns, for example `is_registered` or `action`. `Car` holds only the columns of the initial empty table, so dropping the dispatch columns in `handle_add_new_cars` has no effect on the rows added.
- The tie order of the id sort in `process_raw_cars_db` is not modelled. Pandas' default sort is not stable. `SortById` is one admissible order: an insertion sort that keeps equal ids in input order. No property of `ProcessRawCarsDb` depends on which of several rows with equal id and equal plate survives.
- Registry.DropRows: its own contract states only that rows are dropped and none invented. Its exact content for the index lists that occur (empty, or one position) is stated by `DropRowsNone` and `DropRowsOne`. A position outside the table is ignored, where pandas raises `KeyError`; the handler only passes the lookup's result, which never holds one.
- Names.RemoveAll: its own contract states only the length bound; its meaning is carried by `RemoveAllIsConcatOfSplit`, `RemoveAllAbsent` and `RemoveAllKeepsPrefix`.
- HandleRequest and Replay carry no contract of their own. What they do is stated by `EngineLemmas.HandleRequestDispatch`, the other `EngineLemmas` and `Scenarios` lemmas, and `BuildCarsDb`.
