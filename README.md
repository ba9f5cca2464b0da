# Classroom allocator model

This project models the classroom allocator of the classmaker service in Dafny. It also models the two `Result` types that carry outcomes back to callers. Everything is proved by the Dafny verifier.

The allocator (`CalculateClassrooms`) works in five steps:

1. It drops the students locked in their classroom.
2. It rates each remaining student as `performance * Wp + behaviour * Wb + learning difficulty * Wd`, writing the rating into the student.
3. It sorts the students stably by ascending rating.
4. It splits them into an exact `"M"` pool and an exact `"F"` pool. Any other gender marker is dropped.
5. It hands each pool out over the classroom list with a round robin. The pool is walked from its hardest (last) student to its easiest. The `k`-th student taken gets classroom `k mod |classrooms|`, is appended to the output and is removed from the pool list.

The output is the male part followed by the female part. Saving it is a call whose result is discarded, so the returned result is always successful.

Files:

- `collections.dfy` (`Collections`)
  - LINQ `Where` as `Filter`.
  - LINQ's stable `OrderBy` as an insertion sort, `SortBy`.
  - `Reverse`.
  - The mutable `List<T>` the allocator drains.
  - Their lemmas: permutation, sortedness, stability and filtering laws.
- `entities.dfy` (`Entities`)
  - `Student` is a class. Its rating and classroom are written in place, and its ordinal attributes are subset types with the validated ranges 1–5, 1–5 and 1–3.
  - Classrooms are values.
- `classroom_calculator.dfy` (`ClassroomCalculator`)
  - The rating, and the specification of the output as a function of the input (`Allocation`, `Pool`).
  - The round-robin arithmetic.
  - The four allocator methods, each proved against that specification.
- `dto_result.dfy` (`DtoResults`) and `query_result.dfy` (`QueryResults`)
  - The two `Result` classes as objects with a nullable error list (`Option<seq<string>>`).
  - The query result adds a nullable warning list.
  - The C# subclass `Result<T>` is modelled as a class `ValueResult<T>` that holds its `Result` part as `status` and adds a value.

## Model

| member | source | states |
|---|---|---|
| ClassroomCalculator.CalculateClassrooms | classmaker-services/Services/ClassroomCalculatorService.cs:37-55 | Returns a fresh, successful result whose value is the allocation: the reversed male pool, then the reversed female pool, each pool being the unlocked students of that gender stably sorted by rating. Every unlocked student's stored rating becomes its score, and locked students' ratings are untouched. Students that are locked or of another gender keep their classroom. Each output student gets the round-robin classroom of its position within its own pool, and every output student ends with a classroom from the list. With no classrooms there must be nobody to place. |
| ClassroomCalculator.DivideStudentsIntoClassrooms | classmaker-services/Services/ClassroomCalculatorService.cs:57-65 | Output is the reversed male list followed by the reversed female list. Both lists end empty. A student at output position `i` gets classroom `k mod n`, where `k` is `i` for the male part and `i` minus the male count for the female part. |
| ClassroomCalculator.DivideGenderedStudents | classmaker-services/Services/ClassroomCalculatorService.cs:67-88 | The pool list passed in ends empty. The output is the pool reversed. The `k`-th student taken is given classroom `k mod n`, and a student listed twice keeps its last assignment. The loop keeps the cursor within `0..n` and tracks the reset at line 75. |
| ClassroomCalculator.SortStudentsByDifficulty | classmaker-services/Services/ClassroomCalculatorService.cs:90-102 | Every student's stored rating equals its weighted score. The result is the stable ascending sort by that score and is non-decreasing in the stored rating. |
| ClassroomCalculator.Score | classmaker-services/Services/ClassroomCalculatorService.cs:95-98 | Under the attribute ranges, the rating lies between `Wp + Wb + Wd` and `5Wp + 5Wb + 3Wd`. |
| ClassroomCalculator.ScoreMonotone | classmaker-services/Services/ClassroomCalculatorService.cs:95-98 | A student at least as demanding in all three attributes is rated at least as high. The rating is strictly higher exactly when the student is more demanding in one of them. |
| ClassroomCalculator.Unlocked | classmaker-services/Services/ClassroomCalculatorService.cs:42 | Every student kept is an input student and is not locked. |
| ClassroomCalculator.Slot | classmaker-services/Services/ClassroomCalculatorService.cs:75-81 | The classroom index used is always a valid index into the classroom list. |
| ClassroomCalculator.Slots | classmaker-services/Services/ClassroomCalculatorService.cs:73-84 | Lists the `n` classroom indices handed out in order. The `k`-th is `k mod count`. |
| ClassroomCalculator.CursorIsSlot | classmaker-services/Services/ClassroomCalculatorService.cs:71-84 | The cursor is incremented after each placement and reset to 0 once it passes the last index. After the reset, it equals `k mod count` at the `k`-th placement. |
| ClassroomCalculator.SlotUsage | classmaker-services/Services/ClassroomCalculatorService.cs:72-84 | In a pool of `n`, each classroom is used `n / count` times. The first `n mod count` classrooms are used once more. |
| ClassroomCalculator.SlotsBalanced | classmaker-services/Services/ClassroomCalculatorService.cs:72-84 | Any two classrooms' usage counts within one pool differ by at most one. A pool no larger than the classroom list uses no classroom twice. |
| ClassroomCalculator.PoolMembers | classmaker-services/Services/ClassroomCalculatorService.cs:42-49 | Every member of a pool is an input student, is unlocked and has exactly that gender. |
| ClassroomCalculator.AllocationIsPermutation | classmaker-services/Services/ClassroomCalculatorService.cs:42-52 | As a multiset, the output equals the unlocked input students whose gender is "M" or "F". Nobody is lost or duplicated, and locked and other-gender students are absent. |
| ClassroomCalculator.PoolsOfPlaceable | classmaker-services/Services/ClassroomCalculatorService.cs:42-49 | The two pools together are exactly as large as the set of placeable students. Every pool member is a placeable input student. |
| ClassroomCalculator.AllocationMalesFirst | classmaker-services/Services/ClassroomCalculatorService.cs:57-65 | Position `i` of the output holds an "M" student exactly when `i` is below the male pool size, and an "F" student otherwise. Every male precedes every female. |
| ClassroomCalculator.AllocationDescending | classmaker-services/Services/ClassroomCalculatorService.cs:73-101 | Within each gender, the output's ratings are non-increasing. |
| ClassroomCalculator.AllocationTiesReversed | classmaker-services/Services/ClassroomCalculatorService.cs:73-101 | Students of one gender sharing one rating appear in the output in the reverse of their input order. This follows from the stable sort and the backwards walk. |
| ClassroomCalculator.Pool | classmaker-services/Services/ClassroomCalculatorService.cs:42-49 | The pool of one gender: the unlocked students stably sorted by rating, keeping those whose gender marker is exactly that gender. `PoolMembers` and `PoolsOfPlaceable` state what it holds. |
| ClassroomCalculator.Allocation | classmaker-services/Services/ClassroomCalculatorService.cs:42-65 | The allocator's output order: the male pool read backwards, then the female pool read backwards. The `Allocation…` lemmas state its properties, and `CalculateClassrooms` returns it. |
| ClassroomCalculator.AssignedInRange | classmaker-services/Services/ClassroomCalculatorService.cs:75-81 | Every student a round-robin placement reaches holds a classroom converted from one of the listed classrooms. |
| Collections.Filter | classmaker-services/Services/ClassroomCalculatorService.cs:42-49 | `Where`: the elements satisfying the predicate, in input order, never more than the input. `FilterMembers` and `FilterKeeps` state membership in both directions. |
| Collections.FilterMembers | classmaker-services/Services/ClassroomCalculatorService.cs:42 | `Where` keeps only input elements, and only those satisfying the predicate. |
| Collections.FilterKeeps | classmaker-services/Services/ClassroomCalculatorService.cs:42 | `Where` keeps every input element that satisfies the predicate. |
| Collections.SortBy | classmaker-services/Services/ClassroomCalculatorService.cs:101 | `OrderBy`: a stable ascending sort by the key. `SortByPermutes`, `SortBySorted` and `SortByStable` state it. |
| Collections.SortByPermutes | classmaker-services/Services/ClassroomCalculatorService.cs:101 | `OrderBy` only reorders. The result has the same multiset of elements. |
| Collections.SortBySorted | classmaker-services/Services/ClassroomCalculatorService.cs:101 | The `OrderBy` result is ascending in the key. |
| Collections.SortByStable | classmaker-services/Services/ClassroomCalculatorService.cs:101 | `OrderBy` is stable: any selection of equal-key elements keeps its input order. |
| Collections.Reverse | classmaker-services/Services/ClassroomCalculatorService.cs:73-82 | The walk from the last index down appends the pool's elements in reverse order: position `i` holds the element at `|s| - 1 - i`. |
| Collections.List.constructor | classmaker-services/Services/ClassroomCalculatorService.cs:48-49 | `ToList`: a fresh list holding the filtered students in order. |
| Collections.List.Count | classmaker-services/Services/ClassroomCalculatorService.cs:73 | The number of students left in the list. |
| Collections.List.RemoveAt | classmaker-services/Services/ClassroomCalculatorService.cs:83 | Removes exactly the element at the index and keeps the others in order. |
| Entities.DtoToClassroomMap | classmaker-services/Services/ClassroomCalculatorService.cs:81 | The classroom given to a student carries the listed classroom's id and name. |
| Entities.Student.constructor | classmaker-models/Entities/Student.cs:6-30 | A student as created with `new Student { … }`: identity, names, gender marker, the three attribute levels within their validated ranges (1–5, 1–5, 1–3), the locked flag and the classroom as given, and the rating at its default 0. |
| DtoResults.Result.IsSuccess | classmaker-models/Dtos/Result.cs:8 | Success holds exactly when the error list is non-null and empty. |
| DtoResults.Result.constructor | classmaker-models/Dtos/Result.cs:11-14 | Starts with an empty error list, so it is successful. |
| DtoResults.Result.SetErrors | classmaker-models/Dtos/Result.cs:9 | Replaces the error list. Success then holds exactly when the new list is non-null and empty. |
| DtoResults.Result.AddError | classmaker-models/Dtos/Result.cs:16-19 | Appends the message after the earlier ones and makes the result unsuccessful. |
| DtoResults.ValueResult.IsSuccess | classmaker-models/Dtos/Result.cs:8 | The generic result is successful exactly when its inherited error list is non-null and empty. |
| DtoResults.ValueResult.constructor | classmaker-models/Dtos/Result.cs:26-29 | No value, an empty error list, successful. |
| DtoResults.ValueResult.WithValue | classmaker-models/Dtos/Result.cs:31-34 | Stores the value and starts successful. |
| DtoResults.ValueResult.WithErrors | classmaker-models/Dtos/Result.cs:36-40 | Stores the value and the error list. It is successful exactly when that list is non-null and empty. |
| DtoResults.ValueResult.SetValue | classmaker-models/Dtos/Result.cs:24 | Replaces the value and leaves the errors alone. |
| DtoResults.ValueResult.AddError | classmaker-models/Dtos/Result.cs:16-19 | Appends the message and makes the result unsuccessful. The value is unchanged. |
| QueryResults.Result.IsSuccess | classmaker-models/QueryModels/Result.cs:8 | Success holds exactly when the error list is non-null and empty. |
| QueryResults.Result.HasWarnings | classmaker-models/QueryModels/Result.cs:9 | There are warnings exactly when the warning list is non-null and non-empty. |
| QueryResults.Result.constructor | classmaker-models/QueryModels/Result.cs:13-17 | Starts with empty error and warning lists: successful, with no warnings. |
| QueryResults.Result.SetErrors | classmaker-models/QueryModels/Result.cs:10 | Replaces the error list and leaves the warnings alone. Success then holds exactly when the new list is non-null and empty. |
| QueryResults.Result.SetWarnings | classmaker-models/QueryModels/Result.cs:11 | Replaces the warning list and leaves the errors, and so success, alone. There are then warnings exactly when the new list is non-null and non-empty. |
| QueryResults.Result.AddError | classmaker-models/QueryModels/Result.cs:19-22 | Appends the message and makes the result unsuccessful. The warnings, and whether there are any, are unchanged. |
| QueryResults.Result.AddWarning | classmaker-models/QueryModels/Result.cs:24-27 | Appends the warning, so there are warnings afterwards. The errors, and success, are unchanged. |
| QueryResults.ValueResult.IsSuccess | classmaker-models/QueryModels/Result.cs:8 | The generic result is successful exactly when its inherited error list is non-null and empty. |
| QueryResults.ValueResult.HasWarnings | classmaker-models/QueryModels/Result.cs:9 | The generic result has warnings exactly when its inherited warning list is non-null and non-empty. |
| QueryResults.ValueResult.constructor | classmaker-models/QueryModels/Result.cs:34-37 | No value and empty lists: successful, with no warnings. |
| QueryResults.ValueResult.WithValue | classmaker-models/QueryModels/Result.cs:39-42 | Stores the value. Successful, with no warnings. |
| QueryResults.ValueResult.WithErrors | classmaker-models/QueryModels/Result.cs:44-48 | Replaces the error list with the one given, so success is decided by that list alone. There are no warnings. |
| QueryResults.ValueResult.SetValue | classmaker-models/QueryModels/Result.cs:32 | Replaces the value and leaves errors and warnings alone. |
| QueryResults.ValueResult.AddError | classmaker-models/QueryModels/Result.cs:19-22 | Appends the message and makes the result unsuccessful. The warnings and the value are unchanged. |
| QueryResults.ValueResult.AddWarning | classmaker-models/QueryModels/Result.cs:24-27 | Appends the warning, so there are warnings afterwards. Success and the value are unchanged. |

## Left out

- Storage: the classroom list read from the classroom store (line 41) is a parameter. Saving the students (line 53) is not modelled, because its result is discarded and it changes no state the allocator returns.
- async/await, logging and the service's constructor and dependency wiring are not modelled. They carry no allocation logic.
- Score: the rating is a floating-point field in the source and the weights are shared constants. Here the weights are positive integer parameters (`Weighting`) and the rating is an integer. The `StudentWeighting` class is not part of this model. Floating-point rounding is therefore not captured.
- CalculateClassrooms: with an empty classroom list and anyone to place, the source fails with an index error at line 81 instead of returning an error result. The model follows the code and makes "no classrooms ⇒ nobody to place" a precondition, with no error branch.
- CalculateClassrooms: the source creates the empty result first and assigns its value at the end (lines 40 and 52). The model builds the result once the value is known. No caller can observe the difference.
- CalculateClassrooms: the source sorts a fresh copy of the unlocked students, and the pool lists are fresh `ToList` copies. The model creates the two pool lists as fresh objects too. `DivideStudentsIntoClassrooms` requires the two lists to be distinct objects, which the allocator guarantees.
- Entities.DtoToClassroomMap: `ClassroomDtoHelper` is not part of this model. It is modelled as carrying the classroom's id and name. The classroom's own student list is not read by the allocator and is left out of `ClassroomDto`.
- Entities.Student: every property of the entity is modelled. The ones the allocator never writes are `const`, although the source's setters allow writing them. `LockedInClassroom` and `DifficultyRating` are not declared in Student.cs. They are the columns added by the migrations AddStudentClassLockFlag and AddStudentDifficultyColumn.
- DtoResults.Result.AddError and QueryResults.Result.AddError require a non-null error list, because the source throws on a null list; AddWarning likewise requires a non-null warning list. Exceptions are not modelled.
- DtoResults.Result.SetErrors, DtoResults.ValueResult.WithErrors, QueryResults.Result.SetErrors and QueryResults.ValueResult.WithErrors: the source stores the caller's list object itself, and the `Errors` getter hands out the internal list. A caller adding to that list afterwards changes `IsSuccess`, and `AddError` appends to the caller's list. The model copies the list as a value, so this sharing is not captured. No caller of the allocator relies on it.
- QueryResults.Result.SetWarnings: likewise stores a copy of the warning list, so sharing the list with the caller is not captured.
- The `Result<T>` subclasses are modelled by composition. `ValueResult<T>` holds its `Result` part as `status`. `value` is `None` where the source holds `default(T)`.
- Determinism of the allocator is not stated separately. The output and every assignment are functions of the inputs (`Allocation`, `AssignedClassroom`), so it holds by construction.
