# Artnix.Mapper: column resolution and member-binding plan

This project is a Dafny model of the core of `DataRecordExtensions`, the part of
Artnix.Mapper that decides how a data row is turned into an object of a target
type. Given the column names of one row (`IDataRecord.GetName(i)` for
`i < FieldCount`), the public properties of the target type and a binding
configuration (`CasheConfig`), it decides:

- which property is read from which column (`GetPropertyNames`);
- which properties take part at all (`GetProperties`/`IsNotClass`);
- which conversion routine of `Check` each property gets (`Map`'s member loop).

The expression tree that `Map` builds is represented by its content: a sequence
of `MemberBinding(property, column, coercion)` values, one per member
assignment of the object initializer.

Files and modules:

- `types.dfy` (`Types`): properties and their kinds (primitive, `Nullable<T>`,
  string, other class, any other type), the configuration, the errors and the
  member bindings.
- `text.dfy` (`Text`): `ToUpper` (ASCII upper-casing) and `Replace("_", "")`.
- `columns.dfy` (`Columns`): `GetColumnNames` and `GetUpperCaseColumnNames`.
  These are loops that fill a hash set.
- `resolution.dfy` (`Resolution`): `GetPropertyNames`. The two `ToDictionary`
  projections are functions. The binding pass, which mutates the dictionary, is
  a loop.
- `binding.dfy` (`Binding`): `GetProperties`/`IsNotClass`, the coercion
  dispatch and the member loop of the private `Map`.
- `mapper.dfy` (`DataRecordExtensions`): the internal
  `Map(reader, casheConfig)`, plus lemmas about the whole pipeline.
- `scenarios.dfy` (`Scenarios`): concrete rows and types worked through the
  model.

Each method is proved equal to a specification function. The lemmas about
those functions carry the properties. The pairs are:

- `Columns.GetColumnNames` (a loop) and `Columns.GetUpperCaseColumnNames`,
  with `ColumnSet`;
- `Resolution.ApplyBindings` (a loop), with `dictionary + bindings`;
- `Resolution.GetPropertyNames`, with `Resolve`;
- `Binding.BindOne`, one iteration of the member loop, with `BindMember`;
- `Binding.Map` (a loop), with `Plan`. `Plan` is the generic `Collect` over the
  outcomes of the iterations: the first error, or every binding;
- `DataRecordExtensions.Map` (no loop of its own), with `Compile`.

The model follows the code in the following points, which may be unexpected:

- An explicit binding for a member on the ignore list is still applied, and the
  member is bound (`ExplicitBindingWins`). The ignore list only filters the
  convention pass.
- Under the underscore-stripping convention, two columns that become equal
  once underscores are removed make `ToDictionary` throw. The model returns
  `ColumnKeyCollision` (`UnderscoreCollisionFails`); there is no
  "last one wins".
- When resolution yields an empty dictionary, `GetProperties` and the member
  loop treat it as "no bindings". Every eligible property is then bound to a
  column spelled like the property itself, whether or not the row has such a
  column (`NothingResolvedBindsEverything`, `NoMatchingColumnExample`). So the
  plan can name a column that the row lacks.
- Eligibility (the class filter) is applied when the plan is built, not during
  resolution. A class-typed property can appear in the resolved dictionary but
  is never bound.
- A missing string indexer on the row type (`mi` is null) fails only inside
  the member loop, at the first `Expression.Call`. With nothing to bind, the
  plan is built anyway (`MissingIndexerFails`).
- `IsNotClass` compares the short type name with `"String"`. A user class that
  is itself named `String` therefore counts as eligible (`EligibleKinds`).
- `Type.IsClass` is false for interfaces, so an interface-typed property is
  eligible and is bound through `DBNullValue` and a cast, like a struct.

## Model

| member | source | states |
|---|---|---|
| `Columns.GetColumnNames` | Artnix.Mapper/Artnix.Mapper/Extensions/DataRecordExtensions.cs:19-28 | The result is exactly the set of `fold(GetName(i))` for `0 <= i < FieldCount`. Every folded name is in it, every element comes from some column, and its size is at most `FieldCount`. |
| `Columns.GetUpperCaseColumnNames` | Artnix.Mapper/Artnix.Mapper/Extensions/DataRecordExtensions.cs:14-17 | Returns the set of upper-cased column names; each element is the upper-cased name of some column; size at most `FieldCount`. |
| `Columns.ColumnSetSize` | Artnix.Mapper/Artnix.Mapper/Extensions/DataRecordExtensions.cs:21-26 | The hash set never has more entries than the row has columns. |
| `Columns.CollidingNamesCollapse` | Artnix.Mapper/Artnix.Mapper/Extensions/DataRecordExtensions.cs:21-26 | Two distinct columns whose names fold to the same string collapse to one entry, so the set is strictly smaller than `FieldCount`. |
| `Text.StripUnderscores` | Artnix.Mapper/Artnix.Mapper/Extensions/DataRecordExtensions.cs:41 | `Replace("_", "")` leaves no underscore, never lengthens the name, and introduces no character that was not there. |
| `Text.StripFixesExactlyUnderscoreFree` | Artnix.Mapper/Artnix.Mapper/Extensions/DataRecordExtensions.cs:41 | Removing underscores leaves a name unchanged if and only if it has no underscore. |
| `Text.StripIdempotent` | Artnix.Mapper/Artnix.Mapper/Extensions/DataRecordExtensions.cs:41 | Removing underscores twice is the same as removing them once. |
| `Text.StripConcat` | Artnix.Mapper/Artnix.Mapper/Extensions/DataRecordExtensions.cs:41 | Removing underscores distributes over concatenation. |
| `Text.Upper` | Artnix.Mapper/Artnix.Mapper/Extensions/DataRecordExtensions.cs:16 | `ToUpper`, restricted to ASCII. What the resolution relies on is the lemma `Text.UnderscoreSurvivesUpper`. |
| `Text.UnderscoreSurvivesUpper` | Artnix.Mapper/Artnix.Mapper/Extensions/DataRecordExtensions.cs:48 | `ToUpper` keeps underscores: a name has one if and only if its upper-cased form does. |
| `Resolution.ColumnDictionary` | Artnix.Mapper/Artnix.Mapper/Extensions/DataRecordExtensions.cs:40-42 | The key-to-column dictionary fails exactly when two distinct columns share a key. Otherwise every column is reachable under its key, and every entry maps a key to a column that has that key. |
| `Resolution.VerbatimKeysNeverCollide` | Artnix.Mapper/Artnix.Mapper/Extensions/DataRecordExtensions.cs:42 | With the convention off, the dictionary always builds and maps each column to itself. |
| `Resolution.Candidates` | Artnix.Mapper/Artnix.Mapper/Extensions/DataRecordExtensions.cs:44-46 | The candidate properties are exactly the properties whose name is not on the ignore list. |
| `Resolution.ConventionPairs` | Artnix.Mapper/Artnix.Mapper/Extensions/DataRecordExtensions.cs:48 | The pairs are exactly `(name, dict[upper(name)])` for the candidates whose upper-cased name is a key. |
| `Resolution.ToDictionary` | Artnix.Mapper/Artnix.Mapper/Extensions/DataRecordExtensions.cs:48 | Fails (duplicate key) exactly when two pairs share a key. Otherwise the result maps each pair's key to its value and has no other keys. |
| `Resolution.ApplyBindings` | Artnix.Mapper/Artnix.Mapper/Extensions/DataRecordExtensions.cs:49-53 | After the binding pass, every binding key maps to its value, whatever was there before. Every other key keeps its old entry. No key is dropped, and only binding keys are added. |
| `Resolution.GetPropertyNames` | Artnix.Mapper/Artnix.Mapper/Extensions/DataRecordExtensions.cs:36-56 | The resolved dictionary equals the specification `Resolve`. When it succeeds, it holds every explicit binding verbatim. |
| `Resolution.ConventionEntriesAreMatches` | Artnix.Mapper/Artnix.Mapper/Extensions/DataRecordExtensions.cs:39-48 | Every entry built before the binding pass maps a non-ignored property name `p` to an upper-cased column `c` of the row, where `upper(p)` equals `c` (convention off) or `c` without underscores (convention on). |
| `Resolution.MatchingPropertiesAreResolved` | Artnix.Mapper/Artnix.Mapper/Extensions/DataRecordExtensions.cs:39-48 | Conversely, every non-ignored property that matches a row column in that way gets an entry for that column. |
| `Resolution.IgnoredMembersGetNoConventionEntry` | Artnix.Mapper/Artnix.Mapper/Extensions/DataRecordExtensions.cs:44-48 | A member on the ignore list never receives a convention-derived entry. |
| `Resolution.UnderscoredPropertyNeverMatches` | Artnix.Mapper/Artnix.Mapper/Extensions/DataRecordExtensions.cs:40-48 | With the convention on, only the column is stripped and the property name is not. A property whose name contains `_` therefore never matches by convention. |
| `Resolution.UnderscoreCollisionFails` | Artnix.Mapper/Artnix.Mapper/Extensions/DataRecordExtensions.cs:40-41 | With the convention on, two distinct upper-cased columns that are equal without underscores make resolution fail with a key collision. |
| `Resolution.BindingsOverrideConvention` | Artnix.Mapper/Artnix.Mapper/Extensions/DataRecordExtensions.cs:49-55 | Bindings are applied last and unconditionally. `result[k] == v` for every binding, even for an ignored member, an absent column or a non-property. Other keys keep the convention's entry. |
| `Resolution.ResolveFailsOnlyOnDuplicates` | Artnix.Mapper/Artnix.Mapper/Extensions/DataRecordExtensions.cs:40-48 | Resolution fails exactly when two distinct upper-cased column names share a key (spellings that differ only in case were already merged by the column set), or two non-ignored properties share a name whose upper-case form is a key of the column dictionary. |
| `Resolution.DistinctNamesResolve` | Artnix.Mapper/Artnix.Mapper/Extensions/DataRecordExtensions.cs:40-48 | With distinct property names and no key collision, resolution succeeds. |
| `Binding.GetProperties` | Artnix.Mapper/Artnix.Mapper/Extensions/DataRecordExtensions.cs:110-116 | The two filters of `GetProperties`. Its contract is the lemma `Binding.SelectedProperties`. |
| `Binding.IsNotClass` | Artnix.Mapper/Artnix.Mapper/Extensions/DataRecordExtensions.cs:112 | The eligibility test. Its contract is the lemma `Binding.EligibleKinds`. |
| `Binding.SelectedProperties` | Artnix.Mapper/Artnix.Mapper/Extensions/DataRecordExtensions.cs:110-116 | With an empty dictionary, the members of `GetProperties`' result are exactly the eligible properties. Otherwise they are exactly the eligible properties whose name is a key. The result is no longer than the input. |
| `Binding.GetPropertiesConcat` | Artnix.Mapper/Artnix.Mapper/Extensions/DataRecordExtensions.cs:110-116 | Selecting from a concatenation concatenates the selections, so `GetProperties` keeps reflection's order and multiplicity: each property is kept or dropped on its own, in place. |
| `Binding.EligibleKinds` | Artnix.Mapper/Artnix.Mapper/Extensions/DataRecordExtensions.cs:112 | `IsNotClass` holds exactly for non-class types, plus classes whose short name is `String`. |
| `Binding.CoercionFor` | Artnix.Mapper/Artnix.Mapper/Extensions/DataRecordExtensions.cs:83-100 | A primitive type gets `As(name)`, whose routine is `"As" + name`. `Nullable<T>` gets `AsNullable(T)`, whose routine is `"AsNullable" + T`. Every other type gets `DBNullValue` followed by a cast to the declared type. These are the names that `Single` looks up. |
| `Binding.BindOne` | Artnix.Mapper/Artnix.Mapper/Extensions/DataRecordExtensions.cs:71-100 | One iteration of the member loop equals `BindMember`. It fails with `UnsupportedRowShape` when there is no indexer, and with `NoSingleRoutine` when the routine is not found exactly once. A success binds this member through a routine that is found exactly once. |
| `Binding.Map` | Artnix.Mapper/Artnix.Mapper/Extensions/DataRecordExtensions.cs:58-108 | The member loop produces exactly the plan `Plan` over the selected properties, or the error of its first failing iteration. |
| `Binding.PlanShape` | Artnix.Mapper/Artnix.Mapper/Extensions/DataRecordExtensions.cs:70-103 | A built plan has one binding per selected member, in order. Each binding carries the member's name, the column it is read from and the coercion its type selects, whose routine exists exactly once. |
| `Binding.PlanMembership` | Artnix.Mapper/Artnix.Mapper/Extensions/DataRecordExtensions.cs:70-103 | The bindings of a built plan are exactly the bindings of its members. |
| `Binding.PlanSucceedsIff` | Artnix.Mapper/Artnix.Mapper/Extensions/DataRecordExtensions.cs:66-100 | The plan is built if and only if nothing is to be bound, or the row type has a string indexer and every member's routine lookup finds exactly one match (`Single`). |
| `Binding.MissingIndexerFails` | Artnix.Mapper/Artnix.Mapper/Extensions/DataRecordExtensions.cs:66-80 | Without a string indexer, the plan fails with `UnsupportedRowShape` as soon as one member is to be bound, and is empty otherwise. |
| `Binding.RoutineFailureNamesMember` | Artnix.Mapper/Artnix.Mapper/Extensions/DataRecordExtensions.cs:85-97 | A routine-lookup failure names the routine of some member, and that routine name occurs zero times or more than once. |
| `Binding.PlanStopsAtFirstError` | Artnix.Mapper/Artnix.Mapper/Extensions/DataRecordExtensions.cs:71-103 | Once an iteration throws, the whole construction fails with that error. |
| `Binding.PlanErrorIsFirstFailure` | Artnix.Mapper/Artnix.Mapper/Extensions/DataRecordExtensions.cs:71-103 | A failed construction reports the error of its first failing member; every member before it binds. |
| `Binding.CollectExtends` | Artnix.Mapper/Artnix.Mapper/Extensions/DataRecordExtensions.cs:70-102 | Each successful iteration appends its binding to the list built so far (`memberBindings.Add`). |
| `Binding.CollectFailsAt` | Artnix.Mapper/Artnix.Mapper/Extensions/DataRecordExtensions.cs:71-103 | An iteration that throws after successful ones ends the whole loop with its error. |
| `Binding.CollectStopsAtFirstError` | Artnix.Mapper/Artnix.Mapper/Extensions/DataRecordExtensions.cs:71-103 | Once a prefix of the iterations has thrown, the whole loop fails with that same error. |
| `Binding.CollectShape` | Artnix.Mapper/Artnix.Mapper/Extensions/DataRecordExtensions.cs:70-103 | A completed loop holds one value per iteration, in iteration order. |
| `Binding.CollectSucceedsIff` | Artnix.Mapper/Artnix.Mapper/Extensions/DataRecordExtensions.cs:71-103 | The loop completes if and only if every iteration succeeds. |
| `Binding.CollectFirstError` | Artnix.Mapper/Artnix.Mapper/Extensions/DataRecordExtensions.cs:71-103 | A failed loop reports the error of its first failing iteration; every earlier iteration succeeded. |
| `Binding.BoundWithMapping` | Artnix.Mapper/Artnix.Mapper/Extensions/DataRecordExtensions.cs:71-78 | With a non-empty dictionary, the plan binds exactly the eligible properties whose name is a key, each read from `mapping[name]` with its type's coercion. |
| `Binding.BoundWithoutMapping` | Artnix.Mapper/Artnix.Mapper/Extensions/DataRecordExtensions.cs:71-78 | With an empty dictionary, the plan binds exactly the eligible properties, each read from a column spelled like the property. |
| `Binding.ClassPropertiesNeverBound` | Artnix.Mapper/Artnix.Mapper/Extensions/DataRecordExtensions.cs:112-115 | A name carried only by class-typed properties other than string is never bound, even when the dictionary names it. |
| `DataRecordExtensions.Map` | Artnix.Mapper/Artnix.Mapper/Extensions/DataRecordExtensions.cs:30-34 | The entry point produces exactly the plan over the dictionary that `GetPropertyNames` resolves, or the resolution error. |
| `DataRecordExtensions.ExplicitBindingWins` | Artnix.Mapper/Artnix.Mapper/Extensions/DataRecordExtensions.cs:44-55 | An eligible member with an explicit binding is read from its explicit column, whatever the convention found and even when the member is on the ignore list. |
| `DataRecordExtensions.ConventionMatchIsBound` | Artnix.Mapper/Artnix.Mapper/Extensions/DataRecordExtensions.cs:39-78 | An eligible, non-ignored, unbound property that matches a row column by convention is read from that column with its type's coercion. |
| `DataRecordExtensions.BoundColumnsAreResolved` | Artnix.Mapper/Artnix.Mapper/Extensions/DataRecordExtensions.cs:36-78 | If resolution found anything, every planned binding belongs to an eligible property. Its column is either the explicit binding or, for a non-ignored member, a row column that matches by convention. |
| `DataRecordExtensions.NothingResolvedBindsEverything` | Artnix.Mapper/Artnix.Mapper/Extensions/DataRecordExtensions.cs:74-78 | If resolution found nothing, every eligible property is bound to a column spelled like itself. |
| `Scenarios.UnderscoreCollisionExample` | Artnix.Mapper/Artnix.Mapper/Extensions/DataRecordExtensions.cs:40-41 | Columns `A_B` and `AB` under the convention fail with a key collision. |
| `Scenarios.CaseVariantsMergeExample` | Artnix.Mapper/Artnix.Mapper/Extensions/DataRecordExtensions.cs:21-26 | Columns `a_b` and `A_B` become one upper-cased column, so under the convention they do not collide and resolution succeeds. |
| `Scenarios.UserIdConventionExample` | Artnix.Mapper/Artnix.Mapper/Extensions/DataRecordExtensions.cs:39-48 | Property `UserId` resolves to column `USER_ID` with the convention on, and resolution is empty with it off. |
| `Scenarios.MissingOptionalColumnExample` | Artnix.Mapper/Artnix.Mapper/Extensions/DataRecordExtensions.cs:30-116 | For `{Id: int, Name: string, Age: int?}` over columns `ID` and `NAME`, the plan is `Id <- ID` via `AsInt32` and `Name <- NAME` via `DBNullValue` plus a cast. `Age` is not bound, and there is no error. |
| `Scenarios.NoMatchingColumnExample` | Artnix.Mapper/Artnix.Mapper/Extensions/DataRecordExtensions.cs:74-78 | Over a row whose only column is `X`, property `Id` is still bound, to a column `Id` that the row does not have. |

## Left out

- Building and compiling the expression tree (`Expression.Parameter/Call/Bind/New/MemberInit/Lambda`) is not modelled. The plan it would encode is modelled as the `MemberBinding` sequence.
- Reflection is not modelled. Properties are given as `(name, kind)` values in the order reflection returns them; the model holds for any order. `OtherClass` stands for every type for which `Type.IsClass` holds (classes, arrays, delegates), and `OtherNonClass` for every other type that is neither primitive nor `Nullable<T>` (structs, enums, interfaces). The methods of `Check` are given as a list of their names. `hasIndexer` stands for finding a string-indexed getter on `IDataRecord`.
- `Check.Nullable` and `Check.GetUnderlyingType` are taken to recognise `Nullable<T>` and yield `T`. Their code is not part of this model.
- The conversion routines of `Check` (`AsInt32`, `AsNullable...`, `DBNullValue`) and how they treat database nulls are not modelled. Only which routine is chosen, and whether the lookup finds exactly one, is modelled.
- A routine whose signature does not accept the indexer's value makes `Expression.Call` throw. This is not modelled, because parameter types are not part of the model.
- A property without a setter makes `Expression.Bind` throw. This is not modelled, because property accessors are not part of the model.
- The `TModel : class, new()` constraint is not modelled; it is enforced by the C# compiler.
- `CasheConfig` appears only as a value. A null `ignoreMembers` or `bindings` behaves exactly like an empty one in every use, so `IsNullOrEmpty` is modelled as emptiness.
- The compiled-mapper cache and its concurrent use are not part of the shown code and are not modelled.
- Reading values from the row (I/O) is not modelled. A row is the list of its column names.
- Text.Upper: ASCII upper-casing only. Culture-sensitive Unicode `ToUpper` is not modelled.
