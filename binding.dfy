/**
 * Construction of the member-binding plan (the private Map over a resolved
 * dictionary and GetProperties/IsNotClass): which properties are bound, from
 * which column, and through which conversion routine of `Check`.
 *
 * The routines of `Check` are known here only by name: `catalog` lists the
 * names of `typeof(Check).GetMethods()`, one entry per method (overloads give
 * repeated names). `hasIndexer` says whether `IDataRecord` exposes a
 * string-indexed property with a getter.
 */
module Binding {
  import opened Types

  /** `Type.Name` of a property type. */
  function TypeName(kind: Kind): string
  {
    match kind
    case Primitive(name) => name
    case NullableOf(_) => "Nullable`1"
    case Str => "String"
    case OtherClass(name) => name
    case OtherNonClass(name) => name
  }

  /** `Type.IsClass`. */
  predicate IsClass(kind: Kind)
  {
    kind.Str? || kind.OtherClass?
  }

  /**
   * IsNotClass: a property is eligible unless its type is a class whose short
   * name differs from that of System.String.
   */
  predicate IsNotClass(p: Property)
  {
    !(IsClass(p.kind) && TypeName(p.kind) != TypeName(Str))
  }

  /**
   * The filter GetProperties applies to one property: IsNotClass alone when
   * the dictionary is empty, otherwise also "its name is a key".
   */
  predicate Selected(p: Property, bindings: map<string, string>)
  {
    if bindings == map[] then IsNotClass(p) else p.name in bindings && IsNotClass(p)
  }

  /** GetProperties(Type, bindings): the selected properties, in the order reflection returns them. */
  function GetProperties(properties: seq<Property>, bindings: map<string, string>): seq<Property>
  {
    if properties == [] then []
    else
      var head := if Selected(properties[0], bindings) then [properties[0]] else [];
      head + GetProperties(properties[1..], bindings)
  }

  /**
   * The properties selected for binding: the eligible ones, restricted to the
   * dictionary's keys when it is non-empty; never a class other than string.
   */
  lemma {:induction false} SelectedProperties(properties: seq<Property>, bindings: map<string, string>)
    ensures var r := GetProperties(properties, bindings);
      && (forall p :: p in r <==> p in properties && IsNotClass(p) && (bindings == map[] || p.name in bindings))
      && |r| <= |properties|
  {
    if properties != [] {
      SelectedProperties(properties[1..], bindings);
      assert properties == [properties[0]] + properties[1..];
    }
  }

  /**
   * Selection keeps reflection's order and multiplicity: selecting from a
   * concatenation concatenates the selections.
   */
  lemma {:induction false} GetPropertiesConcat(a: seq<Property>, b: seq<Property>, bindings: map<string, string>)
    ensures GetProperties(a + b, bindings) == GetProperties(a, bindings) + GetProperties(b, bindings)
  {
    if a == [] {
      assert a + b == b;
    } else {
      var head := if Selected(a[0], bindings) then [a[0]] else [];
      assert (a + b)[0] == a[0] && (a + b)[1..] == a[1..] + b;
      calc {
        GetProperties(a + b, bindings);
        head + GetProperties(a[1..] + b, bindings);
        { GetPropertiesConcat(a[1..], b, bindings); }
        head + (GetProperties(a[1..], bindings) + GetProperties(b, bindings));
        (head + GetProperties(a[1..], bindings)) + GetProperties(b, bindings);
        GetProperties(a, bindings) + GetProperties(b, bindings);
      }
    }
  }

  /** The column a member is read from: its binding, or its own name. */
  function ColumnFor(propertyName: string, bindings: map<string, string>): string
  {
    if bindings != map[] && propertyName in bindings then bindings[propertyName] else propertyName
  }

  /** The coercion chosen for a declared type. */
  function CoercionFor(kind: Kind): (c: Coercion)
    ensures kind.Primitive? ==> c == As(kind.name) && RoutineName(c) == "As" + kind.name
    ensures kind.NullableOf? ==> c == AsNullable(kind.underlying) && RoutineName(c) == "AsNullable" + kind.underlying
    ensures !kind.Primitive? && !kind.NullableOf? ==> c == DBNullValueThenCast(kind) && RoutineName(c) == "DBNullValue"
  {
    match kind
    case Primitive(name) => As(name)
    case NullableOf(underlying) => AsNullable(underlying)
    case _ => DBNullValueThenCast(kind)
  }

  /** The name of the `Check` routine a coercion calls. */
  function RoutineName(c: Coercion): string
  {
    match c
    case As(typeName) => "As" + typeName
    case AsNullable(underlying) => "AsNullable" + underlying
    case DBNullValueThenCast(_) => "DBNullValue"
  }

  /** `typeof(Check).GetMethods().Single(p => p.Name == routine)` succeeds. */
  predicate SingleRoutine(catalog: seq<string>, routine: string)
  {
    multiset(catalog)[routine] == 1
  }

  /** The binding a member receives when its iteration succeeds. */
  function BindingOf(member: Property, bindings: map<string, string>): MemberBinding
  {
    MemberBinding(member.name, ColumnFor(member.name, bindings), CoercionFor(member.kind))
  }

  /** One iteration of the member loop. */
  function BindMember(member: Property, bindings: map<string, string>, catalog: seq<string>, hasIndexer: bool): Result<MemberBinding, MapError>
  {
    var routine := RoutineName(CoercionFor(member.kind));
    if !hasIndexer then Err(UnsupportedRowShape)
    else if !SingleRoutine(catalog, routine) then Err(NoSingleRoutine(routine))
    else Ok(BindingOf(member, bindings))
  }

  /**
   * The outcome of a loop over the outcomes of its iterations, taken in order:
   * the error of the first failing iteration, or every iteration's value.
   */
  function Collect<T, E>(outcomes: seq<Result<T, E>>): Result<seq<T>, E>
  {
    if outcomes == [] then Ok([])
    else
      var n := |outcomes| - 1;
      match Collect(outcomes[..n])
      case Err(e) => Err(e)
      case Ok(done) =>
        match outcomes[n]
        case Err(e) => Err(e)
        case Ok(b) => Ok(done + [b])
  }

  /** The outcome of each iteration of the member loop, member by member. */
  function Outcomes(members: seq<Property>, bindings: map<string, string>, catalog: seq<string>, hasIndexer: bool): (o: seq<Result<MemberBinding, MapError>>)
    ensures |o| == |members|
    ensures forall i :: 0 <= i < |members| ==> o[i] == BindMember(members[i], bindings, catalog, hasIndexer)
  {
    if members == [] then []
    else [BindMember(members[0], bindings, catalog, hasIndexer)] + Outcomes(members[1..], bindings, catalog, hasIndexer)
  }

  /** The member loop over `members` in order; the first failure ends it. */
  function Plan(members: seq<Property>, bindings: map<string, string>, catalog: seq<string>, hasIndexer: bool): Result<seq<MemberBinding>, MapError>
  {
    Collect(Outcomes(members, bindings, catalog, hasIndexer))
  }

  /**
   * One iteration of the member loop: the column the member is read from, the
   * indexer call on the row, and the `Check` routine its declared type selects.
   */
  method BindOne(member: Property, bindings: map<string, string>, catalog: seq<string>, hasIndexer: bool)
    returns (r: Result<MemberBinding, MapError>)
    ensures r == BindMember(member, bindings, catalog, hasIndexer)
    ensures r.Ok? ==> r.value.property == member.name && SingleRoutine(catalog, RoutineName(r.value.coercion))
  {
    var name := member.name;
    if bindings != map[] {
      if member.name in bindings {
        name := bindings[member.name];
      }
    }
    if !hasIndexer {
      return Err(UnsupportedRowShape);
    }
    var coercion: Coercion;
    if member.kind.Primitive? {
      coercion := As(member.kind.name);
    } else if member.kind.NullableOf? {
      coercion := AsNullable(member.kind.underlying);
    } else {
      coercion := DBNullValueThenCast(member.kind);
    }
    var routine := RoutineName(coercion);
    if !SingleRoutine(catalog, routine) {
      return Err(NoSingleRoutine(routine));
    }
    r := Ok(MemberBinding(member.name, name, coercion));
  }


  /** Map: builds the member bindings of the object initializer, one per selected property. */
  method Map(properties: seq<Property>, bindings: map<string, string>, catalog: seq<string>, hasIndexer: bool)
    returns (r: Result<seq<MemberBinding>, MapError>)
    ensures r == Plan(GetProperties(properties, bindings), bindings, catalog, hasIndexer)
  {
    var members := GetProperties(properties, bindings);
    ghost var outcomes := Outcomes(members, bindings, catalog, hasIndexer);
    var memberBindings: seq<MemberBinding> := [];
    for i := 0 to |members|
      invariant Collect(outcomes[..i]) == Ok(memberBindings)
    {
      var binding := BindOne(members[i], bindings, catalog, hasIndexer);
      if binding.Err? {
        CollectFailsAt(outcomes, i);
        return Err(binding.error);
      }
      CollectExtends(outcomes, i);
      memberBindings := memberBindings + [binding.value];
    }
    assert outcomes[..|members|] == outcomes;
    r := Ok(memberBindings);
  }

  /** One more successful iteration appends its value. */
  lemma CollectExtends<T, E>(outcomes: seq<Result<T, E>>, i: nat)
    requires i < |outcomes|
    requires Collect(outcomes[..i]).Ok? && outcomes[i].Ok?
    ensures Collect(outcomes[..i + 1]) == Ok(Collect(outcomes[..i]).value + [outcomes[i].value])
  {
    assert outcomes[..i + 1][..i] == outcomes[..i];
  }

  /** A failing iteration after successful ones ends the whole loop with its error. */
  lemma CollectFailsAt<T, E>(outcomes: seq<Result<T, E>>, i: nat)
    requires i < |outcomes|
    requires Collect(outcomes[..i]).Ok? && outcomes[i].Err?
    ensures Collect(outcomes) == Err(outcomes[i].error)
  {
    assert outcomes[..i + 1][..i] == outcomes[..i];
    CollectStopsAtFirstError(outcomes, i + 1);
  }

  /** Once a prefix of the loop fails, the whole loop fails with the same error. */
  lemma {:induction false} CollectStopsAtFirstError<T, E>(outcomes: seq<Result<T, E>>, k: nat)
    requires k <= |outcomes|
    requires Collect(outcomes[..k]).Err?
    ensures Collect(outcomes) == Collect(outcomes[..k])
    decreases |outcomes| - k
  {
    if k < |outcomes| {
      var n := |outcomes| - 1;
      assert outcomes[..n][..k] == outcomes[..k];
      CollectStopsAtFirstError(outcomes[..n], k);
    } else {
      assert outcomes[..k] == outcomes;
    }
  }

  /** A successful loop has one value per iteration, in order. */
  lemma {:induction false} CollectShape<T, E>(outcomes: seq<Result<T, E>>)
    requires Collect(outcomes).Ok?
    ensures var values := Collect(outcomes).value;
      |values| == |outcomes| && forall i :: 0 <= i < |outcomes| ==> outcomes[i] == Ok(values[i])
  {
    if outcomes != [] {
      var n := |outcomes| - 1;
      CollectShape(outcomes[..n]);
      var front := Collect(outcomes[..n]).value;
      var values := Collect(outcomes).value;
      assert values == front + [outcomes[n].value];
      forall i | 0 <= i < |outcomes| ensures outcomes[i] == Ok(values[i]) {
        if i < n {
          assert outcomes[..n][i] == outcomes[i];
        }
      }
    }
  }

  /** The loop succeeds exactly when every iteration does. */
  lemma {:induction false} CollectSucceedsIff<T, E>(outcomes: seq<Result<T, E>>)
    ensures Collect(outcomes).Ok? <==> forall i :: 0 <= i < |outcomes| ==> outcomes[i].Ok?
  {
    if outcomes != [] {
      var n := |outcomes| - 1;
      CollectSucceedsIff(outcomes[..n]);
      assert forall i :: 0 <= i < n ==> outcomes[..n][i] == outcomes[i];
    }
  }

  /** A failed loop reports the error of its first failing iteration. */
  lemma {:induction false} CollectFirstError<T, E>(outcomes: seq<Result<T, E>>)
    requires Collect(outcomes).Err?
    ensures exists i ::
      && 0 <= i < |outcomes|
      && outcomes[i] == Err(Collect(outcomes).error)
      && forall j :: 0 <= j < i ==> outcomes[j].Ok?
  {
    var n := |outcomes| - 1;
    if Collect(outcomes[..n]).Err? {
      CollectFirstError(outcomes[..n]);
      var i :| 0 <= i < n && outcomes[..n][i] == Err(Collect(outcomes[..n]).error) &&
        forall j :: 0 <= j < i ==> outcomes[..n][j].Ok?;
      assert forall j :: 0 <= j < i ==> outcomes[..n][j] == outcomes[j];
      assert outcomes[i] == Err(Collect(outcomes).error);
    } else {
      CollectSucceedsIff(outcomes[..n]);
      assert forall j :: 0 <= j < n ==> outcomes[..n][j] == outcomes[j];
      assert outcomes[n] == Err(Collect(outcomes).error);
    }
  }

  /** Once a prefix of the member loop fails, the whole loop fails with the same error. */
  lemma PlanStopsAtFirstError(members: seq<Property>, bindings: map<string, string>, catalog: seq<string>, hasIndexer: bool, k: nat)
    requires k <= |members|
    requires Plan(members[..k], bindings, catalog, hasIndexer).Err?
    ensures Plan(members, bindings, catalog, hasIndexer) == Plan(members[..k], bindings, catalog, hasIndexer)
  {
    var outcomes := Outcomes(members, bindings, catalog, hasIndexer);
    assert Outcomes(members[..k], bindings, catalog, hasIndexer) == outcomes[..k];
    CollectStopsAtFirstError(outcomes, k);
  }

  /** A failed member loop reports the error of its first failing member. */
  lemma PlanErrorIsFirstFailure(members: seq<Property>, bindings: map<string, string>, catalog: seq<string>, hasIndexer: bool)
    requires Plan(members, bindings, catalog, hasIndexer).Err?
    ensures exists i ::
      && 0 <= i < |members|
      && BindMember(members[i], bindings, catalog, hasIndexer) == Err(Plan(members, bindings, catalog, hasIndexer).error)
      && forall j :: 0 <= j < i ==> BindMember(members[j], bindings, catalog, hasIndexer).Ok?
  {
    CollectFirstError(Outcomes(members, bindings, catalog, hasIndexer));
  }

  /**
   * A successful plan has one binding per member, in member order: the
   * member's name, the column it is read from, and the coercion its declared
   * type selects, whose routine is found exactly once.
   */
  lemma PlanShape(members: seq<Property>, bindings: map<string, string>, catalog: seq<string>, hasIndexer: bool)
    requires Plan(members, bindings, catalog, hasIndexer).Ok?
    ensures var plan := Plan(members, bindings, catalog, hasIndexer).value;
      && |plan| == |members|
      && forall i :: 0 <= i < |plan| ==>
        plan[i] == BindingOf(members[i], bindings) && SingleRoutine(catalog, RoutineName(plan[i].coercion))
  {
    CollectShape(Outcomes(members, bindings, catalog, hasIndexer));
  }

  /** The bindings of a successful plan are exactly those of its members. */
  lemma PlanMembership(members: seq<Property>, bindings: map<string, string>, catalog: seq<string>, hasIndexer: bool)
    requires Plan(members, bindings, catalog, hasIndexer).Ok?
    ensures var plan := Plan(members, bindings, catalog, hasIndexer).value;
      forall b :: b in plan <==> exists m :: m in members && b == BindingOf(m, bindings)
  {
    PlanShape(members, bindings, catalog, hasIndexer);
    var plan := Plan(members, bindings, catalog, hasIndexer).value;
    forall b | b in plan ensures exists m :: m in members && b == BindingOf(m, bindings) {
      var i :| 0 <= i < |plan| && plan[i] == b;
      assert members[i] in members;
    }
    forall m | m in members ensures BindingOf(m, bindings) in plan {
      var i :| 0 <= i < |members| && members[i] == m;
      assert plan[i] == BindingOf(m, bindings);
    }
  }

  /**
   * The plan is built exactly when there is nothing to bind, or the row type
   * has its string indexer and every member's routine is found exactly once.
   */
  lemma PlanSucceedsIff(members: seq<Property>, bindings: map<string, string>, catalog: seq<string>, hasIndexer: bool)
    ensures Plan(members, bindings, catalog, hasIndexer).Ok? <==>
      members == [] ||
      (hasIndexer && forall i :: 0 <= i < |members| ==> SingleRoutine(catalog, RoutineName(CoercionFor(members[i].kind))))
  {
    CollectSucceedsIff(Outcomes(members, bindings, catalog, hasIndexer));
  }

  /**
   * Without a string indexer on the row type the plan fails as soon as one
   * member is to be bound, and only then.
   */
  lemma MissingIndexerFails(members: seq<Property>, bindings: map<string, string>, catalog: seq<string>)
    ensures Plan(members, bindings, catalog, false) == if members == [] then Ok([]) else Err(UnsupportedRowShape)
  {
    if members != [] {
      PlanSucceedsIff(members, bindings, catalog, false);
      PlanErrorIsFirstFailure(members, bindings, catalog, false);
    }
  }

  /** A routine-lookup failure names the routine of some member, and that routine is not found exactly once. */
  lemma RoutineFailureNamesMember(members: seq<Property>, bindings: map<string, string>, catalog: seq<string>, hasIndexer: bool, routine: string)
    requires Plan(members, bindings, catalog, hasIndexer) == Err(NoSingleRoutine(routine))
    ensures !SingleRoutine(catalog, routine)
    ensures exists i :: 0 <= i < |members| && RoutineName(CoercionFor(members[i].kind)) == routine
  {
    PlanErrorIsFirstFailure(members, bindings, catalog, hasIndexer);
  }

  /** The eligible kinds: everything but a class whose short name is not "String". */
  lemma EligibleKinds(p: Property)
    ensures IsNotClass(p) <==> !p.kind.OtherClass? || p.kind.name == "String"
  {
  }

  /**
   * With a non-empty dictionary the plan binds exactly the eligible
   * properties whose name is a key, each read from the column the key maps to.
   */
  lemma BoundWithMapping(properties: seq<Property>, bindings: map<string, string>, catalog: seq<string>, hasIndexer: bool)
    requires bindings != map[]
    requires Plan(GetProperties(properties, bindings), bindings, catalog, hasIndexer).Ok?
    ensures var plan := Plan(GetProperties(properties, bindings), bindings, catalog, hasIndexer).value;
      forall b :: b in plan <==>
        exists p :: p in properties && p.name in bindings && IsNotClass(p) &&
          b == MemberBinding(p.name, bindings[p.name], CoercionFor(p.kind))
  {
    SelectedProperties(properties, bindings);
    PlanMembership(GetProperties(properties, bindings), bindings, catalog, hasIndexer);
  }

  /**
   * With an empty dictionary the plan binds every eligible property, each
   * read from a column spelled like the property itself.
   */
  lemma BoundWithoutMapping(properties: seq<Property>, catalog: seq<string>, hasIndexer: bool)
    requires Plan(GetProperties(properties, map[]), map[], catalog, hasIndexer).Ok?
    ensures var plan := Plan(GetProperties(properties, map[]), map[], catalog, hasIndexer).value;
      forall b :: b in plan <==>
        exists p :: p in properties && IsNotClass(p) &&
          b == MemberBinding(p.name, p.name, CoercionFor(p.kind))
  {
    SelectedProperties(properties, map[]);
    PlanMembership(GetProperties(properties, map[]), map[], catalog, hasIndexer);
  }

  /**
   * A name carried only by properties whose type is a class other than
   * string is never bound, even when the dictionary names it.
   */
  lemma ClassPropertiesNeverBound(properties: seq<Property>, bindings: map<string, string>, catalog: seq<string>, hasIndexer: bool, name: string)
    requires forall p :: p in properties && p.name == name ==> !IsNotClass(p)
    requires Plan(GetProperties(properties, bindings), bindings, catalog, hasIndexer).Ok?
    ensures var plan := Plan(GetProperties(properties, bindings), bindings, catalog, hasIndexer).value;
      forall b :: b in plan ==> b.property != name
  {
    SelectedProperties(properties, bindings);
    PlanMembership(GetProperties(properties, bindings), bindings, catalog, hasIndexer);
  }
}
