/**
 * Concrete rows and target types, worked through the model.
 */
module Scenarios {
  import opened Types
  import opened Text
  import opened Columns
  import opened Resolution
  import opened Binding
  import opened DataRecordExtensions

  const Id := Property("Id", Primitive("Int32"))
  const Name := Property("Name", Str)
  const Age := Property("Age", NullableOf("Int32"))
  const UserId := Property("UserId", Primitive("Int32"))

  const Verbatim := CasheConfig(false, {}, map[])
  const StandardCodeStyle := CasheConfig(true, {}, map[])

  /** The routines of `Check` that the scenarios need, each defined once. */
  const Routines := ["AsInt32", "AsNullableInt32", "DBNullValue"]

  /** Columns "A_B" and "AB" collide under the standard code-style convention. */
  lemma UnderscoreCollisionExample()
    ensures Resolve(["A_B", "AB"], [], StandardCodeStyle) == Err(ColumnKeyCollision)
  {
    var names := ["A_B", "AB"];
    assert Upper(names[0]) == "A_B";
    assert Upper(names[1]) == "AB";
    assert StripUnderscores("A_B") == "AB";
    UnderscoreCollisionFails(names, [], StandardCodeStyle, 0, 1);
  }

  /**
   * Columns "a_b" and "A_B" differ only in case: the upper-cased column set
   * merges them, so they do not collide and resolution succeeds.
   */
  lemma CaseVariantsMergeExample()
    ensures ColumnSet(["a_b", "A_B"], Upper) == {"A_B"}
    ensures Resolve(["a_b", "A_B"], [], StandardCodeStyle) == Ok(map[])
  {
    assert Upper("a_b") == "A_B" && Upper("A_B") == "A_B";
    TwoColumns("a_b", "A_B", Upper);
    assert !KeysCollide({"A_B"}, true);
  }

  /**
   * Property UserId is read from column USER_ID under the standard
   * code-style convention, and resolves to nothing verbatim.
   */
  lemma UserIdConventionExample()
    ensures Resolve(["USER_ID"], [UserId], StandardCodeStyle).Ok?
    ensures var m := Resolve(["USER_ID"], [UserId], StandardCodeStyle).value;
      "UserId" in m && m["UserId"] == "USER_ID"
    ensures Resolve(["USER_ID"], [UserId], Verbatim) == Ok(map[])
  {
    UserIdStandardResolves();
    UserIdVerbatimResolves();
  }

  lemma UserIdStandardResolves()
    ensures Resolve(["USER_ID"], [UserId], StandardCodeStyle).Ok?
    ensures var m := Resolve(["USER_ID"], [UserId], StandardCodeStyle).value;
      "UserId" in m && m["UserId"] == "USER_ID"
  {
    var names := ["USER_ID"];
    UserIdSpellings();
    OneColumn("USER_ID", Upper);
    DistinctNamesResolve(names, [UserId], StandardCodeStyle);
    MatchingPropertiesAreResolved(names, [UserId], StandardCodeStyle, UserId, "USER_ID");
  }

  lemma UserIdVerbatimResolves()
    ensures Resolve(["USER_ID"], [UserId], Verbatim) == Ok(map[])
  {
    UserIdSpellings();
    OneColumn("USER_ID", Upper);
    var columnDictionary := ColumnDictionary({"USER_ID"}, false).value;
    assert "USERID" !in columnDictionary;
    assert ConventionPairs([UserId], columnDictionary) == [];
  }

  lemma UserIdSpellings()
    ensures Upper("UserId") == "USERID" && Upper("USER_ID") == "USER_ID"
    ensures StripUnderscores("USER_ID") == "USERID"
  {
    UpperUserId();
    StripUserId();
  }

  lemma UpperUserId()
    ensures Upper("UserId") == "USERID" && Upper("USER_ID") == "USER_ID"
  {
  }

  lemma StripUserId()
    ensures StripUnderscores("USER_ID") == "USERID"
  {
    var user, id := "USER", "ID";
    assert "USER_ID" == user + ("_" + id);
    StripConcat(user, "_" + id);
    StripConcat("_", id);
    StripFixesExactlyUnderscoreFree(user);
    StripFixesExactlyUnderscoreFree(id);
    assert user + id == "USERID";
  }

  /**
   * Target {Id: int, Name: string, Age: int?} over a row with columns ID and
   * NAME: Id and Name are bound to their columns, Age is left alone, and no
   * error arises for the missing optional column.
   */
  lemma MissingOptionalColumnExample()
    ensures Compile(["ID", "NAME"], [Id, Name, Age], Verbatim, Routines, true) ==
      Ok([MemberBinding("Id", "ID", As("Int32")), MemberBinding("Name", "NAME", DBNullValueThenCast(Str))])
  {
    IdNameResolves();
    var mapping := Resolve(["ID", "NAME"], [Id, Name, Age], Verbatim).value;
    IdNameSelected(mapping);
    IdNamePlan(mapping);
  }

  lemma IdNameSelected(mapping: map<string, string>)
    requires "Id" in mapping && "Name" in mapping && "Age" !in mapping
    ensures GetProperties([Id, Name, Age], mapping) == [Id, Name]
  {
    assert GetProperties([Age], mapping) == [];
    assert [Id, Name, Age][1..] == [Name, Age];
    assert [Name, Age][1..] == [Age];
  }

  lemma IdNameResolves()
    ensures Resolve(["ID", "NAME"], [Id, Name, Age], Verbatim).Ok?
    ensures var m := Resolve(["ID", "NAME"], [Id, Name, Age], Verbatim).value;
      && "Id" in m && m["Id"] == "ID"
      && "Name" in m && m["Name"] == "NAME"
      && "Age" !in m
  {
    var names := ["ID", "NAME"];
    var properties := [Id, Name, Age];
    IdNameColumns();
    IdNameAgeSpellings();
    DistinctNamesResolve(names, properties, Verbatim);
    IdNameMatch();
    AgeNoMatch();
  }

  lemma IdNameColumns()
    ensures ColumnSet(["ID", "NAME"], Upper) == {"ID", "NAME"}
    ensures !KeysCollide({"ID", "NAME"}, false)
  {
    IdNameAgeSpellings();
    TwoColumns("ID", "NAME", Upper);
  }

  lemma IdNameMatch()
    ensures ConventionMapping(["ID", "NAME"], [Id, Name, Age], Verbatim).Ok? ==>
      var d := ConventionMapping(["ID", "NAME"], [Id, Name, Age], Verbatim).value;
      "Id" in d && d["Id"] == "ID" && "Name" in d && d["Name"] == "NAME"
  {
    if ConventionMapping(["ID", "NAME"], [Id, Name, Age], Verbatim).Ok? {
      IdNameColumns();
      IdNameAgeSpellings();
      MatchingPropertiesAreResolved(["ID", "NAME"], [Id, Name, Age], Verbatim, Id, "ID");
      MatchingPropertiesAreResolved(["ID", "NAME"], [Id, Name, Age], Verbatim, Name, "NAME");
    }
  }

  lemma AgeNoMatch()
    ensures ConventionMapping(["ID", "NAME"], [Id, Name, Age], Verbatim).Ok? ==>
      "Age" !in ConventionMapping(["ID", "NAME"], [Id, Name, Age], Verbatim).value
  {
    if ConventionMapping(["ID", "NAME"], [Id, Name, Age], Verbatim).Ok? {
      IdNameColumns();
      IdNameAgeSpellings();
      ConventionEntriesAreMatches(["ID", "NAME"], [Id, Name, Age], Verbatim);
    }
  }

  lemma IdNameAgeSpellings()
    ensures Upper("ID") == "ID" && Upper("NAME") == "NAME"
    ensures Upper("Id") == "ID" && Upper("Name") == "NAME" && Upper("Age") == "AGE"
  {
  }

  lemma IdNamePlan(mapping: map<string, string>)
    requires "Id" in mapping && mapping["Id"] == "ID"
    requires "Name" in mapping && mapping["Name"] == "NAME"
    ensures Plan([Id, Name], mapping, Routines, true) ==
      Ok([MemberBinding("Id", "ID", As("Int32")), MemberBinding("Name", "NAME", DBNullValueThenCast(Str))])
  {
    var members := [Id, Name];
    assert RoutineName(CoercionFor(Id.kind)) == "AsInt32" && SingleRoutine(Routines, "AsInt32");
    assert RoutineName(CoercionFor(Name.kind)) == "DBNullValue" && SingleRoutine(Routines, "DBNullValue");
    PlanSucceedsIff(members, mapping, Routines, true);
    assert Plan(members, mapping, Routines, true).Ok?;
    PlanShape(members, mapping, Routines, true);
    var plan := Plan(members, mapping, Routines, true).value;
    var a := MemberBinding("Id", "ID", As("Int32"));
    var b := MemberBinding("Name", "NAME", DBNullValueThenCast(Str));
    assert plan[0] == a && plan[1] == b;
    assert plan == [a, b];
  }

  /**
   * A row none of whose columns matches: the plan still reads property Id,
   * from a column named "Id" that the row does not have.
   */
  lemma NoMatchingColumnExample()
    ensures Compile(["X"], [Id], Verbatim, Routines, true) == Ok([MemberBinding("Id", "Id", As("Int32"))])
    ensures "Id" !in ColumnSet(["X"], Upper)
  {
    NoMatchResolves();
    assert GetProperties([Id], map[]) == [Id];
    IdPlan(map[], "Id");
  }

  lemma NoMatchResolves()
    ensures "Id" !in ColumnSet(["X"], Upper)
    ensures Resolve(["X"], [Id], Verbatim) == Ok(map[])
  {
    assert Upper("X") == "X";
    OneColumn("X", Upper);
    var columnDictionary := ColumnDictionary({"X"}, false).value;
    assert "ID" !in columnDictionary by {
      assert Upper("Id") == "ID";
    }
    assert ConventionPairs([Id], columnDictionary) == [];
  }

  /** Binding Id alone, reading the given column, succeeds with AsInt32. */
  lemma IdPlan(bindings: map<string, string>, column: string)
    requires ColumnFor("Id", bindings) == column
    ensures Plan([Id], bindings, Routines, true) == Ok([MemberBinding("Id", column, As("Int32"))])
  {
    var members := [Id];
    assert RoutineName(CoercionFor(Id.kind)) == "AsInt32" && SingleRoutine(Routines, "AsInt32");
    PlanSucceedsIff(members, bindings, Routines, true);
    assert Plan(members, bindings, Routines, true).Ok?;
    PlanShape(members, bindings, Routines, true);
    var plan := Plan(members, bindings, Routines, true).value;
    var b := MemberBinding("Id", column, As("Int32"));
    assert plan[0] == b;
    assert plan == [b];
  }

  lemma OneColumn(a: string, fold: string -> string)
    ensures ColumnSet([a], fold) == {fold(a)}
  {
    assert fold([a][0]) in ColumnSet([a], fold);
  }

  lemma TwoColumns(a: string, b: string, fold: string -> string)
    ensures ColumnSet([a, b], fold) == {fold(a), fold(b)}
  {
    assert fold([a, b][0]) in ColumnSet([a, b], fold);
    assert fold([a, b][1]) in ColumnSet([a, b], fold);
  }
}
