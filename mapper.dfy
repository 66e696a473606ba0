/**
 * The entry point `Map<TModel>(reader, casheConfig)`: resolves the
 * property-to-column dictionary for the row's columns and builds the
 * member-binding plan over it. The lemmas here state what the two stages
 * give together.
 */
module DataRecordExtensions {
  import opened Types
  import opened Text
  import opened Columns
  import opened Resolution
  import opened Binding

  /** The plan produced for one row shape, target type and configuration. */
  function Compile(columnNames: seq<string>, properties: seq<Property>, config: CasheConfig, catalog: seq<string>, hasIndexer: bool)
    : Result<seq<MemberBinding>, MapError>
  {
    match Resolve(columnNames, properties, config)
    case Err(e) => Err(e)
    case Ok(mapping) => Plan(GetProperties(properties, mapping), mapping, catalog, hasIndexer)
  }

  /** Map(reader, casheConfig): GetPropertyNames followed by the member loop. */
  method Map(columnNames: seq<string>, properties: seq<Property>, config: CasheConfig, catalog: seq<string>, hasIndexer: bool)
    returns (r: Result<seq<MemberBinding>, MapError>)
    ensures r == Compile(columnNames, properties, config, catalog, hasIndexer)
  {
    var mapping := GetPropertyNames(columnNames, properties, config);
    if mapping.Err? {
      return Err(mapping.error);
    }
    r := Binding.Map(properties, mapping.value, catalog, hasIndexer);
  }

  /**
   * An eligible member with an explicit binding is read from the bound
   * column, whatever the convention found; this holds for a member on the
   * ignore list too, since the ignore list only filters the convention pass.
   */
  lemma ExplicitBindingWins(columnNames: seq<string>, properties: seq<Property>, config: CasheConfig,
                            catalog: seq<string>, hasIndexer: bool, p: Property)
    requires p in properties && IsNotClass(p)
    requires p.name in config.bindings
    requires Compile(columnNames, properties, config, catalog, hasIndexer).Ok?
    ensures MemberBinding(p.name, config.bindings[p.name], CoercionFor(p.kind))
      in Compile(columnNames, properties, config, catalog, hasIndexer).value
  {
    var mapping := Resolve(columnNames, properties, config).value;
    BindingsOverrideConvention(columnNames, properties, config);
    assert p.name in mapping;
    BoundWithMapping(properties, mapping, catalog, hasIndexer);
  }

  /**
   * An eligible, non-ignored, explicitly unbound property whose upper-cased
   * name is the key of a row column is read from that column.
   */
  lemma ConventionMatchIsBound(columnNames: seq<string>, properties: seq<Property>, config: CasheConfig,
                               catalog: seq<string>, hasIndexer: bool, p: Property, column: string)
    requires p in properties && IsNotClass(p)
    requires p.name !in config.ignoreMembers && p.name !in config.bindings
    requires column in ColumnSet(columnNames, Upper)
    requires MatchesByConvention(p.name, column, config.useStandardCodeStyleForMembers)
    requires Compile(columnNames, properties, config, catalog, hasIndexer).Ok?
    ensures MemberBinding(p.name, column, CoercionFor(p.kind))
      in Compile(columnNames, properties, config, catalog, hasIndexer).value
  {
    var mapping := Resolve(columnNames, properties, config).value;
    MatchingPropertiesAreResolved(columnNames, properties, config, p, column);
    BindingsOverrideConvention(columnNames, properties, config);
    assert mapping[p.name] == column;
    BoundWithMapping(properties, mapping, catalog, hasIndexer);
  }

  /**
   * When resolution found something, every binding of the plan is either an
   * explicit binding or a convention match against a column of the row, for
   * an eligible property of the target type.
   */
  lemma BoundColumnsAreResolved(columnNames: seq<string>, properties: seq<Property>, config: CasheConfig,
                                catalog: seq<string>, hasIndexer: bool)
    requires Resolve(columnNames, properties, config).Ok?
    requires Resolve(columnNames, properties, config).value != map[]
    requires Compile(columnNames, properties, config, catalog, hasIndexer).Ok?
    ensures forall b :: b in Compile(columnNames, properties, config, catalog, hasIndexer).value ==>
      && (exists p :: p in properties && IsNotClass(p) && p.name == b.property)
      && if b.property in config.bindings then b.column == config.bindings[b.property]
         else
           && b.property !in config.ignoreMembers
           && b.column in ColumnSet(columnNames, Upper)
           && MatchesByConvention(b.property, b.column, config.useStandardCodeStyleForMembers)
  {
    var mapping := Resolve(columnNames, properties, config).value;
    BindingsOverrideConvention(columnNames, properties, config);
    ConventionEntriesAreMatches(columnNames, properties, config);
    BoundWithMapping(properties, mapping, catalog, hasIndexer);
  }

  /**
   * When resolution found nothing (no convention match, no explicit binding),
   * the empty dictionary makes the plan bind every eligible property to a
   * column spelled like the property, whether or not the row has it.
   */
  lemma NothingResolvedBindsEverything(columnNames: seq<string>, properties: seq<Property>, config: CasheConfig,
                                       catalog: seq<string>, hasIndexer: bool)
    requires Resolve(columnNames, properties, config) == Ok(map[])
    requires Compile(columnNames, properties, config, catalog, hasIndexer).Ok?
    ensures forall p :: p in properties && IsNotClass(p) ==>
      MemberBinding(p.name, p.name, CoercionFor(p.kind)) in Compile(columnNames, properties, config, catalog, hasIndexer).value
  {
    BoundWithoutMapping(properties, catalog, hasIndexer);
  }
}
