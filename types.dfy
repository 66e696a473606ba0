/**
 * Plain-data stand-ins for what DataRecordExtensions obtains by reflection:
 * the properties of the target type, the binding configuration,
 * the failures that stop plan construction, and the member-binding plan that
 * the expression tree would encode.
 */
module Types {

  /** The outcome of an operation that can throw in the source. */
  datatype Result<+T, +E> = Ok(value: T) | Err(error: E)

  /**
   * The declared type of a property, as far as the mapper looks at it.
   * `Primitive` is a type for which `Type.IsPrimitive` holds (Int32, Boolean,
   * Double, ...), named by its short name; `NullableOf` is `Nullable<T>` with
   * the short name of T; `Str` is System.String; `OtherClass` is any other
   * type for which `Type.IsClass` holds (a class, an array, a delegate),
   * named by its short name; `OtherNonClass` is every remaining type, for
   * which `Type.IsClass` is false: a struct that is neither primitive nor
   * nullable (Decimal, DateTime, ...), an enum, or an interface.
   */
  datatype Kind =
    | Primitive(name: string)
    | NullableOf(underlying: string)
    | Str
    | OtherClass(name: string)
    | OtherNonClass(name: string)

  /** A public property of the target type: its name and declared type. */
  datatype Property = Property(name: string, kind: Kind)

  /**
   * The binding configuration, spelled CasheConfig as in the source. A null
   * ignore list or binding dictionary behaves exactly like an empty one
   * wherever the mapper reads it, so both are modelled by the empty collection.
   */
  datatype CasheConfig = CasheConfig(
    useStandardCodeStyleForMembers: bool,
    ignoreMembers: set<string>,
    bindings: map<string, string>)

  /** The exceptions that stop mapping or plan construction. */
  datatype MapError =
    | ColumnKeyCollision      // ToDictionary over the column names met a key twice
    | DuplicatePropertyName   // ToDictionary over the matched properties met a name twice
    | UnsupportedRowShape     // the row type has no string-indexed accessor
    | NoSingleRoutine(routine: string)  // Single() found zero or several routines of that name

  /** How a raw column value is turned into the property's value. */
  datatype Coercion =
    | As(typeName: string)              // Check.As<TypeName>(value)
    | AsNullable(underlying: string)    // Check.AsNullable<Underlying>(value)
    | DBNullValueThenCast(target: Kind) // (T)Check.DBNullValue(value)

  /** One member binding of the compiled initializer: property := coerce(row[column]). */
  datatype MemberBinding = MemberBinding(property: string, column: string, coercion: Coercion)
}
