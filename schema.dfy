/** The part of a built GraphQL schema that the lazy metadata query looks at:
    the query type, its fields, their types and arguments. Only the type
    constructors the generator distinguishes are kept apart: scalars, unions,
    the non-null and list wrappers, and the other named types (enums, objects). */
module Schema {
  import opened Wrappers

  datatype SchemaType =
    | Scalar(name: string)
    | Enum(name: string)
    | Object(obj: ObjectType)
    | Union(name: string, types: seq<ObjectType>)
    | List(ofType: SchemaType)
    | NonNull(ofType: SchemaType)

  /** An argument of a field; `hasDefault` is false when its default value is undefined. */
  datatype Argument = Argument(name: string, typ: SchemaType, hasDefault: bool)

  datatype FieldDef = FieldDef(typ: SchemaType, args: seq<Argument>)

  /** An object type; `fields` is what `getFields()` returns, keyed by field name. */
  datatype ObjectType = ObjectType(name: string, fields: map<string, FieldDef>)

  /** A schema; `queryType` is what `getQueryType()` returns. */
  datatype GraphQLSchema = GraphQLSchema(queryType: Option<ObjectType>)

  /** The type with at most one outer non-null wrapper removed. */
  function StripNonNull(t: SchemaType): SchemaType
  {
    if t.NonNull? then t.ofType else t
  }

  /** The textual form of a type reference, as GraphQL writes it: `Name`, `[T]`, `T!`. */
  function TypeString(t: SchemaType): string
  {
    match t
    case Scalar(name) => name
    case Enum(name) => name
    case Object(obj) => obj.name
    case Union(name, _) => name
    case List(ofType) => "[" + TypeString(ofType) + "]"
    case NonNull(ofType) => TypeString(ofType) + "!"
  }
}
