/** The CLR types, entity metadata and method tags the navigation expansion
    consults, reduced to plain values: reflection, `IModel` and `INavigation`
    lookups become fields and small functions over these datatypes. */
module Clr {
  import opened Outcomes

  /** The name of a CLR type; the runtime never gives a type an empty name. */
  type TypeName = s: string | |s| > 0 witness "T"

  /** The generic type definitions the rewriters compare against. */
  datatype GenericDefinition =
    | IEnumerable
    | IOrderedEnumerable
    | IQueryable
    | IOrderedQueryable
    | IIncludableQueryable
    | ListOf
    | OtherGeneric(name: TypeName)

  datatype ClrType =
    | ValueType(name: TypeName, lifted: bool)            // a struct, or its Nullable<> form when lifted
    | ReferenceType(name: TypeName)                       // a class: an entity type, string, ...
    | GenericType(definition: GenericDefinition, arguments: seq<ClrType>)
    | DelegateType(parameters: seq<ClrType>, result: ClrType)
    | MemberType(owner: ClrType, member: string)          // the type of a property found by reflection

  const BoolType: ClrType := ValueType("Boolean", false)
  const IntType: ClrType := ValueType("Int32", false)
  const StringType: ClrType := ReferenceType("String")

  /** `Type.GetGenericArguments()`: the arguments of a constructed generic
      type, the parameter types and result type of a `Func<>`, and the
      underlying struct of a `Nullable<>`. */
  function GenericArguments(t: ClrType): seq<ClrType> {
    match t
    case GenericType(_, arguments) => arguments
    case DelegateType(parameters, result) => parameters + [result]
    case ValueType(name, lifted) => if lifted then [ValueType(name, false)] else []
    case _ => []
  }

  /** `Type.IsGenericType`. */
  predicate IsGenericType(t: ClrType) {
    GenericArguments(t) != []
  }

  /** A reference type or a Nullable<> can hold null; a plain struct cannot.
      The type of a property found by reflection is treated as a reference type. */
  predicate IsNullableType(t: ClrType) {
    !(t.ValueType? && !t.lifted)
  }

  function MakeNullable(t: ClrType): (r: ClrType)
    ensures IsNullableType(r)
    ensures IsNullableType(t) ==> r == t
  {
    if t.ValueType? then ValueType(t.name, true) else t
  }

  /** `Type.Name`. */
  function NameOf(t: ClrType): TypeName {
    match t
    case ValueType(n, lifted) => if lifted then "Nullable`1" else n
    case ReferenceType(n) => n
    case GenericType(d, _) =>
      (match d
       case IEnumerable => "IEnumerable`1"
       case IOrderedEnumerable => "IOrderedEnumerable`1"
       case IQueryable => "IQueryable`1"
       case IOrderedQueryable => "IOrderedQueryable`1"
       case IIncludableQueryable => "IIncludableQueryable`2"
       case ListOf => "List`1"
       case OtherGeneric(n) => n)
    case DelegateType(_, _) => "Func`1"
    case MemberType(_, _) => "Object"
  }

  /** `GetGenericTypeDefinition()` of a constructed generic sequence type. */
  function GenericDefinitionOf(t: ClrType): Option<GenericDefinition> {
    if t.GenericType? then Some(t.definition) else None
  }

  /** `TryGetSequenceType`: the element type of a sequence type. */
  function TryGetSequenceType(t: ClrType): (r: Option<ClrType>)
    ensures r.Some? ==> t.GenericType? && |t.arguments| > 0 && r.value == t.arguments[0]
  {
    if t.GenericType? && !t.definition.OtherGeneric? && |t.arguments| > 0
    then Some(t.arguments[0])
    else None
  }

  function SequenceOf(definition: GenericDefinition, element: ClrType): (r: ClrType)
    ensures TryGetSequenceType(r) == (if definition.OtherGeneric? then None else Some(element))
  {
    GenericType(definition, [element])
  }

  // ---------------------------------------------------------------- metadata

  datatype Property = Property(name: string, propertyType: ClrType)

  datatype EntityType = EntityType(name: TypeName, primaryKey: seq<Property>) {
    function ClrType(): ClrType { ReferenceType(name) }
  }

  datatype ForeignKey = ForeignKey(
    declaringEntityType: EntityType,   // the dependent side, which holds the foreign key properties
    properties: seq<Property>,
    principalKey: seq<Property>,
    isRequired: bool)

  datatype Navigation = Navigation(
    name: string,
    declaringEntityType: EntityType,
    targetEntityType: EntityType,
    foreignKey: ForeignKey,
    isDependentToPrincipal: bool,
    isCollection: bool,
    clrType: ClrType)

  /** The part of `IModel` the expanding visitor consults. */
  datatype Model = Model(entityTypes: seq<EntityType>, navigations: seq<Navigation>)

  /** `IModel.FindEntityType(clrType)`: the first entity type with that CLR type. */
  function FindEntityType(model: Model, t: ClrType): (r: Option<EntityType>)
    ensures r.Some? ==> r.value in model.entityTypes && r.value.ClrType() == t
    ensures r.None? ==> forall e :: e in model.entityTypes ==> e.ClrType() != t
    decreases |model.entityTypes|
  {
    if model.entityTypes == [] then None
    else if model.entityTypes[0].ClrType() == t then Some(model.entityTypes[0])
    else FindEntityType(Model(model.entityTypes[1..], model.navigations), t)
  }

  /** `IEntityType.FindNavigation(name)`: the navigation of that name declared on the entity type. */
  function FindNavigation(model: Model, declaring: EntityType, name: string): (r: Option<Navigation>)
    ensures r.Some? ==> r.value in model.navigations && r.value.declaringEntityType == declaring && r.value.name == name
    ensures r.None? ==> forall n :: n in model.navigations ==> !(n.declaringEntityType == declaring && n.name == name)
    decreases |model.navigations|
  {
    if model.navigations == [] then None
    else if model.navigations[0].declaringEntityType == declaring && model.navigations[0].name == name
    then Some(model.navigations[0])
    else FindNavigation(Model(model.entityTypes, model.navigations[1..]), declaring, name)
  }

  // ---------------------------------------------------------------- method tags

  /** The declaring types of the methods the rewriters build or recognise. */
  datatype DeclaringType =
    | Queryable
    | Enumerable
    | ListOfT
    | EF
    | EntityFrameworkQueryableExtensions
    | NavigationExpansionHelpers
    | IncludeHelpers
    | NavigationExpansionExpressionType
    | OtherDeclaringType(name: string)

  /** A method, identified by its generic definition: name, declaring type and
      number of parameters (which tells overloads such as `First` and
      `First(predicate)` apart).  The two helper arms stand for the
      expressions built by `CreateKeyAccessExpression` and
      `CreateNullKeyExpression`, whose bodies are not part of this model. */
  datatype Method =
    | Method(name: string, declaringType: DeclaringType, arity: nat)
    | KeyAccess(properties: seq<Property>, addNullCheck: bool)
    | NullKey(keyCount: nat)

  const QueryableWhere := Method("Where", Queryable, 2)
  const QueryableSelect := Method("Select", Queryable, 2)
  const EnumerableSelect := Method("Select", Enumerable, 2)
  const QueryableSelectMany := Method("SelectMany", Queryable, 2)
  const QueryableSelectManyWithResultOperator := Method("SelectMany", Queryable, 3)
  const EnumerableAnyPredicate := Method("Any", Enumerable, 2)
  const QueryableCount := Method("Count", Queryable, 1)
  const EFPropertyMethod := Method("Property", EF, 2)
  const IncludeMethodOfExtensions := Method("Include", EntityFrameworkQueryableExtensions, 2)
  const TagWithMethod := Method("TagWith", EntityFrameworkQueryableExtensions, 2)
  const MaterializeCollectionNavigationMethod := Method("MaterializeCollectionNavigation", NavigationExpansionHelpers, 2)
  const IncludeHelperMethod := Method("IncludeMethod", IncludeHelpers, 3)
  const ToOrderedQueryableMethod := Method("ToOrderedQueryable", NavigationExpansionExpressionType, 1)
  const ToOrderedEnumerableMethod := Method("ToOrderedEnumerable", NavigationExpansionExpressionType, 1)

  /** `IsIncludeMethod`: declared on EntityFrameworkQueryableExtensions and named Include. */
  predicate IsIncludeMethod(m: Method) {
    m.Method? && m.declaringType == EntityFrameworkQueryableExtensions && m.name == "Include"
  }

  predicate IsEFPropertyMethod(m: Method) {
    m == EFPropertyMethod
  }

  /** The eight operators after which a pushed-down member may see a missing
      element: FirstOrDefault and SingleOrDefault, on Queryable or Enumerable,
      with or without a predicate. */
  predicate IsOrDefaultOperator(m: Method) {
    m.Method?
    && (m.name == "FirstOrDefault" || m.name == "SingleOrDefault")
    && (m.declaringType == Queryable || m.declaringType == Enumerable)
    && (m.arity == 1 || m.arity == 2)
  }
}
