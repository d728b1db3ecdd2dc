/** An explicit table of type shapes standing in for runtime reflection, and the
    entity-shape scan that pairs each property with its effective type. */
module TypeShapes {
  import opened Wrappers

  /** A type is named by its position in the table. */
  type TypeId = nat

  /** A public instance property: its name and its declared type. */
  datatype Property = Property(name: string, declaredType: TypeId)

  /** A type: its short name, its element type when it is a generic collection
      (the first generic argument), and its public properties in the order reflection returns them. */
  datatype TypeInfo = TypeInfo(name: string, elementType: Option<TypeId>, properties: seq<Property>)
  {
    predicate IsCollection()
    {
      elementType.Some?
    }
  }

  type TypeTable = seq<TypeInfo>

  /** Every type the table mentions is in the table. */
  predicate ValidTable(table: TypeTable)
  {
    forall t | 0 <= t < |table| ::
      && (table[t].elementType.Some? ==> table[t].elementType.value < |table|)
      && forall p | p in table[t].properties :: p.declaredType < |table|
  }

  /** The type a property stands for: the element type of a collection, otherwise the type itself. */
  function EffectiveType(table: TypeTable, t: TypeId): (e: TypeId)
    requires ValidTable(table) && t < |table|
    ensures e < |table|
    ensures table[t].IsCollection() ==> Some(e) == table[t].elementType
    ensures !table[t].IsCollection() ==> e == t
  {
    if table[t].IsCollection() then table[t].elementType.value else t
  }

  /** A property paired with a type: the effective type for root entries, the declared type for chained ones. */
  datatype FieldShape = FieldShape(property: Property, fieldType: TypeId)

  /** Every type a list of field shapes mentions is in the table. */
  predicate InTable(table: TypeTable, shape: seq<FieldShape>)
  {
    forall f | f in shape :: f.fieldType < |table| && f.property.declaredType < |table|
  }

  /** The entity shape of a property list: same length and order, entry i pairs
      property i with its effective type. */
  function EntityShape(table: TypeTable, props: seq<Property>): (shape: seq<FieldShape>)
    requires ValidTable(table)
    requires forall p | p in props :: p.declaredType < |table|
    ensures |shape| == |props|
    ensures forall i | 0 <= i < |props| ::
      shape[i] == FieldShape(props[i], EffectiveType(table, props[i].declaredType))
    ensures InTable(table, shape)
  {
    if props == [] then []
    else [FieldShape(props[0], EffectiveType(table, props[0].declaredType))] + EntityShape(table, props[1..])
  }

  /** Scans the public properties of `entityType`, one at a time, recording each with its effective type. */
  method GetEntityProperties(table: TypeTable, entityType: TypeId) returns (entityProperties: seq<FieldShape>)
    requires ValidTable(table) && entityType < |table|
    ensures entityProperties == EntityShape(table, table[entityType].properties)
  {
    var props := table[entityType].properties;
    entityProperties := [];
    for i := 0 to |props|
      invariant |entityProperties| == i
      invariant forall j | 0 <= j < i ::
        entityProperties[j] == FieldShape(props[j], EffectiveType(table, props[j].declaredType))
    {
      var x := props[i];
      if table[x.declaredType].IsCollection() {
        entityProperties := entityProperties + [FieldShape(x, table[x.declaredType].elementType.value)];
      } else {
        entityProperties := entityProperties + [FieldShape(x, x.declaredType)];
      }
    }
  }
}
