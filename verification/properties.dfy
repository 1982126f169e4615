/** VSS node properties (both copies of `VssNodeProperty`), the property builder, and the
    parsed node record `VssNodeSpecModel`. */
module Properties {
  import opened Results

  /** `VssDataKey`: the attribute names a VSS node can carry. */
  datatype DataKey = Uuid | Type | Description | Comment | DataType | Unit | Min | Max

  /** The attribute name as written in VSS files. */
  function Key(k: DataKey): string {
    match k
    case Uuid => "uuid"
    case Type => "type"
    case Description => "description"
    case Comment => "comment"
    case DataType => "datatype"
    case Unit => "unit"
    case Min => "min"
    case Max => "max"
  }

  const AllKeys: set<DataKey> := {Uuid, Type, Description, Comment, DataType, Unit, Min, Max}

  lemma AllKeysComplete(k: DataKey)
    ensures k in AllKeys
  {
  }

  /** `VssDataKey.findByKey`: the data key spelled `s`, if any. */
  function FindByKey(s: string): (r: Option<DataKey>)
    ensures r.Some? ==> Key(r.value) == s
    ensures r.None? ==> forall k: DataKey :: Key(k) != s
  {
    if s == "uuid" then Some(Uuid)
    else if s == "type" then Some(Type)
    else if s == "description" then Some(Description)
    else if s == "comment" then Some(Comment)
    else if s == "datatype" then Some(DataType)
    else if s == "unit" then Some(Unit)
    else if s == "min" then Some(Min)
    else if s == "max" then Some(Max)
    else None
  }

  /** A Kotlin `KClass`, identified by its qualified name. */
  datatype KClass = KClass(qualifiedName: string)

  const StringClass: KClass := KClass("kotlin.String")

  /** `VssDataType.find(datatype).valueDataType`: the representation class of a VSS datatype.
      The table itself is a parameter of the model. */
  type TypeTable = string -> KClass

  /** The runtime class of a property object: `VssNodeProperty` or its subclass `VssSignalProperty`. */
  datatype PropertyClass = NodePropertyClass | SignalPropertyClass

  /** A property object. `VssSignalProperty` has exactly the same state as `VssNodeProperty`;
      only its runtime class differs. */
  datatype NodeProperty = NodeProperty(runtimeClass: PropertyClass, dataKey: DataKey, value: string, dataType: KClass)

  /** `VssNodeProperty.equals(other)`: `other` is non-null, of the same runtime class, and has the same key. */
  predicate Equals(p: NodeProperty, other: Option<NodeProperty>) {
    other.Some? && other.value.runtimeClass == p.runtimeClass && other.value.dataKey == p.dataKey
  }

  /** `VssNodeProperty.hashCode()`: the hash of the data key (the enum's hash is a parameter). */
  function HashCode(p: NodeProperty, keyHash: DataKey -> int): int {
    keyHash(p.dataKey)
  }

  lemma EqualsIgnoresValueAndType(p: NodeProperty, q: NodeProperty)
    requires p.runtimeClass == q.runtimeClass
    ensures Equals(p, Some(q)) <==> p.dataKey == q.dataKey
    ensures p.dataKey == q.dataKey ==> Equals(p, Some(q.(value := p.value, dataType := p.dataType)))
  {
  }

  lemma NodeNeverEqualsSignal(p: NodeProperty, q: NodeProperty)
    requires p.runtimeClass != q.runtimeClass
    ensures !Equals(p, Some(q)) && !Equals(q, Some(p))
  {
  }

  lemma NeverEqualsNull(p: NodeProperty)
    ensures !Equals(p, None)
  {
  }

  lemma EqualsIsEquivalence(p: NodeProperty, q: NodeProperty, s: NodeProperty)
    ensures Equals(p, Some(p))
    ensures Equals(p, Some(q)) <==> Equals(q, Some(p))
    ensures Equals(p, Some(q)) && Equals(q, Some(s)) ==> Equals(p, Some(s))
  {
  }

  lemma HashDependsOnlyOnKey(p: NodeProperty, q: NodeProperty, keyHash: DataKey -> int)
    requires p.dataKey == q.dataKey
    ensures HashCode(p, keyHash) == HashCode(q, keyHash)
  {
  }

  lemma EqualPropertiesHaveEqualHashes(p: NodeProperty, q: NodeProperty, keyHash: DataKey -> int)
    requires Equals(p, Some(q))
    ensures HashCode(p, keyHash) == HashCode(q, keyHash)
  {
  }

  /** `VssNodeSpecModel`: a node's dotted path and its property set. */
  datatype SpecModel = SpecModel(vssPath: string, properties: set<NodeProperty>)

  /** No two records share a path. */
  predicate DistinctPaths(nodes: seq<SpecModel>) {
    forall i, j | 0 <= i < j < |nodes| :: nodes[i].vssPath != nodes[j].vssPath
  }

  /** `VssNodePropertiesBuilder`: its property map, keyed by data key. */
  datatype Builder = Builder(properties: map<DataKey, NodeProperty>)

  /** Each entry is filed under its own key, and `uuid` and `type` are always present. */
  ghost predicate Valid(b: Builder) {
    && Uuid in b.properties
    && Type in b.properties
    && forall k | k in b.properties :: b.properties[k].dataKey == k
  }

  /** `r` differs from `b` at most at `key`. */
  ghost predicate OthersUnchanged(b: Builder, r: Builder, key: DataKey) {
    forall k | k != key :: (k in b.properties <==> k in r.properties)
                           && (k in b.properties ==> r.properties[k] == b.properties[k])
  }

  /** The builder's constructor: `uuid` and `type` are recorded even when empty. */
  function NewBuilder(uuid: string, nodeType: string): (b: Builder)
    ensures Valid(b)
    ensures b.properties.Keys == {Uuid, Type}
    ensures b.properties[Uuid].value == uuid && b.properties[Type].value == nodeType
    ensures b.properties[Uuid].runtimeClass == NodePropertyClass && b.properties[Type].runtimeClass == NodePropertyClass
  {
    Builder(map[Uuid := NodeProperty(NodePropertyClass, Uuid, uuid, StringClass),
                Type := NodeProperty(NodePropertyClass, Type, nodeType, StringClass)])
  }

  /** Insert or overwrite one property under its own key. */
  function Put(b: Builder, p: NodeProperty): (r: Builder)
    requires Valid(b)
    ensures Valid(r)
    ensures r.properties.Keys == b.properties.Keys + {p.dataKey}
    ensures r.properties[p.dataKey] == p
    ensures OthersUnchanged(b, r, p.dataKey)
  {
    Builder(b.properties[p.dataKey := p])
  }

  function WithDescription(b: Builder, description: string): (r: Builder)
    requires Valid(b)
    ensures Valid(r)
    ensures description == "" ==> r == b
    ensures description != "" ==> r.properties.Keys == b.properties.Keys + {Description}
    ensures description != "" ==> r.properties[Description] == NodeProperty(NodePropertyClass, Description, description, StringClass)
    ensures OthersUnchanged(b, r, Description)
  {
    if description == "" then b else Put(b, NodeProperty(NodePropertyClass, Description, description, StringClass))
  }

  function WithComment(b: Builder, comment: string): (r: Builder)
    requires Valid(b)
    ensures Valid(r)
    ensures comment == "" ==> r == b
    ensures comment != "" ==> r.properties.Keys == b.properties.Keys + {Comment}
    ensures comment != "" ==> r.properties[Comment] == NodeProperty(NodePropertyClass, Comment, comment, StringClass)
    ensures OthersUnchanged(b, r, Comment)
  {
    if comment == "" then b else Put(b, NodeProperty(NodePropertyClass, Comment, comment, StringClass))
  }

  /** The datatype property keeps the raw datatype string as its value and the table's class as its type. */
  function WithDataType(b: Builder, dataType: string, table: TypeTable): (r: Builder)
    requires Valid(b)
    ensures Valid(r)
    ensures dataType == "" ==> r == b
    ensures dataType != "" ==> r.properties.Keys == b.properties.Keys + {DataType}
    ensures dataType != "" ==> r.properties[DataType] == NodeProperty(SignalPropertyClass, DataType, dataType, table(dataType))
    ensures OthersUnchanged(b, r, DataType)
  {
    if dataType == "" then b else Put(b, NodeProperty(SignalPropertyClass, DataType, dataType, FindKClass(dataType, table)))
  }

  function WithUnit(b: Builder, unit: string): (r: Builder)
    requires Valid(b)
    ensures Valid(r)
    ensures unit == "" ==> r == b
    ensures unit != "" ==> r.properties.Keys == b.properties.Keys + {Unit}
    ensures unit != "" ==> r.properties[Unit] == NodeProperty(SignalPropertyClass, Unit, unit, StringClass)
    ensures OthersUnchanged(b, r, Unit)
  {
    if unit == "" then b else Put(b, NodeProperty(SignalPropertyClass, Unit, unit, StringClass))
  }

  /** `withMin(min, clazz)`. */
  function WithMinClass(b: Builder, min: string, clazz: KClass): (r: Builder)
    requires Valid(b)
    ensures Valid(r)
    ensures min == "" ==> r == b
    ensures min != "" ==> r.properties.Keys == b.properties.Keys + {Min}
    ensures min != "" ==> r.properties[Min] == NodeProperty(SignalPropertyClass, Min, min, clazz)
    ensures OthersUnchanged(b, r, Min)
  {
    if min == "" then b else Put(b, NodeProperty(SignalPropertyClass, Min, min, clazz))
  }

  /** `withMin(min, dataType)`: a no-op unless both arguments are non-empty. */
  function WithMin(b: Builder, min: string, dataType: string, table: TypeTable): (r: Builder)
    requires Valid(b)
    ensures Valid(r)
    ensures min == "" || dataType == "" ==> r == b
    ensures min != "" && dataType != "" ==> r.properties.Keys == b.properties.Keys + {Min}
    ensures min != "" && dataType != "" ==> r.properties[Min] == NodeProperty(SignalPropertyClass, Min, min, table(dataType))
    ensures OthersUnchanged(b, r, Min)
  {
    if min == "" || dataType == "" then b else WithMinClass(b, min, FindKClass(dataType, table))
  }

  /** `withMax(max, clazz)`. */
  function WithMaxClass(b: Builder, max: string, clazz: KClass): (r: Builder)
    requires Valid(b)
    ensures Valid(r)
    ensures max == "" ==> r == b
    ensures max != "" ==> r.properties.Keys == b.properties.Keys + {Max}
    ensures max != "" ==> r.properties[Max] == NodeProperty(SignalPropertyClass, Max, max, clazz)
    ensures OthersUnchanged(b, r, Max)
  {
    if max == "" then b else Put(b, NodeProperty(SignalPropertyClass, Max, max, clazz))
  }

  /** `withMax(max, dataType)`: a no-op unless both arguments are non-empty. */
  function WithMax(b: Builder, max: string, dataType: string, table: TypeTable): (r: Builder)
    requires Valid(b)
    ensures Valid(r)
    ensures max == "" || dataType == "" ==> r == b
    ensures max != "" && dataType != "" ==> r.properties.Keys == b.properties.Keys + {Max}
    ensures max != "" && dataType != "" ==> r.properties[Max] == NodeProperty(SignalPropertyClass, Max, max, table(dataType))
    ensures OthersUnchanged(b, r, Max)
  {
    if max == "" || dataType == "" then b else WithMaxClass(b, max, FindKClass(dataType, table))
  }

  /** `findKClass`: the representation class the datatype table gives a datatype string. */
  function FindKClass(dataType: string, table: TypeTable): KClass {
    table(dataType)
  }

  /** The set of property values: `nodePropertyMap.values.toSet()`. */
  function Build(b: Builder): (r: set<NodeProperty>)
    requires Valid(b)
    ensures forall p | p in r :: p.dataKey in b.properties && b.properties[p.dataKey] == p
    ensures forall k | k in b.properties :: b.properties[k] in r
    ensures |r| == |b.properties|
    ensures 2 <= |r| <= 8
  {
    var r := Image(b.properties);
    ImageSize(b.properties);
    KeysBounded(b.properties.Keys);
    r
  }

  /** The values of a property map. */
  function Image(m: map<DataKey, NodeProperty>): set<NodeProperty> {
    set k | k in m :: m[k]
  }

  lemma {:induction false} ImageSize(m: map<DataKey, NodeProperty>)
    requires forall k | k in m :: m[k].dataKey == k
    ensures |Image(m)| == |m|
    decreases |m|
  {
    if |m| > 0 {
      var k :| k in m;
      ImageStep(m, k);
      ImageSize(m - {k});
    }
  }

  /** Removing one entry removes exactly its property from the values. */
  lemma ImageStep(m: map<DataKey, NodeProperty>, k: DataKey)
    requires forall j | j in m :: m[j].dataKey == j
    requires k in m
    ensures Image(m) == Image(m - {k}) + {m[k]}
    ensures m[k] !in Image(m - {k})
  {
    var m' := m - {k};
    forall p | p in Image(m) ensures p in Image(m') + {m[k]} {
      var j :| j in m && m[j] == p;
      if j != k { assert j in m'; }
    }
    forall p | p in Image(m') ensures p in Image(m) && p.dataKey != k {
      var j :| j in m' && m'[j] == p;
      assert j in m;
    }
  }

  lemma KeysBounded(keys: set<DataKey>)
    requires Uuid in keys && Type in keys
    ensures 2 <= |keys| <= 8
  {
    assert {Uuid, Type} <= keys;
    assert keys <= AllKeys by {
      forall k | k in keys ensures k in AllKeys { AllKeysComplete(k); }
    }
    SubsetSize({Uuid, Type}, keys);
    SubsetSize(keys, AllKeys);
  }

  lemma {:induction false} SubsetSize<T>(a: set<T>, b: set<T>)
    requires a <= b
    ensures |a| <= |b|
    decreases |b|
  {
    if a != {} {
      var x :| x in a;
      SubsetSize(a - {x}, b - {x});
    }
  }

  /** Kotlin's `toSet()` keeps every built property: no two of them are `equals`. */
  lemma BuildHasNoEqualPair(b: Builder, p: NodeProperty, q: NodeProperty)
    requires Valid(b)
    requires p in Build(b) && q in Build(b) && p != q
    ensures !Equals(p, Some(q))
  {
  }

  /** The raw attribute strings a parser extracted for one node. */
  datatype RawFields = RawFields(
    uuid: string, nodeType: string, description: string, comment: string,
    dataType: string, unit: string, min: string, max: string)

  /** The message both parsers raise for a node without a `type`. */
  function MissingTypeMessage(vssPath: string): string {
    "Could not parse '" + Key(Type) + "' for '" + vssPath + "'"
  }

  /** The builder chain both parsers run: constructor, then description, comment, datatype, unit,
      min and max, the last two with the node's datatype. */
  function Resolve(f: RawFields, table: TypeTable): (b: Builder)
    ensures Valid(b)
  {
    var b0 := NewBuilder(f.uuid, f.nodeType);
    var b1 := WithDescription(b0, f.description);
    var b2 := WithComment(b1, f.comment);
    var b3 := WithDataType(b2, f.dataType, table);
    var b4 := WithUnit(b3, f.unit);
    var b5 := WithMin(b4, f.min, f.dataType, table);
    WithMax(b5, f.max, f.dataType, table)
  }

  /** The properties a parser attaches to a node. */
  function ResolveProperties(f: RawFields, table: TypeTable): set<NodeProperty> {
    Build(Resolve(f, table))
  }

  /** Declarative description of the chain's outcome: whether key `k` ends up in the map. */
  predicate Recorded(f: RawFields, k: DataKey) {
    match k
    case Uuid => true
    case Type => true
    case Description => f.description != ""
    case Comment => f.comment != ""
    case DataType => f.dataType != ""
    case Unit => f.unit != ""
    case Min => f.min != "" && f.dataType != ""
    case Max => f.max != "" && f.dataType != ""
  }

  /** Declarative description of the chain's outcome: the property recorded under `k`. Strings are
      `kotlin.String`; the datatype, min and max share the datatype's representation class. */
  function Expected(f: RawFields, table: TypeTable, k: DataKey): NodeProperty {
    match k
    case Uuid => NodeProperty(NodePropertyClass, Uuid, f.uuid, StringClass)
    case Type => NodeProperty(NodePropertyClass, Type, f.nodeType, StringClass)
    case Description => NodeProperty(NodePropertyClass, Description, f.description, StringClass)
    case Comment => NodeProperty(NodePropertyClass, Comment, f.comment, StringClass)
    case DataType => NodeProperty(SignalPropertyClass, DataType, f.dataType, table(f.dataType))
    case Unit => NodeProperty(SignalPropertyClass, Unit, f.unit, StringClass)
    case Min => NodeProperty(SignalPropertyClass, Min, f.min, table(f.dataType))
    case Max => NodeProperty(SignalPropertyClass, Max, f.max, table(f.dataType))
  }

  /** The builder chain records exactly the keys `Recorded` names, each with its `Expected` property. */
  lemma ResolveEntry(f: RawFields, table: TypeTable, k: DataKey)
    ensures k in Resolve(f, table).properties <==> Recorded(f, k)
    ensures k in Resolve(f, table).properties ==> Resolve(f, table).properties[k] == Expected(f, table, k)
  {
    var b0 := NewBuilder(f.uuid, f.nodeType);
    var b1 := WithDescription(b0, f.description);
    var b2 := WithComment(b1, f.comment);
    var b3 := WithDataType(b2, f.dataType, table);
    var b4 := WithUnit(b3, f.unit);
    var b5 := WithMin(b4, f.min, f.dataType, table);
    var b6 := WithMax(b5, f.max, f.dataType, table);
    assert b6 == Resolve(f, table);
    // Every step but the one writing `k` leaves `k` alone.
    if k != Description { Keep(b0, b1, Description, k); }
    if k != Comment { Keep(b1, b2, Comment, k); }
    if k != DataType { Keep(b2, b3, DataType, k); }
    if k != Unit { Keep(b3, b4, Unit, k); }
    if k != Min { Keep(b4, b5, Min, k); }
    if k != Max { Keep(b5, b6, Max, k); }
  }

  /** Min and max, when recorded, share the representation class of the datatype property. */
  lemma ResolveBoundsTypedLikeDataType(f: RawFields, table: TypeTable)
    ensures var m := Resolve(f, table).properties;
      && (Min in m ==> DataType in m && m[Min].dataType == m[DataType].dataType)
      && (Max in m ==> DataType in m && m[Max].dataType == m[DataType].dataType)
  {
    var m := Resolve(f, table).properties;
    ResolveEntry(f, table, Min);
    ResolveEntry(f, table, Max);
    ResolveEntry(f, table, DataType);
    BoundTyped(m, f, table, Min);
    BoundTyped(m, f, table, Max);
  }

  /** A recorded bound is typed like the recorded datatype, in any map that agrees with
      `Recorded` and `Expected` on the bound and the datatype. */
  lemma BoundTyped(m: map<DataKey, NodeProperty>, f: RawFields, table: TypeTable, bound: DataKey)
    requires bound == Min || bound == Max
    requires (bound in m <==> Recorded(f, bound)) && (bound in m ==> m[bound] == Expected(f, table, bound))
    requires (DataType in m <==> Recorded(f, DataType)) && (DataType in m ==> m[DataType] == Expected(f, table, DataType))
    ensures bound in m ==> DataType in m && m[bound].dataType == m[DataType].dataType
  {
  }

  /** One step of the chain, seen from a key it does not write. */
  lemma Keep(b: Builder, r: Builder, written: DataKey, k: DataKey)
    requires OthersUnchanged(b, r, written) && k != written
    ensures k in b.properties <==> k in r.properties
    ensures k in b.properties ==> r.properties[k] == b.properties[k]
  {
  }
}
