/** `JsonVssParser`: flattens the `Vehicle` tree of a VSS JSON document into one node record per
    node reachable through `children`, in pre-order, with dotted paths. */
module JsonParser {
  import opened Results
  import opened Strings
  import opened Properties

  /** `ROOT_KEY_VEHICLE` and `KEY_CHILDREN`. */
  const RootKey: string := "Vehicle"
  const ChildrenKey: string := "children"

  /** The tree Gson hands over. An object keeps its members in document order; every other value
      is a primitive whose `getAsString` is `text`. */
  datatype Json = Obj(members: seq<(string, Json)>) | Prim(text: string)

  /** Every object in the tree holds at most one member per key, as Gson's `JsonObject` (a map
      from key to element) does. */
  predicate UniqueKeys(j: Json) {
    match j
    case Prim(_) => true
    case Obj(ms) =>
      && (forall a, b | 0 <= a < b < |ms| :: ms[a].0 != ms[b].0)
      && (forall i | 0 <= i < |ms| :: UniqueKeys(ms[i].1))
  }

  /** A tree as a `JsonObject` can hold it. */
  type GsonJson = j: Json | UniqueKeys(j) witness Prim("")

  /** What `fromJson` yields for a file: a tree, `null` for an empty file, or a syntax error. */
  datatype JsonDoc = Document(root: GsonJson) | EmptyDocument | Malformed

  // ---------------------------------------------------------------------------------------------
  // Object access

  /** `JsonObject.has` / `get`: the position of the member named `key`. */
  function MemberIndex(ms: seq<(string, Json)>, key: string): (r: Option<nat>)
    ensures r.Some? ==> r.value < |ms| && ms[r.value].0 == key
    ensures r.Some? ==> forall j | 0 <= j < r.value :: ms[j].0 != key
    ensures r.None? ==> forall j | 0 <= j < |ms| :: ms[j].0 != key
  {
    if |ms| == 0 then None
    else if ms[0].0 == key then Some(0)
    else
      match MemberIndex(ms[1..], key)
      case None => None
      case Some(i) => Some(i + 1)
  }

  /** In an object with one member per key, the lookup finds the member with that key, wherever
      it stands, so taking the first match loses nothing. */
  lemma UniqueMemberIndex(ms: seq<(string, Json)>, key: string, j: nat)
    requires forall a, b | 0 <= a < b < |ms| :: ms[a].0 != ms[b].0
    requires j < |ms| && ms[j].0 == key
    ensures MemberIndex(ms, key) == Some(j)
  {
  }

  /** The value of the member named `key`, if there is one. */
  function Value(ms: seq<(string, Json)>, key: string): Option<Json> {
    match MemberIndex(ms, key)
    case None => None
    case Some(i) => Some(ms[i].1)
  }

  /** Attribute `k` is absent or a primitive, so `get(k)?.asString` does not throw. */
  predicate Readable(ms: seq<(string, Json)>, k: DataKey) {
    Value(ms, Key(k)).None? || Value(ms, Key(k)).value.Prim?
  }

  /** The text of attribute `k`, or `""` when it is absent. */
  function Text(ms: seq<(string, Json)>, k: DataKey): string {
    match Value(ms, Key(k))
    case Some(Prim(t)) => t
    case _ => ""
  }

  /** The attribute strings of a node object. */
  function Fields(ms: seq<(string, Json)>): RawFields {
    RawFields(
      uuid := Text(ms, Uuid), nodeType := Text(ms, Type), description := Text(ms, Description),
      comment := Text(ms, Comment), dataType := Text(ms, DataType), unit := Text(ms, Unit),
      min := Text(ms, Min), max := Text(ms, Max))
  }

  // ---------------------------------------------------------------------------------------------
  // One node

  /** The order in which `parseSpecModel` reads the attributes. */
  const ReadOrder: seq<DataKey> := [Type, Uuid, Description, DataType, Comment, Unit, Min, Max]

  lemma ReadOrderComplete(k: DataKey)
    ensures k in ReadOrder
  {
  }

  /** The first attribute in `keys` whose `getAsString` throws. */
  function FirstUnreadable(ms: seq<(string, Json)>, keys: seq<DataKey>): (r: Option<DataKey>)
    ensures r.None? <==> forall i | 0 <= i < |keys| :: Readable(ms, keys[i])
    ensures r.Some? ==> r.value in keys && !Readable(ms, r.value)
  {
    if |keys| == 0 then None
    else if !Readable(ms, keys[0]) then Some(keys[0])
    else FirstUnreadable(ms, keys[1..])
  }

  /** The attribute reads of `parseSpecModel`, `type` first: the first attribute that is present but
      not a primitive aborts with the same `UnsupportedOperationException`. */
  function ReadFields(ms: seq<(string, Json)>): (r: Result<RawFields>)
    ensures r.Ok? <==> forall k: DataKey :: Readable(ms, k)
    ensures r.Ok? ==> r.value == Fields(ms)
    ensures r.Fail? ==> r.error == UnsupportedOperation("JsonObject")
  {
    match FirstUnreadable(ms, ReadOrder)
    case Some(_) => Fail(UnsupportedOperation("JsonObject"))
    case None =>
      assert forall k: DataKey :: Readable(ms, k) by {
        forall k: DataKey ensures Readable(ms, k) {
          ReadOrderComplete(k);
        }
      }
      Ok(Fields(ms))
  }

  /** `parseSpecModel`: `type` is required (a `JsonParseException` naming the path when absent),
      every other attribute defaults to `""`, and all go through the property builder. */
  function ParseSpecModel(vssPath: string, ms: seq<(string, Json)>, table: TypeTable): (r: Result<SpecModel>)
    ensures Value(ms, Key(Type)).None? ==> r == Fail(JsonParse(MissingTypeMessage(vssPath)))
    ensures r.Ok? <==> Value(ms, Key(Type)).Some? && forall k: DataKey :: Readable(ms, k)
    ensures r.Fail? && Value(ms, Key(Type)).Some? ==> r.error == UnsupportedOperation("JsonObject")
    ensures r.Ok? ==> r.value.vssPath == vssPath
    ensures r.Ok? ==> r.value == SpecModel(vssPath, ResolveProperties(Fields(ms), table))
  {
    if Value(ms, Key(Type)).None? then Fail(JsonParse(MissingTypeMessage(vssPath)))
    else
      var fields :- ReadFields(ms);
      Ok(SpecModel(vssPath, ResolveProperties(fields, table)))
  }

  // ---------------------------------------------------------------------------------------------
  // The tree

  /** A key under `children` that `parseSpecModels` descends into: neither `children` itself nor
      the name of a data key. */
  predicate IsChildKey(key: string) {
    key != ChildrenKey && FindByKey(key).None?
  }

  /** `parseSpecModels`: the node itself, then the flattened subtree of each child key in document
      order. `getAsJsonObject` on a node that is not an object throws `ClassCastException`. */
  function FlattenNode(vssPath: string, node: Json, table: TypeTable): (r: Result<seq<SpecModel>>)
    ensures r.Ok? ==> |r.value| >= 1 && r.value[0].vssPath == vssPath
    ensures r.Ok? ==> AllUnder(r.value, vssPath)
    decreases node, 1
  {
    match node
    case Prim(_) => Fail(ClassCast)
    case Obj(ms) =>
      var self :- ParseSpecModel(vssPath, ms, table);
      match MemberIndex(ms, ChildrenKey)
      case None =>
        AllUnderCons([self], vssPath, ".");
        Ok([self])
      case Some(i) =>
        assert ms[i] in ms;
        var rest :- FlattenChildren(vssPath, ms[i].1, table);
        assert ([self] + rest)[1..] == rest;
        AllUnderCons([self] + rest, vssPath, ".");
        Ok([self] + rest)
  }

  /** The value of `children`, which must be an object. */
  function FlattenChildren(vssPath: string, children: Json, table: TypeTable): (r: Result<seq<SpecModel>>)
    ensures children.Prim? ==> r == Fail(ClassCast)
    ensures r.Ok? ==> AllUnder(r.value, vssPath + ".")
    decreases children, 1
  {
    match children
    case Prim(_) => Fail(ClassCast)
    case Obj(_) => FlattenMembers(vssPath, children, 0, table)
  }

  /** The members of `children` from position `k` on; each child key contributes its subtree under
      the path `vssPath.key`. */
  function FlattenMembers(vssPath: string, children: Json, k: nat, table: TypeTable): (r: Result<seq<SpecModel>>)
    requires children.Obj? && k <= |children.members|
    ensures r.Ok? ==> AllUnder(r.value, vssPath + ".")
    decreases children, 0, |children.members| - k
  {
    if k == |children.members| then Ok([])
    else
      var (key, child) := children.members[k];
      assert children.members[k] in children.members;
      if IsChildKey(key) then
        var head :- FlattenNode(vssPath + "." + key, child, table);
        var tail :- FlattenMembers(vssPath, children, k + 1, table);
        AllUnderShorter(head, vssPath + ".", key);
        AllUnderConcat(head, tail, vssPath + ".");
        Ok(head + tail)
      else
        FlattenMembers(vssPath, children, k + 1, table)
  }

  // ---------------------------------------------------------------------------------------------
  // The file

  /** The `IOException` `parseNodes` raises: it names the file only. */
  function InvalidFile(filePath: string): Error {
    IOError("Invalid VSS file '" + filePath + "'")
  }

  /** `parseNodes`: the root must be an object with a `Vehicle` member, whose tree is flattened
      under the path `Vehicle`. A syntax error and a `JsonParseException` from a node become the
      `IOException`; every other exception escapes unchanged. */
  function ParseNodes(doc: JsonDoc, filePath: string, table: TypeTable): (r: Result<seq<SpecModel>>)
    ensures r.Fail? ==> !r.error.JsonParse?
    ensures doc.Malformed? || (doc.Document? && doc.root.Prim?) ==> r == Fail(InvalidFile(filePath))
    ensures doc.EmptyDocument? ==> r == Fail(NullPointer)
    ensures doc.Document? && doc.root.Obj? && Value(doc.root.members, RootKey).None? ==> r == Fail(InvalidFile(filePath))
    ensures r.Ok? ==> |r.value| >= 1 && r.value[0].vssPath == RootKey
  {
    match doc
    case Malformed => Fail(InvalidFile(filePath))
    case EmptyDocument => Fail(NullPointer)
    case Document(Prim(_)) => Fail(InvalidFile(filePath))
    case Document(Obj(ms)) =>
      match Value(ms, RootKey)
      case None => Fail(InvalidFile(filePath))
      case Some(vehicle) =>
        match FlattenNode(RootKey, vehicle, table)
        case Ok(nodes) => Ok(nodes)
        case Fail(JsonParse(_)) => Fail(InvalidFile(filePath))
        case Fail(e) => Fail(e)
  }

  // ---------------------------------------------------------------------------------------------
  // Paths

  /** A successful flattening: the node's own record, then its children's records. */
  lemma FlattenNodeParts(vssPath: string, node: Json, table: TypeTable)
    requires FlattenNode(vssPath, node, table).Ok?
    ensures node.Obj?
    ensures MemberIndex(node.members, ChildrenKey).None? ==> FlattenNode(vssPath, node, table).value[1..] == []
    ensures MemberIndex(node.members, ChildrenKey).Some? ==>
      var i := MemberIndex(node.members, ChildrenKey).value;
      && FlattenChildren(vssPath, node.members[i].1, table).Ok?
      && FlattenNode(vssPath, node, table).value[1..] == FlattenChildren(vssPath, node.members[i].1, table).value
  {
  }

  /** Every record's path starts with `prefix`. */
  predicate AllUnder(out: seq<SpecModel>, prefix: string) {
    forall j | 0 <= j < |out| :: StartsWith(out[j].vssPath, prefix)
  }

  lemma AllUnderConcat(a: seq<SpecModel>, b: seq<SpecModel>, prefix: string)
    requires AllUnder(a, prefix) && AllUnder(b, prefix)
    ensures AllUnder(a + b, prefix)
  {
    forall j | 0 <= j < |a + b| ensures StartsWith((a + b)[j].vssPath, prefix) {
      if j >= |a| {
        assert (a + b)[j] == b[j - |a|];
      }
    }
  }

  /** A record with path `prefix` followed by records under `prefix + more` are all under `prefix`. */
  lemma AllUnderCons(out: seq<SpecModel>, prefix: string, more: string)
    requires |out| >= 1 && out[0].vssPath == prefix
    requires AllUnder(out[1..], prefix + more)
    ensures AllUnder(out, prefix)
  {
    forall j | 0 <= j < |out| ensures StartsWith(out[j].vssPath, prefix) {
      if j == 0 {
        assert prefix[..|prefix|] == prefix;
      } else {
        assert out[j] == out[1..][j - 1];
        StartsWithPrefix(out[j].vssPath, prefix, more);
      }
    }
  }

  lemma AllUnderShorter(out: seq<SpecModel>, prefix: string, more: string)
    requires AllUnder(out, prefix + more)
    ensures AllUnder(out, prefix)
  {
    forall j | 0 <= j < |out| ensures StartsWith(out[j].vssPath, prefix) {
      StartsWithPrefix(out[j].vssPath, prefix, more);
    }
  }

  /** No key anywhere in the tree contains a `.`. */
  predicate DotFreeKeys(node: Json) {
    match node
    case Prim(_) => true
    case Obj(ms) => forall j | 0 <= j < |ms| :: '.' !in ms[j].0 && DotFreeKeys(ms[j].1)
  }

  /** Every record of `out` ends in a child key, and its parent is `root` or an earlier record. */
  predicate ParentsBefore(out: seq<SpecModel>, root: string) {
    forall j | 0 <= j < |out| ::
      && IsChildKey(Leaf(out[j].vssPath))
      && (Parent(out[j].vssPath) == root || exists i | 0 <= i < j :: out[i].vssPath == Parent(out[j].vssPath))
  }

  lemma ParentsBeforeConcat(a: seq<SpecModel>, b: seq<SpecModel>, root: string)
    requires ParentsBefore(a, root) && ParentsBefore(b, root)
    ensures ParentsBefore(a + b, root)
  {
    var out := a + b;
    forall j | |a| <= j < |out| && Parent(out[j].vssPath) != root
      ensures exists i | 0 <= i < j :: out[i].vssPath == Parent(out[j].vssPath)
    {
      assert out[j] == b[j - |a|];
      var i :| 0 <= i < j - |a| && b[i].vssPath == Parent(b[j - |a|].vssPath);
      assert out[i + |a|] == b[i];
    }
    forall j | 0 <= j < |a| ensures out[j] == a[j] {
    }
  }

  /** A subtree rooted at `root.key` hangs under `root`. */
  lemma ParentsBeforeSubtree(out: seq<SpecModel>, root: string, key: string)
    requires |out| >= 1 && out[0].vssPath == root + "." + key
    requires '.' !in key && IsChildKey(key)
    requires ParentsBefore(out[1..], root + "." + key)
    ensures ParentsBefore(out, root)
  {
    SplitAtLast(root, '.', key);
    var rest := out[1..];
    forall j | 1 <= j < |out|
      ensures IsChildKey(Leaf(out[j].vssPath))
      ensures exists i | 0 <= i < j :: out[i].vssPath == Parent(out[j].vssPath)
    {
      assert out[j] == rest[j - 1];
      if Parent(rest[j - 1].vssPath) != root + "." + key {
        var i :| 0 <= i < j - 1 && rest[i].vssPath == Parent(rest[j - 1].vssPath);
        assert out[i + 1] == rest[i];
      }
    }
  }

  /** In a flattened subtree with dot-free keys, every record after the first ends in a child key
      and its parent path precedes it. */
  lemma {:induction false} NodeParentsBefore(vssPath: string, node: Json, table: TypeTable)
    requires DotFreeKeys(node) && FlattenNode(vssPath, node, table).Ok?
    ensures ParentsBefore(FlattenNode(vssPath, node, table).value[1..], vssPath)
    decreases node, 1
  {
    FlattenNodeParts(vssPath, node, table);
    var ms := node.members;
    var out := FlattenNode(vssPath, node, table).value;
    match MemberIndex(ms, ChildrenKey)
    case None =>
    case Some(i) =>
      assert ms[i] in ms;
      ChildrenParentsBefore(vssPath, ms[i].1, table);
      assert out[1..] == FlattenChildren(vssPath, ms[i].1, table).value;
  }

  lemma {:induction false} ChildrenParentsBefore(vssPath: string, children: Json, table: TypeTable)
    requires DotFreeKeys(children) && FlattenChildren(vssPath, children, table).Ok?
    ensures ParentsBefore(FlattenChildren(vssPath, children, table).value, vssPath)
    decreases children, 1
  {
    MembersParentsBefore(vssPath, children, 0, table);
  }

  lemma {:induction false} MembersParentsBefore(vssPath: string, children: Json, k: nat, table: TypeTable)
    requires children.Obj? && k <= |children.members|
    requires DotFreeKeys(children) && FlattenMembers(vssPath, children, k, table).Ok?
    ensures ParentsBefore(FlattenMembers(vssPath, children, k, table).value, vssPath)
    decreases children, 0, |children.members| - k
  {
    if k < |children.members| {
      var (key, child) := children.members[k];
      assert children.members[k] in children.members;
      MembersParentsBefore(vssPath, children, k + 1, table);
      if IsChildKey(key) {
        var head := FlattenNode(vssPath + "." + key, child, table).value;
        NodeParentsBefore(vssPath + "." + key, child, table);
        ParentsBeforeSubtree(head, vssPath, key);
        ParentsBeforeConcat(head, FlattenMembers(vssPath, children, k + 1, table).value, vssPath);
      }
    }
  }

  // ---------------------------------------------------------------------------------------------
  // Size and success

  /** The number of nodes reachable from `node` through `children` and child keys. */
  function CountNodes(node: Json): nat
    decreases node, 1
  {
    match node
    case Prim(_) => 1
    case Obj(ms) =>
      match MemberIndex(ms, ChildrenKey)
      case None => 1
      case Some(i) =>
        assert ms[i] in ms;
        1 + CountChildren(ms[i].1)
  }

  function CountChildren(children: Json): nat
    decreases children, 1
  {
    match children
    case Prim(_) => 0
    case Obj(ms) => CountMembers(children, 0)
  }

  function CountMembers(children: Json, k: nat): nat
    requires children.Obj? && k <= |children.members|
    decreases children, 0, |children.members| - k
  {
    if k == |children.members| then 0
    else
      assert children.members[k] in children.members;
      var (key, child) := children.members[k];
      (if IsChildKey(key) then CountNodes(child) else 0) + CountMembers(children, k + 1)
  }

  /** One record per reachable node. */
  lemma {:induction false} NodeCount(vssPath: string, node: Json, table: TypeTable)
    requires FlattenNode(vssPath, node, table).Ok?
    ensures |FlattenNode(vssPath, node, table).value| == CountNodes(node)
    decreases node, 1
  {
    FlattenNodeParts(vssPath, node, table);
    var ms := node.members;
    match MemberIndex(ms, ChildrenKey)
    case None =>
    case Some(i) =>
      assert ms[i] in ms;
      ChildrenCount(vssPath, ms[i].1, table);
  }

  lemma {:induction false} ChildrenCount(vssPath: string, children: Json, table: TypeTable)
    requires FlattenChildren(vssPath, children, table).Ok?
    ensures |FlattenChildren(vssPath, children, table).value| == CountChildren(children)
    decreases children, 1
  {
    MembersCount(vssPath, children, 0, table);
  }

  lemma {:induction false} MembersCount(vssPath: string, children: Json, k: nat, table: TypeTable)
    requires children.Obj? && k <= |children.members|
    requires FlattenMembers(vssPath, children, k, table).Ok?
    ensures |FlattenMembers(vssPath, children, k, table).value| == CountMembers(children, k)
    decreases children, 0, |children.members| - k
  {
    if k < |children.members| {
      var (key, child) := children.members[k];
      assert children.members[k] in children.members;
      MembersCount(vssPath, children, k + 1, table);
      if IsChildKey(key) {
        NodeCount(vssPath + "." + key, child, table);
      }
    }
  }

  /** A node the parser accepts: an object with a `type`, every attribute a primitive, and, when
      it has `children`, an object of children each of which is accepted. */
  predicate Accepted(node: Json)
    decreases node, 1
  {
    match node
    case Prim(_) => false
    case Obj(ms) =>
      && Value(ms, Key(Type)).Some?
      && (forall k: DataKey :: Readable(ms, k))
      && match MemberIndex(ms, ChildrenKey)
         case None => true
         case Some(i) =>
           assert ms[i] in ms;
           ChildrenAccepted(ms[i].1)
  }

  predicate ChildrenAccepted(children: Json)
    decreases children, 0
  {
    match children
    case Prim(_) => false
    case Obj(ms) => forall j | 0 <= j < |ms| && IsChildKey(ms[j].0) :: Accepted(ms[j].1)
  }

  /** Flattening succeeds exactly on accepted trees. */
  lemma {:induction false} NodeSucceeds(vssPath: string, node: Json, table: TypeTable)
    ensures FlattenNode(vssPath, node, table).Ok? <==> Accepted(node)
    decreases node, 1
  {
    match node
    case Prim(_) =>
    case Obj(ms) =>
      match MemberIndex(ms, ChildrenKey)
      case None =>
      case Some(i) =>
        assert ms[i] in ms;
        ChildrenSucceed(vssPath, ms[i].1, table);
  }

  lemma {:induction false} ChildrenSucceed(vssPath: string, children: Json, table: TypeTable)
    ensures FlattenChildren(vssPath, children, table).Ok? <==> ChildrenAccepted(children)
    decreases children, 1
  {
    match children
    case Prim(_) =>
    case Obj(ms) =>
      MembersSucceed(vssPath, children, 0, table);
  }

  /** The child members from position `k` on are all accepted. */
  predicate MembersAccepted(children: Json, k: nat)
    requires children.Obj?
  {
    forall j | k <= j < |children.members| && IsChildKey(children.members[j].0) :: Accepted(children.members[j].1)
  }

  lemma MembersAcceptedStep(children: Json, k: nat)
    requires children.Obj? && k < |children.members|
    ensures MembersAccepted(children, k) <==>
      && (IsChildKey(children.members[k].0) ==> Accepted(children.members[k].1))
      && MembersAccepted(children, k + 1)
  {
  }

  /** One member of `children`: the flattening succeeds when this member's subtree (if it is a
      child) and the later members do. */
  lemma FlattenMembersStep(vssPath: string, children: Json, k: nat, table: TypeTable)
    requires children.Obj? && k < |children.members|
    ensures var (key, child) := children.members[k];
      FlattenMembers(vssPath, children, k, table).Ok? <==>
        && (IsChildKey(key) ==> FlattenNode(vssPath + "." + key, child, table).Ok?)
        && FlattenMembers(vssPath, children, k + 1, table).Ok?
  {
  }

  lemma {:induction false} MembersSucceed(vssPath: string, children: Json, k: nat, table: TypeTable)
    requires children.Obj? && k <= |children.members|
    ensures FlattenMembers(vssPath, children, k, table).Ok? <==> MembersAccepted(children, k)
    decreases children, 0, |children.members| - k
  {
    if k < |children.members| {
      var (key, child) := children.members[k];
      assert children.members[k] in children.members;
      MembersSucceed(vssPath, children, k + 1, table);
      NodeSucceeds(vssPath + "." + key, child, table);
      MembersSucceedStep(vssPath, children, k, table);
    }
  }

  /** The step of `MembersSucceed`, given the facts for the member's subtree and the later members. */
  lemma MembersSucceedStep(vssPath: string, children: Json, k: nat, table: TypeTable)
    requires children.Obj? && k < |children.members|
    requires FlattenMembers(vssPath, children, k + 1, table).Ok? <==> MembersAccepted(children, k + 1)
    requires var (key, child) := children.members[k];
      IsChildKey(key) ==> (FlattenNode(vssPath + "." + key, child, table).Ok? <==> Accepted(child))
    ensures FlattenMembers(vssPath, children, k, table).Ok? <==> MembersAccepted(children, k)
  {
    MembersAcceptedStep(children, k);
    FlattenMembersStep(vssPath, children, k, table);
  }

  // ---------------------------------------------------------------------------------------------
  // Where a failure comes from

  /** A tree whose failures can only be missing `type`s: every reachable node is an object whose
      attributes are all primitives, and every `children` value is an object. */
  predicate Shaped(node: Json)
    decreases node, 1
  {
    match node
    case Prim(_) => false
    case Obj(ms) =>
      && (forall k: DataKey :: Readable(ms, k))
      && match MemberIndex(ms, ChildrenKey)
         case None => true
         case Some(i) =>
           assert ms[i] in ms;
           ChildrenShaped(ms[i].1)
  }

  predicate ChildrenShaped(children: Json)
    decreases children, 0
  {
    match children
    case Prim(_) => false
    case Obj(ms) => forall j | 0 <= j < |ms| && IsChildKey(ms[j].0) :: Shaped(ms[j].1)
  }

  /** Every node reachable through `children` has a `type`. */
  predicate AllTyped(node: Json)
    decreases node, 1
  {
    match node
    case Prim(_) => true
    case Obj(ms) =>
      && Value(ms, Key(Type)).Some?
      && match MemberIndex(ms, ChildrenKey)
         case None => true
         case Some(i) =>
           assert ms[i] in ms;
           ChildrenTyped(ms[i].1)
  }

  predicate ChildrenTyped(children: Json)
    decreases children, 0
  {
    match children
    case Prim(_) => true
    case Obj(ms) => forall j | 0 <= j < |ms| && IsChildKey(ms[j].0) :: AllTyped(ms[j].1)
  }

  /** On a shaped tree, being accepted is having a `type` everywhere. */
  lemma {:induction false} ShapedAcceptedIffTyped(node: Json)
    requires Shaped(node)
    ensures Accepted(node) <==> AllTyped(node)
    decreases node, 1
  {
    match node
    case Obj(ms) =>
      match MemberIndex(ms, ChildrenKey)
      case None =>
      case Some(i) =>
        assert ms[i] in ms;
        ChildrenShapedAcceptedIffTyped(ms[i].1);
  }

  lemma {:induction false} ChildrenShapedAcceptedIffTyped(children: Json)
    requires ChildrenShaped(children)
    ensures ChildrenAccepted(children) <==> ChildrenTyped(children)
    decreases children, 0
  {
    match children
    case Obj(ms) =>
      forall j | 0 <= j < |ms| && IsChildKey(ms[j].0) ensures Accepted(ms[j].1) <==> AllTyped(ms[j].1) {
        assert ms[j] in ms;
        ShapedAcceptedIffTyped(ms[j].1);
      }
  }

  /** On a shaped tree, the only exception `parseSpecModels` can raise is the
      `JsonParseException` of a missing `type`. */
  lemma {:induction false} ShapedFailsOnType(vssPath: string, node: Json, table: TypeTable)
    requires Shaped(node) && FlattenNode(vssPath, node, table).Fail?
    ensures FlattenNode(vssPath, node, table).error.JsonParse?
    decreases node, 1
  {
    var ms := node.members;
    if Value(ms, Key(Type)).Some? {
      assert ParseSpecModel(vssPath, ms, table).Ok?;
      match MemberIndex(ms, ChildrenKey)
      case None =>
      case Some(i) =>
        assert ms[i] in ms;
        ChildrenShapedFailsOnType(vssPath, ms[i].1, table);
    }
  }

  lemma {:induction false} ChildrenShapedFailsOnType(vssPath: string, children: Json, table: TypeTable)
    requires ChildrenShaped(children) && FlattenChildren(vssPath, children, table).Fail?
    ensures FlattenChildren(vssPath, children, table).error.JsonParse?
    decreases children, 1
  {
    MembersShapedFailsOnType(vssPath, children, 0, table);
  }

  lemma {:induction false} MembersShapedFailsOnType(vssPath: string, children: Json, k: nat, table: TypeTable)
    requires ChildrenShaped(children) && children.Obj? && k <= |children.members|
    requires FlattenMembers(vssPath, children, k, table).Fail?
    ensures FlattenMembers(vssPath, children, k, table).error.JsonParse?
    decreases children, 0, |children.members| - k
  {
    var (key, child) := children.members[k];
    assert children.members[k] in children.members;
    if IsChildKey(key) && FlattenNode(vssPath + "." + key, child, table).Fail? {
      ShapedFailsOnType(vssPath + "." + key, child, table);
    } else {
      MembersShapedFailsOnType(vssPath, children, k + 1, table);
    }
  }

  // ---------------------------------------------------------------------------------------------
  // Which records, in which order

  /** The path of the node that `keys` reaches from the node at `vssPath`. */
  function PathOf(vssPath: string, keys: seq<string>): string
    decreases |keys|
  {
    if |keys| == 0 then vssPath else PathOf(vssPath + "." + keys[0], keys[1..])
  }

  /** The child that `key` names in the `children` object of `node`. */
  function Step(node: Json, key: string): Option<Json> {
    if node.Prim? || !IsChildKey(key) then None
    else
      match Value(node.members, ChildrenKey)
      case Some(Obj(cs)) => Value(cs, key)
      case _ => None
  }

  /** The node reached from `node` by looking up each key of `keys`, in turn, in the `children`
      object: what "reachable" means, without reference to the flattening. */
  function Sub(node: Json, keys: seq<string>): Option<Json>
    decreases |keys|
  {
    if |keys| == 0 then Some(node)
    else
      match Step(node, keys[0])
      case Some(child) => Sub(child, keys[1..])
      case None => None
  }

  /** `rec` is the record `parseSpecModel` makes for the object that `keys` reaches. */
  predicate RecordAt(node: Json, vssPath: string, keys: seq<string>, rec: SpecModel, table: TypeTable) {
    && Sub(node, keys).Some? && Sub(node, keys).value.Obj?
    && ParseSpecModel(PathOf(vssPath, keys), Sub(node, keys).value.members, table) == Ok(rec)
  }

  /** The keys of the nodes `parseSpecModels` visits, in visiting order: the node itself, then,
      for each child key of its `children` object, that child's keys behind the child key. */
  function Reachable(node: Json): seq<seq<string>>
    decreases node, 1
  {
    match node
    case Prim(_) => []
    case Obj(ms) =>
      match MemberIndex(ms, ChildrenKey)
      case None => [[]]
      case Some(i) =>
        assert ms[i] in ms;
        [[]] + ReachableChildren(ms[i].1)
  }

  function ReachableChildren(children: Json): seq<seq<string>>
    decreases children, 1
  {
    match children
    case Prim(_) => []
    case Obj(_) => ReachableMembers(children, 0)
  }

  /** The keys contributed by the members of `children` from position `k` on. */
  function ReachableMembers(children: Json, k: nat): seq<seq<string>>
    requires children.Obj? && k <= |children.members|
    decreases children, 0, |children.members| - k
  {
    if k == |children.members| then []
    else
      var (key, child) := children.members[k];
      assert children.members[k] in children.members;
      var tail := ReachableMembers(children, k + 1);
      if IsChildKey(key) then Behind(key, Reachable(child)) + tail else tail
  }

  /** Each key sequence of `ks`, behind `key`. */
  function Behind(key: string, ks: seq<seq<string>>): (r: seq<seq<string>>)
    ensures |r| == |ks| && forall i | 0 <= i < |ks| :: r[i] == [key] + ks[i]
  {
    if |ks| == 0 then [] else [[key] + ks[0]] + Behind(key, ks[1..])
  }

  /** No key sequence occurs twice. */
  predicate Distinct(ks: seq<seq<string>>) {
    forall a, b | 0 <= a < b < |ks| :: ks[a] != ks[b]
  }

  /** `ks` begins with `keys` and then `key`. */
  predicate Extends(ks: seq<string>, keys: seq<string>, key: string) {
    |keys| < |ks| && ks[..|keys|] == keys && ks[|keys|] == key
  }

  /** The visiting order splits into the `children` objects's child members. */
  lemma ReachableParts(node: Json)
    requires node.Obj?
    ensures |Reachable(node)| >= 1 && Reachable(node)[0] == []
    ensures MemberIndex(node.members, ChildrenKey).None? ==> Reachable(node)[1..] == []
    ensures MemberIndex(node.members, ChildrenKey).Some? ==>
      var i := MemberIndex(node.members, ChildrenKey).value;
      Reachable(node)[1..] == ReachableChildren(node.members[i].1)
  {
  }

  /** The key sequences of the members from `m` on end those of the members from `k <= m` on. */
  lemma {:induction false} MembersSuffix(children: Json, k: nat, m: nat)
    requires children.Obj? && k <= m <= |children.members|
    ensures EndsWith(ReachableMembers(children, k), ReachableMembers(children, m))
    decreases m - k
  {
    if k < m {
      TailSuffix(children, k);
      MembersSuffix(children, k + 1, m);
      SuffixOfSuffix(ReachableMembers(children, k), ReachableMembers(children, k + 1), ReachableMembers(children, m));
    }
  }

  /** The key sequences of the members after `k` end those of the members from `k` on. */
  lemma TailSuffix(children: Json, k: nat)
    requires children.Obj? && k < |children.members|
    ensures EndsWith(ReachableMembers(children, k), ReachableMembers(children, k + 1))
  {
    MembersKeysStep(children, k);
    var ks := ReachableMembers(children, k);
    var tail := ReachableMembers(children, k + 1);
    if IsChildKey(children.members[k].0) {
      ConcatSuffix(Behind(children.members[k].0, Reachable(children.members[k].1)), tail);
    } else {
      assert ks[0..] == ks;
    }
  }

  /** The second part of a concatenation is its suffix. */
  lemma ConcatSuffix(head: seq<seq<string>>, tail: seq<seq<string>>)
    ensures (head + tail)[|head|..] == tail
  {
  }

  /** `ks` ends with `rest`. */
  predicate EndsWith(ks: seq<seq<string>>, rest: seq<seq<string>>) {
    |rest| <= |ks| && ks[|ks| - |rest|..] == rest
  }

  /** A suffix of a suffix is a suffix. */
  lemma SuffixOfSuffix(ks: seq<seq<string>>, tail: seq<seq<string>>, rest: seq<seq<string>>)
    requires EndsWith(ks, tail) && EndsWith(tail, rest)
    ensures EndsWith(ks, rest)
  {
    assert ks[|ks| - |rest|..] == ks[|ks| - |tail|..][|tail| - |rest|..];
  }

  /** The key sequences of the members from `k` on: those of a child member's child behind its
      key, then those of the members after it. */
  lemma MembersKeysStep(children: Json, k: nat)
    requires children.Obj? && k < |children.members|
    ensures var (key, child) := children.members[k];
      && (IsChildKey(key) ==> ReachableMembers(children, k) == Behind(key, Reachable(child)) + ReachableMembers(children, k + 1))
      && (!IsChildKey(key) ==> ReachableMembers(children, k) == ReachableMembers(children, k + 1))
  {
  }

  /** The key sequence at `j` among those of the members from `k` on lies in the block of a child
      member `m >= k`, and starts with its key. */
  lemma {:induction false} MemberOfKeys(children: Json, k: nat, j: nat) returns (m: nat)
    requires children.Obj? && k <= |children.members|
    requires j < |ReachableMembers(children, k)|
    ensures k <= m < |children.members| && IsChildKey(children.members[m].0)
    ensures var ks := ReachableMembers(children, k);
      && |ks| - |ReachableMembers(children, m)| <= j < |ks| - |ReachableMembers(children, m + 1)|
      && Extends(ks[j], [], children.members[m].0)
    decreases |children.members| - k
  {
    var cs := children.members;
    var key, child := cs[k].0, cs[k].1;
    var ks := ReachableMembers(children, k);
    var tail := ReachableMembers(children, k + 1);
    if !IsChildKey(key) {
      assert ks == tail by { MembersKeysStep(children, k); }
      m := MemberOfKeys(children, k + 1, j);
    } else {
      var sub := Reachable(child);
      var head := Behind(key, sub);
      assert ks == head + tail by { MembersKeysStep(children, k); }
      if j < |head| {
        m := k;
        assert ks[j] == [key] + sub[j];
      } else {
        m := MemberOfKeys(children, k + 1, j - |head|);
        ShiftBlock(ks, head, tail, j, |ReachableMembers(children, m)|, |ReachableMembers(children, m + 1)|, cs[m].0);
      }
    }
  }

  /** A position in `tail` that lies in a block, seen as a position in `head + tail`. */
  lemma ShiftBlock(ks: seq<seq<string>>, head: seq<seq<string>>, tail: seq<seq<string>>, j: nat, lo: nat, hi: nat, key: string)
    requires ks == head + tail && |head| <= j
    requires |tail| - lo <= j - |head| < |tail| - hi && ExtendsAt(tail, j - |head|, [], key)
    ensures |ks| - lo <= j < |ks| - hi && Extends(ks[j], [], key)
  {
    assert ks[j] == tail[j - |head|];
  }

  /** With unique keys, the key sequences that start with the key of child member `a` all come
      before those that start with the key of a later child member `b`. */
  lemma MembersInOrder(children: Json, a: nat, b: nat, i: nat, j: nat)
    requires children.Obj? && UniqueKeys(children)
    requires a < b < |children.members|
    requires var ks := ReachableMembers(children, 0);
      && i < |ks| && j < |ks|
      && Extends(ks[i], [], children.members[a].0) && Extends(ks[j], [], children.members[b].0)
    ensures i < j
  {
    var cs := children.members;
    var ma := MemberOfKeys(children, 0, i);
    var mb := MemberOfKeys(children, 0, j);
    SameKeySameMember(cs, ma, a);
    SameKeySameMember(cs, mb, b);
    MembersSuffix(children, a + 1, b);
  }

  /** Among members with pairwise distinct keys, a key names one member. */
  lemma SameKeySameMember(cs: seq<(string, Json)>, p: nat, q: nat)
    requires forall a, b | 0 <= a < b < |cs| :: cs[a].0 != cs[b].0
    requires p < |cs| && q < |cs| && cs[p].0 == cs[q].0
    ensures p == q
  {
  }

  /** The key sequence at `i` of the members' visiting order that starts with the key of child
      member `m` is, behind that key, the one at `i - x` of the child's order. */
  lemma InMemberBlock(children: Json, m: nat, i: nat) returns (x: nat)
    requires children.Obj? && UniqueKeys(children)
    requires m < |children.members| && IsChildKey(children.members[m].0)
    requires var ks := ReachableMembers(children, 0);
      i < |ks| && Extends(ks[i], [], children.members[m].0)
    ensures var (key, child) := children.members[m];
      var ks := ReachableMembers(children, 0);
      && x == |ks| - |ReachableMembers(children, m)|
      && x <= i < x + |Reachable(child)| && ks[i] == [key] + Reachable(child)[i - x]
  {
    var cs := children.members;
    var ks := ReachableMembers(children, 0);
    var n := MemberOfKeys(children, 0, i);
    SameKeySameMember(cs, n, m);
    MembersSuffix(children, 0, m);
    MembersKeysStep(children, m);
    var rest := ReachableMembers(children, m);
    x := |ks| - |rest|;
    assert ks[i] == rest[i - x];
  }

  /** Sibling order at any depth: for the object that `keys` reaches, with unique keys, every node
      behind its child member `a` is visited before every node behind a later child member `b`. */
  lemma {:induction false} ReachableInOrder(node: Json, keys: seq<string>, target: Json, cs: seq<(string, Json)>, a: nat, b: nat, i: nat, j: nat)
    requires UniqueKeys(node) && Sub(node, keys) == Some(target)
    requires target.Obj? && Value(target.members, ChildrenKey) == Some(Obj(cs))
    requires a < b < |cs|
    requires ExtendsAt(Reachable(node), i, keys, cs[a].0) && ExtendsAt(Reachable(node), j, keys, cs[b].0)
    ensures i < j
    decreases |keys|
  {
    if |keys| == 0 {
      ChildrenInOrder(node, cs, a, b, i, j);
    } else {
      var child, i', j' := DescendPair(node, keys, cs[a].0, cs[b].0, i, j);
      ReachableInOrder(child, keys[1..], target, cs, a, b, i', j');
    }
  }

  /** Two key sequences that extend non-empty `keys`, seen from the child `keys[0]` names: both
      positions move back by the same offset. */
  lemma DescendPair(node: Json, keys: seq<string>, ka: string, kb: string, i: nat, j: nat)
      returns (child: Json, i': nat, j': nat)
    requires UniqueKeys(node) && |keys| > 0 && Sub(node, keys).Some?
    requires ExtendsAt(Reachable(node), i, keys, ka) && ExtendsAt(Reachable(node), j, keys, kb)
    ensures UniqueKeys(child) && Sub(child, keys[1..]) == Sub(node, keys) && j - i == j' - i'
    ensures ExtendsAt(Reachable(child), i', keys[1..], ka)
    ensures ExtendsAt(Reachable(child), j', keys[1..], kb)
  {
    SubStep(node, keys);
    var children, m := StepParts(node, keys[0]);
    child := children.members[m].1;
    var x := DescendBoth(Reachable(node), children, m, keys, ka, kb, i, j);
    i', j' := i - 1 - x, j - 1 - x;
  }

  /** `DescendIndex` for two key sequences at once. */
  lemma DescendBoth(ks: seq<seq<string>>, children: Json, m: nat, keys: seq<string>, ka: string, kb: string, i: nat, j: nat)
      returns (x: nat)
    requires children.Obj? && UniqueKeys(children) && |keys| > 0
    requires m < |children.members| && children.members[m].0 == keys[0] && IsChildKey(keys[0])
    requires |ks| >= 1 && ks[0] == [] && ks[1..] == ReachableMembers(children, 0)
    requires ExtendsAt(ks, i, keys, ka) && ExtendsAt(ks, j, keys, kb)
    ensures x < i && ExtendsAt(Reachable(children.members[m].1), i - 1 - x, keys[1..], ka)
    ensures x < j && ExtendsAt(Reachable(children.members[m].1), j - 1 - x, keys[1..], kb)
  {
    x := DescendIndex(ks, children, m, keys, ka, i);
    var y := DescendIndex(ks, children, m, keys, kb, j);
    assert y == x;
  }

  /** Position `n` of `ks` holds a key sequence that extends `keys` with `key`. */
  predicate ExtendsAt(ks: seq<seq<string>>, n: int, keys: seq<string>, key: string) {
    0 <= n < |ks| && Extends(ks[n], keys, key)
  }

  /** Sibling order among the node's own child members. */
  lemma ChildrenInOrder(node: Json, cs: seq<(string, Json)>, a: nat, b: nat, i: nat, j: nat)
    requires UniqueKeys(node) && node.Obj? && Value(node.members, ChildrenKey) == Some(Obj(cs))
    requires a < b < |cs|
    requires ExtendsAt(Reachable(node), i, [], cs[a].0) && ExtendsAt(Reachable(node), j, [], cs[b].0)
    ensures i < j
  {
    var children := Obj(cs);
    ChildrenParts(node, cs);
    ShiftIndex(Reachable(node), ReachableMembers(children, 0), i, cs[a].0);
    ShiftIndex(Reachable(node), ReachableMembers(children, 0), j, cs[b].0);
    MembersInOrder(children, a, b, i - 1, j - 1);
  }

  /** A node's `children` object: its keys follow the node's own, empty, key sequence. */
  lemma ChildrenParts(node: Json, cs: seq<(string, Json)>)
    requires node.Obj? && Value(node.members, ChildrenKey) == Some(Obj(cs))
    ensures |Reachable(node)| >= 1 && Reachable(node)[0] == []
    ensures Reachable(node)[1..] == ReachableMembers(Obj(cs), 0)
    ensures UniqueKeys(node) ==> UniqueKeys(Obj(cs))
  {
    var n := MemberIndex(node.members, ChildrenKey).value;
    assert node.members[n] in node.members;
    ReachableParts(node);
  }

  /** A key sequence that extends the empty one is not the node's own, empty, sequence, so it is
      one of the children's, one position earlier. */
  lemma ShiftIndex(ks: seq<seq<string>>, rest: seq<seq<string>>, i: nat, key: string)
    requires |ks| >= 1 && ks[0] == [] && ks[1..] == rest
    requires ExtendsAt(ks, i, [], key)
    ensures i >= 1 && ExtendsAt(rest, i - 1, [], key)
  {
    assert i != 0 by { assert |ks[0]| == 0 < |ks[i]|; }
    assert ks[i] == rest[i - 1];
  }

  /** Looking up non-empty `keys` is one step by `keys[0]`, then the rest. */
  lemma SubStep(node: Json, keys: seq<string>)
    requires |keys| > 0 && Sub(node, keys).Some?
    ensures Step(node, keys[0]).Some? && Sub(Step(node, keys[0]).value, keys[1..]) == Sub(node, keys)
  {
  }

  /** A key sequence that extends non-empty `keys`, at `i` among those of a node whose `children`
      object holds child member `m` named `keys[0]`, lies in that member's block, and there extends
      the rest of `keys`. */
  lemma DescendIndex(ks: seq<seq<string>>, children: Json, m: nat, keys: seq<string>, key: string, i: nat)
      returns (x: nat)
    requires children.Obj? && UniqueKeys(children) && |keys| > 0
    requires m < |children.members| && children.members[m].0 == keys[0] && IsChildKey(keys[0])
    requires |ks| >= 1 && ks[0] == [] && ks[1..] == ReachableMembers(children, 0)
    requires ExtendsAt(ks, i, keys, key)
    ensures x == |ReachableMembers(children, 0)| - |ReachableMembers(children, m)|
    ensures x < i && ExtendsAt(Reachable(children.members[m].1), i - 1 - x, keys[1..], key)
  {
    assert i != 0 by { assert |ks[0]| == 0 < |ks[i]|; }
    var s := ks[i];
    var rest := ReachableMembers(children, 0);
    assert s == rest[i - 1] by { assert s == ks[1..][i - 1]; }
    ExtendsFirst(s, keys, key);
    x := InMemberBlock(children, m, i - 1);
    var sub := Reachable(children.members[m].1);
    assert s == [keys[0]] + sub[i - 1 - x];
    ExtendsBehind(s, keys[0], sub[i - 1 - x], keys, key);
  }

  /** One step down from `node` by `key`: the `children` object, the member it names, and the
      key sequences of the node. */
  lemma StepParts(node: Json, key: string) returns (children: Json, m: nat)
    requires Step(node, key).Some?
    ensures node.Obj? && IsChildKey(key) && children.Obj?
    ensures Value(node.members, ChildrenKey) == Some(children)
    ensures m < |children.members| && children.members[m] == (key, Step(node, key).value)
    ensures |Reachable(node)| >= 1 && Reachable(node)[0] == [] && Reachable(node)[1..] == ReachableMembers(children, 0)
    ensures UniqueKeys(node) ==> UniqueKeys(children) && UniqueKeys(Step(node, key).value)
  {
    var ms := node.members;
    var n := MemberIndex(ms, ChildrenKey).value;
    assert ms[n] in ms;
    children := ms[n].1;
    m := MemberIndex(children.members, key).value;
    assert children.members[m] in children.members;
    ReachableParts(node);
  }

  /** A key sequence that extends a non-empty `keys` starts with `keys[0]`. */
  lemma ExtendsFirst(s: seq<string>, keys: seq<string>, key: string)
    requires Extends(s, keys, key) && |keys| > 0
    ensures Extends(s, [], keys[0])
  {
    assert s[0] == s[..|keys|][0];
  }

  /** Behind a first key, extension continues with the rest of the keys. */
  lemma ExtendsBehind(s: seq<string>, first: string, t: seq<string>, keys: seq<string>, key: string)
    requires s == [first] + t && Extends(s, keys, key) && |keys| > 0
    ensures Extends(t, keys[1..], key)
  {
    assert t == s[1..];
    assert t[..|keys| - 1] == s[..|keys|][1..];
  }

  /** Every object reachable through `children` is visited: its keys occur in the visiting order. */
  lemma {:induction false} ReachableComplete(node: Json, keys: seq<string>) returns (j: nat)
    requires Sub(node, keys).Some? && Sub(node, keys).value.Obj?
    ensures j < |Reachable(node)| && Reachable(node)[j] == keys
    decreases |keys|
  {
    if |keys| == 0 {
      ReachableParts(node);
      j := 0;
    } else {
      SubStep(node, keys);
      var children, m := StepParts(node, keys[0]);
      var t := ReachableComplete(children.members[m].1, keys[1..]);
      j := CompleteStep(Reachable(node), children, m, keys, t);
    }
  }

  /** A key sequence `t` reaches below child member `m` spells, behind that member's key, one of
      the key sequences `ks` of the node whose `children` object holds it. */
  lemma CompleteStep(ks: seq<seq<string>>, children: Json, m: nat, keys: seq<string>, t: nat) returns (j: nat)
    requires children.Obj? && |ks| >= 1 && ks[1..] == ReachableMembers(children, 0)
    requires |keys| > 0 && m < |children.members| && children.members[m].0 == keys[0] && IsChildKey(keys[0])
    requires var sub := Reachable(children.members[m].1);
      t < |sub| && sub[t] == keys[1..]
    ensures j < |ks| && ks[j] == keys
  {
    var x := BlockAt(children, m, t);
    assert keys == [keys[0]] + keys[1..];
    j := 1 + x;
    assert ks[j] == ks[1..][x];
  }

  /** The key sequence at `t` below child member `m` sits, behind its key, at `x` among the key
      sequences of all the members. */
  lemma BlockAt(children: Json, m: nat, t: nat) returns (x: nat)
    requires children.Obj? && m < |children.members| && IsChildKey(children.members[m].0)
    requires t < |Reachable(children.members[m].1)|
    ensures var (key, child) := children.members[m];
      var ks := ReachableMembers(children, 0);
      x < |ks| && ks[x] == [key] + Reachable(child)[t]
  {
    var ks := ReachableMembers(children, 0);
    var rest := ReachableMembers(children, m);
    MembersSuffix(children, 0, m);
    MembersKeysStep(children, m);
    x := |ks| - |rest| + t;
    assert ks[x] == rest[t];
  }

  /** With unique keys, no node is visited twice. */
  lemma {:induction false} ReachableDistinct(node: Json)
    requires UniqueKeys(node)
    ensures Distinct(Reachable(node))
    decreases node, 1
  {
    match node
    case Prim(_) =>
    case Obj(ms) =>
      ReachableParts(node);
      match MemberIndex(ms, ChildrenKey)
      case None =>
      case Some(n) =>
        assert ms[n] in ms;
        var children := ms[n].1;
        if children.Obj? {
          MembersDistinct(children, 0);
          var rest := ReachableMembers(children, 0);
          forall t | 0 <= t < |rest|
            ensures |rest[t]| > 0
          {
            var m := MemberOfKeys(children, 0, t);
          }
          DistinctAfterRoot(rest);
        }
  }

  /** The empty key sequence before non-empty, distinct ones keeps them distinct. */
  lemma DistinctAfterRoot(rest: seq<seq<string>>)
    requires Distinct(rest) && forall t | 0 <= t < |rest| :: |rest[t]| > 0
    ensures Distinct([[]] + rest)
  {
    var ks := [[]] + rest;
    forall a, b | 0 <= a < b < |ks|
      ensures ks[a] != ks[b]
    {
      assert ks[b] == rest[b - 1];
      if a > 0 {
        assert ks[a] == rest[a - 1];
      }
    }
  }

  /** With unique keys, the members from `k` on contribute no key sequence twice. */
  lemma {:induction false} MembersDistinct(children: Json, k: nat)
    requires children.Obj? && k <= |children.members| && UniqueKeys(children)
    ensures Distinct(ReachableMembers(children, k))
    decreases children, 0, |children.members| - k
  {
    var cs := children.members;
    if k < |cs| {
      var (key, child) := cs[k];
      assert cs[k] in cs;
      MembersKeysStep(children, k);
      MembersDistinct(children, k + 1);
      if IsChildKey(key) {
        ReachableDistinct(child);
        BehindDistinct(key, Reachable(child));
        TailAvoidsKey(children, k);
        DistinctJoin(Behind(key, Reachable(child)), ReachableMembers(children, k + 1), key);
      }
    }
  }

  /** The key sequences of the later members never start with the key of member `k`. */
  lemma TailAvoidsKey(children: Json, k: nat)
    requires children.Obj? && k < |children.members| && UniqueKeys(children)
    ensures var tail := ReachableMembers(children, k + 1);
      forall y | 0 <= y < |tail| :: |tail[y]| > 0 && tail[y][0] != children.members[k].0
  {
    var cs := children.members;
    var tail := ReachableMembers(children, k + 1);
    forall y | 0 <= y < |tail|
      ensures |tail[y]| > 0 && tail[y][0] != cs[k].0
    {
      var m := MemberOfKeys(children, k + 1, y);
      assert cs[m].0 != cs[k].0;
    }
  }

  /** Putting one key in front of distinct key sequences keeps them distinct. */
  lemma BehindDistinct(key: string, ks: seq<seq<string>>)
    requires Distinct(ks)
    ensures Distinct(Behind(key, ks))
  {
    var r := Behind(key, ks);
    forall a, b | 0 <= a < b < |r|
      ensures r[a] != r[b]
    {
      assert r[a][1..] == ks[a] && r[b][1..] == ks[b];
    }
  }

  /** Distinct sequences that all start with `key`, followed by distinct ones none of which does,
      are distinct together. */
  lemma DistinctJoin(head: seq<seq<string>>, tail: seq<seq<string>>, key: string)
    requires Distinct(head) && Distinct(tail)
    requires forall x | 0 <= x < |head| :: |head[x]| > 0 && head[x][0] == key
    requires forall y | 0 <= y < |tail| :: |tail[y]| > 0 && tail[y][0] != key
    ensures Distinct(head + tail)
  {
    var ks := head + tail;
    forall a, b | 0 <= a < b < |ks|
      ensures ks[a] != ks[b]
    {
      if b < |head| {
        assert ks[a] == head[a] && ks[b] == head[b];
      } else if a >= |head| {
        assert ks[a] == tail[a - |head|] && ks[b] == tail[b - |head|];
      } else {
        assert ks[a] == head[a] && ks[b] == tail[b - |head|];
      }
    }
  }

  /** A record of the members' flattening is the record of the node its keys reach through the
      member named by their first key. */
  predicate MemberRecordAt(cs: seq<(string, Json)>, vssPath: string, keys: seq<string>, rec: SpecModel, table: TypeTable) {
    && |keys| > 0 && IsChildKey(keys[0]) && Value(cs, keys[0]).Some?
    && RecordAt(Value(cs, keys[0]).value, vssPath + "." + keys[0], keys[1..], rec, table)
  }

  /** The record at `rest` below child member `m` is a member record at `[key] + rest`. */
  lemma MemberRecordOfChild(cs: seq<(string, Json)>, m: nat, vssPath: string, rest: seq<string>, rec: SpecModel, table: TypeTable)
    requires forall a, b | 0 <= a < b < |cs| :: cs[a].0 != cs[b].0
    requires m < |cs| && IsChildKey(cs[m].0)
    requires RecordAt(cs[m].1, vssPath + "." + cs[m].0, rest, rec, table)
    ensures MemberRecordAt(cs, vssPath, [cs[m].0] + rest, rec, table)
  {
    UniqueMemberIndex(cs, cs[m].0, m);
    assert ([cs[m].0] + rest)[1..] == rest;
  }

  /** A member record of a node's `children` object is a record of the node. */
  lemma ChildRecordAt(node: Json, vssPath: string, cs: seq<(string, Json)>, keys: seq<string>, rec: SpecModel, table: TypeTable)
    requires node.Obj? && Value(node.members, ChildrenKey) == Some(Obj(cs))
    requires MemberRecordAt(cs, vssPath, keys, rec, table)
    ensures RecordAt(node, vssPath, keys, rec, table)
  {
    var child := Value(cs, keys[0]).value;
    assert Step(node, keys[0]) == Some(child);
    assert Sub(node, keys) == Sub(child, keys[1..]);
    assert PathOf(vssPath, keys) == PathOf(vssPath + "." + keys[0], keys[1..]);
  }

  /** A flattened tree has one record per visited node. */
  lemma {:induction false} NodeLength(vssPath: string, node: Json, table: TypeTable)
    requires FlattenNode(vssPath, node, table).Ok?
    ensures |FlattenNode(vssPath, node, table).value| == |Reachable(node)|
    decreases node, 1
  {
    FlattenNodeParts(vssPath, node, table);
    ReachableParts(node);
    var ms := node.members;
    match MemberIndex(ms, ChildrenKey)
    case None =>
    case Some(n) =>
      assert ms[n] in ms;
      MembersLength(vssPath, ms[n].1, 0, table);
  }

  lemma {:induction false} MembersLength(vssPath: string, children: Json, k: nat, table: TypeTable)
    requires children.Obj? && k <= |children.members|
    requires FlattenMembers(vssPath, children, k, table).Ok?
    ensures |FlattenMembers(vssPath, children, k, table).value| == |ReachableMembers(children, k)|
    decreases children, 0, |children.members| - k
  {
    var cs := children.members;
    if k < |cs| {
      var (key, child) := cs[k];
      assert cs[k] in cs;
      MembersLength(vssPath, children, k + 1, table);
      if IsChildKey(key) {
        NodeLength(vssPath + "." + key, child, table);
      }
    }
  }

  /** The record at position `j` of a flattened tree is what `parseSpecModel` makes of the object
      that the `j`-th key sequence of the visiting order reaches, at the path those keys spell. */
  lemma {:induction false} NodeRecordAt(vssPath: string, node: Json, table: TypeTable, j: nat)
    requires UniqueKeys(node) && FlattenNode(vssPath, node, table).Ok?
    requires j < |FlattenNode(vssPath, node, table).value|
    ensures j < |Reachable(node)|
    ensures RecordAt(node, vssPath, Reachable(node)[j], FlattenNode(vssPath, node, table).value[j], table)
    decreases node, 1
  {
    if j == 0 {
      RootRecordAt(vssPath, node, table);
      NodeLength(vssPath, node, table);
    } else {
      RecordBelowAt(vssPath, node, table, j);
    }
  }

  /** `NodeRecordAt` past the node's own record. */
  lemma {:induction false} RecordBelowAt(vssPath: string, node: Json, table: TypeTable, j: nat)
    requires UniqueKeys(node) && FlattenNode(vssPath, node, table).Ok?
    requires 0 < j < |FlattenNode(vssPath, node, table).value|
    ensures j < |Reachable(node)|
    ensures RecordAt(node, vssPath, Reachable(node)[j], FlattenNode(vssPath, node, table).value[j], table)
    decreases node, 0
  {
    var n := NodeParts(vssPath, node, table);
    assert node.members[n] in node.members;
    var children := node.members[n].1;
    MemberRecordAtIndex(vssPath, children, 0, table, j - 1);
    ShiftedRecordAt(vssPath, node, children, table, Reachable(node), FlattenNode(vssPath, node, table).value, j);
  }

  /** A flattened node is an object with one key sequence per record; past its own record it has
      a `children` object, at `n`, whose members give the rest of both. */
  lemma NodeParts(vssPath: string, node: Json, table: TypeTable) returns (n: nat)
    requires FlattenNode(vssPath, node, table).Ok?
    ensures node.Obj? && |Reachable(node)| == |FlattenNode(vssPath, node, table).value|
    ensures |FlattenNode(vssPath, node, table).value| > 1 ==>
      var out := FlattenNode(vssPath, node, table).value;
      && n < |node.members| && Value(node.members, ChildrenKey) == Some(node.members[n].1)
      && var children := node.members[n].1;
      && children.Obj? && (UniqueKeys(node) ==> UniqueKeys(children))
      && FlattenMembers(vssPath, children, 0, table).Ok? && out[1..] == FlattenMembers(vssPath, children, 0, table).value
      && Reachable(node)[1..] == ReachableMembers(children, 0)
  {
    FlattenNodeParts(vssPath, node, table);
    ReachableParts(node);
    NodeLength(vssPath, node, table);
    var ms := node.members;
    if MemberIndex(ms, ChildrenKey).Some? {
      n := MemberIndex(ms, ChildrenKey).value;
      assert ms[n] in ms;
    } else {
      n := 0;
    }
  }

  /** The first record is the node's own. */
  lemma RootRecordAt(vssPath: string, node: Json, table: TypeTable)
    requires FlattenNode(vssPath, node, table).Ok?
    ensures node.Obj? && RecordAt(node, vssPath, [], FlattenNode(vssPath, node, table).value[0], table)
  {
    FlattenNodeHead(vssPath, node, table);
    assert Sub(node, []) == Some(node) && PathOf(vssPath, []) == vssPath;
  }

  /** The first record of a flattened node is what its own members parse to. */
  lemma FlattenNodeHead(vssPath: string, node: Json, table: TypeTable)
    requires FlattenNode(vssPath, node, table).Ok?
    ensures node.Obj? && ParseSpecModel(vssPath, node.members, table) == Ok(FlattenNode(vssPath, node, table).value[0])
  {
    var ms := node.members;
    var self := ParseSpecModel(vssPath, ms, table);
    match MemberIndex(ms, ChildrenKey)
    case None =>
      assert FlattenNode(vssPath, node, table) == Ok([self.value]);
    case Some(i) =>
      assert ms[i] in ms;
      var rest := FlattenChildren(vssPath, ms[i].1, table);
      assert FlattenNode(vssPath, node, table) == Ok([self.value] + rest.value);
  }

  /** Past the node's own record, the records and key sequences are those of its `children`
      object's members, one place on. */
  lemma ShiftedRecordAt(vssPath: string, node: Json, children: Json, table: TypeTable, ks: seq<seq<string>>, out: seq<SpecModel>, j: nat)
    requires node.Obj? && Value(node.members, ChildrenKey) == Some(children) && children.Obj?
    requires FlattenMembers(vssPath, children, 0, table).Ok?
    requires |out| >= 1 && out[1..] == FlattenMembers(vssPath, children, 0, table).value
    requires |ks| >= 1 && ks[1..] == ReachableMembers(children, 0)
    requires 0 < j < |out| && j < |ks|
    requires MemberRecordAt(children.members, vssPath, ReachableMembers(children, 0)[j - 1],
                            FlattenMembers(vssPath, children, 0, table).value[j - 1], table)
    ensures RecordAt(node, vssPath, ks[j], out[j], table)
  {
    assert out[j] == out[1..][j - 1] && ks[j] == ks[1..][j - 1];
    ChildRecordAt(node, vssPath, children.members, ks[j], out[j], table);
  }

  /** The record at position `j` among those of the members from `k` on is a member record at the
      `j`-th key sequence they contribute. */
  lemma {:induction false} MemberRecordAtIndex(vssPath: string, children: Json, k: nat, table: TypeTable, j: nat)
    requires children.Obj? && k <= |children.members| && UniqueKeys(children)
    requires FlattenMembers(vssPath, children, k, table).Ok?
    requires j < |FlattenMembers(vssPath, children, k, table).value|
    ensures j < |ReachableMembers(children, k)|
    ensures MemberRecordAt(children.members, vssPath, ReachableMembers(children, k)[j],
                           FlattenMembers(vssPath, children, k, table).value[j], table)
    decreases children, 0, |children.members| - k, 1
  {
    var cs := children.members;
    assert k < |cs|;
    if IsChildKey(cs[k].0) && j < |Reachable(cs[k].1)| {
      HeadRecordAt(vssPath, children, k, table, j);
    } else {
      TailRecordAt(vssPath, children, k, table, j);
    }
  }

  /** `MemberRecordAtIndex` past the block of member `k`, which is empty unless `k` is a child
      member. */
  lemma {:induction false} TailRecordAt(vssPath: string, children: Json, k: nat, table: TypeTable, j: nat)
    requires children.Obj? && k < |children.members| && UniqueKeys(children)
    requires FlattenMembers(vssPath, children, k, table).Ok?
    requires j < |FlattenMembers(vssPath, children, k, table).value|
    requires IsChildKey(children.members[k].0) ==> j >= |Reachable(children.members[k].1)|
    ensures j < |ReachableMembers(children, k)|
    ensures MemberRecordAt(children.members, vssPath, ReachableMembers(children, k)[j],
                           FlattenMembers(vssPath, children, k, table).value[j], table)
    decreases children, 0, |children.members| - k, 0
  {
    var cs := children.members;
    MembersKeysStep(children, k);
    FlattenMembersParts(vssPath, children, k, table);
    var out := FlattenMembers(vssPath, children, k, table).value;
    var ks := ReachableMembers(children, k);
    var tail := FlattenMembers(vssPath, children, k + 1, table).value;
    var ktail := ReachableMembers(children, k + 1);
    if IsChildKey(cs[k].0) {
      var h := |Reachable(cs[k].1)|;
      MemberRecordAtIndex(vssPath, children, k + 1, table, j - h);
      assert out[j] == tail[j - h] && ks[j] == ktail[j - h];
    } else {
      MemberRecordAtIndex(vssPath, children, k + 1, table, j);
    }
  }

  /** `MemberRecordAtIndex` within the block of child member `k`. */
  lemma {:induction false} HeadRecordAt(vssPath: string, children: Json, k: nat, table: TypeTable, j: nat)
    requires children.Obj? && k < |children.members| && UniqueKeys(children) && IsChildKey(children.members[k].0)
    requires FlattenMembers(vssPath, children, k, table).Ok?
    requires j < |Reachable(children.members[k].1)|
    ensures j < |FlattenMembers(vssPath, children, k, table).value| && j < |ReachableMembers(children, k)|
    ensures MemberRecordAt(children.members, vssPath, ReachableMembers(children, k)[j],
                           FlattenMembers(vssPath, children, k, table).value[j], table)
    decreases children, 0, |children.members| - k, 0
  {
    var cs := children.members;
    var (key, child) := cs[k];
    assert cs[k] in cs;
    MembersKeysStep(children, k);
    FlattenMembersParts(vssPath, children, k, table);
    var head := FlattenNode(vssPath + "." + key, child, table).value;
    var sub := Reachable(child);
    var out := FlattenMembers(vssPath, children, k, table).value;
    var ks := ReachableMembers(children, k);
    assert out[j] == head[j] && ks[j] == [key] + sub[j];
    NodeRecordAt(vssPath + "." + key, child, table, j);
    MemberRecordOfChild(cs, k, vssPath, sub[j], out[j], table);
  }

  /** The records of the members from `k` on: those of a child member's subtree, then those of
      the members after it. */
  lemma FlattenMembersParts(vssPath: string, children: Json, k: nat, table: TypeTable)
    requires children.Obj? && k < |children.members|
    requires FlattenMembers(vssPath, children, k, table).Ok?
    ensures FlattenMembers(vssPath, children, k + 1, table).Ok?
    ensures var (key, child) := children.members[k];
      var out := FlattenMembers(vssPath, children, k, table).value;
      var tail := FlattenMembers(vssPath, children, k + 1, table).value;
      && (!IsChildKey(key) ==> out == tail)
      && (IsChildKey(key) ==>
            && FlattenNode(vssPath + "." + key, child, table).Ok?
            && |FlattenNode(vssPath + "." + key, child, table).value| == |Reachable(child)|
            && out == FlattenNode(vssPath + "." + key, child, table).value + tail)
  {
    var (key, child) := children.members[k];
    if IsChildKey(key) {
      NodeLength(vssPath + "." + key, child, table);
    }
  }

  /** The records of a flattened tree, one per visited node, in visiting order. */
  lemma NodeRecordsAt(vssPath: string, node: Json, table: TypeTable)
    requires UniqueKeys(node) && FlattenNode(vssPath, node, table).Ok?
    ensures var out := FlattenNode(vssPath, node, table).value;
      var ks := Reachable(node);
      |out| == |ks| && forall j | 0 <= j < |out| :: RecordAt(node, vssPath, ks[j], out[j], table)
  {
    NodeLength(vssPath, node, table);
    var out := FlattenNode(vssPath, node, table).value;
    forall j | 0 <= j < |out|
      ensures RecordAt(node, vssPath, Reachable(node)[j], out[j], table)
    {
      NodeRecordAt(vssPath, node, table, j);
    }
  }

  /** `p` is the path `q` or a path below it. */
  predicate Below(p: string, q: string) {
    p == q || StartsWith(p, q + ".")
  }

  /** The path of a reached node lies below the starting path. */
  lemma {:induction false} PathOfBelow(vssPath: string, keys: seq<string>)
    ensures Below(PathOf(vssPath, keys), vssPath)
    decreases |keys|
  {
    if |keys| > 0 {
      var a := vssPath + ".";
      var q := a + keys[0];
      PathOfBelow(q, keys[1..]);
      var p := PathOf(vssPath, keys);
      assert p == PathOf(q, keys[1..]);
      if p == q {
        StartsWithPrefix(p, a, keys[0]);
      } else {
        assert q + "." == a + (keys[0] + ".");
        StartsWithPrefix(p, a, keys[0] + ".");
      }
    }
  }

  /** A path below `q.ka` and below `q.kb`, for keys without a `.`, has `ka == kb`. */
  lemma BelowOneKey(p: string, q: string, ka: string, kb: string)
    requires '.' !in ka && '.' !in kb
    ensures Below(p, q + "." + ka) && Below(p, q + "." + kb) ==> ka == kb
  {
    if Below(p, q + "." + ka) && Below(p, q + "." + kb) {
      SegmentAfter(p, q, ka);
      SegmentAfter(p, q, kb);
    }
  }

  /** Below `q.k`, the text after `q.` is `k` or starts with `k.`. */
  lemma SegmentAfter(p: string, q: string, k: string)
    requires Below(p, q + "." + k)
    ensures var s := p[|q| + 1..];
      s == k || (|k| < |s| && s[..|k|] == k && s[|k|] == '.')
  {
    var a := q + "." + k;
    if p != a {
      assert p[..|a| + 1] == a + ".";
      assert p[|q| + 1..][..|k| + 1] == p[..|a| + 1][|q| + 1..];
    }
  }

  /** No key of `keys` contains a `.`. */
  predicate DotFree(keys: seq<string>) {
    forall t | 0 <= t < |keys| :: '.' !in keys[t]
  }

  /** For keys without a `.`, the path determines the keys. */
  lemma {:induction false} PathOfInjective(vssPath: string, k1: seq<string>, k2: seq<string>)
    requires DotFree(k1) && DotFree(k2) && PathOf(vssPath, k1) == PathOf(vssPath, k2)
    ensures k1 == k2
    decreases |k1|
  {
    if |k1| > 0 && |k2| > 0 {
      var p := PathOf(vssPath, k1);
      PathOfBelow(vssPath + "." + k1[0], k1[1..]);
      PathOfBelow(vssPath + "." + k2[0], k2[1..]);
      BelowOneKey(p, vssPath, k1[0], k2[0]);
      PathOfInjective(vssPath + "." + k1[0], k1[1..], k2[1..]);
      assert k1 == [k1[0]] + k1[1..] && k2 == [k2[0]] + k2[1..];
    } else if |k1| > 0 {
      PathOfBelow(vssPath + "." + k1[0], k1[1..]);
    } else if |k2| > 0 {
      PathOfBelow(vssPath + "." + k2[0], k2[1..]);
    }
  }

  /** In a tree without `.` in its keys, the keys that reach a node have none either. */
  lemma {:induction false} SubDotFree(node: Json, keys: seq<string>)
    requires DotFreeKeys(node) && Sub(node, keys).Some?
    ensures DotFree(keys)
    decreases |keys|
  {
    if |keys| > 0 {
      var ms := node.members;
      var n := MemberIndex(ms, ChildrenKey).value;
      var cs := ms[n].1.members;
      var m := MemberIndex(cs, keys[0]).value;
      SubDotFree(cs[m].1, keys[1..]);
      assert keys == [keys[0]] + keys[1..];
    }
  }

  /** The path of each record of a flattened tree is the path its keys spell. */
  lemma NodeRecordPaths(vssPath: string, node: Json, table: TypeTable)
    requires UniqueKeys(node) && FlattenNode(vssPath, node, table).Ok?
    ensures var out := FlattenNode(vssPath, node, table).value;
      var ks := Reachable(node);
      |out| == |ks| && forall j | 0 <= j < |out| :: out[j].vssPath == PathOf(vssPath, ks[j]) && Sub(node, ks[j]).Some?
  {
    NodeRecordsAt(vssPath, node, table);
  }

  /** With unique keys none of which contains a `.`, no two records of a flattened tree share a
      path. */
  lemma NodePathsDistinct(vssPath: string, node: Json, table: TypeTable)
    requires UniqueKeys(node) && DotFreeKeys(node) && FlattenNode(vssPath, node, table).Ok?
    ensures DistinctPaths(FlattenNode(vssPath, node, table).value)
  {
    var out := FlattenNode(vssPath, node, table).value;
    var ks := Reachable(node);
    NodeRecordPaths(vssPath, node, table);
    ReachableDistinct(node);
    forall a, b | 0 <= a < b < |out|
      ensures out[a].vssPath != out[b].vssPath
    {
      SubDotFree(node, ks[a]);
      SubDotFree(node, ks[b]);
      if out[a].vssPath == out[b].vssPath {
        PathOfInjective(vssPath, ks[a], ks[b]);
      }
    }
  }

  // ---------------------------------------------------------------------------------------------
  // Whole documents

  /** The `Vehicle` tree of a document, when the root is an object that has one. */
  function Vehicle(doc: JsonDoc): Option<Json> {
    match doc
    case Document(Obj(ms)) => Value(ms, RootKey)
    case _ => None
  }

  /** The `Vehicle` tree of a document is itself a `JsonObject` tree. */
  lemma VehicleUniqueKeys(doc: JsonDoc)
    requires Vehicle(doc).Some?
    ensures UniqueKeys(Vehicle(doc).value)
  {
  }

  /** A document parses exactly when it has a `Vehicle` tree and that tree is accepted. */
  lemma ParseNodesSucceeds(doc: JsonDoc, filePath: string, table: TypeTable)
    ensures ParseNodes(doc, filePath, table).Ok? <==> Vehicle(doc).Some? && Accepted(Vehicle(doc).value)
  {
    if Vehicle(doc).Some? {
      NodeSucceeds(RootKey, Vehicle(doc).value, table);
    }
  }

  /** The records of a parsed document: the `Vehicle` node first, one record per reachable node,
      every path under `Vehicle`, and, when no key contains a `.`, every later record ends in a
      child key and its parent path comes earlier. */
  lemma ParseNodesShape(doc: JsonDoc, filePath: string, table: TypeTable)
    requires ParseNodes(doc, filePath, table).Ok?
    ensures Vehicle(doc).Some?
    ensures var out := ParseNodes(doc, filePath, table).value;
      && out[0].vssPath == RootKey
      && |out| == CountNodes(Vehicle(doc).value)
      && AllUnder(out, RootKey)
    ensures var out := ParseNodes(doc, filePath, table).value;
      DotFreeKeys(Vehicle(doc).value) ==>
        forall j | 0 < j < |out| ::
          && IsChildKey(Leaf(out[j].vssPath))
          && exists i | 0 <= i < j :: out[i].vssPath == Parent(out[j].vssPath)
  {
    var vehicle := Vehicle(doc).value;
    var out := ParseNodes(doc, filePath, table).value;
    assert out == FlattenNode(RootKey, vehicle, table).value;
    NodeCount(RootKey, vehicle, table);
    if DotFreeKeys(vehicle) {
      NodeParentsBefore(RootKey, vehicle, table);
      ParentsBeforeRooted(out, RootKey);
    }
  }

  /** The records of a parsed document are exactly those of the objects reachable from `Vehicle`
      through `children`, one each, in visiting order: the record at `j` is what `parseSpecModel`
      makes of the object the `j`-th key sequence reaches, no object is visited twice, every
      reachable object is visited, and, when no key contains a `.`, no two records share a path. */
  lemma ParseNodesRecords(doc: JsonDoc, filePath: string, table: TypeTable)
    requires ParseNodes(doc, filePath, table).Ok?
    ensures Vehicle(doc).Some?
    ensures var vehicle := Vehicle(doc).value;
      var out := ParseNodes(doc, filePath, table).value;
      var ks := Reachable(vehicle);
      && |out| == |ks| && Distinct(ks)
      && (forall j | 0 <= j < |out| :: RecordAt(vehicle, RootKey, ks[j], out[j], table))
      && (forall keys | Sub(vehicle, keys).Some? && Sub(vehicle, keys).value.Obj? :: keys in ks)
      && (DotFreeKeys(vehicle) ==> DistinctPaths(out))
  {
    var vehicle := Vehicle(doc).value;
    var out := ParseNodes(doc, filePath, table).value;
    var ks := Reachable(vehicle);
    assert out == FlattenNode(RootKey, vehicle, table).value;
    VehicleUniqueKeys(doc);
    NodeRecordsAt(RootKey, vehicle, table);
    ReachableDistinct(vehicle);
    forall keys | Sub(vehicle, keys).Some? && Sub(vehicle, keys).value.Obj?
      ensures keys in ks
    {
      var j := ReachableComplete(vehicle, keys);
    }
    if DotFreeKeys(vehicle) {
      NodePathsDistinct(RootKey, vehicle, table);
    }
  }

  /** Sibling order in a parsed document: for the object that `keys` reaches from `Vehicle`, the
      record of every node behind its child member `a` comes before the record of every node
      behind a later child member `b`. */
  lemma ParseNodesInOrder(doc: JsonDoc, filePath: string, table: TypeTable, keys: seq<string>, cs: seq<(string, Json)>,
                          a: nat, b: nat, i: nat, j: nat)
    requires ParseNodes(doc, filePath, table).Ok? && Vehicle(doc).Some?
    requires var vehicle := Vehicle(doc).value;
      && Sub(vehicle, keys).Some? && Sub(vehicle, keys).value.Obj?
      && Value(Sub(vehicle, keys).value.members, ChildrenKey) == Some(Obj(cs))
    requires a < b < |cs|
    requires var ks := Reachable(Vehicle(doc).value);
      && i < |ks| && j < |ks|
      && Extends(ks[i], keys, cs[a].0) && Extends(ks[j], keys, cs[b].0)
    ensures i < j
  {
    VehicleUniqueKeys(doc);
    ReachableInOrder(Vehicle(doc).value, keys, Sub(Vehicle(doc).value, keys).value, cs, a, b, i, j);
  }

  /** Records after a first record at `root` whose parents are `root` or earlier have every
      parent among the records before them. */
  lemma ParentsBeforeRooted(out: seq<SpecModel>, root: string)
    requires |out| >= 1 && out[0].vssPath == root && ParentsBefore(out[1..], root)
    ensures forall j | 0 < j < |out| ::
      && IsChildKey(Leaf(out[j].vssPath))
      && exists i | 0 <= i < j :: out[i].vssPath == Parent(out[j].vssPath)
  {
    forall j | 0 < j < |out|
      ensures IsChildKey(Leaf(out[j].vssPath))
      ensures exists i | 0 <= i < j :: out[i].vssPath == Parent(out[j].vssPath)
    {
      var i := ParentIndex(out, root, j);
    }
  }

  /** The position of the parent of record `j > 0` after a first record at `root`. */
  lemma ParentIndex(out: seq<SpecModel>, root: string, j: nat) returns (i: nat)
    requires |out| >= 1 && out[0].vssPath == root && ParentsBefore(out[1..], root)
    requires 0 < j < |out|
    ensures IsChildKey(Leaf(out[j].vssPath))
    ensures i < j && out[i].vssPath == Parent(out[j].vssPath)
  {
    var rest := out[1..];
    var node := rest[j - 1];
    assert out[j] == node;
    assert IsChildKey(Leaf(node.vssPath)) && (Parent(node.vssPath) == root || exists i | 0 <= i < j - 1 :: rest[i].vssPath == Parent(node.vssPath));
    if Parent(node.vssPath) == root {
      i := 0;
    } else {
      var k :| 0 <= k < j - 1 && rest[k].vssPath == Parent(node.vssPath);
      assert out[k + 1] == rest[k];
      i := k + 1;
    }
  }

  /** A `Vehicle` node without `type` fails the file with the `IOException` naming the file. */
  lemma TypelessVehicleFails(doc: JsonDoc, filePath: string, table: TypeTable)
    requires Vehicle(doc).Some? && Vehicle(doc).value.Obj?
    requires Value(Vehicle(doc).value.members, Key(Type)).None?
    ensures ParseNodes(doc, filePath, table) == Fail(InvalidFile(filePath))
  {
  }

  /** A missing `type` on any node of a shaped `Vehicle` tree, and nothing else, fails the whole
      file, and always with the `IOException` naming the file. */
  lemma MissingTypeFailsFile(doc: JsonDoc, filePath: string, table: TypeTable)
    requires Vehicle(doc).Some? && Shaped(Vehicle(doc).value)
    ensures ParseNodes(doc, filePath, table).Fail? <==> !AllTyped(Vehicle(doc).value)
    ensures ParseNodes(doc, filePath, table).Fail? ==> ParseNodes(doc, filePath, table) == Fail(InvalidFile(filePath))
  {
    var vehicle := Vehicle(doc).value;
    ParseNodesSucceeds(doc, filePath, table);
    ShapedAcceptedIffTyped(vehicle);
    if FlattenNode(RootKey, vehicle, table).Fail? {
      ShapedFailsOnType(RootKey, vehicle, table);
    }
  }

  /** Unlike the YAML parser, an empty `type` string is accepted. */
  lemma EmptyTypeAccepted(vssPath: string, table: TypeTable)
    ensures ParseSpecModel(vssPath, [(Key(Type), Prim(""))], table).Ok?
  {
    var ms := [(Key(Type), Prim(""))];
    forall k: DataKey ensures Readable(ms, k) {
    }
  }
}
