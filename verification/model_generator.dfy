/** `VssModelGenerator`: parses every definition file, keeps the first node of each path, and
    decides which nodes become generated files and which import each file gets for its parent. */
module ModelGenerator {
  import opened Results
  import opened Strings
  import opened Properties
  import opened ParserFactory
  import YamlParser
  import JsonParser

  // ---------------------------------------------------------------------------------------------
  // Parsing the definition files

  /** A definition file as the parsers see it: its path, its name, and its content read as lines
      (for YAML) and as a JSON document (for JSON). */
  datatype VssFile = VssFile(path: string, name: string, lines: seq<string>, json: JsonParser.JsonDoc)

  /** `vssParserFactory.create(file).parseNodes(file)`. */
  function ParseFile(file: VssFile, table: TypeTable): (r: Result<seq<SpecModel>>)
    ensures ExtensionOf(file.name) == "json" ==> r == JsonParser.ParseNodes(file.json, file.path, table)
    ensures ExtensionOf(file.name) in {"yaml", "yml"} ==>
      r == YamlParser.ParseNodes(file.lines, DefaultElementDelimiter, file.path, table)
    ensures ExtensionOf(file.name) !in {"json", "yaml", "yml"} ==> r == Fail(UnsupportedExtension(ExtensionOf(file.name)))
  {
    var parser :- CreateForFile(file.name);
    match parser
    case JsonVssParser => JsonParser.ParseNodes(file.json, file.path, table)
    case YamlVssParser(delimiter) => YamlParser.ParseNodes(file.lines, delimiter, file.path, table)
  }

  /** The nodes of all files in iteration order, each file parsed by `parse`; the first file that
      fails aborts `generate`. */
  function ParseAll(files: seq<VssFile>, parse: VssFile -> Result<seq<SpecModel>>): (r: Result<seq<SpecModel>>)
    ensures r.Ok? <==> forall i | 0 <= i < |files| :: parse(files[i]).Ok?
  {
    if |files| == 0 then Ok([])
    else
      var first :- parse(files[0]);
      var rest :- ParseAll(files[1..], parse);
      assert forall i | 1 <= i < |files| :: files[1..][i - 1] == files[i];
      Ok(first + rest)
  }

  /** One file yields exactly what parsing it yields. */
  lemma ParseAllSingle(f: VssFile, parse: VssFile -> Result<seq<SpecModel>>)
    ensures ParseAll([f], parse) == parse(f)
  {
    assert [f][1..] == [];
    if parse(f).Ok? {
      assert parse(f).value + [] == parse(f).value;
    }
  }

  /** The nodes of a list of files are the nodes of its first part followed by those of the rest:
      together with `ParseAllSingle`, the result is every file's nodes concatenated in file order. */
  lemma {:induction false} ParseAllAppend(a: seq<VssFile>, b: seq<VssFile>, parse: VssFile -> Result<seq<SpecModel>>)
    ensures ParseAll(a + b, parse).Ok? <==> ParseAll(a, parse).Ok? && ParseAll(b, parse).Ok?
    ensures ParseAll(a + b, parse).Ok? ==>
      ParseAll(a + b, parse).value == ParseAll(a, parse).value + ParseAll(b, parse).value
  {
    if |a| == 0 {
      assert a + b == b;
    } else {
      assert (a + b)[0] == a[0];
      assert (a + b)[1..] == a[1..] + b;
      ParseAllAppend(a[1..], b, parse);
      if ParseAll(a + b, parse).Ok? {
        var first := parse(a[0]).value;
        assert ParseAll(a + b, parse).value == first + ParseAll(a[1..] + b, parse).value;
        assert ParseAll(a, parse).value == first + ParseAll(a[1..], parse).value;
        assert first + (ParseAll(a[1..], parse).value + ParseAll(b, parse).value)
            == (first + ParseAll(a[1..], parse).value) + ParseAll(b, parse).value;
      }
    }
  }

  /** A failure is the error of the first file that does not parse. */
  lemma {:induction false} ParseAllFailure(files: seq<VssFile>, parse: VssFile -> Result<seq<SpecModel>>)
    requires ParseAll(files, parse).Fail?
    ensures exists i | 0 <= i < |files| ::
      && (forall j | 0 <= j < i :: parse(files[j]).Ok?)
      && parse(files[i]) == Fail(ParseAll(files, parse).error)
  {
    var e := ParseAll(files, parse).error;
    if parse(files[0]).Fail? {
      assert parse(files[0]) == Fail(e);
    } else {
      var rest := files[1..];
      assert ParseAll(rest, parse) == Fail(e);
      ParseAllFailure(rest, parse);
      var i :| 0 <= i < |rest| && (forall j | 0 <= j < i :: parse(rest[j]).Ok?) && parse(rest[i]) == Fail(e);
      assert forall j | 1 <= j <= i + 1 :: files[j] == rest[j - 1];
      assert parse(files[i + 1]) == Fail(e);
    }
  }

  /** Every file parsed with the parser its extension selects. */
  function ParseAllFiles(files: seq<VssFile>, table: TypeTable): Result<seq<SpecModel>> {
    ParseAll(files, file => ParseFile(file, table))
  }

  // ---------------------------------------------------------------------------------------------
  // The registry: `distinctBy { it.vssPath }`

  function Paths(nodes: seq<SpecModel>): set<string> {
    set i | 0 <= i < |nodes| :: nodes[i].vssPath
  }

  lemma PathsAppend(nodes: seq<SpecModel>, node: SpecModel)
    ensures Paths(nodes + [node]) == Paths(nodes) + {node.vssPath}
  {
    var s := nodes + [node];
    assert s[|nodes|] == node;
    forall p | p in Paths(nodes) ensures p in Paths(s) {
      var i :| 0 <= i < |nodes| && nodes[i].vssPath == p;
      assert s[i] == nodes[i];
    }
  }

  /** The position of the first node with path `p`. */
  function FirstIndex(nodes: seq<SpecModel>, p: string): (r: nat)
    requires p in Paths(nodes)
    ensures r < |nodes| && nodes[r].vssPath == p
    ensures forall i | 0 <= i < r :: nodes[i].vssPath != p
  {
    var n := |nodes| - 1;
    PathsAppend(nodes[..n], nodes[n]);
    assert nodes[..n] + [nodes[n]] == nodes;
    if p in Paths(nodes[..n]) then FirstIndex(nodes[..n], p)
    else
      assert forall i | 0 <= i < n :: nodes[i].vssPath != p by {
        forall i | 0 <= i < n ensures nodes[i].vssPath != p {
          assert nodes[..n][i] == nodes[i];
        }
      }
      n
  }

  /** `distinctBy { it.vssPath }`: a node is kept when no earlier node has its path. */
  function Dedup(nodes: seq<SpecModel>): (r: seq<SpecModel>)
    ensures Paths(r) == Paths(nodes)
    ensures DistinctPaths(r)
  {
    if |nodes| == 0 then []
    else
      var n := |nodes| - 1;
      var d := Dedup(nodes[..n]);
      PathsAppend(nodes[..n], nodes[n]);
      assert nodes[..n] + [nodes[n]] == nodes;
      if nodes[n].vssPath in Paths(d) then d
      else
        PathsAppend(d, nodes[n]);
        var r := d + [nodes[n]];
        assert forall j | 0 <= j < |d| :: r[j] == d[j];
        r
  }

  /** A kept path is a path of the input. */
  lemma DedupPathIn(nodes: seq<SpecModel>, j: int)
    requires 0 <= j < |Dedup(nodes)|
    ensures Dedup(nodes)[j].vssPath in Paths(nodes)
  {
    assert Dedup(nodes)[j].vssPath in Paths(Dedup(nodes));
  }

  /** Each kept node is the first node with its path. */
  lemma {:induction false} DedupKeepsFirstOccurrences(nodes: seq<SpecModel>)
    ensures var r := Dedup(nodes);
      forall j | 0 <= j < |r| :: r[j].vssPath in Paths(nodes) && r[j] == nodes[FirstIndex(nodes, r[j].vssPath)]
  {
    if |nodes| > 0 {
      var n := |nodes| - 1;
      var init := nodes[..n];
      var d := Dedup(init);
      var r := Dedup(nodes);
      assert init + [nodes[n]] == nodes;
      DedupKeepsFirstOccurrences(init);
      FirstIndexAppend(init, nodes[n]);
      forall j | 0 <= j < |r| ensures r[j].vssPath in Paths(nodes) && r[j] == nodes[FirstIndex(nodes, r[j].vssPath)] {
        DedupPathIn(nodes, j);
        if j < |d| {
          assert r[j] == d[j];
          DedupPathIn(init, j);
          assert init[FirstIndex(init, d[j].vssPath)] == nodes[FirstIndex(init, d[j].vssPath)];
        } else {
          assert r[j] == nodes[n];
        }
      }
    }
  }

  /** The kept nodes keep the order of the first occurrences of their paths. */
  lemma {:induction false} DedupKeepsOrder(nodes: seq<SpecModel>)
    ensures var r := Dedup(nodes);
      forall i, j | 0 <= i < j < |r| ::
        && r[i].vssPath in Paths(nodes) && r[j].vssPath in Paths(nodes)
        && FirstIndex(nodes, r[i].vssPath) < FirstIndex(nodes, r[j].vssPath)
  {
    if |nodes| > 0 {
      var n := |nodes| - 1;
      var init := nodes[..n];
      var d := Dedup(init);
      var r := Dedup(nodes);
      assert init + [nodes[n]] == nodes;
      DedupKeepsOrder(init);
      FirstIndexAppend(init, nodes[n]);
      forall i, j | 0 <= i < j < |r|
        ensures && r[i].vssPath in Paths(nodes) && r[j].vssPath in Paths(nodes)
                && FirstIndex(nodes, r[i].vssPath) < FirstIndex(nodes, r[j].vssPath)
      {
        DedupPathIn(nodes, i);
        DedupPathIn(nodes, j);
        DedupPathIn(init, i);
        assert r[i] == d[i];
        if j < |d| {
          assert r[j] == d[j];
          DedupPathIn(init, j);
        } else {
          assert r[j] == nodes[n];
        }
      }
    }
  }

  /** Appending a node keeps the first positions of the paths already present. */
  lemma FirstIndexAppend(nodes: seq<SpecModel>, node: SpecModel)
    ensures Paths(nodes + [node]) == Paths(nodes) + {node.vssPath}
    ensures forall p | p in Paths(nodes) :: FirstIndex(nodes + [node], p) == FirstIndex(nodes, p)
    ensures node.vssPath !in Paths(nodes) ==> FirstIndex(nodes + [node], node.vssPath) == |nodes|
  {
    var s := nodes + [node];
    PathsAppend(nodes, node);
    assert s[..|nodes|] == nodes;
  }

  // ---------------------------------------------------------------------------------------------
  // Ambiguous leaves: `keys.groupBy { it.leaf }.filter { it.value.size > 1 }.keys`

  function PathList(nodes: seq<SpecModel>): (r: seq<string>)
    ensures |r| == |nodes| && forall i | 0 <= i < |nodes| :: r[i] == nodes[i].vssPath
  {
    seq(|nodes|, i requires 0 <= i < |nodes| => nodes[i].vssPath)
  }

  /** The paths with leaf `l`, in order. */
  function WithLeaf(paths: seq<string>, l: string): seq<string> {
    if |paths| == 0 then []
    else
      var n := |paths| - 1;
      WithLeaf(paths[..n], l) + (if Leaf(paths[n]) == l then [paths[n]] else [])
  }

  /** `groupBy { it.leaf }`: every leaf that occurs, mapped to its paths in order. */
  function GroupByLeaf(paths: seq<string>): map<string, seq<string>> {
    if |paths| == 0 then map[]
    else
      var n := |paths| - 1;
      var g0 := GroupByLeaf(paths[..n]);
      var l := Leaf(paths[n]);
      g0[l := (if l in g0 then g0[l] else []) + [paths[n]]]
  }

  /** The grouping maps exactly the leaves that occur, each to the paths ending in it, in order. */
  lemma {:induction false} GroupByLeafGroups(paths: seq<string>, l: string)
    ensures var g := GroupByLeaf(paths);
      (l in g <==> |WithLeaf(paths, l)| > 0) && (l in g ==> g[l] == WithLeaf(paths, l))
  {
    if |paths| > 0 {
      var n := |paths| - 1;
      GroupByLeafGroups(paths[..n], l);
    }
  }

  /** `duplicateNodeNames`: the leaves with more than one path. */
  function Collisions(paths: seq<string>): set<string> {
    var g := GroupByLeaf(paths);
    set l | l in g && |g[l]| > 1
  }

  lemma {:induction false} SomeWithLeafForward(paths: seq<string>, l: string)
    requires |WithLeaf(paths, l)| > 0
    ensures exists i | 0 <= i < |paths| :: Leaf(paths[i]) == l
  {
    var n := |paths| - 1;
    var init := paths[..n];
    if |WithLeaf(init, l)| > 0 {
      SomeWithLeafForward(init, l);
      var i :| 0 <= i < n && Leaf(init[i]) == l;
      assert paths[i] == init[i];
    } else {
      assert Leaf(paths[n]) == l;
    }
  }

  lemma {:induction false} SomeWithLeafBackward(paths: seq<string>, l: string, i: nat)
    requires i < |paths| && Leaf(paths[i]) == l
    ensures |WithLeaf(paths, l)| > 0
  {
    var n := |paths| - 1;
    var init := paths[..n];
    if i < n {
      assert init[i] == paths[i];
      SomeWithLeafBackward(init, l, i);
    }
  }

  lemma SomeWithLeaf(paths: seq<string>, l: string)
    ensures |WithLeaf(paths, l)| > 0 <==> exists i | 0 <= i < |paths| :: Leaf(paths[i]) == l
  {
    if |WithLeaf(paths, l)| > 0 {
      SomeWithLeafForward(paths, l);
    }
    if exists i | 0 <= i < |paths| :: Leaf(paths[i]) == l {
      var i :| 0 <= i < |paths| && Leaf(paths[i]) == l;
      SomeWithLeafBackward(paths, l, i);
    }
  }

  lemma {:induction false} TwoWithLeafForward(paths: seq<string>, l: string)
    requires |WithLeaf(paths, l)| > 1
    ensures exists i, j | 0 <= i < j < |paths| :: Leaf(paths[i]) == l && Leaf(paths[j]) == l
  {
    var n := |paths| - 1;
    var init := paths[..n];
    if |WithLeaf(init, l)| > 1 {
      TwoWithLeafForward(init, l);
      var i, j :| 0 <= i < j < n && Leaf(init[i]) == l && Leaf(init[j]) == l;
      assert paths[i] == init[i] && paths[j] == init[j];
    } else {
      SomeWithLeafForward(init, l);
      var i :| 0 <= i < n && Leaf(init[i]) == l;
      assert paths[i] == init[i];
    }
  }

  lemma {:induction false} TwoWithLeafBackward(paths: seq<string>, l: string, i: nat, j: nat)
    requires 0 <= i < j < |paths| && Leaf(paths[i]) == l && Leaf(paths[j]) == l
    ensures |WithLeaf(paths, l)| > 1
  {
    var n := |paths| - 1;
    var init := paths[..n];
    assert WithLeaf(paths, l) == WithLeaf(init, l) + (if Leaf(paths[n]) == l then [paths[n]] else []);
    assert init[i] == paths[i];
    if j < n {
      assert init[j] == paths[j];
      TwoWithLeafBackward(init, l, i, j);
    } else {
      SomeWithLeafBackward(init, l, i);
    }
  }

  lemma TwoWithLeaf(paths: seq<string>, l: string)
    ensures |WithLeaf(paths, l)| > 1 <==>
      exists i, j | 0 <= i < j < |paths| :: Leaf(paths[i]) == l && Leaf(paths[j]) == l
  {
    if |WithLeaf(paths, l)| > 1 {
      TwoWithLeafForward(paths, l);
    }
    if exists i, j | 0 <= i < j < |paths| :: Leaf(paths[i]) == l && Leaf(paths[j]) == l {
      var i, j :| 0 <= i < j < |paths| && Leaf(paths[i]) == l && Leaf(paths[j]) == l;
      TwoWithLeafBackward(paths, l, i, j);
    }
  }

  /** A leaf is ambiguous exactly when two registry entries end in it. */
  lemma CollisionsExactly(paths: seq<string>, l: string)
    ensures l in Collisions(paths) <==>
      exists i, j | 0 <= i < j < |paths| :: Leaf(paths[i]) == l && Leaf(paths[j]) == l
  {
    GroupByLeafGroups(paths, l);
    TwoWithLeaf(paths, l);
  }

  // ---------------------------------------------------------------------------------------------
  // `buildParentImport`

  /** `q` is a proper dotted prefix of `p`: one or more whole leading segments. */
  predicate DottedPrefix(q: string, p: string) {
    |q| < |p| && p[..|q|] == q && p[|q|] == '.'
  }

  /** The proper dotted prefixes of `p` are its parent and the parent's own dotted prefixes. */
  lemma DottedPrefixStep(q: string, p: string)
    requires '.' in p
    ensures DottedPrefix(q, p) <==> q == Parent(p) || DottedPrefix(q, Parent(p))
  {
    var q0 := Parent(p);
    if DottedPrefix(q, p) && q != q0 {
      assert |q| != |q0|;
      assert q0[..|q|] == p[..|q|];
    }
    if DottedPrefix(q, q0) {
      assert p[..|q|] == q0[..|q|];
    }
  }

  lemma NoDottedPrefix(q: string, p: string)
    requires '.' !in p
    ensures !DottedPrefix(q, p)
  {
    if |q| < |p| {
      assert p[|q|] in p;
    }
  }

  /** The upward walk of `buildParentImport`: the longest proper dotted prefix of `p` that already
      has a generated file. */
  function FindParentPath(p: string, generated: map<string, string>): (r: Option<string>)
    ensures r.Some? ==> DottedPrefix(r.value, p) && r.value in generated
    ensures r.Some? ==> forall q | DottedPrefix(q, p) && q in generated :: |q| <= |r.value|
    ensures r.None? ==> forall q | DottedPrefix(q, p) :: q !in generated
    decreases |p|
  {
    if '.' !in p then
      assert forall q :: !DottedPrefix(q, p) by {
        forall q ensures !DottedPrefix(q, p) {
          NoDottedPrefix(q, p);
        }
      }
      None
    else
      var q0 := Parent(p);
      assert forall q :: DottedPrefix(q, p) <==> q == q0 || DottedPrefix(q, q0) by {
        forall q ensures DottedPrefix(q, p) <==> q == q0 || DottedPrefix(q, q0) {
          DottedPrefixStep(q, p);
        }
      }
      if q0 in generated then Some(q0)
      else FindParentPath(q0, generated)
  }

  /** `buildParentImport`: the class name of the nearest generated ancestor, qualified by the
      node's `parentClassName` when the two differ; `""` when no ancestor has a file. */
  function BuildParentImport(node: SpecModel, generated: map<string, string>, parentClassName: string): (r: string)
    ensures (forall q | DottedPrefix(q, node.vssPath) :: q !in generated) ==> r == ""
    ensures forall q | DottedPrefix(q, node.vssPath) && q in generated ::
      |parentClassName| <= |r| && r[|r| - |parentClassName|..] == parentClassName
  {
    match FindParentPath(node.vssPath, generated)
    case None => ""
    case Some(q) =>
      var found := generated[q];
      if found != parentClassName then found + "." + parentClassName else parentClassName
  }

  /** What the import names: nothing without a generated ancestor; otherwise the class of the
      nearest generated ancestor, alone when it is the parent class and qualified otherwise. */
  lemma ParentImportNamesNearestAncestor(node: SpecModel, generated: map<string, string>, parentClassName: string)
    ensures (forall q | DottedPrefix(q, node.vssPath) :: q !in generated) ==>
      BuildParentImport(node, generated, parentClassName) == ""
    ensures forall q | DottedPrefix(q, node.vssPath) && q in generated ::
      (forall q' | DottedPrefix(q', node.vssPath) && q' in generated :: |q'| <= |q|) ==>
        BuildParentImport(node, generated, parentClassName)
          == if generated[q] == parentClassName then parentClassName else generated[q] + "." + parentClassName
  {
    var r := FindParentPath(node.vssPath, generated);
    forall q | DottedPrefix(q, node.vssPath) && q in generated &&
      (forall q' | DottedPrefix(q', node.vssPath) && q' in generated :: |q'| <= |q|)
      ensures r == Some(q)
    {
      assert |r.value| == |q|;
      assert r.value == node.vssPath[..|q|];
    }
  }

  // ---------------------------------------------------------------------------------------------
  // `generateModelFiles`

  /** `createClassSpec(...).name`: the generated class name of a node, given all registry nodes and
      the ambiguous leaves; `None` when the class spec has no name. */
  type ClassNamer = (SpecModel, seq<SpecModel>, set<string>) -> Option<string>

  /** The vss-core `parentClassName` of a node. */
  type ParentNamer = SpecModel -> string

  /** A written `<className>.kt`: the node it reflects and the import added for its parent. */
  datatype EmittedFile = EmittedFile(className: string, vssPath: string, parentImport: string)

  /** The files written so far, the generated-path map, and the exception that stopped the loop. */
  datatype Generation = Generation(files: seq<EmittedFile>, generated: map<string, string>, failure: Option<Error>)

  function NoNameError(node: SpecModel): Error {
    NoSuchField("Class spec " + node.vssPath + " has no name field!")
  }

  /** The generated-path map a sequence of written files leaves behind. */
  function GeneratedMap(files: seq<EmittedFile>): map<string, string> {
    if |files| == 0 then map[]
    else
      var n := |files| - 1;
      GeneratedMap(files[..n])[files[n].vssPath := files[n].className]
  }

  /** The registry nodes whose leaf is not ambiguous, in order. */
  function Eligible(nodes: seq<SpecModel>, collisions: set<string>): (r: seq<SpecModel>)
    ensures forall i | 0 <= i < |r| :: Leaf(r[i].vssPath) !in collisions
    ensures forall i | 0 <= i < |r| :: r[i] in nodes
    ensures forall j | 0 <= j < |nodes| && Leaf(nodes[j].vssPath) !in collisions :: nodes[j] in r
  {
    if |nodes| == 0 then []
    else
      var n := |nodes| - 1;
      assert nodes == nodes[..n] + [nodes[n]];
      Eligible(nodes[..n], collisions) + (if Leaf(nodes[n].vssPath) !in collisions then [nodes[n]] else [])
  }

  /** The eligible nodes among the first `k` registry entries, built in loop order. */
  function EligiblePrefix(registry: seq<SpecModel>, k: nat, collisions: set<string>): seq<SpecModel>
    requires k <= |registry|
  {
    if k == 0 then []
    else EligiblePrefix(registry, k - 1, collisions)
         + (if Leaf(registry[k - 1].vssPath) !in collisions then [registry[k - 1]] else [])
  }

  lemma {:induction false} EligiblePrefixIsEligible(registry: seq<SpecModel>, k: nat, collisions: set<string>)
    requires k <= |registry|
    ensures EligiblePrefix(registry, k, collisions) == Eligible(registry[..k], collisions)
  {
    if k > 0 {
      EligiblePrefixIsEligible(registry, k - 1, collisions);
      var init := registry[..k];
      assert init[..k - 1] == registry[..k - 1];
      assert init[k - 1] == registry[k - 1];
      var last := if Leaf(registry[k - 1].vssPath) !in collisions then [registry[k - 1]] else [];
      assert Eligible(init, collisions) == Eligible(registry[..k - 1], collisions) + last;
    }
  }

  /** One iteration of the loop of `generateModelFiles`. */
  function Step(s: Generation, node: SpecModel, registry: seq<SpecModel>, collisions: set<string>,
                namer: ClassNamer, parentNamer: ParentNamer): Generation
  {
    if s.failure.Some? || Leaf(node.vssPath) in collisions then s
    else
      match namer(node, registry, collisions)
      case None => s.(failure := Some(NoNameError(node)))
      case Some(className) =>
        var parentImport := BuildParentImport(node, s.generated, parentNamer(node));
        Generation(s.files + [EmittedFile(className, node.vssPath, parentImport)],
                   s.generated[node.vssPath := className], None)
  }

  /** The state after the first `k` registry entries. */
  function EmitPrefix(registry: seq<SpecModel>, k: nat, collisions: set<string>,
                      namer: ClassNamer, parentNamer: ParentNamer): Generation
    requires k <= |registry|
  {
    if k == 0 then Generation([], map[], None)
    else Step(EmitPrefix(registry, k - 1, collisions, namer, parentNamer), registry[k - 1], registry, collisions, namer, parentNamer)
  }

  /** `generateModelFiles` over the registry: one file per target node, in registry order, up to
      the first node without a class name; each file carries that node's class name and the import
      computed from the files written before it; the map holds exactly those files. */
  function GenerateModelFiles(registry: seq<SpecModel>, namer: ClassNamer, parentNamer: ParentNamer): (r: Generation)
    ensures Tracks(r, Targets(registry), registry, Collisions(PathList(registry)), namer, parentNamer)
  {
    assert registry[..|registry|] == registry;
    EligiblePrefixIsEligible(registry, |registry|, Collisions(PathList(registry)));
    EmitTracks(registry, |registry|, Collisions(PathList(registry)), namer, parentNamer);
    EmitPrefix(registry, |registry|, Collisions(PathList(registry)), namer, parentNamer)
  }

  /** `generate`: parse every file, keep the first node of each path, emit. A parse error stops
      everything before any file is written. */
  function Generate(files: seq<VssFile>, table: TypeTable, namer: ClassNamer, parentNamer: ParentNamer): (r: Generation)
    ensures ParseAllFiles(files, table).Fail? ==>
      r.files == [] && r.generated == map[] && r.failure == Some(ParseAllFiles(files, table).error)
    ensures ParseAllFiles(files, table).Ok? ==>
      var registry := Dedup(ParseAllFiles(files, table).value);
      Tracks(r, Targets(registry), registry, Collisions(PathList(registry)), namer, parentNamer)
  {
    match ParseAllFiles(files, table)
    case Fail(e) => Generation([], map[], Some(e))
    case Ok(nodes) => GenerateModelFiles(Dedup(nodes), namer, parentNamer)
  }

  // ---------------------------------------------------------------------------------------------
  // What the loop writes

  /** File `i` was written for `node`: under the node's class name, for its path, with the import
      computed from the files written before it. */
  predicate FileFor(files: seq<EmittedFile>, i: int, node: SpecModel, registry: seq<SpecModel>,
                    collisions: set<string>, namer: ClassNamer, parentNamer: ParentNamer)
    requires 0 <= i < |files|
  {
    && namer(node, registry, collisions).Some?
    && files[i] == EmittedFile(namer(node, registry, collisions).value, node.vssPath,
                               BuildParentImport(node, GeneratedMap(files[..i]), parentNamer(node)))
  }

  /** The loop state after a prefix whose eligible nodes are `e`: one file per eligible node up to
      the first unnamed one, the map of those files, and the `NoSuchFieldException` for that node. */
  predicate Tracks(s: Generation, e: seq<SpecModel>, registry: seq<SpecModel>, collisions: set<string>,
                   namer: ClassNamer, parentNamer: ParentNamer)
  {
    && |s.files| <= |e|
    && (forall i | 0 <= i < |s.files| :: FileFor(s.files, i, e[i], registry, collisions, namer, parentNamer))
    && s.generated == GeneratedMap(s.files)
    && (s.failure.None? ==> |s.files| == |e|)
    && (s.failure.Some? ==>
          && |s.files| < |e|
          && namer(e[|s.files|], registry, collisions).None?
          && s.failure == Some(NoNameError(e[|s.files|])))
  }

  /** A state that tracks `e` also tracks `e` extended, as long as it has stopped. */
  lemma TracksExtend(s: Generation, e: seq<SpecModel>, node: SpecModel, registry: seq<SpecModel>,
                     collisions: set<string>, namer: ClassNamer, parentNamer: ParentNamer)
    requires Tracks(s, e, registry, collisions, namer, parentNamer) && s.failure.Some?
    ensures Tracks(s, e + [node], registry, collisions, namer, parentNamer)
  {
    var e' := e + [node];
    assert forall i | 0 <= i < |e| :: e'[i] == e[i];
  }

  /** A new file for the next eligible node keeps the state in step. */
  lemma TracksWrite(s: Generation, e: seq<SpecModel>, node: SpecModel, className: string, registry: seq<SpecModel>,
                    collisions: set<string>, namer: ClassNamer, parentNamer: ParentNamer)
    requires Tracks(s, e, registry, collisions, namer, parentNamer) && s.failure.None?
    requires namer(node, registry, collisions) == Some(className)
    ensures var f := EmittedFile(className, node.vssPath, BuildParentImport(node, s.generated, parentNamer(node)));
      Tracks(Generation(s.files + [f], s.generated[node.vssPath := className], None),
             e + [node], registry, collisions, namer, parentNamer)
  {
    var f := EmittedFile(className, node.vssPath, BuildParentImport(node, s.generated, parentNamer(node)));
    var files := s.files + [f];
    var e' := e + [node];
    assert files[..|s.files|] == s.files;
    forall i | 0 <= i < |files|
      ensures FileFor(files, i, e'[i], registry, collisions, namer, parentNamer)
    {
      if i < |s.files| {
        assert files[..i] == s.files[..i];
        assert FileFor(s.files, i, e[i], registry, collisions, namer, parentNamer);
      }
    }
  }

  /** One iteration keeps the state in step with the eligible nodes seen so far. */
  lemma StepTracks(s: Generation, e: seq<SpecModel>, node: SpecModel, registry: seq<SpecModel>,
                   collisions: set<string>, namer: ClassNamer, parentNamer: ParentNamer)
    requires Tracks(s, e, registry, collisions, namer, parentNamer)
    ensures Tracks(Step(s, node, registry, collisions, namer, parentNamer),
                   e + (if Leaf(node.vssPath) !in collisions then [node] else []),
                   registry, collisions, namer, parentNamer)
  {
    if Leaf(node.vssPath) in collisions {
      assert e + [] == e;
    } else if s.failure.Some? {
      TracksExtend(s, e, node, registry, collisions, namer, parentNamer);
    } else {
      match namer(node, registry, collisions)
      case None =>
        assert (e + [node])[|e|] == node;
      case Some(className) =>
        TracksWrite(s, e, node, className, registry, collisions, namer, parentNamer);
    }
  }

  /** The loop invariant of `generateModelFiles`. */
  lemma {:induction false} EmitTracks(registry: seq<SpecModel>, k: nat, collisions: set<string>,
                                      namer: ClassNamer, parentNamer: ParentNamer)
    requires k <= |registry|
    ensures Tracks(EmitPrefix(registry, k, collisions, namer, parentNamer), EligiblePrefix(registry, k, collisions),
                   registry, collisions, namer, parentNamer)
  {
    if k > 0 {
      EmitTracks(registry, k - 1, collisions, namer, parentNamer);
      StepTracks(EmitPrefix(registry, k - 1, collisions, namer, parentNamer), EligiblePrefix(registry, k - 1, collisions),
                 registry[k - 1], registry, collisions, namer, parentNamer);
    }
  }

  function FilePaths(files: seq<EmittedFile>): set<string> {
    set i | 0 <= i < |files| :: files[i].vssPath
  }

  lemma FilePathsAppend(files: seq<EmittedFile>, f: EmittedFile)
    ensures FilePaths(files + [f]) == FilePaths(files) + {f.vssPath}
  {
    var s := files + [f];
    assert s[|files|] == f;
    forall p | p in FilePaths(files) ensures p in FilePaths(s) {
      var i :| 0 <= i < |files| && files[i].vssPath == p;
      assert s[i] == files[i];
    }
  }

  /** The generated-path map holds exactly the written paths. */
  lemma {:induction false} GeneratedMapKeys(files: seq<EmittedFile>)
    ensures GeneratedMap(files).Keys == FilePaths(files)
  {
    if |files| > 0 {
      var n := |files| - 1;
      GeneratedMapKeys(files[..n]);
      FilePathsAppend(files[..n], files[n]);
      assert files[..n] + [files[n]] == files;
    }
  }

  /** With distinct paths, each written path maps to the class name of its file. */
  lemma {:induction false} GeneratedMapValues(files: seq<EmittedFile>, i: nat)
    requires i < |files|
    requires forall a, b | 0 <= a < b < |files| :: files[a].vssPath != files[b].vssPath
    ensures files[i].vssPath in GeneratedMap(files)
    ensures GeneratedMap(files)[files[i].vssPath] == files[i].className
  {
    var n := |files| - 1;
    if i < n {
      var init := files[..n];
      assert init[i] == files[i];
      GeneratedMapValues(init, i);
    }
  }

  /** The nodes `generateModelFiles` writes files for, in order: those whose leaf is not ambiguous. */
  function Targets(registry: seq<SpecModel>): seq<SpecModel> {
    Eligible(registry, Collisions(PathList(registry)))
  }

  /** No file is written for a node whose leaf is ambiguous. */
  lemma NoFileForAmbiguousLeaf(registry: seq<SpecModel>, namer: ClassNamer, parentNamer: ParentNamer)
    ensures forall i | 0 <= i < |GenerateModelFiles(registry, namer, parentNamer).files| ::
      Leaf(GenerateModelFiles(registry, namer, parentNamer).files[i].vssPath) !in Collisions(PathList(registry))
  {
    var g := GenerateModelFiles(registry, namer, parentNamer);
    var collisions := Collisions(PathList(registry));
    forall i | 0 <= i < |g.files| ensures Leaf(g.files[i].vssPath) !in collisions {
      assert FileFor(g.files, i, Targets(registry)[i], registry, collisions, namer, parentNamer);
    }
  }

  /** Generation stops with `NoSuchFieldException` exactly when some target node has no class name. */
  lemma GenerationFailsIffUnnamed(registry: seq<SpecModel>, namer: ClassNamer, parentNamer: ParentNamer)
    ensures GenerateModelFiles(registry, namer, parentNamer).failure.None? <==>
      forall i | 0 <= i < |Targets(registry)| ::
        namer(Targets(registry)[i], registry, Collisions(PathList(registry))).Some?
  {
    var g := GenerateModelFiles(registry, namer, parentNamer);
    var collisions := Collisions(PathList(registry));
    var e := Targets(registry);
    if g.failure.None? {
      forall i | 0 <= i < |e| ensures namer(e[i], registry, collisions).Some? {
        assert FileFor(g.files, i, e[i], registry, collisions, namer, parentNamer);
      }
    }
  }

  /** A completed state that tracks the eligible nodes of `nodes` holds, among their paths,
      exactly the unambiguous ones. */
  lemma TrackedPaths(s: Generation, nodes: seq<SpecModel>, registry: seq<SpecModel>, collisions: set<string>,
                     namer: ClassNamer, parentNamer: ParentNamer)
    requires Tracks(s, Eligible(nodes, collisions), registry, collisions, namer, parentNamer) && s.failure.None?
    ensures forall j | 0 <= j < |nodes| :: nodes[j].vssPath in s.generated <==> Leaf(nodes[j].vssPath) !in collisions
  {
    var e := Eligible(nodes, collisions);
    GeneratedMapKeys(s.files);
    forall j | 0 <= j < |nodes|
      ensures nodes[j].vssPath in s.generated <==> Leaf(nodes[j].vssPath) !in collisions
    {
      if Leaf(nodes[j].vssPath) !in collisions {
        var i :| 0 <= i < |e| && e[i] == nodes[j];
        assert FileFor(s.files, i, e[i], registry, collisions, namer, parentNamer);
        assert s.files[i].vssPath in FilePaths(s.files);
      }
      if nodes[j].vssPath in s.generated {
        var i :| 0 <= i < |s.files| && s.files[i].vssPath == nodes[j].vssPath;
        assert FileFor(s.files, i, e[i], registry, collisions, namer, parentNamer);
      }
    }
  }

  /** When generation completes, a registry path is in the generated-path map exactly when its
      leaf is not ambiguous. */
  lemma GeneratedPathsAreUnambiguous(registry: seq<SpecModel>, namer: ClassNamer, parentNamer: ParentNamer)
    requires GenerateModelFiles(registry, namer, parentNamer).failure.None?
    ensures forall j | 0 <= j < |registry| ::
      registry[j].vssPath in GenerateModelFiles(registry, namer, parentNamer).generated <==>
        Leaf(registry[j].vssPath) !in Collisions(PathList(registry))
  {
    TrackedPaths(GenerateModelFiles(registry, namer, parentNamer), registry, registry,
                 Collisions(PathList(registry)), namer, parentNamer);
  }

  /** Dropping nodes keeps paths distinct. */
  lemma {:induction false} EligibleDistinct(nodes: seq<SpecModel>, collisions: set<string>)
    requires DistinctPaths(nodes)
    ensures DistinctPaths(Eligible(nodes, collisions))
  {
    if |nodes| > 0 {
      var n := |nodes| - 1;
      var init := nodes[..n];
      var r0 := Eligible(init, collisions);
      assert DistinctPaths(init) by {
        assert forall i | 0 <= i < n :: init[i] == nodes[i];
      }
      EligibleDistinct(init, collisions);
      if Leaf(nodes[n].vssPath) !in collisions {
        var r := r0 + [nodes[n]];
        assert r == Eligible(nodes, collisions);
        forall a, b | 0 <= a < b < |r| ensures r[a].vssPath != r[b].vssPath {
          assert r[a] == r0[a];
          if b < |r0| {
            assert r[b] == r0[b];
          } else {
            assert r0[a] in init;
            var j :| 0 <= j < n && init[j] == r0[a];
            assert nodes[j] == init[j];
          }
        }
      } else {
        assert r0 == Eligible(nodes, collisions);
      }
    }
  }

  /** Files tracking nodes with distinct paths have distinct paths, and the map sends each file's
      path to its class name. */
  lemma TrackedFilesDistinct(s: Generation, e: seq<SpecModel>, registry: seq<SpecModel>, collisions: set<string>,
                             namer: ClassNamer, parentNamer: ParentNamer)
    requires Tracks(s, e, registry, collisions, namer, parentNamer) && DistinctPaths(e)
    ensures forall a, b | 0 <= a < b < |s.files| :: s.files[a].vssPath != s.files[b].vssPath
    ensures forall i | 0 <= i < |s.files| ::
      s.files[i].vssPath in s.generated && s.generated[s.files[i].vssPath] == s.files[i].className
  {
    forall a, b | 0 <= a < b < |s.files| ensures s.files[a].vssPath != s.files[b].vssPath {
      assert FileFor(s.files, a, e[a], registry, collisions, namer, parentNamer);
      assert FileFor(s.files, b, e[b], registry, collisions, namer, parentNamer);
    }
    forall i | 0 <= i < |s.files|
      ensures s.files[i].vssPath in s.generated && s.generated[s.files[i].vssPath] == s.files[i].className
    {
      GeneratedMapValues(s.files, i);
    }
  }

  /** After parsing, every path gets at most one file, and the generated-path map sends each
      written path to the class name of its file. */
  lemma GenerateWritesEachPathOnce(files: seq<VssFile>, table: TypeTable, namer: ClassNamer, parentNamer: ParentNamer)
    requires ParseAllFiles(files, table).Ok?
    ensures var g := Generate(files, table, namer, parentNamer);
      && (forall a, b | 0 <= a < b < |g.files| :: g.files[a].vssPath != g.files[b].vssPath)
      && (forall i | 0 <= i < |g.files| ::
            g.files[i].vssPath in g.generated && g.generated[g.files[i].vssPath] == g.files[i].className)
  {
    var registry := Dedup(ParseAllFiles(files, table).value);
    assert Generate(files, table, namer, parentNamer) == GenerateModelFiles(registry, namer, parentNamer);
    EligibleDistinct(registry, Collisions(PathList(registry)));
    TrackedFilesDistinct(GenerateModelFiles(registry, namer, parentNamer), Targets(registry), registry,
                         Collisions(PathList(registry)), namer, parentNamer);
  }
}
