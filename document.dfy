/** The parsed document tree of one configuration file, the key-paths that
    address its nodes, and the normalisation applied to a freshly loaded
    document (scripts/deploy/yaml_log.py:42-47). The parser itself is not
    modelled: any value of type Node stands for what it may return. */
module Document {

  datatype Option<+T> = None | Some(value: T)

  /** A scalar the loader can produce. `tag` of Other is the runtime type
      name shown in the report's Type column; `zero` records whether Python
      treats the value as false (0.0, b"", an empty set, ...). */
  datatype Value =
    | Null
    | Bool(b: bool)
    | Int(i: int)
    | Str(s: string)
    | Other(tag: string, text: string, zero: bool)

  /** A mapping keeps its items in insertion order; a sequence its elements
      in index order; anything else is a leaf. */
  datatype Node =
    | Map(fields: seq<Field>)
    | List(items: seq<Node>)
    | Scalar(v: Value)

  /** One item `(k, v)` of a mapping. */
  datatype Field = Field(key: string, value: Node)

  /** One step of a key-path: a mapping key or a 0-based sequence index. */
  datatype Segment = Key(name: string) | Index(pos: nat)

  type KeyPath = seq<Segment>

  /** What the flattener yields: the path to a leaf and the leaf's value. */
  type Entry = (KeyPath, Value)

  /** Keys are unique within every mapping of the tree, as they are in a
      Python dict. */
  predicate KeysUnique(n: Node) {
    match n
    case Scalar(_) => true
    case Map(fs) =>
      (forall i, j :: 0 <= i < j < |fs| ==> fs[i].key != fs[j].key) &&
      (forall i :: 0 <= i < |fs| ==> KeysUnique(fs[i].value))
    case List(xs) => forall i :: 0 <= i < |xs| ==> KeysUnique(xs[i])
  }

  /** The position of the first field named k. */
  function FindKey(fs: seq<Field>, k: string): (r: Option<nat>)
    ensures r.Some? ==> r.value < |fs| && fs[r.value].key == k &&
                        forall i :: 0 <= i < r.value ==> fs[i].key != k
    ensures r.None? ==> forall i :: 0 <= i < |fs| ==> fs[i].key != k
  {
    if fs == [] then None
    else if fs[0].key == k then Some(0)
    else match FindKey(fs[1..], k)
      case None => None
      case Some(i) => Some(i + 1)
  }

  /** With unique keys, the first field named like field j is field j. */
  lemma {:induction false} FindUniqueKey(fs: seq<Field>, j: nat)
    requires j < |fs|
    requires forall a, b :: 0 <= a < b < |fs| ==> fs[a].key != fs[b].key
    ensures FindKey(fs, fs[j].key) == Some(j)
  {
    if j > 0 {
      FindUniqueKey(fs[1..], j - 1);
    }
  }

  /** Follows a key-path from n, one segment per level: `node[k]` on a
      mapping, `node[i]` on a sequence. */
  function Lookup(n: Node, path: KeyPath): Option<Node>
    decreases |path|
  {
    if path == [] then Some(n)
    else match (n, path[0])
      case (Map(fs), Key(k)) =>
        (match FindKey(fs, k)
         case Some(j) => Lookup(fs[j].value, path[1..])
         case None => None)
      case (List(xs), Index(i)) =>
        if i < |xs| then Lookup(xs[i], path[1..]) else None
      case _ => None
  }

  /** Python truthiness of a parsed document root. */
  predicate IsFalsy(n: Node) {
    match n
    case Map(fs) => fs == []
    case List(xs) => xs == []
    case Scalar(v) =>
      match v
      case Null => true
      case Bool(b) => !b
      case Int(i) => i == 0
      case Str(s) => s == ""
      case Other(_, _, zero) => zero
  }

  /** `yaml_loader.load(f) or {}`: every falsy root becomes an empty mapping. */
  function Normalize(n: Node): (r: Node)
    ensures !IsFalsy(r) || r == Map([])
    ensures IsFalsy(n) <==> r == Map([])
    ensures r != n ==> IsFalsy(n)
  {
    if IsFalsy(n) then Map([]) else n
  }

  lemma NormalizeIdempotent(n: Node)
    ensures Normalize(Normalize(n)) == Normalize(n)
  {
  }
}
