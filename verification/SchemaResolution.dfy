/** Schemas of packet fields, and what following their aliases comes to. */
module SchemaResolution {
  import opened Wire

  /** A schema node. `Wrapped` is a well-formed mapper or bitflags node; `Other` is every node that no packet codec
    * supports, malformed ones and a missing node included. */
  datatype Node =
    | Name(name: string)
    | Wrapped(base: Node)
    | Buffer(countType: Node)
    | Container(fields: Fields)
    | Other

  datatype Fields = NoFields | Field(name: string, schema: Node, rest: Fields)

  const POSITION := "position"
  const VOID := "void"

  /** What names mean: the primitives, the types of one direction, and those of the whole document. `cName` makes a
    * field's C name. */
  datatype Types = Types(primitives: map<string, Prim>, direction: map<string, Node>, document: map<string, Node>,
                         cName: string -> string)

  function Aliases(t: Types): set<string> {
    t.direction.Keys + t.document.Keys
  }

  function Size(n: Node): (size: nat)
    ensures size > 0
  {
    match n
    case Wrapped(base) => 1 + Size(base)
    case Container(fields) => 1 + FieldsSize(fields)
    case _ => 1
  }

  function FieldsSize(fields: Fields): nat {
    match fields
    case NoFields => 0
    case Field(_, s, rest) => 1 + Size(s) + FieldsSize(rest)
  }

  predicate Stops(t: Types, name: string) {
    name in t.primitives || name == POSITION || name == VOID
  }

  /** Neither an alias nor a well-formed mapper or bitflags node. */
  predicate Final(t: Types, n: Node) {
    match n
    case Name(name) => Stops(t, name)
    case Wrapped(_) => false
    case _ => true
  }

  /** A direction's own types come before the document's. */
  function Meaning(t: Types, name: string): Node
    requires name in Aliases(t)
  {
    if name in t.direction then t.direction[name] else t.document[name]
  }

  datatype Resolution = Done(node: Node, passed: set<string>) | Recursive(name: string) | Unknown(name: string)

  /** What resolving `n` comes to once the aliases `seen` have been passed. */
  function Resolved(t: Types, n: Node, seen: set<string>): (r: Resolution)
    ensures r.Done? ==> Final(t, r.node) && seen <= r.passed && r.passed <= seen + Aliases(t)
    ensures r.Done? && r.passed == seen ==> Size(r.node) <= Size(n)
    decreases Aliases(t) - seen, Size(n)
  {
    match n
    case Name(name) =>
      if Stops(t, name) then Done(n, seen)
      else if name in seen then Recursive(name)
      else if name !in Aliases(t) then Unknown(name)
      else Resolved(t, Meaning(t, name), seen + {name})
    case Wrapped(base) => Resolved(t, base, seen)
    case _ => Done(n, seen)
  }

  /** Compiler.resolve. */
  method Resolve(t: Types, schema: Node) returns (r: Resolution)
    ensures r == Resolved(t, schema, {})
  {
    var n := schema;
    var seen: set<string> := {};
    while true
      invariant Resolved(t, schema, {}) == Resolved(t, n, seen)
      decreases Aliases(t) - seen, Size(n)
    {
      if n.Name? {
        var name := n.name;
        if Stops(t, name) { return Done(n, seen); }
        if name in seen { return Recursive(name); }
        if name in t.direction {
          n := t.direction[name];
        } else if name in t.document {
          n := t.document[name];
        } else {
          return Unknown(name);
        }
        seen := seen + {name};
      } else if n.Wrapped? {
        n := n.base;
      } else {
        return Done(n, seen);
      }
    }
  }

  // The chain of nodes that resolving passes, without any memory of the names passed.

  datatype Link = At(node: Node) | Over

  function Next(t: Types, n: Node): Link {
    match n
    case Name(name) => if !Stops(t, name) && name in Aliases(t) then At(Meaning(t, name)) else Over
    case Wrapped(base) => At(base)
    case _ => Over
  }

  function Chain(t: Types, n: Node, k: nat): Link {
    if k == 0 then At(n) else
      var before := Chain(t, n, k - 1);
      if before.At? then Next(t, before.node) else Over
  }

  /** The chain comes to a final node in `k` steps. */
  predicate EndsIn(t: Types, n: Node, k: nat) {
    Chain(t, n, k).At? && Final(t, Chain(t, n, k).node)
  }

  /** The chain comes to a name that means nothing. */
  predicate LostIn(t: Types, n: Node, k: nat) {
    Chain(t, n, k).At? && !Final(t, Chain(t, n, k).node) && Next(t, Chain(t, n, k).node).Over?
  }

  /** The chain has a step after `k` steps. */
  predicate GoesOn(t: Types, n: Node, k: nat) {
    Chain(t, n, k).At? && Next(t, Chain(t, n, k).node).At?
  }

  lemma {:induction false} GoesOnBefore(t: Types, n: Node, k: nat, j: nat)
    requires Chain(t, n, k).At? && j < k
    ensures GoesOn(t, n, j)
  {
    if j < k - 1 { GoesOnBefore(t, n, k - 1, j); }
  }

  lemma {:induction false} SameFrom(t: Types, n: Node, i: nat, j: nat, m: nat)
    requires Chain(t, n, i) == Chain(t, n, j)
    ensures Chain(t, n, i + m) == Chain(t, n, j + m)
  {
    if m > 0 { SameFrom(t, n, i, j, m - 1); }
  }

  /** A chain that comes back to a node it has passed never ends. */
  lemma {:induction false} ReturningNeverEnds(t: Types, n: Node, i: nat, j: nat, k: nat)
    requires i < j && Chain(t, n, j).At? && Chain(t, n, i) == Chain(t, n, j)
    ensures GoesOn(t, n, k)
    decreases k
  {
    if k < j {
      GoesOnBefore(t, n, j, k);
    } else {
      SameFrom(t, n, i, j, k - j);
      ReturningNeverEnds(t, n, i, j, k - j + i);
    }
  }

  /** The names seen are those of nodes passed on the way to the `k`th. */
  ghost predicate Passed(t: Types, n: Node, seen: set<string>, k: nat) {
    forall name <- seen :: exists i: nat :: i < k && IsNamed(t, n, i, name)
  }

  predicate IsNamed(t: Types, n: Node, i: nat, name: string) {
    Chain(t, n, i) == At(Name(name))
  }

  /** How a resolution relates to the chain it follows. */
  ghost predicate Follows(t: Types, n: Node, r: Resolution) {
    match r
    case Done(end, _) => exists k: nat :: EndsIn(t, n, k) && Chain(t, n, k) == At(end)
    case Unknown(name) => exists k: nat :: LostIn(t, n, k) && IsNamed(t, n, k, name)
    case Recursive(_) => forall k: nat :: GoesOn(t, n, k)
  }

  lemma {:induction false} ResolvedFollows(t: Types, n: Node, seen: set<string>, k: nat, now: Node)
    requires Chain(t, n, k) == At(now) && Passed(t, n, seen, k)
    ensures Follows(t, n, Resolved(t, now, seen))
    decreases Aliases(t) - seen, Size(now)
  {
    if now.Wrapped? {
      ResolvedFollows(t, n, seen, k + 1, now.base);
    } else if Final(t, now) {
      assert EndsIn(t, n, k);
    } else if now.name in seen {
      var i: nat :| i < k && IsNamed(t, n, i, now.name);
      forall j: nat ensures GoesOn(t, n, j) { ReturningNeverEnds(t, n, i, k, j); }
    } else if now.name !in Aliases(t) {
      assert LostIn(t, n, k) && IsNamed(t, n, k, now.name);
    } else {
      assert IsNamed(t, n, k, now.name);
      ResolvedFollows(t, n, seen + {now.name}, k + 1, Meaning(t, now.name));
    }
  }

  lemma OneEnd(t: Types, n: Node, k: nat, j: nat)
    requires EndsIn(t, n, k) || LostIn(t, n, k)
    requires EndsIn(t, n, j) || LostIn(t, n, j)
    ensures k == j
  {
    if k < j { GoesOnBefore(t, n, j, k); } else if j < k { GoesOnBefore(t, n, k, j); }
  }

  /** Resolving gives the end of the chain when there is one, an unknown name exactly when the chain is lost, and
    * reports recursion exactly when the chain never ends. What it gives is neither an alias nor a well-formed mapper
    * or bitflags node, and resolving that again changes nothing. */
  lemma ResolutionIsExact(t: Types, n: Node)
    ensures var r := Resolved(t, n, {});
            && (r.Done? <==> exists k: nat :: EndsIn(t, n, k))
            && (r.Unknown? <==> exists k: nat :: LostIn(t, n, k))
            && (r.Recursive? <==> forall k: nat :: GoesOn(t, n, k))
            && (r.Done? ==> Final(t, r.node) && Resolved(t, r.node, {}) == Done(r.node, {}))
            && (forall k: nat :: EndsIn(t, n, k) ==> r.Done? && Chain(t, n, k) == At(r.node))
            && (forall k: nat :: LostIn(t, n, k) ==> r.Unknown? && IsNamed(t, n, k, r.name))
  {
    var r := Resolved(t, n, {});
    ResolvedFollows(t, n, {}, 0, n);
    forall k: nat, j: nat | (EndsIn(t, n, k) || LostIn(t, n, k)) && (EndsIn(t, n, j) || LostIn(t, n, j))
      ensures k == j
    {
      OneEnd(t, n, k, j);
    }
    if r.Recursive? {
      forall k: nat ensures !EndsIn(t, n, k) && !LostIn(t, n, k) { assert GoesOn(t, n, k); }
    } else {
      var k: nat :| EndsIn(t, n, k) || LostIn(t, n, k);
      assert !GoesOn(t, n, k);
    }
  }
}
