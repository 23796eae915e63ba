/** Which aliases a validator needs: the stack-pruned walk over a document that may be cyclic. */
module AliasClosure {
  import opened Wrappers
  import opened ComponentSchema
  import opened ComponentCode
  import opened ComponentCompiler
  import opened ComponentCorrect

  /** No node inlined in `s` has an unknown kind or a wrong shape. */
  ghost predicate Shaped(s: Schema) {
    match s
    case Malformed => false
    case Mapper(base, _) => Shaped(base)
    case Bitflags(base) => Shaped(base)
    case Container(fields) => FieldsShaped(fields)
    case Array(_, countType, element) => (countType.Some? ==> Shaped(countType.value)) && Shaped(element)
    case Optional(inner) => Shaped(inner)
    case Switch(_, cases, fallback) => CasesShaped(cases) && (fallback.Some? ==> Shaped(fallback.value))
    case RegistryHolder(inline) => Shaped(inline)
    case RegistryHolderSet(base, member) => Shaped(base) && Shaped(member)
    case _ => true
  }

  ghost predicate FieldsShaped(fields: Fields) {
    fields.Field? ==> Shaped(fields.schema) && FieldsShaped(fields.rest)
  }

  ghost predicate CasesShaped(cases: Cases) {
    cases.Case? ==> Shaped(cases.body) && CasesShaped(cases.rest)
  }

  /** A walk from one of the aliases `start` through the definitions, none of which is in `avoid` except perhaps
    * the last. */
  ghost predicate Walk(types: map<string, Schema>, start: set<string>, avoid: set<string>, p: seq<string>) {
    && p != [] && p[0] in start
    && forall k :: 0 <= k < |p| - 1 ==>
         p[k] in types && p[k] !in avoid && p[k + 1] in Aliases(types[p[k]])
  }

  ghost predicate Reaches(types: map<string, Schema>, start: set<string>, avoid: set<string>, name: string) {
    exists p :: Walk(types, start, avoid, p) && p[|p| - 1] == name
  }

  lemma ReachesUnion(types: map<string, Schema>, a: set<string>, b: set<string>, avoid: set<string>)
    ensures forall name :: Reaches(types, a + b, avoid, name) <==>
                           Reaches(types, a, avoid, name) || Reaches(types, b, avoid, name)
  {
    forall name
      ensures Reaches(types, a + b, avoid, name) <==>
              Reaches(types, a, avoid, name) || Reaches(types, b, avoid, name)
    {
      if Reaches(types, a + b, avoid, name) {
        var p :| Walk(types, a + b, avoid, p) && p[|p| - 1] == name;
        assert Walk(types, a, avoid, p) || Walk(types, b, avoid, p);
      }
      if Reaches(types, a, avoid, name) {
        var p :| Walk(types, a, avoid, p) && p[|p| - 1] == name;
        assert Walk(types, a + b, avoid, p);
      }
      if Reaches(types, b, avoid, name) {
        var p :| Walk(types, b, avoid, p) && p[|p| - 1] == name;
        assert Walk(types, a + b, avoid, p);
      }
    }
  }

  /** What follows step `k` of a walk is a walk from the definition of step `k`. */
  lemma WalkOn(types: map<string, Schema>, start: set<string>, avoid: set<string>, p: seq<string>, k: nat)
    requires Walk(types, start, avoid, p) && k < |p| - 1
    ensures p[k] in types && Walk(types, Aliases(types[p[k]]), avoid, p[k + 1..])
  {
    var q := p[k + 1..];
    forall j | 0 <= j < |q| - 1 ensures q[j] in types && q[j] !in avoid && q[j + 1] in Aliases(types[q[j]]) {
      var i := k + 1 + j;
      assert q[j] == p[i] && q[j + 1] == p[i + 1];
    }
  }

  /** A walk from the definition of `a` need not pass through `a` again: what follows the last visit is a walk from
    * the same definition. */
  lemma {:induction false} WalkAvoiding(types: map<string, Schema>, a: string, avoid: set<string>, p: seq<string>)
    requires a in types && Walk(types, Aliases(types[a]), avoid, p) && p[|p| - 1] != a
    ensures Reaches(types, Aliases(types[a]), avoid + {a}, p[|p| - 1])
    decreases |p|
  {
    if k :| 0 <= k < |p| - 1 && p[k] == a {
      WalkOn(types, Aliases(types[a]), avoid, p, k);
      WalkAvoiding(types, a, avoid, p[k + 1..]);
    } else {
      assert Walk(types, Aliases(types[a]), avoid + {a}, p);
    }
  }

  /** What an alias reaches is itself and what its definition reaches without it. */
  lemma ReachesThroughAlias(types: map<string, Schema>, a: string, avoid: set<string>)
    requires a in types
    ensures forall name :: Reaches(types, {a}, avoid, name) <==>
              name == a || (a !in avoid && Reaches(types, Aliases(types[a]), avoid + {a}, name))
  {
    forall name
      ensures Reaches(types, {a}, avoid, name) <==>
                name == a || (a !in avoid && Reaches(types, Aliases(types[a]), avoid + {a}, name))
    {
      if name == a { assert Walk(types, {a}, avoid, [a]); }
      if Reaches(types, {a}, avoid, name) && name != a {
        var p :| Walk(types, {a}, avoid, p) && p[|p| - 1] == name;
        WalkOn(types, {a}, avoid, p, 0);
        WalkAvoiding(types, a, avoid, p[1..]);
      }
      if a !in avoid && Reaches(types, Aliases(types[a]), avoid + {a}, name) {
        var q :| Walk(types, Aliases(types[a]), avoid + {a}, q) && q[|q| - 1] == name;
        var p := [a] + q;
        assert forall j :: 0 < j < |p| ==> p[j] == q[j - 1];
        assert Walk(types, {a}, avoid, p);
      }
    }
  }

  /** The walk refuses nothing it meets: every alias is defined, and the definitions it opens are well shaped. */
  ghost predicate Accepts(types: map<string, Schema>, start: set<string>, avoid: set<string>) {
    forall name :: Reaches(types, start, avoid, name) ==> name in types && (name in avoid || Shaped(types[name]))
  }

  class AliasFinder {
    const types: map<string, Schema>
    var found: set<string>

    constructor (types: map<string, Schema>)
      ensures this.types == types && found == {}
    {
      this.types := types;
      found := {};
    }

    /** Finds what `s` reaches without passing through an alias that is already on the stack; false is a raised
      * error. */
    method Visit(s: Schema, stack: set<string>) returns (ok: bool)
      modifies this`found
      ensures ok <==> Shaped(s) && Accepts(types, Aliases(s), stack)
      ensures ok ==> forall name :: name in found <==>
                       name in old(found) || Reaches(types, Aliases(s), stack, name)
      decreases types.Keys - stack, Size(s)
    {
      match s {
        case Primitive(_) =>
          return true;
        case Malformed =>
          return false;
        case Alias(name) =>
          if name !in types {
            assert Walk(types, {name}, stack, [name]);
            return false;
          }
          ReachesThroughAlias(types, name, stack);
          found := found + {name};
          ok := true;
          if name !in stack {
            ok := Visit(types[name], stack + {name});
          }
        case Mapper(base, _) =>
          ok := Visit(base, stack);
        case Bitflags(base) =>
          ok := Visit(base, stack);
        case Container(fields) =>
          ok := VisitFields(fields, stack);
        case Array(_, countType, element) =>
          ReachesUnion(types, if countType.Some? then Aliases(countType.value) else {}, Aliases(element), stack);
          if countType.Some? {
            ok := Visit(countType.value, stack);
            if !ok { return; }
          }
          ok := Visit(element, stack);
        case Optional(inner) =>
          ok := Visit(inner, stack);
        case Switch(_, cases, fallback) =>
          ReachesUnion(types, CaseAliases(cases), if fallback.Some? then Aliases(fallback.value) else {}, stack);
          ok := VisitCases(cases, stack);
          if ok && fallback.Some? {
            ok := Visit(fallback.value, stack);
          }
        case RegistryHolder(inline) =>
          ok := Visit(inline, stack);
        case RegistryHolderSet(base, member) =>
          ReachesUnion(types, Aliases(base), Aliases(member), stack);
          ok := Visit(base, stack);
          if ok {
            ok := Visit(member, stack);
          }
      }
    }

    method VisitFields(fields: Fields, stack: set<string>) returns (ok: bool)
      modifies this`found
      ensures ok <==> FieldsShaped(fields) && Accepts(types, FieldAliases(fields), stack)
      ensures ok ==> forall name :: name in found <==>
                       name in old(found) || Reaches(types, FieldAliases(fields), stack, name)
      decreases types.Keys - stack, FieldsSize(fields)
    {
      ok := true;
      if fields.Field? {
        ReachesUnion(types, Aliases(fields.schema), FieldAliases(fields.rest), stack);
        ok := Visit(fields.schema, stack);
        if ok {
          ok := VisitFields(fields.rest, stack);
        }
      }
    }

    method VisitCases(cases: Cases, stack: set<string>) returns (ok: bool)
      modifies this`found
      ensures ok <==> CasesShaped(cases) && Accepts(types, CaseAliases(cases), stack)
      ensures ok ==> forall name :: name in found <==>
                       name in old(found) || Reaches(types, CaseAliases(cases), stack, name)
      decreases types.Keys - stack, CasesSize(cases)
    {
      ok := true;
      if cases.Case? {
        ReachesUnion(types, Aliases(cases.body), CaseAliases(cases.rest), stack);
        ok := Visit(cases.body, stack);
        if ok {
          ok := VisitCases(cases.rest, stack);
        }
      }
    }
  }

  /** The aliases a document needs below `root`, by any walk at all. */
  ghost predicate Reachable(doc: Doc, root: string, name: string) {
    Reaches(doc.types, {root}, {}, name)
  }

  lemma ReachableIsClosed(doc: Doc, root: string, a: string, b: string)
    requires Reachable(doc, root, a) && a in doc.types && b in Aliases(doc.types[a])
    ensures Reachable(doc, root, b)
  {
    var p :| Walk(doc.types, {root}, {}, p) && p[|p| - 1] == a;
    assert Walk(doc.types, {root}, {}, p + [b]);
  }

  /** The bodies of the validators of some aliases; the nested item's is written by hand. */
  function Render(doc: Doc, aliases: set<string>): (r: Option<map<string, Block>>)
    ensures r.Some? ==> r.value.Keys == aliases - {SLOT}
  {
    if forall a <- aliases :: a == SLOT || (a in doc.types && Compile(doc, doc.types[a], map[], 0).Code?) then
      Some(map a | a in aliases - {SLOT} :: Compile(doc, doc.types[a], map[], 0).block)
    else None
  }

  /** A program is compiled from a document, and every function it calls is in it. */
  ghost predicate Linked(doc: Doc, program: map<string, Block>) {
    && Compiled(doc, program)
    && forall name <- program :: CallsAreDefined(doc, program, name)
  }

  ghost predicate CallsAreDefined(doc: Doc, program: map<string, Block>, name: string) {
    name in doc.types && forall b <- Aliases(doc.types[name]) :: b == SLOT || b in program
  }

  /** `program` is what a document compiles to from `root`. */
  ghost predicate IsCompiled(doc: Doc, root: string, program: map<string, Block>) {
    exists aliases :: IsClosure(doc, root, aliases) && Render(doc, aliases) == Some(program)
  }

  ghost predicate IsClosure(doc: Doc, root: string, aliases: set<string>) {
    forall name :: name in aliases <==> Reachable(doc, root, name)
  }

  /** Compiles everything below `root`. */
  method CompileDocument(doc: Doc, root: string) returns (program: Option<map<string, Block>>)
    ensures program.Some? ==> forall name :: name in program.value <==> name != SLOT && Reachable(doc, root, name)
    ensures program.Some? ==> IsCompiled(doc, root, program.value) && Linked(doc, program.value)
    ensures program.None? <==> RefusesDocument(doc, root)
  {
    var finder := new AliasFinder(doc.types);
    var ok := finder.Visit(Alias(root), {});
    if !ok { return None; }
    var aliases := finder.found;
    program := Render(doc, aliases);
    if program.Some? { ClosedProgramIsLinked(doc, root, aliases, program.value); }
  }

  /** The walk refuses, or a definition it finds does not compile. */
  ghost predicate RefusesDocument(doc: Doc, root: string) {
    || !Accepts(doc.types, {root}, {})
    || exists a :: a != SLOT && Reachable(doc, root, a) && Compile(doc, doc.types[a], map[], 0).Refused?
  }

  lemma ClosedProgramIsLinked(doc: Doc, root: string, aliases: set<string>, program: map<string, Block>)
    requires forall name :: name in aliases <==> Reachable(doc, root, name)
    requires Render(doc, aliases) == Some(program)
    ensures Linked(doc, program)
  {
    forall name <- program ensures CallsAreDefined(doc, program, name) {
      forall b <- Aliases(doc.types[name]) ensures b == SLOT || b in program { ReachableIsClosed(doc, root, name, b); }
    }
  }

  lemma CompiledNames(doc: Doc, root: string, program: map<string, Block>)
    requires IsCompiled(doc, root, program)
    ensures Linked(doc, program)
    ensures forall name :: name in program <==> name != SLOT && Reachable(doc, root, name)
  {
    var aliases :| IsClosure(doc, root, aliases) && Render(doc, aliases) == Some(program);
    ClosedProgramIsLinked(doc, root, aliases, program);
  }

  /** Every mapper in a definition that `root` needs lists something and has no name for two ids. */
  ghost predicate WellNamedBelow(doc: Doc, root: string) {
    forall a <- doc.types :: a != SLOT && Reachable(doc, root, a) ==> Fits(doc, Aliases(doc.types[a]), doc.types[a])
  }

  lemma LinkedFits(doc: Doc, root: string, program: map<string, Block>)
    requires Linked(doc, program) && WellNamedBelow(doc, root)
    requires forall name <- program :: name != SLOT && Reachable(doc, root, name)
    ensures AllFit(doc, program)
  {
    forall name <- program ensures FitsProgram(doc, program, name) {
      assert CallsAreDefined(doc, program, name);
      FitsMore(doc, Aliases(doc.types[name]), program.Keys, doc.types[name]);
    }
  }

  lemma {:induction false} FitsMore(doc: Doc, names: set<string>, more: set<string>, s: Schema)
    requires Fits(doc, names, s) && forall name <- names :: name == SLOT || name in more
    ensures Fits(doc, more, s)
    decreases s
  {
    match s
    case Mapper(base, _) => FitsMore(doc, names, more, base);
    case Bitflags(base) => FitsMore(doc, names, more, base);
    case Container(fields) => FieldsFitMore(doc, names, more, fields);
    case Array(_, countType, element) =>
      if countType.Some? { FitsMore(doc, names, more, countType.value); }
      FitsMore(doc, names, more, element);
    case Optional(inner) => FitsMore(doc, names, more, inner);
    case Switch(_, cases, fallback) =>
      CasesFitMore(doc, names, more, cases);
      if fallback.Some? { FitsMore(doc, names, more, fallback.value); }
    case RegistryHolder(inline) => FitsMore(doc, names, more, inline);
    case RegistryHolderSet(base, member) =>
      FitsMore(doc, names, more, base);
      FitsMore(doc, names, more, member);
    case _ =>
  }

  lemma {:induction false} FieldsFitMore(doc: Doc, names: set<string>, more: set<string>, fields: Fields)
    requires FieldsFit(doc, names, fields) && forall name <- names :: name == SLOT || name in more
    ensures FieldsFit(doc, more, fields)
    decreases fields
  {
    if fields.Field? {
      FitsMore(doc, names, more, fields.schema);
      FieldsFitMore(doc, names, more, fields.rest);
    }
  }

  lemma {:induction false} CasesFitMore(doc: Doc, names: set<string>, more: set<string>, cases: Cases)
    requires CasesFit(doc, names, cases) && forall name <- names :: name == SLOT || name in more
    ensures CasesFit(doc, more, cases)
    decreases cases
  {
    if cases.Case? {
      FitsMore(doc, names, more, cases.body);
      CasesFitMore(doc, names, more, cases.rest);
    }
  }
}
