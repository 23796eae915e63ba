/** A field that is read for its value against the same field read for nothing: captures are the compiler's choice,
  * and what the bytes mean does not hang on it. */
module ComponentSelectors {
  import opened ComponentSchema
  import opened ComponentCompiler

  /** How many alias calls a plain reading of a scalar nests. A reading for the value follows aliases in place. */
  function Hops(doc: Doc, s: Schema, inlined: set<string>): nat
    decreases doc.types.Keys - inlined, Size(s)
  {
    match s
    case Alias(name) =>
      if name !in doc.types || name in inlined then 0 else 1 + Hops(doc, doc.types[name], inlined + {name})
    case Bitflags(base) => Hops(doc, base, inlined)
    case _ => 0
  }

  /** Where no alias recurs, it does not matter which are open. */
  lemma {:induction false} OpenAliasesDoNotMatter(i: Input, s: Schema, fewer: set<string>, inlined: set<string>, at: nat)
    requires at <= |i.data| && fewer <= inlined && CompileSelector(i.doc, s, 0, inlined).SelectorCode?
    ensures ReadSelector(i, s, fewer, at) == ReadSelector(i, s, inlined, at)
    decreases i.doc.types.Keys - inlined, Size(s)
  {
    match s
    case Primitive(_) =>
    case Alias(name) => OpenAliasesDoNotMatter(i, i.doc.types[name], fewer + {name}, inlined + {name}, at);
    case Mapper(base, _) => OpenAliasesDoNotMatter(i, base, fewer, inlined, at);
    case Bitflags(base) => OpenAliasesDoNotMatter(i, base, fewer, inlined, at);
  }

  lemma {:induction false} ScalarAtAnyCounter(doc: Doc, s: Schema, c: nat, d: nat, inlined: set<string>)
    ensures CompileSelector(doc, s, c, inlined).SelectorCode? <==> CompileSelector(doc, s, d, inlined).SelectorCode?
    ensures CompileSelector(doc, s, c, inlined).SelectorCode? ==>
              CompileSelector(doc, s, c, inlined).capture.kind == CompileSelector(doc, s, d, inlined).capture.kind
    decreases doc.types.Keys - inlined, Size(s)
  {
    match s
    case Alias(name) =>
      if name in doc.types && name != SLOT && name !in inlined {
        ScalarAtAnyCounter(doc, doc.types[name], c, d, inlined + {name});
      }
    case Mapper(base, _) => ScalarAtAnyCounter(doc, base, c, d, inlined);
    case Bitflags(base) => ScalarAtAnyCounter(doc, base, c, d, inlined);
    case _ =>
  }

  lemma {:induction false} PlainReadingIs(i: Input, s: Schema, env: map<string, Selector>, inlined: set<string>, at: nat,
                                          depth: nat)
    requires at <= |i.data| && depth <= MAX_DEPTH && CompileSelector(i.doc, s, 0, inlined).SelectorCode?
    ensures var r := ReadSelector(i, s, inlined, at);
            Read(i, s, env, at, depth)
            == if r.Reading? && depth + Hops(i.doc, s, inlined) <= MAX_DEPTH then Accept(r.at) else Reject
    decreases i.doc.types.Keys - inlined, Size(s)
  {
    match s
    case Primitive(_) =>
    case Alias(name) =>
      if depth < MAX_DEPTH { PlainReadingIs(i, i.doc.types[name], map[], inlined + {name}, at, depth + 1); }
    case Mapper(_, _) => OpenAliasesDoNotMatter(i, s, {}, inlined, at);
    case Bitflags(base) => PlainReadingIs(i, base, env, inlined, at, depth);
  }

  /** Whenever a field can be captured, capturing it reads the same bytes as reading it for nothing, except that a
    * plain reading is refused where its aliases would nest too deep. */
  lemma CapturesReadTheSame(i: Input, s: Schema, env: map<string, Selector>, counter: nat, at: nat, depth: nat)
    requires at <= |i.data| && depth <= MAX_DEPTH && CompileSelector(i.doc, s, counter, {}).SelectorCode?
    ensures var r := ReadSelector(i, s, {}, at);
            Read(i, s, env, at, depth)
            == if r.Reading? && depth + Hops(i.doc, s, {}) <= MAX_DEPTH then Accept(r.at) else Reject
  {
    ScalarAtAnyCounter(i.doc, s, counter, 0, {});
    PlainReadingIs(i, s, env, {}, at, depth);
  }
}
