/** Where the component compiler departs from its schemas, and exactly when it does not. */
module ComponentLimits {
  import opened Wrappers
  import opened Wire
  import opened ComponentSchema
  import opened ComponentCode
  import opened ComponentCompiler
  import opened ComponentCorrect

  // Mappers. The compiler inverts the table, so that a name given to two ids keeps only the last, and emits no
  // membership check at all for an empty table.

  /** Whether the code emitted for a mapper lets a value pass. */
  ghost predicate Passes(ids: map<string, int>, v: Value) {
    ids.Values == {} || !Holds(IsNoneOf(ids.Values), v)
  }

  ghost predicate MembershipAgrees(doc: Doc, table: seq<Entry>, ids: map<string, int>) {
    forall v :: Passes(ids, v) <==> exists e <- table :: Denotes(doc, e, v)
  }

  /** The table gives the id that name. */
  ghost predicate Names(doc: Doc, table: seq<Entry>, name: string, id: int) {
    exists e <- table :: e.name == name && doc.literal(e.raw) == Some(id)
  }

  /** A switch key selects the ids that the table gives that name. */
  ghost predicate NamesAgree(doc: Doc, table: seq<Entry>, ids: map<string, int>) {
    forall name, id :: Names(doc, table, name, id) <==> name in ids && ids[name] == id
  }

  lemma MapperIsExactlyWellNamed(doc: Doc, table: seq<Entry>)
    requires Invert(doc, table).Some?
    ensures WellNamed(doc, table) <==>
              MembershipAgrees(doc, table, Invert(doc, table).value) && NamesAgree(doc, table, Invert(doc, table).value)
  {
    var ids := Invert(doc, table).value;
    if WellNamed(doc, table) {
      InvertIsFaithful(doc, table);
      assert table[0] in table && ids[table[0].name] in ids.Values;
      forall v ensures Passes(ids, v) <==> exists e <- table :: Denotes(doc, e, v) {
        MembershipIsDeclared(doc, table, v);
      }
    }
    if MembershipAgrees(doc, table, ids) && NamesAgree(doc, table, ids) {
      assert table != [] by {
        if table == [] { assert Passes(ids, NotFinite); }
      }
      LiteralsKnown(doc, table);
      forall d <- table, e <- table | d.name == e.name ensures doc.literal(d.raw) == doc.literal(e.raw) {
        assert Names(doc, table, d.name, doc.literal(d.raw).value);
        assert Names(doc, table, e.name, doc.literal(e.raw).value);
      }
    }
  }

  lemma {:induction false} LiteralsKnown(doc: Doc, table: seq<Entry>)
    requires Invert(doc, table).Some?
    ensures forall e <- table :: doc.literal(e.raw).Some?
  {
    if table != [] { LiteralsKnown(doc, table[..|table| - 1]); }
  }

  /** An instance of each departure: the empty table passes a value it does not declare, and of two ids with one
    * name the first is refused. */
  lemma MappersThatDepart(literal: string -> Option<int>)
    requires literal("1") == Some(1) && literal("2") == Some(2)
    ensures var doc, v := Doc(map[], literal), Whole(VarInt, 1);
            && Passes(Invert(doc, []).value, v) && !(exists e <- [] :: Denotes(doc, e, v))
            && var table := [Entry("1", "a"), Entry("2", "a")];
               Invert(doc, table).Some? && !Passes(Invert(doc, table).value, v) && exists e <- table :: Denotes(doc, e, v)
  {
    var doc, v := Doc(map[], literal), Whole(VarInt, 1);
    var first, second := Entry("1", "a"), Entry("2", "a");
    var table := [first, second];
    assert table[..1] == [first] && table[1] == second;
    assert [first][..0] == [] && [first][0] == first;
    assert Invert(doc, [first]) == Some(map["a" := 1]);
    assert Invert(doc, table) == Some(map["a" := 1]["a" := 2]);
    assert map["a" := 1]["a" := 2] == map["a" := 2];
    assert map["a" := 2]["a"] in map["a" := 2].Values;
    assert first in table && Denotes(doc, first, v);
  }
}
