/** AggregateIter.java: the iterator that materialises one result row per
    group when opened and then hands the rows out one at a time. */
module Aggregation {
  import opened Common
  import opened AggregateSpec

  /** A list iterator: the list and the position of the next row. */
  datatype Cursor = Cursor(rows: seq<Tuple>, pos: nat)

  class AggregateIter {
    const group: Groups
    const gbfield: int
    const gbfieldtype: Type
    const what: AggOp
    const tupleDesc: TupleDesc
    /** `None` until `open` has run. */
    var resultSet: Option<seq<Tuple>>
    /** `None` before `open` and after `close`. */
    var tupleIterator: Option<Cursor>

    ghost predicate Valid()
      reads this
    {
      tupleIterator.Some? ==> tupleIterator.value.pos <= |tupleIterator.value.rows|
    }

    /** The rows the iterator has still to hand out. */
    ghost function Remaining(): seq<Tuple>
      requires Valid()
      reads this
    {
      if tupleIterator == None then [] else tupleIterator.value.rows[tupleIterator.value.pos..]
    }

    /** Records the group map and chooses the output schema. */
    constructor (group: Groups, gbfield: int, gbfieldtype: Type, what: AggOp)
      ensures Valid() && this.group == group && this.gbfield == gbfield
      ensures this.gbfieldtype == gbfieldtype && this.what == what
      ensures tupleDesc == Desc(gbfield, gbfieldtype)
      ensures resultSet == None && tupleIterator == None
    {
      this.group := group;
      this.gbfield := gbfield;
      this.gbfieldtype := gbfieldtype;
      this.what := what;
      if gbfield != NO_GROUPING {
        this.tupleDesc := [gbfieldtype, IntType];
      } else {
        this.tupleDesc := [IntType];
      }
      resultSet := None;
      tupleIterator := None;
    }

    /** The inner loop of `open` over one group's list. */
    static method Fold(op: AggOp, vals: seq<Option<Field>>) returns (r: Result<int>)
      ensures r == Aggregate(op, vals)
    {
      if op == Count {
        return Ok(|vals|);
      }
      // AVG runs the SUM loop, then divides.
      var kind := if op == Avg then Sum else op;
      var acc := Seed(kind);
      for i := 0 to |vals|
        invariant CastAll(vals[..i]).Ok? && acc == Accumulate(kind, CastAll(vals[..i]).value)
      {
        assert vals[..i + 1][..i] == vals[..i];
        match vals[i] {
          case None =>
            assert CastAll(vals[..i + 1]) == Fail(NullPointer);
            CastFailStays(vals, i + 1);
            return Fail(NullPointer);
          case Some(StringField(_)) =>
            assert CastAll(vals[..i + 1]) == Fail(ClassCast);
            CastFailStays(vals, i + 1);
            return Fail(ClassCast);
          case Some(IntField(x)) =>
            ghost var xs := CastAll(vals[..i]).value;
            assert CastAll(vals[..i + 1]) == Ok(xs + [x]);
            assert (xs + [x])[..|xs|] == xs;
            acc := Step(kind, acc, x);
        }
      }
      assert vals[..|vals|] == vals;
      CastAllMeans(vals);
      if op == Avg {
        if |vals| == 0 {
          return Fail(Arithmetic);
        }
        return Ok(JavaDiv(acc, |vals|));
      }
      return Ok(acc);
    }

    /** Builds a fresh result list, one row per key in the order `keys`
        lists the map's keys. When a group's aggregate raises, the rows
        built so far stay in `resultSet` and the iterator is left as it
        was. */
    method Open(keys: seq<Option<Field>>) returns (err: Option<Failure>)
      requires Valid() && Enumerates(keys, group)
      modifies this
      ensures Valid()
      ensures var b := Build(group, keys, what, gbfield != NO_GROUPING);
        && err == b.failure
        && resultSet == Some(b.rows)
        && tupleIterator == (if err == None then Some(Cursor(b.rows, 0)) else old(tupleIterator))
    {
      var grouped := gbfield != NO_GROUPING;
      var rows: seq<Tuple> := [];
      resultSet := Some(rows);
      for i := 0 to |keys|
        invariant Build(group, keys[..i], what, grouped) == Built(rows, None)
        invariant resultSet == Some(rows) && tupleIterator == old(tupleIterator)
      {
        var key := keys[i];
        assert keys[..i + 1][..i] == keys[..i] && keys[..i + 1][i] == key;
        var agg := Fold(what, group[key]);
        if agg.Fail? {
          BuildFailStays(group, keys, what, grouped, i + 1);
          return Some(agg.failure);
        }
        rows := rows + [MakeRow(grouped, key, agg.value)];
        resultSet := Some(rows);
      }
      assert keys[..|keys|] == keys;
      tupleIterator := Some(Cursor(rows, 0));
      return None;
    }

    /** Whether rows remain: false before `open` and after `close`. */
    function HasNext(): (b: bool)
      requires Valid()
      reads this
      ensures b <==> Remaining() != []
    {
      tupleIterator != None && tupleIterator.value.pos < |tupleIterator.value.rows|
    }

    /** Hands out the next row. Before `open` or after `close` there is no
        iterator and the call raises NullPointerException; past the last
        row it raises NoSuchElementException. */
    method Next() returns (r: Result<Tuple>)
      requires Valid()
      modifies this
      ensures Valid() && resultSet == old(resultSet)
      ensures old(tupleIterator) == None ==> r == Fail(NullPointer) && tupleIterator == None
      ensures old(tupleIterator) != None && old(Remaining()) == [] ==>
        r == Fail(NoSuchElement) && tupleIterator == old(tupleIterator)
      ensures old(Remaining()) != [] ==> r == Ok(old(Remaining())[0]) && Remaining() == old(Remaining())[1..]
    {
      if tupleIterator == None {
        return Fail(NullPointer);
      }
      var c := tupleIterator.value;
      if c.pos == |c.rows| {
        return Fail(NoSuchElement);
      }
      tupleIterator := Some(Cursor(c.rows, c.pos + 1));
      r := Ok(c.rows[c.pos]);
    }

    /** Restarts over the same materialised rows, when `open` has run. */
    method Rewind()
      requires Valid()
      modifies this
      ensures Valid() && resultSet == old(resultSet)
      ensures resultSet != None ==> tupleIterator == Some(Cursor(resultSet.value, 0)) && Remaining() == resultSet.value
      ensures resultSet == None ==> tupleIterator == old(tupleIterator)
    {
      if resultSet != None {
        tupleIterator := Some(Cursor(resultSet.value, 0));
      }
    }

    /** Drops the iterator; the result rows stay for a later `rewind`. */
    method Close()
      requires Valid()
      modifies this
      ensures Valid() && resultSet == old(resultSet) && tupleIterator == None
      ensures !HasNext()
    {
      tupleIterator := None;
    }
  }
}
