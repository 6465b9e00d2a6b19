/** StringAggregator.java: collects, per group-by value, the list of
    aggregate fields of the tuples merged so far, and hands the map to an
    AggregateIter. */
module StringAggregation {
  import opened Common
  import opened AggregateSpec
  import Aggregation

  /** One merge: the group key and the aggregate field filed under it. */
  type Merge = (Option<Field>, Option<Field>)

  /** The map update of one merge: the field goes to the end of its key's
      list, which starts out empty for a new key. */
  function Append(g: Groups, k: Option<Field>, a: Option<Field>): Groups
  {
    if k in g then g[k := g[k] + [a]] else g[k := [a]]
  }

  /** Appending touches only the merged key's list: that list gains the
      field at its end (a new key gets a one-element list) and every other
      group stays as it was. */
  lemma AppendMeans(g: Groups, k: Option<Field>, a: Option<Field>)
    ensures Append(g, k, a).Keys == g.Keys + {k}
    ensures Append(g, k, a)[k] == (if k in g then g[k] else []) + [a]
    ensures forall k' :: k' in g && k' != k ==> Append(g, k, a)[k'] == g[k']
  {
  }

  /** The group map after merging `log` in order into an empty map. */
  function GroupOf(log: seq<Merge>): Groups
  {
    if log == [] then map[] else Append(GroupOf(log[..|log| - 1]), log[|log| - 1].0, log[|log| - 1].1)
  }

  /** Merging one more entry applies `Append` to the map built so far. */
  lemma GroupOfSnoc(log: seq<Merge>, m: Merge)
    ensures GroupOf(log + [m]) == Append(GroupOf(log), m.0, m.1)
  {
    assert (log + [m])[..|log|] == log;
  }

  /** The fields merged under key `k`, in merge order. */
  function ValuesOf(log: seq<Merge>, k: Option<Field>): seq<Option<Field>>
  {
    if log == [] then []
    else ValuesOf(log[..|log| - 1], k) + (if log[|log| - 1].0 == k then [log[|log| - 1].1] else [])
  }

  /** Each group's list holds exactly the fields merged under its key, in
      merge order; a key is present exactly when something was merged
      under it, so no list is empty. */
  lemma {:induction false} GroupOfMeans(log: seq<Merge>)
    ensures forall k :: k in GroupOf(log) <==> ValuesOf(log, k) != []
    ensures forall k :: k in GroupOf(log) ==> GroupOf(log)[k] == ValuesOf(log, k)
  {
    if log != [] {
      GroupOfMeans(log[..|log| - 1]);
    }
  }

  /** The summed length of all group lists. */
  ghost function Size(g: Groups): nat
    decreases |g|
  {
    if g == map[] then 0
    else
      var k :| k in g;
      assert |g - {k}| < |g| by {
        assert (g - {k}).Keys == g.Keys - {k};
      }
      |g[k]| + Size(g - {k})
  }

  /** The sum can start with any group. */
  lemma {:induction false} SizeRemove(g: Groups, k: Option<Field>)
    requires k in g
    ensures Size(g) == |g[k]| + Size(g - {k})
    decreases |g|
  {
    var j :| j in g && Size(g) == |g[j]| + Size(g - {j});
    if j != k {
      assert (g - {j}).Keys == g.Keys - {j};
      assert (g - {k}).Keys == g.Keys - {k};
      SizeRemove(g - {j}, k);
      SizeRemove(g - {k}, j);
      assert g - {j} - {k} == g - {k} - {j};
    }
  }

  /** One merge adds one to the summed length. */
  lemma SizeAppend(g: Groups, k: Option<Field>, a: Option<Field>)
    ensures Size(Append(g, k, a)) == Size(g) + 1
  {
    var h := Append(g, k, a);
    SizeRemove(h, k);
    if k in g {
      SizeRemove(g, k);
      assert h - {k} == g - {k};
    } else {
      assert h - {k} == g;
    }
  }

  /** After `n` merges the group lists hold `n` fields between them. */
  lemma {:induction false} SizeOfGroupOf(log: seq<Merge>)
    ensures Size(GroupOf(log)) == |log|
  {
    if log != [] {
      SizeOfGroupOf(log[..|log| - 1]);
      SizeAppend(GroupOf(log[..|log| - 1]), log[|log| - 1].0, log[|log| - 1].1);
    }
  }

  /** When every merge is filed under the null key, at most one group
      exists. */
  lemma {:induction false} NoGroupingOneGroup(log: seq<Merge>)
    requires forall i :: 0 <= i < |log| ==> log[i].0 == None
    ensures GroupOf(log).Keys <= {None}
    ensures |GroupOf(log)| <= 1
  {
    if log != [] {
      var front := log[..|log| - 1];
      assert forall i :: 0 <= i < |front| ==> front[i].0 == None by {
        forall i | 0 <= i < |front| ensures front[i].0 == None {
          assert front[i] == log[i];
        }
      }
      NoGroupingOneGroup(front);
      AppendMeans(GroupOf(front), log[|log| - 1].0, log[|log| - 1].1);
    }
    var g := GroupOf(log);
    if None in g {
      assert g.Keys == {None};
    } else {
      assert g.Keys == {};
    }
  }

  /** With COUNT, the row of each group holds the number of tuples merged
      under its key. */
  lemma CountIsMerges(log: seq<Merge>, keys: seq<Option<Field>>, grouped: bool)
    requires Enumerates(keys, GroupOf(log))
    ensures var b := Build(GroupOf(log), keys, Count, grouped);
      && b.failure == None
      && |b.rows| == |keys|
      && forall i :: 0 <= i < |keys| ==> b.rows[i] == MakeRow(grouped, keys[i], |ValuesOf(log, keys[i])|)
  {
    GroupOfMeans(log);
    CountRows(GroupOf(log), keys, grouped);
  }

  class StringAggregator {
    const gbfield: int
    const gbfieldtype: Type
    const afield: int
    const what: AggOp
    var group: Groups
    /** The merges so far, in order. */
    ghost var merged: seq<Merge>

    ghost predicate Valid()
      reads this
    {
      && group == GroupOf(merged)
      && (gbfield == NO_GROUPING ==> forall i :: 0 <= i < |merged| ==> merged[i].0 == None)
    }

    /** Starts with no groups. The operator is recorded whatever it is. */
    constructor (gbfield: int, gbfieldtype: Type, afield: int, what: AggOp)
      ensures Valid() && group == map[] && merged == []
      ensures this.gbfield == gbfield && this.gbfieldtype == gbfieldtype
      ensures this.afield == afield && this.what == what
    {
      this.gbfield := gbfield;
      this.afield := afield;
      this.gbfieldtype := gbfieldtype;
      this.what := what;
      group := map[];
      merged := [];
    }

    /** Files the tuple's aggregate field under its group-by value, or
        under the null key without grouping. */
    method MergeTupleIntoGroup(tup: Tuple)
      requires Valid()
      requires 0 <= afield < |tup.fields| && (gbfield != NO_GROUPING ==> 0 <= gbfield < |tup.fields|)
      modifies this
      ensures Valid()
      ensures var key := if gbfield != NO_GROUPING then tup.fields[gbfield] else None;
        && merged == old(merged) + [(key, tup.fields[afield])]
        && group == Append(old(group), key, tup.fields[afield])
    {
      var aField := tup.fields[afield];
      var gField: Option<Field> := None;
      if gbfield != NO_GROUPING {
        gField := tup.fields[gbfield];
      }
      ghost var after := Append(group, gField, aField);
      if gField in group {
        group := group[gField := group[gField] + [aField]];
      } else {
        group := group[gField := []];
        group := group[gField := group[gField] + [aField]];
        assert group[gField] == [aField];
      }
      assert group == after;
      GroupOfSnoc(merged, (gField, aField));
      merged := merged + [(gField, aField)];
      assert gbfield == NO_GROUPING ==> forall i :: 0 <= i < |merged| ==> merged[i].0 == None by {
        if gbfield == NO_GROUPING {
          forall i | 0 <= i < |merged| ensures merged[i].0 == None {
            if i < |merged| - 1 {
              assert merged[i] == old(merged)[i];
            }
          }
        }
      }
    }

    /** An iterator over the aggregate results of the current groups. */
    method Iterator() returns (it: Aggregation.AggregateIter)
      ensures fresh(it) && it.Valid()
      ensures it.group == group && it.gbfield == gbfield && it.gbfieldtype == gbfieldtype && it.what == what
      ensures it.resultSet == None && it.tupleIterator == None
    {
      it := new Aggregation.AggregateIter(group, gbfield, gbfieldtype, what);
    }
  }
}
