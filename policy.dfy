/** The limitations of a policy update: a list of limitations keyed by their
    identifier, in which adding a limitation replaces the one with the same
    identifier. The list keeps the order in which identifiers first came. */
module PolicyUpdate {

  /** A limitation of a policy: its identifier and its values. */
  datatype Limitation = Limitation(identifier: string, limitationValues: seq<string>)

  /** The limitation map after storing `l` at its identifier. */
  function WithLimitation(m: map<string, Limitation>, l: Limitation): (r: map<string, Limitation>)
    ensures l.identifier in r && r[l.identifier] == l
    ensures forall id :: id != l.identifier ==> (id in r <==> id in m) && (id in m ==> r[id] == m[id])
    ensures r.Keys == m.Keys + {l.identifier}
  {
    m[l.identifier := l]
  }

  /** Storing a limitation adds one entry when its identifier is new, and
      none when it replaces one. */
  lemma LimitationCount(m: map<string, Limitation>, l: Limitation)
    ensures |WithLimitation(m, l)| == |m| + (if l.identifier in m then 0 else 1)
  {
    var r := WithLimitation(m, l);
    if l.identifier in m {
      assert r.Keys == m.Keys;
    } else {
      assert r.Keys == m.Keys + {l.identifier};
    }
  }

  /** The order of the identifiers after storing one under `id`: a new
      identifier goes last, a known one keeps its place. */
  function WithIdentifier(order: seq<string>, id: string): (r: seq<string>)
    ensures id in order ==> r == order
    ensures id !in order ==> r == order + [id]
  {
    if id in order then order else order + [id]
  }

  /** Storing a second limitation with the same identifier keeps only the
      second one, at the place of the first. */
  lemma SecondLimitationWins(m: map<string, Limitation>, order: seq<string>, l1: Limitation, l2: Limitation)
    requires l1.identifier == l2.identifier
    ensures WithLimitation(WithLimitation(m, l1), l2) == WithLimitation(m, l2)
    ensures WithIdentifier(WithIdentifier(order, l1.identifier), l2.identifier) == WithIdentifier(order, l2.identifier)
  {
    var id := l1.identifier;
    assert WithLimitation(WithLimitation(m, l1), l2) == m[id := l1][id := l2];
    assert m[id := l1][id := l2] == m[id := l2] by {
      assert m[id := l1][id := l2].Keys == m[id := l2].Keys;
    }
  }

  /** Storing limitations under two different identifiers gives the same
      map in either order. */
  lemma DifferentLimitationsCommute(m: map<string, Limitation>, l1: Limitation, l2: Limitation)
    requires l1.identifier != l2.identifier
    ensures WithLimitation(WithLimitation(m, l1), l2) == WithLimitation(WithLimitation(m, l2), l1)
  {
    var a, b := l1.identifier, l2.identifier;
    assert WithLimitation(WithLimitation(m, l1), l2) == m[a := l1][b := l2];
    assert WithLimitation(WithLimitation(m, l2), l1) == m[b := l2][a := l1];
    assert m[a := l1][b := l2] == m[b := l2][a := l1] by {
      assert m[a := l1][b := l2].Keys == m[b := l2][a := l1].Keys;
    }
  }

  class PolicyUpdateStruct {
    /** The limitations, by identifier. */
    var limitations: map<string, Limitation>
    /** The identifiers of `limitations`, in the order they were first added. */
    var order: seq<string>

    /** Every limitation is stored under its own identifier, and `order`
        lists each identifier of the map once. */
    ghost predicate Valid()
      reads this
    {
      && (forall id :: id in limitations ==> limitations[id].identifier == id)
      && (forall i :: 0 <= i < |order| ==> order[i] in limitations)
      && (forall id :: id in limitations ==> id in order)
      && (forall i, j :: 0 <= i < j < |order| ==> order[i] != order[j])
    }

    /** A new update struct holds no limitation. */
    constructor ()
      ensures Valid()
      ensures limitations == map[] && order == []
    {
      limitations := map[];
      order := [];
    }

    /** addLimitation: `l` is stored under its identifier, replacing the
        limitation stored there; every other limitation stays. */
    method AddLimitation(l: Limitation)
      requires Valid()
      modifies this
      ensures Valid()
      ensures limitations == WithLimitation(old(limitations), l)
      ensures order == WithIdentifier(old(order), l.identifier)
      ensures |limitations| == |old(limitations)| + (if l.identifier in old(limitations) then 0 else 1)
    {
      var id := l.identifier;
      assert id in order <==> id in limitations;
      LimitationCount(limitations, l);
      order := WithIdentifier(order, id);
      limitations := WithLimitation(limitations, l);
    }

    /** getLimitations: the stored limitations, in the order their
        identifiers were first added, each once. */
    function GetLimitations(): (r: seq<Limitation>)
      reads this
      requires Valid()
      ensures |r| == |order| == |limitations|
      ensures forall i :: 0 <= i < |r| ==> r[i] == limitations[order[i]] && r[i].identifier == order[i]
      ensures forall id :: id in limitations <==> exists i :: 0 <= i < |r| && r[i].identifier == id
    {
      DistinctCardinality(order, limitations);
      InOrder(order, limitations)
    }
  }

  /** The entries of `m` at the identifiers of `order`, in that order. */
  function InOrder(order: seq<string>, m: map<string, Limitation>): (r: seq<Limitation>)
    requires forall i :: 0 <= i < |order| ==> order[i] in m
    ensures |r| == |order|
    ensures forall i :: 0 <= i < |r| ==> r[i] == m[order[i]]
  {
    if order == [] then []
    else InOrder(order[..|order| - 1], m) + [m[order[|order| - 1]]]
  }

  /** A list of distinct identifiers naming exactly the keys of a map is as
      long as the map is large. */
  lemma {:induction false} DistinctCardinality(order: seq<string>, m: map<string, Limitation>)
    requires forall i :: 0 <= i < |order| ==> order[i] in m
    requires forall id :: id in m ==> id in order
    requires forall i, j :: 0 <= i < j < |order| ==> order[i] != order[j]
    ensures |order| == |m|
    decreases |order|
  {
    if order == [] {
      assert m.Keys == {};
    } else {
      var last := order[|order| - 1];
      var rest := order[..|order| - 1];
      var m' := m - {last};
      forall i | 0 <= i < |rest| ensures rest[i] in m' {
        assert rest[i] == order[i];
      }
      forall id | id in m' ensures id in rest {
        var k :| 0 <= k < |order| && order[k] == id;
        assert k != |order| - 1;
        assert rest[k] == id;
      }
      DistinctCardinality(rest, m');
      assert m'.Keys + {last} == m.Keys;
    }
  }
}
