/** Tables as sequences of rows in insertion order, and the three statements the program issues
    against them: select, update and delete by a WHERE condition. */
module Rows {

  /** The rows a WHERE condition hits, in table order. */
  function Select<R(!new)>(rows: seq<R>, where: R -> bool): (hits: seq<R>)
    ensures |hits| <= |rows|
  {
    if rows == [] then []
    else if where(rows[0]) then [rows[0]] + Select(rows[1..], where)
    else Select(rows[1..], where)
  }

  /** The rows a DELETE leaves behind, in table order. */
  function Discard<R(!new)>(rows: seq<R>, where: R -> bool): (rest: seq<R>)
    ensures |rest| <= |rows|
  {
    if rows == [] then []
    else if where(rows[0]) then Discard(rows[1..], where)
    else [rows[0]] + Discard(rows[1..], where)
  }

  /** An UPDATE: rows stay where they are; only the ones hit change. */
  function Update<R(!new)>(rows: seq<R>, where: R -> bool, change: R -> R): (out: seq<R>)
    ensures |out| == |rows|
    ensures forall i :: 0 <= i < |rows| ==> out[i] == if where(rows[i]) then change(rows[i]) else rows[i]
  {
    if rows == [] then []
    else [if where(rows[0]) then change(rows[0]) else rows[0]] + Update(rows[1..], where, change)
  }

  lemma {:induction false} SelectMember<R(!new)>(rows: seq<R>, where: R -> bool)
    ensures forall r :: r in Select(rows, where) <==> r in rows && where(r)
  {
    if rows != [] {
      SelectMember(rows[1..], where);
      assert rows == [rows[0]] + rows[1..];
    }
  }

  lemma SelectEmpty<R(!new)>(rows: seq<R>, where: R -> bool)
    ensures Select(rows, where) == [] <==> forall r :: r in rows ==> !where(r)
  {
    SelectMember(rows, where);
    if Select(rows, where) != [] {
      assert Select(rows, where)[0] in Select(rows, where);
    }
  }

  lemma {:induction false} SelectNarrower<R(!new)>(rows: seq<R>, narrow: R -> bool, wide: R -> bool)
    requires forall r :: narrow(r) ==> wide(r)
    ensures |Select(rows, narrow)| <= |Select(rows, wide)|
  {
    if rows != [] {
      SelectNarrower(rows[1..], narrow, wide);
    }
  }

  lemma {:induction false} DiscardMember<R(!new)>(rows: seq<R>, where: R -> bool)
    ensures forall r :: r in Discard(rows, where) <==> r in rows && !where(r)
  {
    if rows != [] {
      DiscardMember(rows[1..], where);
      assert rows == [rows[0]] + rows[1..];
    }
  }

  lemma SelectCons<R(!new)>(row: R, rows: seq<R>, where: R -> bool)
    ensures Select([row] + rows, where) == if where(row) then [row] + Select(rows, where) else Select(rows, where)
  {
    assert ([row] + rows)[1..] == rows;
  }

  lemma AppendOne<R>(row: R, a: seq<R>, b: seq<R>)
    ensures [row] + (a + b) == ([row] + a) + b
  {
  }

  lemma {:induction false} SelectAppend<R(!new)>(a: seq<R>, b: seq<R>, where: R -> bool)
    ensures Select(a + b, where) == Select(a, where) + Select(b, where)
  {
    if a == [] {
      assert a + b == b;
    } else {
      var first, rest := a[0], a[1..];
      assert a == [first] + rest;
      SelectAppend(rest, b, where);
      AppendOne(first, rest, b);
      SelectCons(first, rest, where);
      SelectCons(first, rest + b, where);
      AppendOne(first, Select(rest, where), Select(b, where));
    }
  }

  /** Inserting a row adds one hit exactly when the row satisfies the condition. */
  lemma SelectInsert<R(!new)>(rows: seq<R>, row: R, where: R -> bool)
    ensures Select(rows + [row], where) == Select(rows, where) + if where(row) then [row] else []
  {
    SelectAppend(rows, [row], where);
  }

  lemma {:induction false} SelectPointwise<R(!new)>(rows: seq<R>, p: R -> bool, q: R -> bool)
    requires forall r :: r in rows ==> p(r) == q(r)
    ensures Select(rows, p) == Select(rows, q)
  {
    if rows != [] {
      assert rows[0] in rows;
      assert forall r :: r in rows[1..] ==> r in rows;
      SelectPointwise(rows[1..], p, q);
    }
  }

  lemma {:induction false} SelectAll<R(!new)>(rows: seq<R>, where: R -> bool)
    requires forall r :: r in rows ==> where(r)
    ensures Select(rows, where) == rows
  {
    if rows != [] {
      assert forall r :: r in rows[1..] ==> r in rows;
      SelectAll(rows[1..], where);
    }
  }

  /** A delete never adds hits, leaves disjoint conditions alone, and removes from a wider condition
      exactly the rows it hits. */
  lemma {:induction false} DiscardCount<R(!new)>(rows: seq<R>, kill: R -> bool, p: R -> bool)
    ensures |Select(Discard(rows, kill), p)| <= |Select(rows, p)|
    ensures (forall r :: r in rows && kill(r) ==> !p(r)) ==> Select(Discard(rows, kill), p) == Select(rows, p)
    ensures (forall r :: kill(r) ==> p(r))
            ==> |Select(Discard(rows, kill), p)| == |Select(rows, p)| - |Select(rows, kill)|
  {
    if rows != [] {
      assert rows[0] in rows && forall r :: r in rows[1..] ==> r in rows;
      DiscardCount(rows[1..], kill, p);
      SelectCons(rows[0], Discard(rows[1..], kill), p);
    }
  }

  /** An update that does not touch what the condition looks at changes no count. */
  lemma {:induction false} UpdateCount<R(!new)>(rows: seq<R>, where: R -> bool, change: R -> R, p: R -> bool)
    requires forall r :: r in rows && where(r) ==> p(change(r)) == p(r)
    ensures |Select(Update(rows, where, change), p)| == |Select(rows, p)|
  {
    if rows != [] {
      assert rows[0] in rows && forall r :: r in rows[1..] ==> r in rows;
      UpdateCount(rows[1..], where, change, p);
      assert Update(rows, where, change)[1..] == Update(rows[1..], where, change);
    }
  }

  /** Every row after an update is an old row or the changed image of one. */
  lemma UpdateMember<R(!new)>(rows: seq<R>, where: R -> bool, change: R -> R, r: R) returns (prior: R)
    requires r in Update(rows, where, change)
    ensures prior in rows && r == if where(prior) then change(prior) else prior
  {
    var i :| 0 <= i < |rows| && Update(rows, where, change)[i] == r;
    prior := rows[i];
  }

  /** An old row survives an update, changed or not. */
  lemma UpdateKeeps<R(!new)>(rows: seq<R>, where: R -> bool, change: R -> R, r: R)
    requires r in rows
    ensures (if where(r) then change(r) else r) in Update(rows, where, change)
  {
    var i :| 0 <= i < |rows| && rows[i] == r;
    assert Update(rows, where, change)[i] == if where(r) then change(r) else r;
  }

  // Selections in words

  /** `at` lists positions in `rows` from front to back, the ones of the rows to keep, and `hits` are the rows
      there. */
  ghost predicate PickedAt<R>(rows: seq<R>, hits: seq<R>, keep: R -> bool, at: seq<nat>) {
    && |hits| == |at|
    && (forall i :: 0 <= i < |at| ==> at[i] < |rows| && hits[i] == rows[at[i]])
    && (forall i, j :: 0 <= i < j < |at| ==> at[i] < at[j])
    && (forall k: nat :: k < |rows| ==> (k in at <==> keep(rows[k])))
  }

  /** `hits` are exactly the rows to keep, each as often as it occurs, in table order. */
  ghost predicate Picked<R>(rows: seq<R>, hits: seq<R>, keep: R -> bool) {
    exists at :: PickedAt(rows, hits, keep, at)
  }

  lemma PickedNext<R>(rows: seq<R>, hits: seq<R>, keep: R -> bool, at: seq<nat>, row: R)
    requires PickedAt(rows, hits, keep, at)
    ensures PickedAt(rows + [row], hits + (if keep(row) then [row] else []), keep,
                     at + if keep(row) then [|rows|] else [])
  {
    var more, at' := rows + [row], at + if keep(row) then [|rows|] else [];
    forall k: nat | k < |more|
      ensures k in at' <==> keep(more[k])
    {
      if k == |rows| {
        assert k !in at;
      }
    }
  }

  lemma {:induction false} SelectPicks<R(!new)>(rows: seq<R>, where: R -> bool)
    ensures Picked(rows, Select(rows, where), where)
  {
    if rows == [] {
      assert PickedAt(rows, Select(rows, where), where, []);
    } else {
      var init, last := rows[..|rows| - 1], rows[|rows| - 1];
      assert rows == init + [last];
      SelectPicks(init, where);
      SelectInsert(init, last, where);
      var at :| PickedAt(init, Select(init, where), where, at);
      PickedNext(init, Select(init, where), where, at, last);
    }
  }

  lemma {:induction false} DiscardIsSelect<R(!new)>(rows: seq<R>, kill: R -> bool, keep: R -> bool)
    requires forall r :: keep(r) <==> !kill(r)
    ensures Discard(rows, kill) == Select(rows, keep)
  {
    if rows != [] {
      DiscardIsSelect(rows[1..], kill, keep);
    }
  }

  lemma {:induction false} DiscardNone<R(!new)>(rows: seq<R>, kill: R -> bool)
    requires Select(rows, kill) == []
    ensures Discard(rows, kill) == rows
  {
    if rows != [] {
      DiscardNone(rows[1..], kill);
    }
  }

  /** A deletion leaves exactly the rows to keep, in their order. */
  lemma DiscardPicks<R(!new)>(rows: seq<R>, kill: R -> bool, keep: R -> bool)
    requires forall r :: keep(r) <==> !kill(r)
    ensures Picked(rows, Discard(rows, kill), keep)
  {
    DiscardIsSelect(rows, kill, keep);
    SelectPicks(rows, keep);
  }

  lemma PickedAlike<R>(rows: seq<R>, hits: seq<R>, keep: R -> bool, alike: R -> bool)
    requires Picked(rows, hits, keep) && forall r :: r in rows ==> keep(r) == alike(r)
    ensures Picked(rows, hits, alike)
  {
    var at :| PickedAt(rows, hits, keep, at);
    assert PickedAt(rows, hits, alike, at);
  }
}
