/** Where a deletion that removes no row comes from: another request took the version away between this
    request's check and its write. */
module Overtaking {
  import opened Rows
  import opened Schema
  import opened Protocol
  import opened Integrity
  import opened Effects
  import opened Racing
  import opened VersionCount

  /** Request `tid` is past its check and before its write. */
  predicate Awaits(s: State, tid: nat, op: Op) {
    tid in s.tasks && s.tasks[tid] == Task(op, Write)
  }

  /** In this step request `tid` passes its check. */
  predicate Checks(s: State, e: Event, tid: nat, op: Op) {
    && e.Client? && e.tid == tid && tid in s.tasks && s.tasks[tid] == Task(op, Check)
    && AfterCheck(s.db, op, e.fault) == Write
  }

  /** In this step a request commits a deletion of the version or of its service. */
  predicate Removes(mode: ZeroRows, s: State, e: Event, id: nat, tag: string) {
    && Writes(s, e)
    && (s.tasks[e.tid].op == DeleteVersion(id, tag) || s.tasks[e.tid].op == DeleteService(id))
    && Execute(mode, s.db, s.tasks[e.tid].op, e.fault).1 == OK
  }

  predicate Stored(s: State, id: nat, tag: string) { Tagged(s.db.versions, id, tag) }

  /** The deletion committed at `k` passed its check at `i`; another request removed the version at `j`, in
      between, and it has not come back. */
  ghost predicate Overtaken(mode: ZeroRows, es: seq<Event>, i: nat, j: nat, k: nat, id: nat, tag: string) {
    && i < j < k < |es| && es[k].Client?
    && var tid, op := es[k].tid, DeleteVersion(id, tag);
       && Checks(After(mode, es[..i]), es[i], tid, op)
       && (forall m :: i < m <= k ==> Awaits(After(mode, es[..m]), tid, op))
       && Removes(mode, After(mode, es[..j]), es[j], id, tag) && es[j].tid != tid
       && (forall m :: j < m <= k ==> !Stored(After(mode, es[..m]), id, tag))
       && Execute(mode, After(mode, es[..k]).db, op, es[k].fault).1 == OK
  }

  lemma AwaitStep(mode: ZeroRows, s: State, e: Event, tid: nat, op: Op)
    requires Awaits(Apply(mode, s, e), tid, op) && op.DeleteVersion? && NameChecksUpdate(s.tasks)
    ensures Awaits(s, tid, op) || Checks(s, e, tid, op)
  {
  }

  lemma {:induction false} CheckedBefore(mode: ZeroRows, es: seq<Event>, tid: nat, op: Op) returns (i: nat)
    requires Awaits(After(mode, es), tid, op) && op.DeleteVersion?
    ensures i < |es| && Checks(After(mode, es[..i]), es[i], tid, op)
    ensures forall m :: i < m <= |es| ==> Awaits(After(mode, es[..m]), tid, op)
  {
    var before, e := es[..|es| - 1], es[|es| - 1];
    CheckNameOnlyForUpdates(mode, before);
    AwaitStep(mode, After(mode, before), e, tid, op);
    assert es[..|es|] == es;
    if Awaits(After(mode, before), tid, op) {
      i := CheckedBefore(mode, before, tid, op);
      assert forall m :: i <= m <= |before| ==> before[..m] == es[..m];
    } else {
      i := |before|;
    }
  }

  /** Checks see a stored version, and leave it stored. */
  lemma CheckedMeansStored(mode: ZeroRows, s: State, e: Event, tid: nat, id: nat, tag: string)
    requires Consistent(s.db) && Checks(s, e, tid, DeleteVersion(id, tag))
    ensures Stored(s, id, tag)
  {
    LiveIsAll(s.db);
    SelectEmpty(s.db.versions, HasKey(id, tag));
  }

  lemma UpdatedStaysTagged(mode: ZeroRows, db: Database, target: nat, name: string, info: string, id: nat, tag: string)
    requires Consistent(db) && Tagged(db.versions, id, tag)
    ensures Tagged(Execute(mode, db, UpdateVersion(target, name, info), NoFault).0.versions, id, tag)
  {
    UpdateVersionEffect(mode, db, target, name, info, NoFault);
    var v :| v in db.versions && v.serviceId == id && v.tag == tag;
    var i :| 0 <= i < |db.versions| && db.versions[i] == v;
    var v' := Execute(mode, db, UpdateVersion(target, name, info), NoFault).0.versions[i];
    assert v'.serviceId == id && v'.tag == tag;
  }

  lemma CommitStaysTagged(mode: ZeroRows, db: Database, op: Op, id: nat, tag: string)
    requires Consistent(db) && Tagged(db.versions, id, tag) && Execute(mode, db, op, NoFault).1 == OK
    requires op != DeleteVersion(id, tag) && op != DeleteService(id)
    ensures Tagged(Execute(mode, db, op, NoFault).0.versions, id, tag)
  {
    var v :| v in db.versions && v.serviceId == id && v.tag == tag;
    var db' := Execute(mode, db, op, NoFault).0;
    match op
    case CreateService(name, description) => CreateServiceEffect(mode, db, name, description, NoFault);
    case UpdateService(target, name, description) => UpdateServiceEffect(mode, db, target, name, description, NoFault);
    case DeleteService(target) => DeleteServiceAllOrNothing(mode, db, target, NoFault);
    case CreateVersion(target, name, info) => CreateVersionEffect(mode, db, target, name, info, NoFault);
    case UpdateVersion(target, name, info) => UpdatedStaysTagged(mode, db, target, name, info, id, tag);
    case DeleteVersion(target, name) => DeleteVersionEffect(mode, db, target, name, NoFault);
    assert op.UpdateVersion? || v in db'.versions;
  }

  /** A stored version goes only in a committed deletion of it or of its service. */
  lemma LossStep(mode: ZeroRows, s: State, e: Event, id: nat, tag: string)
    requires Consistent(s.db) && Stored(s, id, tag) && !Stored(Apply(mode, s, e), id, tag)
    ensures Removes(mode, s, e, id, tag)
  {
    StepDatabase(mode, s, e);
    if Writes(s, e) {
      var op := s.tasks[e.tid].op;
      ExecuteFrame(mode, s.db, op, e.fault);
      if Execute(mode, s.db, op, e.fault).1 == OK && op != DeleteVersion(id, tag) && op != DeleteService(id) {
        CommitStaysTagged(mode, s.db, op, id, tag);
      }
    }
  }

  lemma LossAt(mode: ZeroRows, es: seq<Event>, j: nat, id: nat, tag: string)
    requires j < |es| && Stored(After(mode, es[..j]), id, tag) && !Stored(After(mode, es[..j + 1]), id, tag)
    ensures Removes(mode, After(mode, es[..j]), es[j], id, tag)
  {
    IntegrityAlways(mode, es[..j]);
    AfterNext(mode, es[..j], es[j]);
    assert es[..j] + [es[j]] == es[..j + 1];
    LossStep(mode, After(mode, es[..j]), es[j], id, tag);
  }

  /** Between a position where the version is stored and one where it is not, it is last lost. */
  lemma {:induction false} LastLoss(mode: ZeroRows, es: seq<Event>, i: nat, k: nat, id: nat, tag: string)
    returns (j: nat)
    requires i <= k <= |es|
    requires Stored(After(mode, es[..i]), id, tag) && !Stored(After(mode, es[..k]), id, tag)
    ensures i <= j < k && Removes(mode, After(mode, es[..j]), es[j], id, tag)
    ensures forall m :: j < m <= k ==> !Stored(After(mode, es[..m]), id, tag)
  {
    if Stored(After(mode, es[..k - 1]), id, tag) {
      j := k - 1;
      LossAt(mode, es, j, id, tag);
    } else {
      j := LastLoss(mode, es, i, k - 1, id, tag);
    }
  }

  lemma WriterMovesOn(mode: ZeroRows, s: State, e: Event, op: Op)
    requires Writes(s, e)
    ensures !Awaits(Apply(mode, s, e), e.tid, op)
  {
  }

  /** A request that awaits its write all along is not the one that removes. */
  lemma RemovedByAnother(mode: ZeroRows, es: seq<Event>, j: nat, tid: nat, op: Op)
    requires j < |es| && Writes(After(mode, es[..j]), es[j]) && Awaits(After(mode, es[..j + 1]), tid, op)
    ensures es[j].tid != tid
  {
    AfterNext(mode, es[..j], es[j]);
    assert es[..j] + [es[j]] == es[..j + 1];
    WriterMovesOn(mode, After(mode, es[..j]), es[j], op);
  }

  lemma CheckedAndSince(mode: ZeroRows, es: seq<Event>, k: nat, tid: nat, id: nat, tag: string) returns (i: nat)
    requires k < |es| && Awaits(After(mode, es[..k]), tid, DeleteVersion(id, tag))
    ensures i < k && Checks(After(mode, es[..i]), es[i], tid, DeleteVersion(id, tag))
    ensures Stored(After(mode, es[..i]), id, tag)
    ensures forall m :: i < m <= k ==> Awaits(After(mode, es[..m]), tid, DeleteVersion(id, tag))
  {
    i := CheckedBefore(mode, es[..k], tid, DeleteVersion(id, tag));
    assert forall m :: i <= m <= k ==> es[..k][..m] == es[..m];
    IntegrityAlways(mode, es[..i]);
    CheckedMeansStored(mode, After(mode, es[..i]), es[i], tid, id, tag);
  }

  predicate MissAt(mode: ZeroRows, es: seq<Event>, k: nat, id: nat) {
    k < |es| && Miss(mode, After(mode, es[..k]), es[k], id)
  }

  lemma MissIsOvertaken(mode: ZeroRows, es: seq<Event>, k: nat, id: nat)
    returns (i: nat, j: nat, tag: string)
    requires MissAt(mode, es, k, id)
    ensures Overtaken(mode, es, i, j, k, id, tag)
  {
    var s, tid := After(mode, es[..k]), es[k].tid;
    tag := s.tasks[tid].op.tag;
    i := CheckedAndSince(mode, es, k, tid, id, tag);
    SelectEmpty(s.db.versions, HasKey(id, tag));
    j := LastLoss(mode, es, i, k, id, tag);
    RemovedByAnother(mode, es, j, tid, DeleteVersion(id, tag));
  }

  lemma OvertakenIsMiss(mode: ZeroRows, es: seq<Event>, i: nat, j: nat, k: nat, id: nat, tag: string)
    requires Overtaken(mode, es, i, j, k, id, tag)
    ensures MissAt(mode, es, k, id)
  {
    var s := After(mode, es[..k]);
    SelectEmpty(s.db.versions, HasKey(id, tag));
    assert Awaits(s, es[k].tid, DeleteVersion(id, tag)) && !Stored(s, id, tag);
  }

  /** A committed deletion removes no row exactly if another request's deletion overtook it. */
  lemma MissIffOvertaken(mode: ZeroRows, es: seq<Event>, k: nat, id: nat)
    ensures MissAt(mode, es, k, id) <==> exists i: nat, j: nat, tag :: Overtaken(mode, es, i, j, k, id, tag)
  {
    if MissAt(mode, es, k, id) {
      var i, j, tag := MissIsOvertaken(mode, es, k, id);
    }
    if i: nat, j: nat, tag :| Overtaken(mode, es, i, j, k, id, tag) {
      OvertakenIsMiss(mode, es, i, j, k, id, tag);
    }
  }

  lemma MissAtNext(mode: ZeroRows, es: seq<Event>, e: Event, k: nat, id: nat)
    ensures MissAt(mode, es + [e], k, id)
       <==> if k == |es| then Miss(mode, After(mode, es), e, id) else MissAt(mode, es, k, id)
  {
    if k <= |es| {
      assert (es + [e])[..k] == es[..k];
      assert es[..|es|] == es;
    }
  }

  lemma MissesNext(mode: ZeroRows, es: seq<Event>, e: Event, id: nat)
    ensures Misses(mode, es + [e], id) == Misses(mode, es, id) + if Miss(mode, After(mode, es), e, id) then 1 else 0
  {
    assert (es + [e])[..|es + [e]| - 1] == es;
  }

  lemma {:induction false} MissesSome(mode: ZeroRows, es: seq<Event>, id: nat)
    ensures Misses(mode, es, id) > 0 <==> exists k: nat :: MissAt(mode, es, k, id)
  {
    if es != [] {
      var before, e := es[..|es| - 1], es[|es| - 1];
      assert es == before + [e];
      MissesSome(mode, before, id);
      MissesNext(mode, before, e, id);
      forall k: nat {
        MissAtNext(mode, before, e, k, id);
      }
      if k: nat :| MissAt(mode, before, k, id) {
        assert MissAt(mode, es, k, id);
      } else if Miss(mode, After(mode, before), e, id) {
        assert MissAt(mode, es, |before|, id);
      }
    }
  }

  ghost predicate SomeOvertaken(mode: ZeroRows, es: seq<Event>, id: nat) {
    exists i: nat, j: nat, k: nat, tag :: Overtaken(mode, es, i, j, k, id, tag)
  }

  lemma MissesIffOvertaken(mode: ZeroRows, es: seq<Event>, id: nat)
    ensures Misses(mode, es, id) > 0 <==> SomeOvertaken(mode, es, id)
  {
    MissesSome(mode, es, id);
    if k: nat :| MissAt(mode, es, k, id) {
      var i, j, tag := MissIsOvertaken(mode, es, k, id);
    }
    if i: nat, j: nat, k: nat, tag :| Overtaken(mode, es, i, j, k, id, tag) {
      OvertakenIsMiss(mode, es, i, j, k, id, tag);
    }
  }

  /** So the count of a service is exact, in any run and under either reporting, exactly if no deletion of
      one of its versions was overtaken between its check and its write. */
  lemma CountExactIffNotOvertaken(mode: ZeroRows, es: seq<Event>, s: Service)
    requires s in After(mode, es).db.services
    ensures s.versionCount == |Select(After(mode, es).db.versions, OfService(s.id))| <==> !SomeOvertaken(mode, es, s.id)
  {
    CountExactIffNoMiss(mode, es, s);
    MissesIffOvertaken(mode, es, s.id);
  }
}
