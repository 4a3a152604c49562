/** What the observers of a keyset know about it. */
module KeysetMirror {
  import opened Prelude
  import opened Metadata
  import opened KeysetModel
  import opened KeysetRuns

  /** The last metadata that was told. */
  function LastMetadata(log: seq<Event>): Option<MetadataInfo> {
    if log == [] then None
    else match log[|log| - 1]
         case UpdatedMetadata(m) => Some(m)
         case _ => LastMetadata(log[..|log| - 1])
  }

  /** The keys that were told, less the revoked ones. */
  function KnownKeys(log: seq<Event>): map<int, Key> {
    if log == [] then map[]
    else
      var known := KnownKeys(log[..|log| - 1]);
      match log[|log| - 1]
      case UpdatedMetadata(m) => known
      case NewKey(key, version) => known[version := key]
      case RevokedKey(version) => known - {version}
  }

  ghost predicate SnapshotsAgree(log: seq<Event>) {
    forall e :: e in log && e.UpdatedMetadata? ==> AtMostOnePrimary(e.metadata)
  }

  /** Keys and snapshots are right, whether or not the latest metadata was told. */
  ghost predicate Follows(s: State) {
    KnownKeys(s.log) == s.byVersion && SnapshotsAgree(s.log)
  }

  /** An observer that was there from the start knows exactly the keyset. */
  ghost predicate Mirrors(s: State) {
    Follows(s) && LastMetadata(s.log) == s.metadata
  }

  lemma NotifyMirrors(s: State)
    requires s.metadata.Some? && Follows(s) && AtMostOnePrimary(s.metadata.value)
    ensures Mirrors(NotifyMetadata(s))
  {
    var e := UpdatedMetadata(s.metadata.value);
    assert (s.log + [e])[..|s.log|] == s.log;
    hide AtMostOnePrimary;
  }

  lemma NewKeyMirrors(s: State, key: Key, version: int)
    requires Mirrors(s)
    ensures Mirrors(AddKey(s, key, version).0)
  {
    assert (s.log + [NewKey(key, version)])[..|s.log|] == s.log;
    hide AtMostOnePrimary;
  }

  lemma RevokedMirrors(s: State, t: State, version: int)
    requires Mirrors(s) && t.metadata == s.metadata && t.byVersion == s.byVersion - {version}
    requires t.log == s.log + [RevokedKey(version)]
    ensures Mirrors(t)
  {
    assert t.log[..|s.log|] == s.log;
    hide AtMostOnePrimary;
  }

  lemma InvOnePrimary(s: State)
    requires Inv(s) && s.metadata.Some?
    ensures AtMostOnePrimary(s.metadata.value)
  {
  }

  lemma SetStatusMirrors(s: State, version: int, status: Status)
    requires HasVersion(s, version) && Follows(s) && AtMostOnePrimary(SetStatus(s, version, status).metadata.value)
    ensures Mirrors(SetStatus(s, version, status))
  {
    var m := s.metadata.value;
    NotifyMirrors(s.(metadata := Some(m.(versions := m.versions[version := m.versions[version].(status := status)]))));
  }

  lemma UpdateStatusMirrors(s: State, version: int, status: Status)
    requires Inv(s) && HasVersion(s, version) && Mirrors(s)
    requires status.PRIMARY? ==> !StatusOf(s, version).PRIMARY?
    ensures Mirrors(UpdateStatus(s, version, status).0)
  {
    hide KnownKeys, LastMetadata, SnapshotsAgree, IndexesAgree;
    if status.PRIMARY? {
      if s.primary != 0 {
        SetStatusMirrors(s, s.primary, ACTIVE);
        SetStatusMirrors(SetStatus(s, s.primary, ACTIVE).(primary := version), version, PRIMARY);
      } else {
        assert !HasVersion(s, 0);
        SetStatusMirrors(s.(primary := version), version, PRIMARY);
      }
    } else {
      SetStatusMirrors(s, version, status);
    }
  }

  lemma DemoteMirrors(s: State, version: int)
    requires Inv(s) && Mirrors(s)
    ensures Mirrors(Demote(s, version).0)
  {
    hide KnownKeys, LastMetadata, SnapshotsAgree, AtMostOnePrimary, UpdateStatus, Inv;
    if version > 0 && HasVersion(s, version) && !StatusOf(s, version).INACTIVE? {
      UpdateStatusMirrors(s, version, if StatusOf(s, version).PRIMARY? then ACTIVE else INACTIVE);
    }
  }

  lemma PromoteMirrors(s: State, version: int)
    requires Inv(s) && Mirrors(s)
    ensures Mirrors(Promote(s, version).0)
  {
    hide KnownKeys, LastMetadata, SnapshotsAgree, AtMostOnePrimary, UpdateStatus, Inv;
    if version > 0 && HasVersion(s, version) && !StatusOf(s, version).PRIMARY? {
      UpdateStatusMirrors(s, version, if StatusOf(s, version).ACTIVE? then PRIMARY else ACTIVE);
    }
  }

  lemma RevokeMirrors(s: State, version: int)
    requires Inv(s) && Mirrors(s)
    ensures Mirrors(Revoke(s, version).0)
  {
    if Revoke(s, version).1 {
      var m := s.metadata.value;
      var s0 := s.(metadata := Some(m.(versions := m.versions - {version})));
      NotifyMirrors(s0);
      var s1 := NotifyMetadata(s0);
      hide KnownKeys, LastMetadata, SnapshotsAgree, AtMostOnePrimary;
      RevokedMirrors(s1, Revoke(s, version).0, version);
    }
  }

  lemma AddKeyVersionMirrors(s: State, status: Status)
    requires Inv(s) && s.metadata.Some? && (status.PRIMARY? ==> s.primary == 0) && Mirrors(s)
    requires s.metadata.value.next !in s.metadata.value.versions
    ensures Mirrors(AddKeyVersion(s, status).0)
  {
    hide KnownKeys, LastMetadata, SnapshotsAgree;
    var m := s.metadata.value;
    var m' := AddVersion(m, VersionInfo(0, status, false)).0;
    var s1 := s.(metadata := Some(m'));
    if status.PRIMARY? {
      assert !HasVersion(s1, 0);
      SetStatusMirrors(s1.(primary := m.next), m.next, PRIMARY);
      NotifyMirrors(UpdateStatus(s1, m.next, PRIMARY).0);
    } else {
      NotifyMirrors(s1);
    }
  }

  lemma StepMirrors(s: State, op: Op)
    requires Inv(s) && Fresh(s) && Mirrors(s)
    ensures Mirrors(Step(s, op))
  {
    match op {
      case DoSetEncrypted(encrypted) =>
        if s.metadata.Some? {
          InvOnePrimary(s);
          NotifyMirrors(s.(metadata := Some(s.metadata.value.(encrypted := encrypted))));
        }
      case DoAddKey(key, version) =>
        hide Mirrors;
        NewKeyMirrors(s, key, version);
      case DoGenerate(status, candidates) =>
        GenerateCases(s, status, candidates);
        VacatedKeepsInv(s, status);
        hide Generate, Mirrors, Inv, AddKey, AddKeyVersion, Demote, FirstFresh;
        if s.metadata.Some? && FirstFresh(s, candidates).Some? {
          DemoteMirrors(s, s.primary);
          var s1 := Vacated(s, status);
          AddKeyVersionMirrors(s1, status);
          NewKeyMirrors(AddKeyVersion(s1, status).0, FirstFresh(s, candidates).value, s.metadata.value.next);
        }
      case DoPromote(version) =>
        hide Mirrors, Inv;
        PromoteMirrors(s, version);
      case DoDemote(version) =>
        hide Mirrors, Inv;
        DemoteMirrors(s, version);
      case DoRevoke(version) =>
        hide Mirrors, Inv;
        RevokeMirrors(s, version);
    }
  }

  /** An observer that knows the keyset still knows it after any run. */
  lemma {:induction false} RunMirrors(s: State, ops: seq<Op>)
    requires Inv(s) && Fresh(s) && Mirrors(s)
    ensures Mirrors(Run(s, ops))
    decreases |ops|
  {
    hide Inv, Fresh, Mirrors, Step;
    if ops != [] {
      StepKeepsInv(s, ops[0]);
      StepKeepsFresh(s, ops[0]);
      StepMirrors(s, ops[0]);
      RunMirrors(Step(s, ops[0]), ops[1..]);
    }
  }

  /**
   An observer that is attached before the first metadata mirrors the keyset after every run: the last metadata it
   was told is the keyset's, the keys it was told of and not told were revoked are the indexed ones, and it
   was never told of metadata with two primary versions, not even in the middle of an operation.
   */
  lemma ObserverMirrors(m: MetadataInfo, ops: seq<Op>)
    requires ValidMetadata(m) && m.versions == map[]
    ensures Mirrors(Run(SetMetadata(EMPTY, Some(m)), ops))
  {
    var s := SetMetadata(EMPTY, Some(m));
    SetMetadataKeepsInv(m);
    NotifyMirrors(EMPTY.(metadata := Some(m)));
    RunMirrors(s, ops);
  }

  /**
   With a counter that names an existing version, the failed generation moves the counter without telling: the
   observer is wrong exactly when generation could have succeeded but for that.
   */
  lemma MirrorFailsOnlyOnTakenNumber(s: State, status: Status, candidates: seq<Option<Key>>)
    requires Inv(s) && Mirrors(s)
    ensures Mirrors(Generate(s, status, candidates).0) <==>
            !(s.metadata.Some? && FirstFresh(s, candidates).Some? && s.metadata.value.next in s.metadata.value.versions)
  {
    GenerateCases(s, status, candidates);
    VacatedKeepsInv(s, status);
    hide Generate, Inv, AddKey, Demote, FirstFresh, KnownKeys, LastMetadata, SnapshotsAgree, AtMostOnePrimary;
    if s.metadata.Some? && FirstFresh(s, candidates).Some? {
      DemoteMirrors(s, s.primary);
      var s1 := Vacated(s, status);
      if s.metadata.value.next !in s.metadata.value.versions {
        AddKeyVersionMirrors(s1, status);
        NewKeyMirrors(AddKeyVersion(s1, status).0, FirstFresh(s, candidates).value, s.metadata.value.next);
      }
    }
  }
}
