/**
 The state of a keyset and what each operation does to it, as functions on values. The class
 Keyset is proved to do the same in place.
 */
module KeysetModel {
  import opened Prelude
  import opened Metadata

  /** A key: its hash, the alias hash of old releases if it has one, and its secret. */
  datatype Key = Key(hash: Option<string>, alias: Option<string>, material: Bytes)

  /** What observers are told, in order. */
  datatype Event =
    | UpdatedMetadata(metadata: MetadataInfo)
    | NewKey(key: Key, version: int)
    | RevokedKey(version: int)

  datatype State = State(
    metadata: Option<MetadataInfo>,
    primary: int,
    byVersion: map<int, Key>,
    byHash: map<string, Key>,
    log: seq<Event>)

  const EMPTY: State := State(None, 0, map[], map[], [])

  // ---------------------------------------------------------------- operations

  function NotifyMetadata(s: State): State
    requires s.metadata.Some?
  {
    s.(log := s.log + [UpdatedMetadata(s.metadata.value)])
  }

  function HasVersion(s: State, version: int): bool {
    s.metadata.Some? && version in s.metadata.value.versions
  }

  function StatusOf(s: State, version: int): Status
    requires HasVersion(s, version)
  {
    s.metadata.value.versions[version].status
  }

  /** Replaces the status of a version and tells the observers. */
  function SetStatus(s: State, version: int, status: Status): State
    requires HasVersion(s, version)
  {
    var m := s.metadata.value;
    NotifyMetadata(s.(metadata := Some(m.(versions := m.versions[version := m.versions[version].(status := status)]))))
  }

  /** UpdateKeyStatus: a new primary version demotes the former one first. */
  function UpdateStatus(s: State, version: int, status: Status): (State, bool)
    requires HasVersion(s, version)
  {
    if !status.PRIMARY? then (SetStatus(s, version, status), true)
    else
      var former := HasVersion(s, s.primary);
      if s.primary != 0 && !former then (s, false)
      else
        var s' := if former then SetStatus(s, s.primary, ACTIVE) else s;
        (SetStatus(s'.(primary := version), version, PRIMARY), true)
  }

  /** set_metadata. */
  function SetMetadata(s: State, m: Option<MetadataInfo>): State {
    var s' := s.(metadata := m);
    if m.Some? then NotifyMetadata(s') else s'
  }

  function SetEncrypted(s: State, encrypted: bool): State {
    if s.metadata.None? then s
    else NotifyMetadata(s.(metadata := Some(s.metadata.value.(encrypted := encrypted))))
  }

  /** AddKey: the hash must be new; the alias hash is written without a check. */
  function AddKey(s: State, key: Key, version: int): (State, bool) {
    if version <= 0 || !HasVersion(s, version) || version in s.byVersion || key.hash.None? || key.hash.value in s.byHash
    then (s, false)
    else
      var byHash := s.byHash[key.hash.value := key];
      (s.(byVersion := s.byVersion[version := key],
          byHash := if key.alias.Some? then byHash[key.alias.value := key] else byHash,
          log := s.log + [NewKey(key, version)]), true)
  }

  function RemoveKey(s: State, version: int): State {
    if version !in s.byVersion || s.byVersion[version].hash.None? || s.byVersion[version].hash.value !in s.byHash then s
    else s.(byVersion := s.byVersion - {version}, byHash := s.byHash - {s.byVersion[version].hash.value})
  }

  function Promote(s: State, version: int): (State, bool) {
    if version <= 0 || !HasVersion(s, version) then (s, false)
    else match StatusOf(s, version)
         case PRIMARY => (s, false)
         case ACTIVE => UpdateStatus(s, version, PRIMARY)
         case INACTIVE => UpdateStatus(s, version, ACTIVE)
  }

  function Demote(s: State, version: int): (State, bool) {
    if version <= 0 || !HasVersion(s, version) then (s, false)
    else match StatusOf(s, version)
         case PRIMARY => (UpdateStatus(s, version, ACTIVE).0.(primary := 0), true)
         case ACTIVE => UpdateStatus(s, version, INACTIVE)
         case INACTIVE => (s, false)
  }

  function Revoke(s: State, version: int): (State, bool) {
    if version <= 0 || !HasVersion(s, version) || !StatusOf(s, version).INACTIVE? then (s, false)
    else
      var m := s.metadata.value;
      var s1 := NotifyMetadata(s.(metadata := Some(m.(versions := m.versions - {version}))));
      var s2 := RemoveKey(s1, version);
      (s2.(log := s2.log + [RevokedKey(version)]), true)
  }

  /**
   The keys that are generated one after the other until one has a new hash; None stands for a failed
   generation or hash, and after the last key generation fails.
   */
  function FirstFresh(s: State, candidates: seq<Option<Key>>): (r: Option<Key>)
    ensures r.Some? ==> r.value.hash.Some? && r.value.hash.value !in s.byHash
  {
    if candidates == [] || candidates[0].None? || candidates[0].value.hash.None? then None
    else if candidates[0].value.hash.value !in s.byHash then candidates[0]
    else FirstFresh(s, candidates[1..])
  }

  /** AddKeyVersion with a version whose number is still to be assigned; the number or 0. */
  function AddVersionOf(s: State, status: Status, exportable: bool): (State, int)
    requires s.metadata.Some?
  {
    var m := s.metadata.value;
    var (m', ok) := AddVersion(m, VersionInfo(0, status, exportable));
    var s1 := s.(metadata := Some(m'));
    if !ok then (s1, 0)
    else
      var s2 := if status.PRIMARY? then UpdateStatus(s1, m.next, PRIMARY).0 else s1;
      (NotifyMetadata(s2), m.next)
  }

  /** The same with a version that is not exportable, as all are that the program makes. */
  function AddKeyVersion(s: State, status: Status): (State, int)
    requires s.metadata.Some?
  {
    AddVersionOf(s, status, false)
  }

  /** GenerateKey, and ImportPrivateKey with a single candidate: the number of the new version, or 0. */
  function Generate(s: State, status: Status, candidates: seq<Option<Key>>): (State, int) {
    if s.metadata.None? then (s, 0)
    else
      match FirstFresh(s, candidates)
      case None => (s, 0)
      case Some(key) =>
        var (s1, demoted) := if status.PRIMARY? && s.primary > 0 then Demote(s, s.primary) else (s, true);
        if !demoted then (s1, 0)
        else
          var (s2, version) := AddKeyVersion(s1, status);
          if version == 0 then (s2, 0)
          else
            var (s3, added) := AddKey(s2, key, version);
            // the removal of the version below this branch is inside a debug check and may not happen
            if added then (s3, version) else (s3, 0)
  }

  // ---------------------------------------------------------------- the invariant

  predicate Primary(m: MetadataInfo, n: int) {
    n in m.versions && m.versions[n].status.PRIMARY?
  }

  /** No two of the versions are primary. */
  ghost predicate AtMostOnePrimary(m: MetadataInfo) {
    forall n, k :: Primary(m, n) && Primary(m, k) ==> n == k
  }

  /** At most one version is primary, and the cached number is 0 or names it. */
  ghost predicate PrimaryAgrees(s: State)
    requires s.metadata.Some?
  {
    var versions := s.metadata.value.versions;
    && (s.primary != 0 ==> s.primary in versions)
    && forall n :: n in versions ==> (versions[n].status.PRIMARY? <==> n == s.primary)
  }

  /** Every indexed key has a version; keys have different hashes, all of them indexed. */
  ghost predicate IndexesAgree(s: State)
    requires s.metadata.Some?
  {
    && (forall n :: n in s.byVersion ==> n in s.metadata.value.versions)
    && (forall n :: n in s.byVersion ==> s.byVersion[n].hash.Some? && s.byVersion[n].hash.value in s.byHash)
    && (forall n, k :: n in s.byVersion && k in s.byVersion && n != k ==> s.byVersion[n].hash != s.byVersion[k].hash)
  }

  ghost predicate Inv(s: State) {
    match s.metadata
    case None => s.primary == 0 && s.byVersion == map[] && s.byHash == map[]
    case Some(m) => ValidMetadata(m) && PrimaryAgrees(s) && IndexesAgree(s)
  }

  /** No number from the counter on is in use. */
  ghost predicate Fresh(s: State) {
    s.metadata.Some? ==> CounterIsFresh(s.metadata.value)
  }

  /** The hash index and the version index hold exactly the same keys. */
  ghost predicate SameKeys(s: State) {
    && (forall n :: n in s.byVersion ==>
          s.byVersion[n].hash.Some? && s.byVersion[n].hash.value in s.byHash
          && s.byHash[s.byVersion[n].hash.value] == s.byVersion[n])
    && (forall h :: h in s.byHash ==> exists n :: n in s.byVersion && s.byVersion[n].hash == Some(h))
  }

  // ---------------------------------------------------------------- runs

  datatype Op =
    | DoSetEncrypted(encrypted: bool)
    | DoAddKey(key: Key, version: int)
    | DoGenerate(status: Status, candidates: seq<Option<Key>>)
    | DoPromote(version: int)
    | DoDemote(version: int)
    | DoRevoke(version: int)

  function Step(s: State, op: Op): State {
    match op
    case DoSetEncrypted(encrypted) => SetEncrypted(s, encrypted)
    case DoAddKey(key, version) => AddKey(s, key, version).0
    case DoGenerate(status, candidates) => Generate(s, status, candidates).0
    case DoPromote(version) => Promote(s, version).0
    case DoDemote(version) => Demote(s, version).0
    case DoRevoke(version) => Revoke(s, version).0
  }

  function Run(s: State, ops: seq<Op>): State
    decreases |ops|
  {
    if ops == [] then s else Run(Step(s, ops[0]), ops[1..])
  }

  // ---------------------------------------------------------------- every operation keeps the invariant

  lemma SetStatusKeepsIndexes(s: State, version: int, status: Status)
    requires s.metadata.Some? && HasVersion(s, version)
    requires ValidMetadata(s.metadata.value) && IndexesAgree(s)
    ensures var t := SetStatus(s, version, status);
            && ValidMetadata(t.metadata.value) && IndexesAgree(t)
            && t.metadata.value.versions.Keys == s.metadata.value.versions.Keys
  {
  }

  lemma UpdateStatusKeepsInv(s: State, version: int, status: Status)
    requires Inv(s) && HasVersion(s, version)
    requires status.PRIMARY? || StatusOf(s, version).PRIMARY? ==> status.PRIMARY? && !StatusOf(s, version).PRIMARY?
    ensures Inv(UpdateStatus(s, version, status).0) && UpdateStatus(s, version, status).1
  {
    if status.PRIMARY? && s.primary != 0 {
      SetStatusKeepsIndexes(s, s.primary, ACTIVE);
      var s1 := SetStatus(s, s.primary, ACTIVE).(primary := version);
      SetStatusKeepsIndexes(s1, version, PRIMARY);
    } else {
      SetStatusKeepsIndexes(s.(primary := if status.PRIMARY? then version else s.primary), version, status);
    }
  }

  lemma PromoteKeepsInv(s: State, version: int)
    requires Inv(s)
    ensures Inv(Promote(s, version).0)
  {
    hide UpdateStatus, Inv;
    if HasVersion(s, version) && !StatusOf(s, version).PRIMARY? {
      UpdateStatusKeepsInv(s, version, if StatusOf(s, version).ACTIVE? then PRIMARY else ACTIVE);
    }
  }

  lemma DemoteKeepsInv(s: State, version: int)
    requires Inv(s)
    ensures Inv(Demote(s, version).0)
    ensures HasVersion(s, version) && StatusOf(s, version).PRIMARY? ==> Demote(s, version).1 && Demote(s, version).0.primary == 0
  {
    if version > 0 && HasVersion(s, version) && !StatusOf(s, version).INACTIVE? {
      SetStatusKeepsIndexes(s, version, if StatusOf(s, version).PRIMARY? then ACTIVE else INACTIVE);
    }
  }

  lemma RevokeKeepsInv(s: State, version: int)
    requires Inv(s)
    ensures Inv(Revoke(s, version).0)
  {
  }

  lemma AddKeyKeepsInv(s: State, key: Key, version: int)
    requires Inv(s)
    ensures Inv(AddKey(s, key, version).0)
  {
  }
}
