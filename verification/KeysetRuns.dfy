/** What every run of operations on a keyset keeps. */
module KeysetRuns {
  import opened Prelude
  import opened Metadata
  import opened KeysetModel

  // ---------------------------------------------------------------- the invariant over all runs

  lemma SetMetadataKeepsInv(m: MetadataInfo)
    requires ValidMetadata(m) && m.versions == map[]
    ensures Inv(SetMetadata(EMPTY, Some(m)))
  {
  }

  /** A version added with a number of its own, which becomes the primary one if it is to be. */
  lemma AddKeyVersionKeepsInv(s: State, status: Status)
    requires Inv(s) && s.metadata.Some? && (status.PRIMARY? ==> s.primary == 0)
    ensures var (t, n) := AddKeyVersion(s, status);
            && Inv(t)
            && (n == 0 <==> s.metadata.value.next in s.metadata.value.versions)
            && (n != 0 ==> n == s.metadata.value.next && HasVersion(t, n) && t.byVersion == s.byVersion && t.byHash == s.byHash)
  {
    var m := s.metadata.value;
    if m.next !in m.versions {
      var m' := AddVersion(m, VersionInfo(0, status, false)).0;
      var s1 := s.(metadata := Some(m'));
      assert !HasVersion(s1, 0);
    }
  }

  lemma AddKeySucceeds(s: State, key: Key, version: int)
    requires HasVersion(s, version) && version > 0 && version !in s.byVersion
    requires key.hash.Some? && key.hash.value !in s.byHash
    ensures AddKey(s, key, version).1
  {
  }

  /** When a new primary key is asked for, the former one is demoted first. */
  function Vacated(s: State, status: Status): State {
    if status.PRIMARY? && s.primary > 0 then Demote(s, s.primary).0 else s
  }

  lemma VacatedKeepsInv(s: State, status: Status)
    requires Inv(s)
    ensures Inv(Vacated(s, status)) && (status.PRIMARY? ==> Vacated(s, status).primary == 0)
    ensures status.PRIMARY? && s.primary > 0 ==> Demote(s, s.primary).1
    ensures s.metadata.Some? ==>
              && Vacated(s, status).metadata.Some?
              && Vacated(s, status).metadata.value.versions.Keys == s.metadata.value.versions.Keys
              && Vacated(s, status).metadata.value.next == s.metadata.value.next
              && Vacated(s, status).byVersion == s.byVersion && Vacated(s, status).byHash == s.byHash
  {
    DemoteKeepsInv(s, s.primary);
  }

  lemma NotIndexed(s: State, n: int)
    requires Inv(s) && s.metadata.Some? && n !in s.metadata.value.versions
    ensures n !in s.byVersion
  {
  }

  lemma NextIsPositive(s: State)
    requires Inv(s) && s.metadata.Some?
    ensures s.metadata.value.next > 0
  {
  }

  /** Once the version was added, adding the key cannot fail, so the version never has to be taken out again. */
  lemma RollbackIsNeverReached(s: State, status: Status, candidates: seq<Option<Key>>)
    requires Inv(s) && s.metadata.Some? && FirstFresh(s, candidates).Some?
    ensures var (t, n) := AddKeyVersion(Vacated(s, status), status);
            n != 0 ==> AddKey(t, FirstFresh(s, candidates).value, n).1 && Inv(AddKey(t, FirstFresh(s, candidates).value, n).0)
  {
    hide Inv, AddKey, AddKeyVersion, Demote, FirstFresh, Vacated;
    var s1 := Vacated(s, status);
    VacatedKeepsInv(s, status);
    AddKeyVersionKeepsInv(s1, status);
    var (s2, n) := AddKeyVersion(s1, status);
    if n != 0 {
      NotIndexed(s, n);
      NextIsPositive(s);
      AddKeySucceeds(s2, FirstFresh(s, candidates).value, n);
      AddKeyKeepsInv(s2, FirstFresh(s, candidates).value, n);
    }
  }

  /**
   GenerateKey: without a key with a new hash nothing changes. Otherwise it fails exactly when the counter names
   a version that exists, which a counter read from a file may; when it does not fail, the state after it is the
   one with the former primary demoted, the version added and the key indexed.
   */
  lemma GenerateCases(s: State, status: Status, candidates: seq<Option<Key>>)
    requires Inv(s)
    ensures var (t, n) := Generate(s, status, candidates);
            && Inv(t)
            && (s.metadata.None? || FirstFresh(s, candidates).None? ==> t == s && n == 0)
            && (s.metadata.Some? && FirstFresh(s, candidates).Some? ==>
                  var m := s.metadata.value;
                  && (n == 0 <==> m.next in m.versions)
                  && (n != 0 ==> n == m.next && t == AddKey(AddKeyVersion(Vacated(s, status), status).0, FirstFresh(s, candidates).value, n).0)
                  && (n == 0 ==> t == AddKeyVersion(Vacated(s, status), status).0))
  {
    hide Inv, AddKey, AddKeyVersion, Demote, FirstFresh;
    if s.metadata.Some? && FirstFresh(s, candidates).Some? {
      VacatedKeepsInv(s, status);
      AddKeyVersionKeepsInv(Vacated(s, status), status);
      RollbackIsNeverReached(s, status, candidates);
    }
  }

  lemma StepKeepsInv(s: State, op: Op)
    requires Inv(s)
    ensures Inv(Step(s, op))
  {
    match op
    case DoSetEncrypted(encrypted) =>
    case DoAddKey(key, version) => AddKeyKeepsInv(s, key, version);
    case DoGenerate(status, candidates) => GenerateCases(s, status, candidates);
    case DoPromote(version) => PromoteKeepsInv(s, version);
    case DoDemote(version) => DemoteKeepsInv(s, version);
    case DoRevoke(version) => RevokeKeepsInv(s, version);
  }

  /** Whatever is done to a keyset, its metadata, its primary number and its indexes stay consistent. */
  lemma {:induction false} RunKeepsInv(s: State, ops: seq<Op>)
    requires Inv(s)
    ensures Inv(Run(s, ops))
    decreases |ops|
  {
    hide Inv, Step;
    if ops != [] {
      StepKeepsInv(s, ops[0]);
      RunKeepsInv(Step(s, ops[0]), ops[1..]);
    }
  }

  /** The same from the start: a keyset given metadata without versions, then any operations. */
  lemma EveryRunIsConsistent(m: MetadataInfo, ops: seq<Op>)
    requires ValidMetadata(m) && m.versions == map[]
    ensures Inv(Run(SetMetadata(EMPTY, Some(m)), ops))
  {
    SetMetadataKeepsInv(m);
    RunKeepsInv(SetMetadata(EMPTY, Some(m)), ops);
  }

  // ---------------------------------------------------------------- generating a key is all or nothing

  /** The versions with the primary one, if any, turned into an active one. */
  function Demoted(versions: map<int, VersionInfo>, primary: int): map<int, VersionInfo> {
    if primary in versions then versions[primary := versions[primary].(status := ACTIVE)] else versions
  }

  /** The key that is used is the first candidate whose hash is new, and nothing failed before it. */
  lemma {:induction false} FirstFreshIsFirst(s: State, candidates: seq<Option<Key>>, i: nat)
    requires i < |candidates|
    requires forall j :: 0 <= j < i ==> candidates[j].Some? && candidates[j].value.hash.Some? && candidates[j].value.hash.value in s.byHash
    requires candidates[i].Some? && candidates[i].value.hash.Some? && candidates[i].value.hash.value !in s.byHash
    ensures FirstFresh(s, candidates) == candidates[i]
  {
    if i > 0 {
      FirstFreshIsFirst(s, candidates[1..], i - 1);
    }
  }

  /** What a successful generation does to the whole state. */
  ghost predicate Generated(s: State, t: State, status: Status, key: Key, n: int)
    requires s.metadata.Some?
  {
    var m := s.metadata.value;
    var versions := if status.PRIMARY? then Demoted(m.versions, s.primary) else m.versions;
    && n == m.next && n !in m.versions
    && t.metadata == Some(m.(next := m.next + 1, versions := versions[n := VersionInfo(n, status, false)]))
    && t.primary == (if status.PRIMARY? then n else s.primary)
    && t.byVersion == s.byVersion[n := key]
    && key.hash.Some? && key.hash.value !in s.byHash
    && t.byHash == (var byHash := s.byHash[key.hash.value := key]; if key.alias.Some? then byHash[key.alias.value := key] else byHash)
  }

  lemma AddedVersion(s: State, status: Status)
    requires Inv(s) && s.metadata.Some? && (status.PRIMARY? ==> s.primary == 0)
    requires s.metadata.value.next !in s.metadata.value.versions
    ensures var (t, n) := AddKeyVersion(s, status);
            var m := s.metadata.value;
            && t.metadata == Some(m.(next := m.next + 1, versions := m.versions[m.next := VersionInfo(m.next, status, false)]))
            && t.primary == if status.PRIMARY? then m.next else s.primary
  {
    var m := s.metadata.value;
    var m' := AddVersion(m, VersionInfo(0, status, false)).0;
    assert m'.versions == m.versions[m.next := VersionInfo(m.next, status, false)];
    var s1 := s.(metadata := Some(m'));
    assert !HasVersion(s1, 0);
    assert m'.versions[m.next := m'.versions[m.next].(status := status)] == m'.versions;
  }

  lemma VacatedVersions(s: State, status: Status)
    requires Inv(s) && s.metadata.Some?
    ensures Vacated(s, status).metadata
         == Some(s.metadata.value.(versions := if status.PRIMARY? then Demoted(s.metadata.value.versions, s.primary) else s.metadata.value.versions))
  {
    assert !HasVersion(s, 0);
    if status.PRIMARY? && s.primary != 0 {
      assert HasVersion(s, s.primary);
    }
  }

  lemma KeyAdded(s: State, key: Key, n: int)
    requires HasVersion(s, n) && n > 0 && n !in s.byVersion
    requires key.hash.Some? && key.hash.value !in s.byHash
    ensures var t := AddKey(s, key, n).0;
            && t.metadata == s.metadata && t.primary == s.primary
            && t.byVersion == s.byVersion[n := key]
            && t.byHash == (var byHash := s.byHash[key.hash.value := key]; if key.alias.Some? then byHash[key.alias.value := key] else byHash)
  {
  }

  lemma VacatedPrimary(s: State, status: Status)
    requires !status.PRIMARY?
    ensures Vacated(s, status) == s
  {
  }

  /** What is left behind when the counter names a version that exists: the primary one retired, the counter moved. */
  ghost predicate HalfDone(s: State, t: State, status: Status)
    requires s.metadata.Some?
  {
    var m := s.metadata.value;
    var versions := if status.PRIMARY? then Demoted(m.versions, s.primary) else m.versions;
    && m.next in m.versions
    && t.metadata == Some(m.(next := m.next + 1, versions := versions))
    && t.primary == (if status.PRIMARY? then 0 else s.primary)
    && t.byVersion == s.byVersion && t.byHash == s.byHash
  }

  lemma VacatedNumber(s: State, status: Status)
    requires Inv(s) && s.metadata.Some?
    ensures Vacated(s, status).primary == if status.PRIMARY? then 0 else s.primary
  {
    VacatedKeepsInv(s, status);
  }

  /** Generation with a counter that no version has. */
  lemma GenerateSucceeds(s: State, status: Status, candidates: seq<Option<Key>>)
    requires Inv(s) && s.metadata.Some? && FirstFresh(s, candidates).Some?
    requires s.metadata.value.next !in s.metadata.value.versions
    ensures var (t, n) := Generate(s, status, candidates);
            n > 0 && Generated(s, t, status, FirstFresh(s, candidates).value, n)
  {
    GenerateCases(s, status, candidates);
    hide AddKey, AddKeyVersion, Demote, FirstFresh, Generate, Inv, Vacated;
    var m := s.metadata.value;
    var s1 := Vacated(s, status);
    VacatedKeepsInv(s, status);
    VacatedVersions(s, status);
    AddKeyVersionKeepsInv(s1, status);
    AddedVersion(s1, status);
    NotIndexed(s, m.next);
    NextIsPositive(s);
    KeyAdded(AddKeyVersion(s1, status).0, FirstFresh(s, candidates).value, m.next);
    if !status.PRIMARY? {
      VacatedPrimary(s, status);
    }
  }

  /** Generation with a counter that names a version. */
  lemma GenerateFails(s: State, status: Status, candidates: seq<Option<Key>>)
    requires Inv(s) && s.metadata.Some? && FirstFresh(s, candidates).Some?
    requires s.metadata.value.next in s.metadata.value.versions
    ensures var (t, n) := Generate(s, status, candidates); n == 0 && HalfDone(s, t, status)
  {
    GenerateCases(s, status, candidates);
    hide AddKey, Demote, FirstFresh, Generate, Inv, Vacated;
    VacatedKeepsInv(s, status);
    VacatedVersions(s, status);
    VacatedNumber(s, status);
  }

  /** All that generation can do, from any consistent state. */
  lemma GenerateEffect(s: State, status: Status, candidates: seq<Option<Key>>)
    requires Inv(s)
    ensures var (t, n) := Generate(s, status, candidates);
            && Inv(t)
            && (s.metadata.None? || FirstFresh(s, candidates).None? ==> n == 0 && t == s)
            && (s.metadata.Some? && FirstFresh(s, candidates).Some? ==>
                  if s.metadata.value.next in s.metadata.value.versions then n == 0 && HalfDone(s, t, status)
                  else n > 0 && Generated(s, t, status, FirstFresh(s, candidates).value, n))
  {
    GenerateCases(s, status, candidates);
    hide FirstFresh, Generate, Inv, HalfDone, Generated;
    if s.metadata.Some? && FirstFresh(s, candidates).Some? {
      if s.metadata.value.next in s.metadata.value.versions {
        GenerateFails(s, status, candidates);
      } else {
        GenerateSucceeds(s, status, candidates);
      }
    }
  }

  /**
   GenerateKey either does nothing and returns 0, or does everything and returns a number no version has:
   with a counter above all versions there is no third case, so the removal of a half-added version is never needed.
   */
  lemma GenerateAllOrNothing(s: State, status: Status, candidates: seq<Option<Key>>)
    requires Inv(s) && Fresh(s)
    ensures var (t, n) := Generate(s, status, candidates);
            && Inv(t) && Fresh(t)
            && (s.metadata.None? || FirstFresh(s, candidates).None? ==> n == 0 && t == s)
            && (s.metadata.Some? && FirstFresh(s, candidates).Some? ==> n > 0 && Generated(s, t, status, FirstFresh(s, candidates).value, n))
  {
    GenerateEffect(s, status, candidates);
    hide FirstFresh, Generate, Inv;
  }

  /**
   Without that assumption on the counter, generation leaves a half-done change behind exactly when a key could be
   made but the counter names a version that exists.
   */
  lemma GenerateIsAllOrNothingUnlessTaken(s: State, status: Status, candidates: seq<Option<Key>>)
    requires Inv(s)
    ensures var (t, n) := Generate(s, status, candidates);
            (n == 0 && t != s) <==>
              s.metadata.Some? && FirstFresh(s, candidates).Some? && s.metadata.value.next in s.metadata.value.versions
  {
    GenerateEffect(s, status, candidates);
    hide FirstFresh, Generate, Inv;
  }

  lemma StepKeepsFresh(s: State, op: Op)
    requires Inv(s) && Fresh(s)
    ensures Fresh(Step(s, op))
  {
    if op.DoGenerate? {
      GenerateAllOrNothing(s, op.status, op.candidates);
      hide Generate, Inv;
    } else {
      hide Generate, FirstFresh;
    }
  }

  /** The counter never moves back, and moves on by one when a number is assigned. */
  lemma StepKeepsCounter(s: State, op: Op)
    requires Inv(s)
    ensures Inv(Step(s, op))
    ensures Step(s, op).metadata.Some? <==> s.metadata.Some?
    ensures Counter(s) <= Counter(Step(s, op)) <= Counter(s) + 1
    ensures op.DoGenerate? && Generate(s, op.status, op.candidates).1 != 0 ==>
              Generate(s, op.status, op.candidates).1 == Counter(s) && Counter(Step(s, op)) == Counter(s) + 1
  {
    StepKeepsInv(s, op);
    if op.DoGenerate? {
      GenerateEffect(s, op.status, op.candidates);
      hide Generate, Inv, FirstFresh;
    } else {
      hide Generate, FirstFresh;
    }
  }

  /** The counter, 0 without metadata. */
  function Counter(s: State): int {
    if s.metadata.Some? then s.metadata.value.next else 0
  }

  // ---------------------------------------------------------------- the two indexes hold the same keys

  predicate AliasFree(op: Op) {
    match op
    case DoAddKey(key, version) => key.alias.None?
    case DoGenerate(status, candidates) => forall c :: c in candidates && c.Some? ==> c.value.alias.None?
    case _ => true
  }

  lemma {:induction false} FirstFreshIsCandidate(s: State, candidates: seq<Option<Key>>)
    requires FirstFresh(s, candidates).Some?
    ensures FirstFresh(s, candidates) in candidates
  {
    if candidates[0].value.hash.value in s.byHash {
      FirstFreshIsCandidate(s, candidates[1..]);
    }
  }

  lemma AddKeepsSameKeys(s: State, key: Key, n: int)
    requires SameKeys(s) && n !in s.byVersion && key.hash.Some? && key.hash.value !in s.byHash
    ensures SameKeys(s.(byVersion := s.byVersion[n := key], byHash := s.byHash[key.hash.value := key]))
  {
    var t := s.(byVersion := s.byVersion[n := key], byHash := s.byHash[key.hash.value := key]);
    assert t.byVersion[n] == key;
    forall h | h in t.byHash ensures exists k :: k in t.byVersion && t.byVersion[k].hash == Some(h) {
      if h in s.byHash {
        var k :| k in s.byVersion && s.byVersion[k].hash == Some(h);
        assert t.byVersion[k] == s.byVersion[k];
      }
    }
  }

  lemma RemoveKeepsSameKeys(s: State, n: int)
    requires SameKeys(s) && Inv(s)
    ensures SameKeys(RemoveKey(s, n))
  {
    if n in s.byVersion {
      var t := RemoveKey(s, n);
      forall h | h in t.byHash ensures exists k :: k in t.byVersion && t.byVersion[k].hash == Some(h) {
        var k :| k in s.byVersion && s.byVersion[k].hash == Some(h);
        assert t.byVersion[k] == s.byVersion[k];
      }
    }
  }

  lemma SameIndexesSameKeys(s: State, t: State)
    requires SameKeys(s) && t.byVersion == s.byVersion && t.byHash == s.byHash
    ensures SameKeys(t)
  {
  }

  lemma GenerateKeepsSameKeys(s: State, status: Status, candidates: seq<Option<Key>>)
    requires Inv(s) && SameKeys(s) && AliasFree(DoGenerate(status, candidates))
    ensures SameKeys(Generate(s, status, candidates).0)
  {
    GenerateEffect(s, status, candidates);
    hide SameKeys, Generate, Inv, FirstFresh;
    var (t, n) := Generate(s, status, candidates);
    if n == 0 {
      SameIndexesSameKeys(s, t);
    } else {
      FirstFreshIsCandidate(s, candidates);
      var key := FirstFresh(s, candidates).value;
      NotIndexed(s, n);
      AddKeepsSameKeys(s, key, n);
      SameIndexesSameKeys(s.(byVersion := s.byVersion[n := key], byHash := s.byHash[key.hash.value := key]), t);
    }
  }

  lemma StatusKeepsIndexes(s: State, version: int)
    ensures Promote(s, version).0.byVersion == s.byVersion && Promote(s, version).0.byHash == s.byHash
    ensures Demote(s, version).0.byVersion == s.byVersion && Demote(s, version).0.byHash == s.byHash
  {
  }

  lemma StepKeepsSameKeys(s: State, op: Op)
    requires Inv(s) && SameKeys(s) && AliasFree(op)
    ensures SameKeys(Step(s, op))
  {
    match op {
      case DoSetEncrypted(encrypted) =>
        hide SameKeys, Inv;
        SameIndexesSameKeys(s, Step(s, op));
      case DoAddKey(key, version) =>
        hide Inv, SameKeys;
        if AddKey(s, key, version).1 {
          AddKeepsSameKeys(s, key, version);
          SameIndexesSameKeys(s.(byVersion := s.byVersion[version := key], byHash := s.byHash[key.hash.value := key]), Step(s, op));
        }
      case DoGenerate(status, candidates) =>
        hide SameKeys, Inv, Generate;
        GenerateKeepsSameKeys(s, status, candidates);
      case DoPromote(version) =>
        hide SameKeys, Inv, Promote;
        StatusKeepsIndexes(s, version);
        SameIndexesSameKeys(s, Step(s, op));
      case DoDemote(version) =>
        hide SameKeys, Inv, Demote;
        StatusKeepsIndexes(s, version);
        SameIndexesSameKeys(s, Step(s, op));
      case DoRevoke(version) =>
        hide Inv, SameKeys;
        if Revoke(s, version).1 {
          RemoveKeepsSameKeys(s, version);
          SameIndexesSameKeys(RemoveKey(s, version), Step(s, op));
        }
    }
  }

  /** As long as no key has an alias, looking keys up by hash and by version gives the same keys after any run. */
  lemma {:induction false} RunKeepsSameKeys(s: State, ops: seq<Op>)
    requires Inv(s) && SameKeys(s) && forall op :: op in ops ==> AliasFree(op)
    ensures SameKeys(Run(s, ops)) && Inv(Run(s, ops))
    decreases |ops|
  {
    hide Inv, SameKeys, Step, AliasFree;
    if ops != [] {
      var op := ops[0];
      assert op in ops;
      StepKeepsInv(s, op);
      StepKeepsSameKeys(s, op);
      RunKeepsSameKeys(Step(s, op), ops[1..]);
    }
  }

  // ---------------------------------------------------------------- aliases

  /** An indexed key is found under nothing but its hash and its alias. */
  ghost predicate OwnNames(s: State) {
    forall h :: h in s.byHash ==> s.byHash[h].hash == Some(h) || s.byHash[h].alias == Some(h)
  }

  lemma {:induction false} RunKeepsOwnNames(s: State, ops: seq<Op>)
    requires Inv(s) && OwnNames(s)
    ensures OwnNames(Run(s, ops))
    decreases |ops|
  {
    hide Inv, Step, OwnNames;
    if ops != [] {
      StepKeepsInv(s, ops[0]);
      StepKeepsOwnNames(s, ops[0]);
      RunKeepsOwnNames(Step(s, ops[0]), ops[1..]);
    }
  }

  lemma GenerateKeepsOwnNames(s: State, status: Status, candidates: seq<Option<Key>>)
    requires Inv(s) && OwnNames(s)
    ensures OwnNames(Generate(s, status, candidates).0)
  {
    GenerateEffect(s, status, candidates);
    hide Generate, FirstFresh, Inv;
  }

  lemma StepKeepsOwnNames(s: State, op: Op)
    requires Inv(s) && OwnNames(s)
    ensures OwnNames(Step(s, op))
  {
    match op {
      case DoGenerate(status, candidates) =>
        hide Generate, Inv, OwnNames;
        GenerateKeepsOwnNames(s, status, candidates);
      case DoPromote(version) =>
        hide Inv, Promote;
        StatusKeepsIndexes(s, version);
      case DoDemote(version) =>
        hide Inv, Demote;
        StatusKeepsIndexes(s, version);
      case _ =>
        hide Inv;
    }
  }

  /**
   A revoked key can still be looked up, and so still decrypts and verifies, exactly when it has an alias that
   differs from its hash and still leads to it.
   */
  lemma RevokedKeyStaysReachable(s: State, version: int)
    requires Inv(s) && OwnNames(s) && Revoke(s, version).1 && version in s.byVersion
    ensures var key := s.byVersion[version];
            var t := Revoke(s, version).0;
            (exists h :: h in t.byHash && t.byHash[h] == key) <==>
              key.alias.Some? && key.alias != key.hash && key.alias.value in s.byHash && s.byHash[key.alias.value] == key
  {
    var key := s.byVersion[version];
    var t := Revoke(s, version).0;
    assert t.byHash == s.byHash - {key.hash.value};
    if key.alias.Some? && key.alias != key.hash && key.alias.value in s.byHash && s.byHash[key.alias.value] == key {
      assert key.alias.value in t.byHash && t.byHash[key.alias.value] == key;
    }
  }

  /** So it happens: a key with an alias is added, retired and revoked, and is found again under the alias. */
  lemma RevokedKeyIsFound()
    ensures var m := MetadataInfo("", AES, DECRYPT_AND_ENCRYPT, false, 1, map[]);
            var key := Key(Some("h"), Some("a"), []);
            var s := Run(SetMetadata(EMPTY, Some(m)), [DoGenerate(INACTIVE, [Some(key)]), DoRevoke(1)]);
            s.byVersion == map[] && !HasVersion(s, 1) && "a" in s.byHash && s.byHash["a"] == key
  {
    var m := MetadataInfo("", AES, DECRYPT_AND_ENCRYPT, false, 1, map[]);
    var key := Key(Some("h"), Some("a"), []);
    var s0 := SetMetadata(EMPTY, Some(m));
    SetMetadataKeepsInv(m);
    var candidates := [Some(key)];
    assert FirstFresh(s0, candidates) == Some(key);
    GenerateAllOrNothing(s0, INACTIVE, candidates);
    var s1 := Generate(s0, INACTIVE, candidates).0;
    assert s1 == Step(s0, DoGenerate(INACTIVE, candidates));
    hide Generate;
    var ops := [DoGenerate(INACTIVE, candidates), DoRevoke(1)];
    assert ops[1..] == [DoRevoke(1)];
    var s2 := Step(s1, DoRevoke(1));
    assert Run(s1, [DoRevoke(1)]) == Run(s2, []);
    assert "a" != "h" by { assert "a"[0] != "h"[0]; }
    assert s1.byHash["a"] == key;
  }

  // ---------------------------------------------------------------- what is looked up stays

  /** The version has the same key, found under the same hash. */
  ghost predicate Serves(s: State, version: int, key: Key) {
    && HasVersion(s, version) && version in s.byVersion && s.byVersion[version] == key
    && key.hash.Some? && key.hash.value in s.byHash && s.byHash[key.hash.value] == key
  }

  /** An operation adds no version below the counter, and takes none away but by revoking it. */
  lemma StepKeepsVersion(s: State, op: Op, version: int)
    requires Inv(s) && s.metadata.Some?
    ensures HasVersion(Step(s, op), version) && !HasVersion(s, version) ==> version == Counter(s)
    ensures HasVersion(s, version) && op != DoRevoke(version) ==> HasVersion(Step(s, op), version)
  {
    if op.DoGenerate? {
      GenerateEffect(s, op.status, op.candidates);
      hide Generate, Inv, FirstFresh;
    } else {
      hide Generate, FirstFresh;
    }
  }

  /** A version that stays keeps its key. */
  lemma StepKeepsIndex(s: State, op: Op, version: int)
    requires Inv(s) && HasVersion(s, version) && version in s.byVersion && HasVersion(Step(s, op), version)
    ensures version in Step(s, op).byVersion && Step(s, op).byVersion[version] == s.byVersion[version]
  {
    match op {
      case DoGenerate(status, candidates) =>
        GenerateEffect(s, status, candidates);
        hide Inv, Generate, FirstFresh;
      case DoRevoke(v) =>
        hide Inv;
      case DoAddKey(key, v) =>
        hide Inv;
      case _ =>
        hide Inv, Generate, Revoke, AddKey;
    }
  }

  /** The version has the key, found under its hash or not. */
  ghost predicate Keeps(s: State, version: int, key: Key) {
    HasVersion(s, version) && version in s.byVersion && s.byVersion[version] == key && key.hash.Some?
  }

  /** The operation adds a key whose alias is the hash; it is written over what the hash leads to without a check. */
  predicate Misleads(s: State, op: Op, hash: string) {
    match op
    case DoAddKey(key, version) => AddKey(s, key, version).1 && key.alias == Some(hash)
    case DoGenerate(status, candidates) =>
      var key := FirstFresh(s, candidates);
      Generate(s, status, candidates).1 != 0 && key.Some? && key.value.alias == Some(hash)
    case _ => false
  }

  /** Some operation of the run does. */
  predicate Misled(s: State, ops: seq<Op>, hash: string)
    decreases |ops|
  {
    ops != [] && (Misleads(s, ops[0], hash) || Misled(Step(s, ops[0]), ops[1..], hash))
  }

  lemma KeptIsIndexed(s: State, version: int, key: Key)
    requires Inv(s) && Keeps(s, version, key)
    ensures key.hash.value in s.byHash && (Serves(s, version, key) <==> s.byHash[key.hash.value] == key)
  {
  }

  /** Adding a key leaves what a hash leads to as it is, unless the hash is the alias of that key. */
  lemma AddedUnderOthers(s: State, t: State, added: Key, hash: string)
    requires added.hash.Some? && added.hash.value !in s.byHash && hash in s.byHash
    requires t.byHash == (var byHash := s.byHash[added.hash.value := added];
                          if added.alias.Some? then byHash[added.alias.value := added] else byHash)
    ensures hash in t.byHash && t.byHash[hash] == if added.alias == Some(hash) then added else s.byHash[hash]
  {
  }

  lemma GenerateKeepsHash(s: State, status: Status, candidates: seq<Option<Key>>, hash: string)
    requires Inv(s) && hash in s.byHash
    ensures var t := Generate(s, status, candidates).0;
            hash in t.byHash
            && t.byHash[hash] == if Misleads(s, DoGenerate(status, candidates), hash) then FirstFresh(s, candidates).value else s.byHash[hash]
  {
    GenerateEffect(s, status, candidates);
    hide Inv, Generate, FirstFresh;
    var t := Generate(s, status, candidates).0;
    if s.metadata.Some? && FirstFresh(s, candidates).Some? && s.metadata.value.next !in s.metadata.value.versions {
      AddedUnderOthers(s, t, FirstFresh(s, candidates).value, hash);
    }
  }

  /** What an operation does to a key that its version keeps. */
  lemma StepKeepsKey(s: State, op: Op, version: int, key: Key)
    requires Inv(s) && Keeps(s, version, key) && HasVersion(Step(s, op), version)
    ensures Keeps(Step(s, op), version, key)
    ensures Serves(Step(s, op), version, key) <==> Serves(s, version, key) && !Misleads(s, op, key.hash.value)
  {
    StepKeepsInv(s, op);
    StepKeepsIndex(s, op, version);
    KeptIsIndexed(s, version, key);
    var h := key.hash.value;
    match op {
      case DoGenerate(status, candidates) =>
        GenerateKeepsHash(s, status, candidates, h);
        KeptIsIndexed(Step(s, op), version, key);
        hide Inv, Generate;
      case DoRevoke(v) =>
        RevokeKeepsOtherHash(s, v, version);
        hide Inv, Revoke;
      case DoAddKey(added, v) =>
        if AddKey(s, added, v).1 {
          AddedUnderOthers(s, Step(s, op), added, h);
        }
        hide Inv;
      case _ =>
        hide Inv, Generate, Revoke, AddKey;
    }
  }

  lemma RevokeKeepsOtherHash(s: State, v: int, version: int)
    requires Inv(s) && version in s.byVersion && (v != version || !Revoke(s, v).1)
    ensures var h := s.byVersion[version].hash.value;
            h in s.byHash && h in Revoke(s, v).0.byHash && Revoke(s, v).0.byHash[h] == s.byHash[h]
  {
  }

  /** A version below the counter that is gone never comes back. */
  lemma {:induction false} GoneStaysGone(s: State, ops: seq<Op>, version: int)
    requires Inv(s) && s.metadata.Some? && version < Counter(s) && !HasVersion(s, version)
    ensures !HasVersion(Run(s, ops), version)
    decreases |ops|
  {
    hide Inv, Step, HasVersion;
    if ops != [] {
      StepKeepsCounter(s, ops[0]);
      StepKeepsVersion(s, ops[0], version);
      GoneStaysGone(Step(s, ops[0]), ops[1..], version);
    }
  }

  /** Nothing but revoking a version takes it away. */
  lemma {:induction false} OnlyRevokingRemoves(s: State, ops: seq<Op>, version: int)
    requires Inv(s) && HasVersion(s, version) && DoRevoke(version) !in ops
    ensures HasVersion(Run(s, ops), version)
    decreases |ops|
  {
    if ops != [] {
      assert s.metadata.Some?;
      hide Inv, Step, HasVersion;
      var op := ops[0];
      assert op in ops;
      StepKeepsInv(s, op);
      StepKeepsVersion(s, op, version);
      OnlyRevokingRemoves(Step(s, op), ops[1..], version);
    }
  }

  lemma {:induction false} KeptIsServed(s: State, ops: seq<Op>, version: int, key: Key)
    requires Inv(s) && Keeps(s, version, key)
    requires HasVersion(Run(s, ops), version) && (version < Counter(s) || DoRevoke(version) !in ops)
    ensures Serves(Run(s, ops), version, key) <==> Serves(s, version, key) && !Misled(s, ops, key.hash.value)
    ensures Keeps(Run(s, ops), version, key)
    decreases |ops|
  {
    if ops != [] {
      var op := ops[0];
      assert op in ops && s.metadata.Some? && HasVersion(s, version);
      hide Inv, Step, HasVersion, Serves, Keeps, Misleads;
      StepKeepsCounter(s, op);
      StepKeepsVersion(s, op, version);
      if !HasVersion(Step(s, op), version) {
        GoneStaysGone(Step(s, op), ops[1..], version);
      } else {
        StepKeepsKey(s, op, version, key);
        KeptIsServed(Step(s, op), ops[1..], version, key);
      }
    }
  }

  /**
   Rotation keeps old outputs readable: a version that exists at the end of a run has the key it had at the start,
   and looking that key up by its hash finds it, whatever was added, promoted, demoted or revoked meanwhile, exactly
   when no key was added whose alias is that hash. Only a version that a counter read from a file has yet to reach
   may have been revoked and made anew.
   */
  lemma KeysSurviveRotation(s: State, ops: seq<Op>, version: int, key: Key)
    requires Inv(s) && Serves(s, version, key)
    requires HasVersion(Run(s, ops), version) && (version < Counter(s) || DoRevoke(version) !in ops)
    ensures version in Run(s, ops).byVersion && Run(s, ops).byVersion[version] == key
    ensures Serves(Run(s, ops), version, key) <==> !Misled(s, ops, key.hash.value)
  {
    KeptIsServed(s, ops, version, key);
    hide Inv, Run, Misled;
  }

  /** So it happens: the alias of a second key is the hash of the first, which then leads to the second. */
  lemma AliasMisleads()
    ensures var m := MetadataInfo("", AES, DECRYPT_AND_ENCRYPT, false, 1, map[]);
            var key, other := Key(Some("h"), None, []), Key(Some("g"), Some("h"), []);
            var s := Run(SetMetadata(EMPTY, Some(m)), [DoGenerate(ACTIVE, [Some(key)]), DoGenerate(ACTIVE, [Some(other)])]);
            HasVersion(s, 1) && 1 in s.byVersion && s.byVersion[1] == key && "h" in s.byHash && s.byHash["h"] == other
  {
    var m := MetadataInfo("", AES, DECRYPT_AND_ENCRYPT, false, 1, map[]);
    var key, other := Key(Some("h"), None, []), Key(Some("g"), Some("h"), []);
    var s0 := SetMetadata(EMPTY, Some(m));
    SetMetadataKeepsInv(m);
    assert FirstFresh(s0, [Some(key)]) == Some(key);
    GenerateAllOrNothing(s0, ACTIVE, [Some(key)]);
    var s1 := Generate(s0, ACTIVE, [Some(key)]).0;
    assert "g" != "h" by { assert "g"[0] != "h"[0]; }
    assert FirstFresh(s1, [Some(other)]) == Some(other);
    GenerateAllOrNothing(s1, ACTIVE, [Some(other)]);
    hide Generate, FirstFresh, Inv;
    var s2 := Generate(s1, ACTIVE, [Some(other)]).0;
    var second := DoGenerate(ACTIVE, [Some(other)]);
    assert s2 == Step(s1, second) && s1 == Step(s0, DoGenerate(ACTIVE, [Some(key)]));
    assert [DoGenerate(ACTIVE, [Some(key)]), second][1..] == [second] && [second][1..] == [];
    assert Run(s2, []) == s2 && Run(s1, [second]) == s2;
  }

  // ---------------------------------------------------------------- versions that come back

  /** Some hash that no key is found under. */
  lemma {:induction false} NewHash(taken: set<string>) returns (hash: string)
    ensures hash !in taken && forall h :: h in taken ==> |h| < |hash|
    decreases |taken|
  {
    if taken == {} {
      return "";
    }
    assert (forall h :: h !in taken) ==> taken == {};
    var h :| h in taken;
    var longer := NewHash(taken - {h});
    hash := longer + h + "x";
    forall k | k in taken ensures |k| < |hash| {
      assert k == h || k in taken - {h};
    }
  }

  /** Generations move the counter up to a number that no version has, which one more then assigns. */
  lemma {:induction false} CounterReaches(s: State, version: int) returns (ops: seq<Op>)
    requires Inv(s) && s.metadata.Some? && version >= Counter(s) && !HasVersion(s, version)
    ensures HasVersion(Run(s, ops), version)
    decreases version - Counter(s)
  {
    var hash := NewHash(s.byHash.Keys);
    var key := Key(Some(hash), None, []);
    var op := DoGenerate(INACTIVE, [Some(key)]);
    assert FirstFresh(s, [Some(key)]) == Some(key);
    GenerateEffect(s, INACTIVE, [Some(key)]);
    var t := Step(s, op);
    hide Inv, Generate, FirstFresh;
    if version == Counter(s) {
      assert HasVersion(t, version);
      ops := [op];
      assert Run(t, []) == t && ops[1..] == [];
    } else {
      assert Counter(t) == Counter(s) + 1 && !HasVersion(t, version);
      var more := CounterReaches(t, version);
      ops := [op] + more;
      assert ops[1..] == more;
    }
  }

  /** A version that does not exist can come to exist again exactly when the counter has not passed it. */
  lemma ComesBackUnlessPassed(s: State, version: int)
    requires Inv(s) && s.metadata.Some? && !HasVersion(s, version)
    ensures (exists ops :: HasVersion(Run(s, ops), version)) <==> version >= Counter(s)
  {
    if version >= Counter(s) {
      var ops := CounterReaches(s, version);
    } else {
      forall ops ensures !HasVersion(Run(s, ops), version) {
        GoneStaysGone(s, ops, version);
      }
    }
  }

  /** A counter that names an existing version, as a file may contain; the version has a key. */
  function TooLow(status: Status, key: Key): State {
    var m := MetadataInfo("", AES, DECRYPT_AND_ENCRYPT, false, 1, map[1 := VersionInfo(1, status, false)]);
    State(Some(m), if status.PRIMARY? then 1 else 0, map[1 := key], if key.hash.Some? then map[key.hash.value := key] else map[], [])
  }

  lemma TooLowIsConsistent(status: Status, key: Key)
    requires key.hash.Some? && key.alias.None?
    ensures Inv(TooLow(status, key)) && SameKeys(TooLow(status, key)) && Serves(TooLow(status, key), 1, key)
  {
    assert TooLow(status, key).byVersion[1] == key;
  }

  /** So it happens: the version is revoked and made anew with another key. */
  lemma VersionComesBack(key: Key, other: Key)
    requires key.hash.Some? && other.hash.Some? && key.alias.None? && other.alias.None? && other.hash != key.hash
    ensures var s := TooLow(INACTIVE, key);
            var t := Run(s, [DoRevoke(1), DoGenerate(INACTIVE, [Some(other)])]);
            Serves(s, 1, key) && HasVersion(t, 1) && 1 in t.byVersion && t.byVersion[1] == other
  {
    var s := TooLow(INACTIVE, key);
    TooLowIsConsistent(INACTIVE, key);
    var generate := DoGenerate(INACTIVE, [Some(other)]);
    var ops := [DoRevoke(1), generate];
    assert ops[1..] == [generate] && [generate][1..] == [];
    var s1 := Step(s, DoRevoke(1));
    RevokeKeepsInv(s, 1);
    assert s1.metadata.value.versions == map[] && Counter(s1) == 1;
    assert FirstFresh(s1, [Some(other)]) == Some(other);
    GenerateEffect(s1, INACTIVE, [Some(other)]);
    var t := Step(s1, generate);
    hide Generate, FirstFresh, Revoke;
    assert Run(t, []) == t && Run(s1, [generate]) == t;
  }
}
