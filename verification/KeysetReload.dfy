/** Runs in which the keyset is written out and read back between operations. */
module KeysetReload {
  import opened Prelude
  import opened JsonGrammar
  import opened Metadata
  import opened KeysetModel
  import opened KeysetRuns
  import opened KeysetMirror
  import opened KeysetRead

  /** What identifies a keyset that holds the key of every version. */
  ghost predicate Complete(s: State) {
    && s.metadata.Some? && s.byVersion.Keys == s.metadata.value.versions.Keys
    && forall n :: n in s.byVersion ==> s.byVersion[n].alias.None?
  }

  lemma InvAtMostOnePrimary(s: State)
    requires Inv(s) && s.metadata.Some?
    ensures AtMostOnePrimary(s.metadata.value)
  {
  }

  lemma KeysAreLoadable(s: State, numbers: seq<int>)
    requires Inv(s) && Complete(s) && Increasing(numbers) && forall n :: n in numbers ==> n in s.byVersion
    ensures Loadable(s.byVersion, numbers)
  {
    forall i, j | 0 <= i < j < |numbers|
      ensures numbers[i] in s.byVersion && numbers[j] in s.byVersion
      ensures s.byVersion[numbers[j]].hash != s.byVersion[numbers[i]].hash
      ensures s.byVersion[numbers[j]].hash != s.byVersion[numbers[i]].alias
    {
      var n, k := numbers[i], numbers[j];
      assert n in numbers && k in numbers && n < k;
    }
  }

  /** When both hold the same keys, the version index determines the hash index. */
  lemma SameHashIndex(s: State, t: State)
    requires SameKeys(s) && SameKeys(t) && t.byVersion == s.byVersion
    ensures t.byHash == s.byHash
  {
    forall h | h in t.byHash ensures h in s.byHash && s.byHash[h] == t.byHash[h] {
      var n :| n in t.byVersion && t.byVersion[n].hash == Some(h);
    }
    forall h | h in s.byHash ensures h in t.byHash {
      var n :| n in s.byVersion && s.byVersion[n].hash == Some(h);
    }
  }

  lemma {:induction false} ReadVersionsKeepsSameKeys(s: State, numbers: seq<int>, keys: map<int, Key>)
    requires forall n :: n in numbers ==> HasVersion(s, n)
    requires SameKeys(s) && OwnNames(s) && (forall n :: n in numbers && n in keys ==> keys[n].alias.None?)
    requires ReadVersions(s, numbers, keys, true).Some?
    ensures var t := ReadVersions(s, numbers, keys, true).value; SameKeys(t) && OwnNames(t)
    decreases |numbers|
  {
    hide SameKeys;
    if numbers != [] {
      var n, rest := numbers[0], numbers[1..];
      assert n in numbers && forall k :: k in rest ==> k in numbers && HasVersion(s, k);
      var t := TakeIn(s, n, keys, true).0;
      AddKeepsSameKeys(s, keys[n], n);
      SameIndexesSameKeys(s.(byVersion := s.byVersion[n := keys[n]], byHash := s.byHash[keys[n].hash.value := keys[n]]), t);
      SameIndexesSameKeys(t, t.(primary := n));
      ReadVersionsKeepsSameKeys(if StatusOf(t, n).PRIMARY? then t.(primary := n) else t, rest, keys);
    }
  }

  lemma InvPrimaryIsUnique(s: State, t: State)
    requires Inv(s) && Inv(t) && s.metadata == t.metadata
    ensures s.primary == t.primary
  {
    if s.metadata.Some? {
      var versions := s.metadata.value.versions;
      assert t.primary in versions ==> (versions[t.primary].status.PRIMARY? <==> t.primary == s.primary);
      assert s.primary in versions ==> (versions[s.primary].status.PRIMARY? <==> s.primary == t.primary);
    }
  }

  lemma StartHasSameKeys(m: MetadataInfo)
    ensures SameKeys(SetMetadata(EMPTY, Some(m))) && OwnNames(SetMetadata(EMPTY, Some(m)))
  {
  }

  lemma NoKeysAreSameKeys(s: State)
    requires s.byVersion == map[] && s.byHash == map[]
    ensures SameKeys(s)
  {
  }

  /** A keyset that was just read has the same keys in both indexes, when none of them has an alias. */
  lemma ReadHasSameKeys(v: Value, keys: map<int, Key>, loadKeys: bool)
    requires ReadKeyset(v, keys, loadKeys).Some?
    requires forall n :: n in FromValue(v).value.versions && n in keys ==> keys[n].alias.None?
    ensures SameKeys(ReadKeyset(v, keys, loadKeys).value)
  {
    ReadOutcome(v, keys, loadKeys);
    var m := FromValue(v).value;
    var s := ReadKeyset(v, keys, loadKeys).value;
    if loadKeys {
      StartHasSameKeys(m);
      hide FromValue, Inv, SameKeys, Loadable, AtMostOnePrimary, Increasing, OwnNames, ReadVersions;
      ReadVersionsKeepsSameKeys(SetMetadata(EMPTY, Some(m)), Ascending(m.versions.Keys), keys);
      SameIndexesSameKeys(ReadAll(m, keys, true).value, s);
    } else {
      NoKeysAreSameKeys(s);
    }
  }

  lemma SameKeyMaps(s: State, t: State)
    requires s.metadata.Some? && s.byVersion.Keys == s.metadata.value.versions.Keys == t.byVersion.Keys
    requires forall n :: n in t.byVersion ==> n in s.byVersion && t.byVersion[n] == s.byVersion[n]
    ensures t.byVersion == s.byVersion
  {
    assert forall n :: n in t.byVersion.Keys <==> n in s.byVersion.Keys;
    assert forall n :: n in s.byVersion ==> n in t.byVersion && t.byVersion[n] == s.byVersion[n];
  }

  lemma ReadAllRestores(s: State)
    requires Inv(s) && SameKeys(s) && Complete(s)
    ensures var r := ReadAll(s.metadata.value, s.byVersion, true);
            r.Some? && r.value.(log := []) == s.(log := [])
  {
    var m := s.metadata.value;
    var numbers := Ascending(m.versions.Keys);
    InvAtMostOnePrimary(s);
    KeysAreLoadable(s, numbers);
    assert ValidMetadata(m);
    StartHasSameKeys(m);
    hide Inv, SameKeys, Loadable, AtMostOnePrimary, Ascending, Increasing, Fresh, OwnNames, ReadVersions, ValidMetadata;
    ReadAllOutcome(m, s.byVersion, true);
    var t := ReadAll(m, s.byVersion, true).value;
    ReadVersionsKeepsSameKeys(SetMetadata(EMPTY, Some(m)), numbers, s.byVersion);
    SameKeyMaps(s, t);
    SameHashIndex(s, t);
    InvPrimaryIsUnique(s, t.(log := []));
  }

  /** A keyset of alias-free keys, written with its counter and read back, is the same keyset. */
  lemma ReloadRestores(s: State)
    requires Inv(s) && SameKeys(s) && Complete(s)
    ensures ReadKeyset(ToValue(s.metadata.value, false), s.byVersion, true) == Some(s.(log := []))
  {
    assert s.metadata.Some?;
    hide ToValue, FromValue, ReadAll, SameKeys, Complete;
    ReadAllRestores(s);
    FromValueInvertsToValue(s.metadata.value, false);
  }

  /** Read back for its metadata only, it is the same keyset without keys. */
  lemma MetadataOnlyRestores(s: State)
    requires Inv(s) && s.metadata.Some?
    ensures ReadKeyset(ToValue(s.metadata.value, false), map[], false) == Some(State(s.metadata, s.primary, map[], map[], []))
  {
    hide ToValue, FromValue, ReadAll;
    var m := s.metadata.value;
    FromValueInvertsToValue(m, false);
    InvAtMostOnePrimary(s);
    ReadOutcome(ToValue(m, false), map[], false);
    InvPrimaryIsUnique(s, ReadKeyset(ToValue(m, false), map[], false).value);
  }

  // ---------------------------------------------------------------- a counter that is too low

  /** A counter that names an existing version is read without complaint. */
  lemma TooLowIsRead(status: Status, key: Key)
    requires key.hash.Some? && key.alias.None?
    ensures ReadKeyset(ToValue(TooLow(status, key).metadata.value, false), map[1 := key], true) == Some(TooLow(status, key))
  {
    var s := TooLow(status, key);
    TooLowIsConsistent(status, key);
    assert s.byVersion.Keys == s.metadata.value.versions.Keys;
    hide ToValue, ReadKeyset, Inv, SameKeys;
    ReloadRestores(s);
  }

  lemma OneCandidate(s: State, key: Key)
    requires key.hash.Some? && key.hash.value !in s.byHash
    ensures FirstFresh(s, [Some(key)]) == Some(key)
  {
  }

  lemma LogIsNotInspected(s: State, log: seq<Event>)
    requires Inv(s)
    ensures Inv(s.(log := log))
  {
  }

  /** Generating a primary key from such a keyset, whatever observers were told before. */
  lemma TooLowGenerates(key: Key, other: Key, log: seq<Event>)
    requires key.hash.Some? && key.alias.None? && other.hash.Some? && other.hash != key.hash
    ensures var s := TooLow(PRIMARY, key).(log := log);
            var (t, n) := Generate(s, PRIMARY, [Some(other)]);
            n == 0 && Inv(s) && FirstFresh(s, [Some(other)]).Some? && HalfDone(s, t, PRIMARY)
  {
    hide Generate, FirstFresh, Inv, HalfDone, SameKeys, Serves;
    var s := TooLow(PRIMARY, key).(log := log);
    TooLowIsConsistent(PRIMARY, key);
    LogIsNotInspected(TooLow(PRIMARY, key), log);
    OneCandidate(s, other);
    GenerateEffect(s, PRIMARY, [Some(other)]);
  }

  lemma TooLowHalfDone(key: Key, t: State)
    requires HalfDone(TooLow(PRIMARY, key), t, PRIMARY)
    ensures t.primary == 0
    ensures t.metadata == Some(TooLow(PRIMARY, key).metadata.value.(next := 2, versions := map[1 := VersionInfo(1, ACTIVE, false)]))
  {
    assert Demoted(map[1 := VersionInfo(1, PRIMARY, false)], 1) == map[1 := VersionInfo(1, ACTIVE, false)];
  }

  /**
   So it happens: from a keyset that was read, generating a primary key fails, yet the former primary version is
   retired and the counter has moved; an observer that knew the keyset does not know it any more.
   */
  lemma GenerationFailsHalfway(key: Key, other: Key, log: seq<Event>)
    requires key.hash.Some? && key.alias.None? && other.hash.Some? && other.hash != key.hash
    ensures var s := TooLow(PRIMARY, key);
            var (t, n) := Generate(s, PRIMARY, [Some(other)]);
            && ReadKeyset(ToValue(s.metadata.value, false), map[1 := key], true) == Some(s) && s.primary == 1
            && n == 0 && t.primary == 0
            && t.metadata == Some(s.metadata.value.(next := 2, versions := map[1 := VersionInfo(1, ACTIVE, false)]))
            && (Mirrors(s.(log := log)) ==> !Mirrors(Generate(s.(log := log), PRIMARY, [Some(other)]).0))
  {
    hide ToValue, ReadKeyset, Inv, Generate, FirstFresh, Mirrors, HalfDone;
    var s := TooLow(PRIMARY, key);
    TooLowIsRead(PRIMARY, key);
    assert s == s.(log := []);
    TooLowGenerates(key, other, []);
    TooLowHalfDone(key, Generate(s, PRIMARY, [Some(other)]).0);
    TooLowGenerates(key, other, log);
    if Mirrors(s.(log := log)) {
      MirrorFailsOnlyOnTakenNumber(s.(log := log), PRIMARY, [Some(other)]);
    }
  }

  // ---------------------------------------------------------------- numbers over runs with reloads

  /** An operation, or writing the metadata with its counter and reading it back with some keys. */
  datatype Act =
    | Do(op: Op)
    | Reload(keys: map<int, Key>, loadKeys: bool)

  function ActStep(s: State, act: Act): State {
    match act
    case Do(op) => Step(s, op)
    case Reload(keys, loadKeys) =>
      if s.metadata.None? then s
      else match ReadKeyset(ToValue(s.metadata.value, false), keys, loadKeys)
           case Some(t) => t
           case None => s
  }

  /** The number that an act assigns, 0 for none. */
  function Assigned(s: State, act: Act): int {
    if act.Do? && act.op.DoGenerate? then Generate(s, act.op.status, act.op.candidates).1 else 0
  }

  /** The version numbers that are assigned along a run. */
  function Numbers(s: State, acts: seq<Act>): seq<int>
    decreases |acts|
  {
    if acts == [] then []
    else
      var rest := Numbers(ActStep(s, acts[0]), acts[1..]);
      if Assigned(s, acts[0]) == 0 then rest else [Assigned(s, acts[0])] + rest
  }

  lemma ReloadKeepsMetadata(s: State, keys: map<int, Key>, loadKeys: bool)
    requires Inv(s)
    ensures var t := ActStep(s, Reload(keys, loadKeys)); Inv(t) && t.metadata == s.metadata
  {
    hide ToValue, FromValue, ReadKeyset, Loadable, AtMostOnePrimary;
    if s.metadata.Some? {
      assert ValidMetadata(s.metadata.value);
      FromValueInvertsToValue(s.metadata.value, false);
      ReadOutcome(ToValue(s.metadata.value, false), keys, loadKeys);
    }
  }

  lemma ActKeepsInv(s: State, act: Act)
    requires Inv(s)
    ensures Inv(ActStep(s, act)) && (Fresh(s) ==> Fresh(ActStep(s, act)))
    ensures Counter(s) <= Counter(ActStep(s, act))
    ensures Assigned(s, act) != 0 ==>
              Assigned(s, act) == Counter(s) && Counter(ActStep(s, act)) == Counter(s) + 1 && !HasVersion(s, Counter(s))
  {
    match act {
      case Do(op) =>
        StepKeepsCounter(s, op);
        if Fresh(s) {
          StepKeepsFresh(s, op);
        }
        if op.DoGenerate? {
          GenerateEffect(s, op.status, op.candidates);
        }
        hide Generate, Step, FirstFresh, Inv;
      case Reload(keys, loadKeys) =>
        ReloadKeepsMetadata(s, keys, loadKeys);
        hide ReadKeyset, Inv;
    }
  }

  lemma FreshHasNone(s: State, n: int)
    requires Fresh(s) && n >= Counter(s)
    ensures !HasVersion(s, n)
  {
  }

  /**
   Over any run that mixes operations, revocations and reloads, no version number is assigned twice: the numbers
   increase from the counter on. With a counter above all versions none of them was in use before the run.
   */
  lemma {:induction false} NumbersAreNew(s: State, acts: seq<Act>)
    requires Inv(s)
    ensures Increasing(Numbers(s, acts))
    ensures forall n :: n in Numbers(s, acts) ==> n >= Counter(s) && (Fresh(s) ==> !HasVersion(s, n))
    decreases |acts|
  {
    hide Inv, ActStep, Assigned, Increasing, HasVersion, Fresh, Counter;
    if acts == [] {
      NoneIncrease();
    } else {
      ActKeepsInv(s, acts[0]);
      var t := ActStep(s, acts[0]);
      NumbersAreNew(t, acts[1..]);
      if Assigned(s, acts[0]) != 0 {
        IncreasingCons(Assigned(s, acts[0]), Numbers(t, acts[1..]));
      }
      forall n | n in Numbers(s, acts) ensures n >= Counter(s) && (Fresh(s) ==> !HasVersion(s, n)) {
        if Fresh(s) {
          FreshHasNone(s, n);
        }
      }
    }
  }

  lemma NoneIncrease()
    ensures Increasing([])
  {
  }

  // ---------------------------------------------------------------- reloads that lose the counter

  lemma {:induction false} LastIsGreatest(numbers: seq<int>, n: int)
    requires Increasing(numbers) && n in numbers
    ensures n <= numbers[|numbers| - 1]
  {
    var i :| 0 <= i < |numbers| && numbers[i] == n;
  }

  /**
   Read back from a form without the counter, a keyset may assign an old number again: the counter does not
   move back exactly when nothing was ever assigned or the version assigned last still exists.
   */
  lemma CounterWithoutIt(m: MetadataInfo)
    requires ValidMetadata(m) && CounterIsFresh(m)
    ensures var t := FromValue(ToValue(m, true));
            && t.Some? && t.value.next <= m.next
            && (t.value.next == m.next <==> m.next == 1 || m.next - 1 in m.versions)
  {
    hide FromValue, ToValue;
    FromValueInvertsToValue(m, true);
    var numbers := Ascending(m.versions.Keys);
    assert m.next - 1 in numbers <==> m.next - 1 in m.versions;
    if numbers != [] {
      var last := numbers[|numbers| - 1];
      assert last in numbers;
      if m.next - 1 in m.versions {
        LastIsGreatest(numbers, m.next - 1);
      }
    }
  }

  /** A fresh keyset in which one version is generated and revoked. */
  function UsedOnce(key: Key): (State, int) {
    var (s, n) := Generate(SetMetadata(EMPTY, Some(MetadataInfo("", RSA_PRIV, SIGN_AND_VERIFY, false, 1, map[]))), INACTIVE, [Some(key)]);
    (Revoke(s, n).0, n)
  }

  lemma FirstNumberIsOne(m: MetadataInfo, key: Key)
    requires m.next == 1 && m.versions == map[] && key.hash.Some?
    ensures var s := SetMetadata(EMPTY, Some(m));
            var (t, n) := Generate(s, INACTIVE, [Some(key)]);
            n == 1 && Generated(s, t, INACTIVE, key, 1) && Inv(t)
  {
    var s := SetMetadata(EMPTY, Some(m));
    SetMetadataKeepsInv(m);
    assert FirstFresh(s, [Some(key)]) == Some(key);
    hide Generate, FirstFresh;
    GenerateAllOrNothing(s, INACTIVE, [Some(key)]);
  }

  lemma UsedOnceIsEmpty(key: Key)
    requires key.hash.Some?
    ensures var (s, n) := UsedOnce(key);
            n == 1 && s.metadata == Some(MetadataInfo("", RSA_PRIV, SIGN_AND_VERIFY, false, 2, map[]))
  {
    var m := MetadataInfo("", RSA_PRIV, SIGN_AND_VERIFY, false, 1, map[]);
    FirstNumberIsOne(m, key);
    hide Generate;
    var t := Generate(SetMetadata(EMPTY, Some(m)), INACTIVE, [Some(key)]).0;
    assert t.metadata.value.versions == map[1 := VersionInfo(1, INACTIVE, false)];
  }

  /**
   So it happens with a keyset whose metadata has no counter, as the COMPAT_KEYCZAR_06B build writes it and releases
   before it did: version 1 is generated and revoked, the form without the counter is read back, and 1 is assigned
   again.
   */
  lemma NumberIsAssignedAgain(key: Key, other: Key)
    requires key.hash.Some? && other.hash.Some?
    ensures var (s, n) := UsedOnce(key);
            && n == 1 && s.metadata.Some?
            && var back := FromValue(ToValue(s.metadata.value, true));
               back.Some? && Generate(SetMetadata(EMPTY, back), INACTIVE, [Some(other)]).1 == 1
  {
    UsedOnceIsEmpty(key);
    hide UsedOnce, FromValue, ToValue, Generate;
    var m := UsedOnce(key).0.metadata.value;
    FromValueInvertsToValue(m, true);
    assert Ascending({}) == [];
    assert m.versions.Keys == {};
    var back := FromValue(ToValue(m, true)).value;
    assert back.next == 1;
    FirstNumberIsOne(back, other);
  }

  // ---------------------------------------------------------------- public exports

  /** Keys of the other types are never generated or imported, only exported from private ones. */
  predicate MakesKeys(t: KeyType) {
    !t.DSA_PUB? && !t.ECDSA_PUB? && !t.RSA_PUB?
  }

  /** The metadata that PublicKeyExport writes, always without the counter. */
  function ExportedMetadata(m: MetadataInfo): Option<MetadataInfo> {
    match (m.keyType, m.purpose)
    case (DSA_PRIV, SIGN_AND_VERIFY) => Some(m.(keyType := DSA_PUB, purpose := VERIFY, encrypted := false))
    case (ECDSA_PRIV, SIGN_AND_VERIFY) => Some(m.(keyType := ECDSA_PUB, purpose := VERIFY, encrypted := false))
    case (RSA_PRIV, SIGN_AND_VERIFY) => Some(m.(keyType := RSA_PUB, purpose := VERIFY, encrypted := false))
    case (RSA_PRIV, DECRYPT_AND_ENCRYPT) => Some(m.(keyType := RSA_PUB, purpose := ENCRYPT, encrypted := false))
    case _ => None
  }

  /** Where no keys are made every generation and import fails. */
  predicate Possible(s: State, act: Act) {
    s.metadata.Some? && !MakesKeys(s.metadata.value.keyType) && act.Do? && act.op.DoGenerate? ==>
      forall c :: c in act.op.candidates ==> c.None?
  }

  predicate PossibleRun(s: State, acts: seq<Act>)
    decreases |acts|
  {
    acts == [] || (Possible(s, acts[0]) && PossibleRun(ActStep(s, acts[0]), acts[1..]))
  }

  lemma FailedCandidates(s: State, status: Status, candidates: seq<Option<Key>>)
    requires forall c :: c in candidates ==> c.None?
    ensures Generate(s, status, candidates) == (s, 0)
  {
    assert candidates != [] ==> candidates[0] in candidates;
  }

  lemma StatusKeepsType(s: State, version: int, status: Status)
    requires HasVersion(s, version)
    ensures var t := UpdateStatus(s, version, status).0;
            t.metadata.Some? && t.metadata.value.keyType == s.metadata.value.keyType
  {
  }

  /** No operation changes the type of the keys. */
  lemma StepKeepsType(s: State, op: Op)
    requires s.metadata.Some? && !op.DoGenerate?
    ensures Step(s, op).metadata.Some? && Step(s, op).metadata.value.keyType == s.metadata.value.keyType
  {
    hide UpdateStatus, Generate, RemoveKey;
    match op
    case DoPromote(n) =>
      if HasVersion(s, n) {
        StatusKeepsType(s, n, PRIMARY);
        StatusKeepsType(s, n, ACTIVE);
      }
    case DoDemote(n) =>
      if HasVersion(s, n) {
        StatusKeepsType(s, n, ACTIVE);
        StatusKeepsType(s, n, INACTIVE);
      }
    case DoRevoke(n) => RemovingKeepsMetadata(NotifyMetadata(s.(metadata := Some(s.metadata.value.(versions := s.metadata.value.versions - {n})))), n);
    case _ =>
  }

  lemma RemovingKeepsMetadata(s: State, n: int)
    ensures RemoveKey(s, n).metadata == s.metadata
  {
  }

  /** An act on a keyset of a public type assigns no number, and leaves it one of the same type. */
  lemma PublicAct(s: State, act: Act)
    requires Inv(s) && s.metadata.Some? && !MakesKeys(s.metadata.value.keyType) && Possible(s, act)
    ensures Assigned(s, act) == 0
    ensures var t := ActStep(s, act); t.metadata.Some? && t.metadata.value.keyType == s.metadata.value.keyType
  {
    match act {
      case Do(op) =>
        if op.DoGenerate? {
          FailedCandidates(s, op.status, op.candidates);
          hide Generate, Inv;
        } else {
          hide Generate, Inv, Step;
          StepKeepsType(s, op);
        }
      case Reload(keys, loadKeys) =>
        ReloadKeepsMetadata(s, keys, loadKeys);
        hide ReadKeyset, Inv;
    }
  }

  lemma {:induction false} PublicAssignsNothing(s: State, acts: seq<Act>)
    requires Inv(s) && s.metadata.Some? && !MakesKeys(s.metadata.value.keyType) && PossibleRun(s, acts)
    ensures Numbers(s, acts) == []
    decreases |acts|
  {
    hide Inv, ActStep, Assigned, Possible, MakesKeys;
    if acts != [] {
      PublicAct(s, acts[0]);
      ActKeepsInv(s, acts[0]);
      PublicAssignsNothing(ActStep(s, acts[0]), acts[1..]);
    }
  }

  lemma ExportIsPublic(m: MetadataInfo)
    requires ValidMetadata(m) && ExportedMetadata(m).Some?
    ensures ValidMetadata(ExportedMetadata(m).value) && !MakesKeys(ExportedMetadata(m).value.keyType)
  {
  }

  lemma ReadKeepsType(e: MetadataInfo, keys: map<int, Key>, loadKeys: bool)
    requires ValidMetadata(e) && ReadKeyset(ToValue(e, true), keys, loadKeys).Some?
    ensures var s := ReadKeyset(ToValue(e, true), keys, loadKeys).value;
            Inv(s) && s.metadata.Some? && s.metadata.value.keyType == e.keyType
  {
    hide ToValue, FromValue, ReadKeyset, Inv, Loadable, AtMostOnePrimary;
    FromValueInvertsToValue(e, true);
    ReadOutcome(ToValue(e, true), keys, loadKeys);
  }

  /**
   A public export is written without the counter as well, so that the counter may come back lower, but no number is
   ever assigned from it.
   */
  lemma ExportAssignsNothing(m: MetadataInfo, keys: map<int, Key>, loadKeys: bool, acts: seq<Act>)
    requires ValidMetadata(m) && ExportedMetadata(m).Some?
    requires var s := ReadKeyset(ToValue(ExportedMetadata(m).value, true), keys, loadKeys); s.Some? && PossibleRun(s.value, acts)
    ensures Numbers(ReadKeyset(ToValue(ExportedMetadata(m).value, true), keys, loadKeys).value, acts) == []
  {
    hide *;
    ExportIsPublic(m);
    ReadKeepsType(ExportedMetadata(m).value, keys, loadKeys);
    PublicAssignsNothing(ReadKeyset(ToValue(ExportedMetadata(m).value, true), keys, loadKeys).value, acts);
  }

  /** Which keysets have a public export, and what it says: the same versions without the private parts. */
  lemma ExportMeans(m: MetadataInfo)
    ensures ExportedMetadata(m).Some? <==>
              || (m.purpose.SIGN_AND_VERIFY? && m.keyType in {DSA_PRIV, ECDSA_PRIV, RSA_PRIV})
              || (m.purpose.DECRYPT_AND_ENCRYPT? && m.keyType == RSA_PRIV)
    ensures ExportedMetadata(m).Some? ==>
              var e := ExportedMetadata(m).value;
              && e.name == m.name && e.versions == m.versions && !e.encrypted
              && (e.purpose.VERIFY? <==> m.purpose.SIGN_AND_VERIFY?) && (e.purpose.ENCRYPT? <==> m.purpose.DECRYPT_AND_ENCRYPT?)
              && TypeName(m.keyType) == TypeName(e.keyType)[..|TypeName(e.keyType)| - 3] + "PRIV"
              && TypeName(e.keyType)[|TypeName(e.keyType)| - 3..] == "PUB"
  {
  }
}
