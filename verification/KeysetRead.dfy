/** Reading a keyset back, and runs in which a keyset is written and read back. */
module KeysetRead {
  import opened Prelude
  import opened JsonText
  import opened JsonGrammar
  import opened Metadata
  import opened KeysetModel
  import opened KeysetRuns

  /** Takes in the key of a version, if keys are wanted. */
  function TakeIn(s: State, n: int, keys: map<int, Key>, loadKeys: bool): (r: (State, bool))
    ensures r.0.metadata == s.metadata
  {
    if !loadKeys then (s, true) else if n in keys then AddKey(s, keys[n], n) else (s, false)
  }

  /**
   Goes through versions in order: loads the key of each if keys are wanted, and notes which one is primary. The
   keys are what the reader yields for each version; a version without one stands for a failure to read its key.
   */
  function ReadVersions(s: State, numbers: seq<int>, keys: map<int, Key>, loadKeys: bool): Option<State>
    requires forall n :: n in numbers ==> HasVersion(s, n)
    decreases |numbers|
  {
    if numbers == [] then Some(s)
    else
      var n := numbers[0];
      var rest := numbers[1..];
      assert n in numbers && forall k :: k in rest ==> k in numbers && HasVersion(s, k);
      var (s1, ok) := TakeIn(s, n, keys, loadKeys);
      if !ok then None
      else if !StatusOf(s1, n).PRIMARY? then ReadVersions(s1, rest, keys, loadKeys)
      else if s1.primary > 0 then None
      else ReadVersions(s1.(primary := n), rest, keys, loadKeys)
  }

  /** The state after all versions were gone through, if they could be. */
  function ReadAll(m: MetadataInfo, keys: map<int, Key>, loadKeys: bool): Option<State> {
    ReadVersions(SetMetadata(EMPTY, Some(m)), Ascending(m.versions.Keys), keys, loadKeys)
  }

  /** Keyset::Read and ReadMetadataOnly. Nobody observes the keyset while it is read. */
  function ReadKeyset(v: Value, keys: map<int, Key>, loadKeys: bool): Option<State> {
    match FromValue(v)
    case None => None
    case Some(m) =>
      match ReadAll(m, keys, loadKeys)
      case None => None
      case Some(s) => Some(s.(log := []))
  }

  // ---------------------------------------------------------------- what reading demands

  /** Every version has a key with a hash, and no hash is the hash or the alias of a version before it. */
  ghost predicate Loadable(keys: map<int, Key>, numbers: seq<int>) {
    && (forall n :: n in numbers ==> n in keys && keys[n].hash.Some?)
    && (forall i, j :: 0 <= i < j < |numbers| ==>
          numbers[i] in keys && numbers[j] in keys && keys[numbers[j]].hash != keys[numbers[i]].hash
          && keys[numbers[j]].hash != keys[numbers[i]].alias)
  }

  /** The hashes and aliases under which the keys of the versions are found. */
  ghost predicate NamedBy(h: string, keys: map<int, Key>, numbers: seq<int>) {
    exists n :: n in numbers && n in keys && (keys[n].hash == Some(h) || keys[n].alias == Some(h))
  }

  /** The primary number names the only primary version among those gone through. */
  ghost predicate Noted(m: MetadataInfo, primary: int, done: seq<int>) {
    && primary >= 0 && (primary != 0 ==> primary in done && Primary(m, primary))
    && (forall n :: n in done && Primary(m, n) ==> n == primary)
  }

  /** The indexes hold exactly the keys of the versions gone through. */
  ghost predicate Loaded(s: State, done: seq<int>, keys: map<int, Key>) {
    && Loadable(keys, done)
    && (forall n :: n in s.byVersion <==> n in done)
    && (forall n :: n in done ==> n in keys && s.byVersion[n] == keys[n])
    && (forall h :: h in s.byHash <==> NamedBy(h, keys, done))
  }

  /** What is known in the middle of reading, when the versions of done have been gone through. */
  ghost predicate Partly(s: State, m: MetadataInfo, done: seq<int>, keys: map<int, Key>, loadKeys: bool) {
    && s.metadata == Some(m) && ValidMetadata(m) && Noted(m, s.primary, done)
    && if loadKeys then Loaded(s, done, keys) else s.byVersion == map[] && s.byHash == map[]
  }

  lemma NamedBySnoc(h: string, keys: map<int, Key>, done: seq<int>, n: int)
    ensures NamedBy(h, keys, done + [n]) <==> NamedBy(h, keys, done) || (n in keys && (keys[n].hash == Some(h) || keys[n].alias == Some(h)))
  {
    if NamedBy(h, keys, done) {
      var k :| k in done && k in keys && (keys[k].hash == Some(h) || keys[k].alias == Some(h));
      assert k in done + [n];
    }
    assert n in done + [n];
  }

  /** One more key can be loaded. */
  lemma LoadableSnoc(keys: map<int, Key>, done: seq<int>, n: int)
    requires Loadable(keys, done)
    ensures Loadable(keys, done + [n]) <==> n in keys && keys[n].hash.Some? && !NamedBy(keys[n].hash.value, keys, done)
  {
    var all := done + [n];
    assert all[|done|] == n && n in all;
    if n in keys && keys[n].hash.Some? {
      if NamedBy(keys[n].hash.value, keys, done) {
        var k :| k in done && k in keys && (keys[k].hash == keys[n].hash || keys[k].alias == keys[n].hash);
        var i :| 0 <= i < |done| && done[i] == k;
        assert all[i] == k;
      } else {
        forall i, j | 0 <= i < j < |all|
          ensures all[i] in keys && all[j] in keys && keys[all[j]].hash != keys[all[i]].hash
          ensures keys[all[j]].hash != keys[all[i]].alias
        {
          var k := done[i];
          assert k in done && all[i] == k;
          if j < |done| {
            assert all[j] == done[j];
          }
        }
      }
    }
  }

  lemma TakeInSucceeds(s: State, done: seq<int>, n: int, keys: map<int, Key>)
    requires HasVersion(s, n) && Loaded(s, done, keys) && n !in done && n > 0
    ensures TakeIn(s, n, keys, true).1 <==> Loadable(keys, done + [n])
  {
    LoadableSnoc(keys, done, n);
  }

  lemma TakeInKeeps(s: State, done: seq<int>, n: int, keys: map<int, Key>)
    requires HasVersion(s, n) && Loaded(s, done, keys) && n !in done && n > 0 && TakeIn(s, n, keys, true).1
    ensures Loaded(TakeIn(s, n, keys, true).0, done + [n], keys)
  {
    TakeInSucceeds(s, done, n, keys);
    var t := TakeIn(s, n, keys, true).0;
    forall h ensures h in t.byHash <==> NamedBy(h, keys, done + [n]) {
      NamedBySnoc(h, keys, done, n);
    }
    hide Loadable, NamedBy;
    assert forall k :: k in done + [n] <==> k in done || k == n;
    assert t.byVersion == s.byVersion[n := keys[n]];
  }

  lemma LoadablePrefix(keys: map<int, Key>, done: seq<int>, rest: seq<int>)
    requires Loadable(keys, done + rest)
    ensures Loadable(keys, done)
  {
    var all := done + rest;
    assert forall i :: 0 <= i < |done| ==> all[i] == done[i];
    assert forall n :: n in done ==> n in all;
  }

  /** Noting one more version. */
  lemma NotedSnoc(m: MetadataInfo, primary: int, done: seq<int>, n: int)
    requires ValidMetadata(m) && Noted(m, primary, done) && n !in done && n > 0 && n in m.versions
    ensures !Primary(m, n) ==> Noted(m, primary, done + [n])
    ensures Primary(m, n) && primary == 0 ==> Noted(m, n, done + [n])
    ensures Primary(m, n) && primary != 0 ==> !AtMostOnePrimary(m)
  {
    assert forall k :: k in done + [n] <==> k in done || k == n;
  }

  /** One more version gone through: whether it can be, and that the state is right then. */
  lemma OneMore(s: State, m: MetadataInfo, done: seq<int>, n: int, keys: map<int, Key>, loadKeys: bool)
    requires Partly(s, m, done, keys, loadKeys) && n !in done && n > 0 && n in m.versions
    ensures var (t, ok) := TakeIn(s, n, keys, loadKeys);
            && (ok <==> (loadKeys ==> Loadable(keys, done + [n])))
            && (ok ==> t.primary == s.primary && t.primary >= 0 && t.metadata == Some(m))
            && (ok && !Primary(m, n) ==> Partly(t, m, done + [n], keys, loadKeys))
            && (ok && Primary(m, n) && s.primary == 0 ==> Partly(t.(primary := n), m, done + [n], keys, loadKeys))
            && (Primary(m, n) && s.primary != 0 ==> !AtMostOnePrimary(m))
  {
    NotedSnoc(m, s.primary, done, n);
    if loadKeys {
      TakeInSucceeds(s, done, n, keys);
      if TakeIn(s, n, keys, loadKeys).1 {
        TakeInKeeps(s, done, n, keys);
        var t := TakeIn(s, n, keys, loadKeys).0;
        hide Noted;
        SameIndexesLoaded(t, t.(primary := n), done + [n], keys);
      }
    }
    hide Loadable, NamedBy, Loaded, Noted, AtMostOnePrimary;
  }

  lemma SameIndexesLoaded(s: State, t: State, done: seq<int>, keys: map<int, Key>)
    requires Loaded(s, done, keys) && t.byVersion == s.byVersion && t.byHash == s.byHash
    ensures Loaded(t, done, keys)
  {
  }

  /** Reading the remaining versions succeeds exactly when what it demands holds of all of them. */
  lemma {:induction false} ReadVersionsOutcome(s: State, m: MetadataInfo, done: seq<int>, todo: seq<int>,
          keys: map<int, Key>, loadKeys: bool)
    requires Partly(s, m, done, keys, loadKeys) && Increasing(done + todo)
    requires forall n :: n in todo ==> n in m.versions && n > 0
    ensures forall n :: n in todo ==> HasVersion(s, n)
    ensures var r := ReadVersions(s, todo, keys, loadKeys);
            && (r.Some? ==> Partly(r.value, m, done + todo, keys, loadKeys))
            && (AtMostOnePrimary(m) && (loadKeys ==> Loadable(keys, done + todo)) ==> r.Some?)
    decreases |todo|
  {
    if todo == [] {
      assert done + todo == done;
    } else {
      var n, rest := todo[0], todo[1..];
      assert n in todo && n in m.versions;
      assert forall k :: k in rest ==> k in todo;
      assert done + [n] + rest == done + todo;
      IncreasingSplit(done, n, rest);
      OneMore(s, m, done, n, keys, loadKeys);
      var (t, ok) := TakeIn(s, n, keys, loadKeys);
      if ok {
        hide TakeIn, Loadable, Increasing, Partly, AtMostOnePrimary;
        if !Primary(m, n) {
          ReadVersionsOutcome(t, m, done + [n], rest, keys, loadKeys);
        } else if t.primary == 0 {
          ReadVersionsOutcome(t.(primary := n), m, done + [n], rest, keys, loadKeys);
        }
      } else if loadKeys && Loadable(keys, done + todo) {
        LoadablePrefix(keys, done + [n], rest);
      }
    }
  }

  // ---------------------------------------------------------------- what reading gives

  lemma {:induction false} AddValuesIsValid(m: MetadataInfo, least: int, values: seq<Value>)
    requires ValidMetadata(m) && least >= 1 && (forall n :: n in m.versions ==> n < least)
    requires AddValues(m, least, values).Some?
    ensures var (t, l) := AddValues(m, least, values).value;
            ValidMetadata(t) && l >= 1 && forall n :: n in t.versions ==> n < l
    decreases |values|
  {
    hide VersionFromValue;
    if values != [] {
      VersionIsNotNegative(values[0]);
      var v := VersionFromValue(values[0]).value;
      var m' := AddVersion(m, v).0;
      AddValuesIsValid(m', Max(least, AssignedNumber(m, v) + 1), values[1..]);
    }
  }

  lemma VersionIsNotNegative(v: Value)
    ensures VersionFromValue(v).Some? ==> VersionFromValue(v).value.number >= 0
  {
  }

  /** Metadata read from a value is valid; without a counter in the value, its counter is above all versions. */
  lemma FromValueIsValid(v: Value)
    requires FromValue(v).Some?
    ensures ValidMetadata(FromValue(v).value)
    ensures Lookup(v.entries, "nextKeyVersionNumber").None? ==> CounterIsFresh(FromValue(v).value)
  {
    hide TypeFromName, PurposeFromName, AddValues, Lookup;
    var e := v.entries;
    var hasNext := Lookup(e, "nextKeyVersionNumber").Some?;
    var next := if hasNext then GetInteger(e, "nextKeyVersionNumber").value else 1;
    var name, encrypted, values := GetString(e, "name").value, GetBoolean(e, "encrypted").value, GetList(e, "versions").value;
    var keyType := TypeFromName(GetString(e, "type").value).value;
    var purpose := PurposeFromName(GetString(e, "purpose").value).value;
    AddValuesIsValid(MetadataInfo(name, keyType, purpose, encrypted, next, map[]), 1, values);
  }

  lemma NothingGoneThrough(m: MetadataInfo, keys: map<int, Key>, loadKeys: bool)
    requires ValidMetadata(m)
    ensures Partly(SetMetadata(EMPTY, Some(m)), m, [], keys, loadKeys)
  {
    assert forall h :: !NamedBy(h, keys, []);
  }

  lemma LoadedIndexesAgree(s: State, m: MetadataInfo, numbers: seq<int>, keys: map<int, Key>)
    requires s.metadata == Some(m) && Loaded(s, numbers, keys) && forall n :: n in numbers <==> n in m.versions
    ensures IndexesAgree(s)
  {
    forall n | n in s.byVersion ensures s.byVersion[n].hash.Some? && s.byVersion[n].hash.value in s.byHash {
      assert n in numbers;
      assert NamedBy(keys[n].hash.value, keys, numbers);
    }
    forall n, k | n in s.byVersion && k in s.byVersion && n != k ensures s.byVersion[n].hash != s.byVersion[k].hash {
      assert n in numbers && k in numbers;
      var i :| 0 <= i < |numbers| && numbers[i] == n;
      var j :| 0 <= j < |numbers| && numbers[j] == k;
      if i < j {
        assert keys[numbers[j]].hash != keys[numbers[i]].hash;
      } else {
        assert keys[numbers[i]].hash != keys[numbers[j]].hash;
      }
    }
  }

  lemma NotedAgrees(s: State, m: MetadataInfo, numbers: seq<int>)
    requires s.metadata == Some(m) && Noted(m, s.primary, numbers) && ValidMetadata(m) && forall n :: n in numbers <==> n in m.versions
    ensures PrimaryAgrees(s) && AtMostOnePrimary(m)
  {
    forall n | n in m.versions ensures m.versions[n].status.PRIMARY? <==> n == s.primary {
      assert n in numbers;
      assert Primary(m, n) <==> m.versions[n].status.PRIMARY?;
    }
    forall n, k | Primary(m, n) && Primary(m, k) ensures n == k {
      assert n in numbers && k in numbers;
    }
  }

  lemma ReadAllPartly(m: MetadataInfo, keys: map<int, Key>, loadKeys: bool)
    requires ValidMetadata(m)
    ensures var numbers := Ascending(m.versions.Keys);
            var r := ReadAll(m, keys, loadKeys);
            && (r.Some? ==> Partly(r.value, m, numbers, keys, loadKeys))
            && (AtMostOnePrimary(m) && (loadKeys ==> Loadable(keys, numbers)) ==> r.Some?)
  {
    hide Partly, AtMostOnePrimary, Loadable, Increasing, SetMetadata;
    var numbers := Ascending(m.versions.Keys);
    NothingGoneThrough(m, keys, loadKeys);
    assert [] + numbers == numbers;
    assert forall n :: n in numbers <==> n in m.versions;
    ReadVersionsOutcome(SetMetadata(EMPTY, Some(m)), m, [], numbers, keys, loadKeys);
  }

  lemma ReadAllOutcome(m: MetadataInfo, keys: map<int, Key>, loadKeys: bool)
    requires ValidMetadata(m)
    ensures var numbers := Ascending(m.versions.Keys);
            var r := ReadAll(m, keys, loadKeys);
            && (r.Some? <==> AtMostOnePrimary(m) && (loadKeys ==> Loadable(keys, numbers)))
            && (r.Some? ==>
                  && Inv(r.value.(log := [])) && r.value.metadata == Some(m)
                  && (loadKeys ==> r.value.byVersion.Keys == m.versions.Keys && forall n :: n in r.value.byVersion ==> n in keys && r.value.byVersion[n] == keys[n])
                  && (!loadKeys ==> r.value.byVersion == map[] && r.value.byHash == map[]))
  {
    ReadAllPartly(m, keys, loadKeys);
    var numbers := Ascending(m.versions.Keys);
    assert forall n :: n in numbers <==> n in m.versions;
    var r := ReadAll(m, keys, loadKeys);
    hide Loadable, NamedBy, Noted, ReadAll, PrimaryAgrees, IndexesAgree, AtMostOnePrimary, Ascending, Increasing, Inv;
    if r.Some? {
      NotedAgrees(r.value, m, numbers);
      if loadKeys {
        LoadedIndexesAgree(r.value, m, numbers, keys);
      }
      InvAfterReading(r.value, m, numbers, keys, loadKeys);
    }
  }

  /**
   Reading succeeds exactly when the metadata can be read, at most one version is primary and, if keys are wanted,
   every version has a key with a hash that no version before it has as its hash or alias. What is read is consistent.
   */
  lemma ReadOutcome(v: Value, keys: map<int, Key>, loadKeys: bool)
    ensures ReadKeyset(v, keys, loadKeys).Some? <==>
              FromValue(v).Some? && AtMostOnePrimary(FromValue(v).value)
              && (loadKeys ==> Loadable(keys, Ascending(FromValue(v).value.versions.Keys)))
    ensures ReadKeyset(v, keys, loadKeys).Some? ==>
              var s := ReadKeyset(v, keys, loadKeys).value;
              && Inv(s) && s.metadata == FromValue(v) && s.log == []
              && (loadKeys ==> s.byVersion.Keys == s.metadata.value.versions.Keys && forall n :: n in s.byVersion ==> n in keys && s.byVersion[n] == keys[n])
              && (!loadKeys ==> s.byVersion == map[] && s.byHash == map[])
  {
    if FromValue(v).Some? {
      FromValueIsValid(v);
      hide FromValue, Inv, ReadAll, Loadable, Ascending, AtMostOnePrimary, ValidMetadata;
      ReadAllOutcome(FromValue(v).value, keys, loadKeys);
    }
  }

  lemma InvAfterReading(s: State, m: MetadataInfo, numbers: seq<int>, keys: map<int, Key>, loadKeys: bool)
    requires Partly(s, m, numbers, keys, loadKeys) && PrimaryAgrees(s) && (loadKeys ==> IndexesAgree(s))
    requires forall n :: n in numbers <==> n in m.versions
    ensures Inv(s.(log := []))
    ensures loadKeys ==> s.byVersion.Keys == m.versions.Keys
    ensures loadKeys ==> forall n :: n in s.byVersion ==> n in keys && s.byVersion[n] == keys[n]
  {
    hide Loadable, NamedBy, Noted;
    if loadKeys {
      assert forall n :: n in s.byVersion <==> n in m.versions;
    }
  }
}
