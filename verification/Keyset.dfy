/** Key versions, metadata and keysets as objects that are updated in place. */
module Keysets {
  import opened Prelude
  import opened JsonText
  import opened JsonGrammar
  import opened Metadata
  import Model = KeysetModel
  import opened KeysetRead

  /** KeysetMetadata::KeyVersion. */
  class KeyVersion {
    var number: int
    var status: Status
    const exportable: bool

    constructor (number: int, status: Status, exportable: bool)
      ensures Info() == VersionInfo(number, status, exportable)
    {
      this.number, this.status, this.exportable := number, status, exportable;
    }

    function Info(): VersionInfo
      reads this
    {
      VersionInfo(number, status, exportable)
    }
  }

  function AllVersionValues(m: MetadataInfo): seq<Value> {
    VersionValues(m, Ascending(m.versions.Keys))
  }

  lemma {:induction false} VersionValueAt(m: MetadataInfo, numbers: seq<int>, i: nat)
    requires i < |numbers| && forall n :: n in numbers ==> n in m.versions
    ensures i < |VersionValues(m, numbers)| && numbers[i] in m.versions
    ensures VersionValues(m, numbers)[i] == VersionToValue(m.versions[numbers[i]])
  {
    hide VersionToValue;
    var n, rest := numbers[0], numbers[1..];
    assert n in numbers && forall k :: k in rest ==> k in numbers;
    if rest != [] {
      VersionValueAt(m, rest, if i == 0 then 0 else i - 1);
    }
  }

  lemma {:induction false} VersionValuesLength(m: MetadataInfo, numbers: seq<int>)
    requires forall n :: n in numbers ==> n in m.versions
    ensures |VersionValues(m, numbers)| == |numbers|
  {
    hide VersionToValue;
    if numbers != [] {
      var n, rest := numbers[0], numbers[1..];
      assert n in numbers && forall k :: k in rest ==> k in numbers;
      VersionValuesLength(m, rest);
    }
  }

  lemma AddNoValues(m: MetadataInfo, least: int)
    ensures AddValues(m, least, []) == Some((m, least))
  {
  }

  /** Once the other fields were read, a value is read exactly when its versions can be added. */
  lemma FromValueParts(root: Value, empty: MetadataInfo, values: seq<Value>, hasNext: bool)
    requires root.Dictionary? && empty.versions == map[] && empty.next > 0
    requires GetString(root.entries, "name") == Some(empty.name)
    requires GetBoolean(root.entries, "encrypted") == Some(empty.encrypted)
    requires GetString(root.entries, "type").Some?
    requires TypeFromName(GetString(root.entries, "type").value) == Some(empty.keyType)
    requires GetString(root.entries, "purpose").Some?
    requires PurposeFromName(GetString(root.entries, "purpose").value) == Some(empty.purpose)
    requires GetList(root.entries, "versions") == Some(values)
    requires hasNext == Lookup(root.entries, "nextKeyVersionNumber").Some?
    requires if hasNext then GetInteger(root.entries, "nextKeyVersionNumber") == Some(empty.next) else empty.next == 1
    ensures AddValues(empty, 1, values).None? ==> FromValue(root).None?
    ensures AddValues(empty, 1, values).Some? ==>
              var (m, least) := AddValues(empty, 1, values).value;
              FromValue(root) == Some(if hasNext then m else m.(next := least))
  {
    hide AddValues, TypeFromName, PurposeFromName, Lookup;
  }

  /** Adding the first of some values. */
  lemma AddFirstValue(m: MetadataInfo, least: int, values: seq<Value>)
    requires values != []
    ensures VersionFromValue(values[0]).None? ==> AddValues(m, least, values).None?
    ensures VersionFromValue(values[0]).Some? ==>
              var v := VersionFromValue(values[0]).value;
              && v.number >= 0
              && (!Metadata.AddVersion(m, v).1 ==> AddValues(m, least, values).None?)
              && (Metadata.AddVersion(m, v).1 ==>
                    AddValues(m, least, values) == AddValues(Metadata.AddVersion(m, v).0, Max(least, AssignedNumber(m, v) + 1), values[1..]))
  {
    hide VersionFromValue;
    VersionIsNotNegative(values[0]);
  }

  class KeysetMetadata {
    const name: string
    const keyType: KeyType
    const purpose: Purpose
    var encrypted: bool
    var next: int
    var versions: map<int, KeyVersion>

    /** Each version is kept under its own number, so no two numbers share an object. */
    ghost predicate Valid()
      reads this, versions.Values
    {
      next >= 1 && forall n :: n in versions ==> n > 0 && versions[n].number == n
    }

    /** The object is that of a version. */
    ghost predicate Has(v: KeyVersion)
      reads this, v
    {
      v.number in versions && versions[v.number] == v
    }

    function View(): MetadataInfo
      reads this, versions.Values
    {
      MetadataInfo(name, keyType, purpose, encrypted, next, map n | n in versions :: versions[n].Info())
    }

    ghost function Objects(): set<object>
      reads this
    {
      {this} + versions.Values
    }

    constructor (name: string, keyType: KeyType, purpose: Purpose, encrypted: bool, next: int)
      requires next > 0
      ensures Valid() && versions == map[]
      ensures View() == MetadataInfo(name, keyType, purpose, encrypted, next, map[])
    {
      this.name, this.keyType, this.purpose, this.encrypted, this.next := name, keyType, purpose, encrypted, next;
      versions := map[];
    }

    /** Adds a version, which first gets a number if it has none yet. */
    method AddVersion(v: KeyVersion) returns (ok: bool)
      requires Valid() && v.number >= 0 && v !in versions.Values
      modifies this, v
      ensures Valid()
      ensures (View(), ok) == Metadata.AddVersion(old(View()), old(v.Info()))
      ensures v.Info() == old(v.Info()).(number := AssignedNumber(old(View()), old(v.Info())))
      ensures versions == if ok then old(versions)[v.number := v] else old(versions)
      ensures Objects() <= old(Objects()) + {v}
    {
      if v.number == 0 {
        v.number := next;
        next := next + 1;
      }
      if v.number in versions {
        assert View().versions == old(View().versions);
        return false;
      }
      versions := versions[v.number := v];
      assert View().versions == old(View().versions)[v.number := v.Info()];
      return true;
    }

    method RemoveVersion(n: int) returns (ok: bool)
      requires Valid()
      modifies this
      ensures Valid()
      ensures ok <==> n in old(versions)
      ensures versions == old(versions) - {n}
      ensures View() == old(View()).(versions := old(View()).versions - {n})
    {
      if n !in versions {
        assert versions - {n} == versions;
        assert View().versions - {n} == View().versions;
        return false;
      }
      versions := versions - {n};
      return true;
    }

    /** The metadata that a value describes; null if it describes none. */
    static method CreateFromValue(root: Value) returns (r: KeysetMetadata?)
      ensures r == null <==> FromValue(root).None?
      ensures r != null ==> fresh(r.Objects())
      ensures r != null ==> r.Valid() && FromValue(root) == Some(r.View())
    {
      hide AddValues, TypeFromName, PurposeFromName, Lookup, VersionFromValue;
      if !root.Dictionary? {
        return null;
      }
      var e := root.entries;
      var name := GetString(e, "name");
      if name.None? {
        return null;
      }
      var typeName := GetString(e, "type");
      if typeName.None? {
        return null;
      }
      var keyType := TypeFromName(typeName.value);
      if keyType.None? {
        return null;
      }
      var purposeName := GetString(e, "purpose");
      if purposeName.None? {
        return null;
      }
      var purpose := PurposeFromName(purposeName.value);
      if purpose.None? {
        return null;
      }
      var encrypted := GetBoolean(e, "encrypted");
      if encrypted.None? {
        return null;
      }
      var hasNext := Lookup(e, "nextKeyVersionNumber").Some?;
      var next := 1;
      if hasNext {
        var given := GetInteger(e, "nextKeyVersionNumber");
        if given.None? || given.value <= 0 {
          return null;
        }
        next := given.value;
      }
      var m := new KeysetMetadata(name.value, keyType.value, purpose.value, encrypted.value, next);
      var values := GetList(e, "versions");
      if values.None? {
        return null;
      }
      ghost var start := m.View();
      FromValueParts(root, start, values.value, hasNext);
      hide FromValue, GetString, GetBoolean, GetInteger, GetList;
      var ok, above := m.AddVersions(values.value);
      if !ok {
        return null;
      }
      ghost var read := m.View();
      if !hasNext {
        m.next := above;
        assert m.View().versions == read.versions;
      }
      return m;
    }

    /** The loop over the versions of a value; it also computes the least counter above all of them. */
    method AddVersions(values: seq<Value>) returns (ok: bool, least: int)
      requires Valid() && versions == map[]
      modifies this
      ensures Valid() && fresh(Objects() - {this})
      ensures ok <==> AddValues(old(View()), 1, values).Some?
      ensures ok ==> AddValues(old(View()), 1, values) == Some((View(), least)) && least >= 1
    {
      hide AddValues, VersionFromValue;
      ok, least := true, 1;
      assert values[0..] == values;
      for i := 0 to |values|
        invariant fresh(Objects() - {this}) && Valid()
        invariant AddValues(old(View()), 1, values) == AddValues(View(), least, values[i..])
        invariant least >= 1
      {
        assert values[i..][0] == values[i] && values[i..][1..] == values[i + 1..];
        AddFirstValue(View(), least, values[i..]);
        var info := VersionFromValue(values[i]);
        if info.None? {
          return false, least;
        }
        var v := new KeyVersion(info.value.number, info.value.status, info.value.exportable);
        ok := AddVersion(v);
        if !ok {
          return;
        }
        if v.number >= least {
          least := v.number + 1;
        }
      }
      assert values[|values|..] == [];
      AddNoValues(View(), least);
      return true, least;
    }

    lemma ViewAt(n: int)
      requires n in versions
      ensures n in View().versions && View().versions[n] == versions[n].Info()
    {
    }

    /** The values of the versions in ascending order. */
    method GetVersions() returns (items: seq<Value>)
      requires Valid()
      ensures items == AllVersionValues(View())
    {
      var numbers := Ascending(versions.Keys);
      ghost var m := View();
      assert versions.Keys == m.versions.Keys;
      VersionValuesLength(m, numbers);
      ghost var all := AllVersionValues(m);
      assert |all| == |numbers| && all == VersionValues(m, numbers);
      items := [];
      hide *;
      for i := 0 to |numbers|
        invariant items == all[..i] && m == View()
      {
        VersionValueAt(m, numbers, i);
        var n := numbers[i];
        ViewAt(n);
        TakeSnoc(all, i);
        var item := VersionToValue(versions[n].Info());
        assert all[i] == item;
        items := items + [item];
      }
    }

    /** The value that describes this metadata; a public export leaves the counter out. */
    method GetValue(publicExport: bool) returns (r: Value)
      requires Valid()
      ensures r == ToValue(View(), publicExport)
    {
      hide SetPath, VersionValues, Ascending;
      var e := SetPath([], "name", String(name));
      e := SetPath(e, "type", String(TypeName(keyType)));
      e := SetPath(e, "purpose", String(PurposeName(purpose)));
      e := SetPath(e, "encrypted", Boolean(encrypted));
      if !publicExport {
        e := SetPath(e, "nextKeyVersionNumber", Integer(next));
      }
      var items := GetVersions();
      return Dictionary(SetPath(e, "versions", List(items)));
    }
  }

  /** Going through one version while reading. */
  function GoThrough(s: Model.State, n: int, keys: map<int, Model.Key>, loadKeys: bool): (Model.State, bool)
    requires Model.HasVersion(s, n)
  {
    var (t, ok) := TakeIn(s, n, keys, loadKeys);
    if !ok then (t, false)
    else if !Model.StatusOf(s, n).PRIMARY? then (t, true)
    else if t.primary > 0 then (t, false)
    else (t.(primary := n), true)
  }

  lemma ReadFirst(s: Model.State, numbers: seq<int>, keys: map<int, Model.Key>, loadKeys: bool)
    requires numbers != [] && forall n :: n in numbers ==> Model.HasVersion(s, n)
    ensures Model.HasVersion(s, numbers[0])
    ensures var (t, ok) := GoThrough(s, numbers[0], keys, loadKeys);
            && (forall k :: k in numbers[1..] ==> Model.HasVersion(t, k))
            && ReadVersions(s, numbers, keys, loadKeys) == if ok then ReadVersions(t, numbers[1..], keys, loadKeys) else None
  {
    var n, rest := numbers[0], numbers[1..];
    assert n in numbers && forall k :: k in rest ==> k in numbers && Model.HasVersion(s, k);
  }

  lemma ReadKeysetParts(root: Value, keys: map<int, Model.Key>, loadKeys: bool)
    ensures FromValue(root).None? ==> ReadKeyset(root, keys, loadKeys).None?
    ensures FromValue(root).Some? ==>
              var r := ReadAll(FromValue(root).value, keys, loadKeys);
              ReadKeyset(root, keys, loadKeys) == if r.Some? then Some(r.value.(log := [])) else None
  {
    hide FromValue, ReadAll;
  }

  lemma ReadAllIs(m: MetadataInfo, keys: map<int, Model.Key>, loadKeys: bool)
    ensures ReadAll(m, keys, loadKeys)
         == ReadVersions(Model.SetMetadata(Model.EMPTY, Some(m)), Ascending(m.versions.Keys), keys, loadKeys)
  {
  }

  lemma ReadNoMore(s: Model.State, keys: map<int, Model.Key>, loadKeys: bool)
    ensures ReadVersions(s, [], keys, loadKeys) == Some(s)
  {
  }

  class Keyset {
    var metadata: KeysetMetadata?
    var primary: int
    var versionNumberMap: map<int, Model.Key>
    var hashMap: map<string, Model.Key>
    /** What the observers that are attached have been told. */
    ghost var log: seq<Model.Event>

    ghost predicate Valid()
      reads Objects()
    {
      metadata != null ==> metadata.Valid()
    }

    ghost function Objects(): set<object>
      reads this, if metadata == null then {} else {metadata}
    {
      {this} + if metadata == null then {} else metadata.Objects()
    }

    ghost function View(): Model.State
      reads Objects()
    {
      Model.State(if metadata == null then None else Some(metadata.View()), primary, versionNumberMap, hashMap, log)
    }

    constructor ()
      ensures Valid() && View() == Model.EMPTY && fresh(Objects())
    {
      metadata, primary, versionNumberMap, hashMap, log := null, 0, map[], map[], [];
    }

    method NotifyOnUpdatedKeysetMetadata()
      requires Valid() && metadata != null
      modifies `log
      ensures Valid() && View() == Model.NotifyMetadata(old(View()))
    {
      log := log + [Model.UpdatedMetadata(metadata.View())];
    }

    method SetMetadata(m: KeysetMetadata?)
      requires m != null ==> m.Valid()
      modifies this
      ensures Valid() && metadata == m && Objects() == {this} + if m == null then {} else m.Objects()
      ensures View() == Model.SetMetadata(old(View()), if m == null then None else Some(m.View()))
    {
      metadata := m;
      if metadata != null {
        NotifyOnUpdatedKeysetMetadata();
      }
    }

    method SetEncrypted(encrypted: bool)
      requires Valid()
      modifies Objects()
      ensures Valid() && Objects() == old(Objects())
      ensures View() == Model.SetEncrypted(old(View()), encrypted)
    {
      if metadata == null {
        return;
      }
      metadata.encrypted := encrypted;
      assert metadata.View().versions == old(metadata.View().versions);
      NotifyOnUpdatedKeysetMetadata();
    }

    method AddKey(key: Model.Key, version: int) returns (ok: bool)
      requires Valid()
      modifies `versionNumberMap, `hashMap, `log
      ensures Valid() && (View(), ok) == Model.AddKey(old(View()), key, version)
    {
      if version <= 0 || metadata == null || version !in metadata.versions || version in versionNumberMap {
        return false;
      }
      if key.hash.None? {
        return false;
      }
      if key.hash.value in hashMap {
        return false;
      }
      versionNumberMap := versionNumberMap[version := key];
      hashMap := hashMap[key.hash.value := key];
      if key.alias.Some? {
        hashMap := hashMap[key.alias.value := key];
      }
      log := log + [Model.NewKey(key, version)];
      return true;
    }

    method RemoveKey(version: int) returns (ok: bool)
      requires Valid()
      modifies `versionNumberMap, `hashMap
      ensures Valid() && Objects() == old(Objects()) && View() == Model.RemoveKey(old(View()), version)
      ensures ok <==> version in old(versionNumberMap) && old(versionNumberMap)[version].hash.Some?
                      && old(versionNumberMap)[version].hash.value in old(hashMap)
    {
      if version !in versionNumberMap {
        return false;
      }
      var hash := versionNumberMap[version].hash;
      if hash.None? {
        return false;
      }
      if hash.value !in hashMap {
        return false;
      }
      versionNumberMap := versionNumberMap - {version};
      hashMap := hashMap - {hash.value};
      return true;
    }

    /** Gives a version its new status and tells the observers. */
    method SetKeyStatus(v: KeyVersion, status: Status)
      requires Valid() && metadata != null && metadata.Has(v)
      modifies v, `log
      ensures Valid() && v.number == old(v.number) && metadata.Has(v)
      ensures View() == Model.SetStatus(old(View()), v.number, status)
    {
      ghost var n, before := v.number, metadata.View().versions;
      assert forall k :: k in metadata.versions && k != n ==> metadata.versions[k] != v;
      v.status := status;
      assert metadata.View().versions == before[n := before[n].(status := status)];
      NotifyOnUpdatedKeysetMetadata();
    }

    method UpdateKeyStatus(status: Status, v: KeyVersion) returns (ok: bool)
      requires Valid() && metadata != null && metadata.Has(v)
      modifies `primary, `log, metadata.versions.Values
      ensures Valid() && v.number == old(v.number) && metadata.Has(v)
      ensures (View(), ok) == Model.UpdateStatus(old(View()), v.number, status)
      decreases status.PRIMARY?
    {
      hide Model.NotifyMetadata;
      if status.PRIMARY? {
        ghost var n := v.number;
        var former := if primary in metadata.versions then metadata.versions[primary] else null;
        if primary != 0 && former == null {
          return false;
        }
        if former != null {
          var demoted := UpdateKeyStatus(ACTIVE, former);
          assert metadata.versions[n] == v;
        }
        primary := v.number;
      }
      SetKeyStatus(v, status);
      return true;
    }

    method PromoteKey(version: int) returns (ok: bool)
      requires Valid()
      modifies Objects()
      ensures Valid() && Objects() == old(Objects())
      ensures (View(), ok) == Model.Promote(old(View()), version)
    {
      if version <= 0 || metadata == null || version !in metadata.versions {
        return false;
      }
      var v := metadata.versions[version];
      match v.status {
        case PRIMARY =>
          return false;
        case ACTIVE =>
          ok := UpdateKeyStatus(PRIMARY, v);
        case INACTIVE =>
          ok := UpdateKeyStatus(ACTIVE, v);
      }
    }

    method DemoteKey(version: int) returns (ok: bool)
      requires Valid()
      modifies `primary, `log, if metadata == null then {} else metadata.versions.Values
      ensures Valid() && Objects() == old(Objects())
      ensures (View(), ok) == Model.Demote(old(View()), version)
    {
      if version <= 0 || metadata == null || version !in metadata.versions {
        return false;
      }
      var v := metadata.versions[version];
      match v.status {
        case PRIMARY =>
          ok := UpdateKeyStatus(ACTIVE, v);
          if ok {
            primary := 0;
          }
          return true;
        case ACTIVE =>
          ok := UpdateKeyStatus(INACTIVE, v);
        case INACTIVE =>
          return false;
      }
    }

    method RemoveKeyVersion(version: int) returns (ok: bool)
      requires Valid()
      modifies metadata, `log
      ensures Valid() && Objects() <= old(Objects())
      ensures ok <==> version > 0 && Model.HasVersion(old(View()), version)
      ensures !ok ==> View() == old(View())
      ensures ok ==> var s := old(View());
                     var m := s.metadata.value;
                     View() == Model.NotifyMetadata(s.(metadata := Some(m.(versions := m.versions - {version}))))
    {
      if version <= 0 || metadata == null || version !in metadata.versions {
        return false;
      }
      var removed := metadata.RemoveVersion(version);
      NotifyOnUpdatedKeysetMetadata();
      return true;
    }

    /** What the code reads directly of the state. */
    lemma ViewIs()
      ensures var s := View();
              && (s.metadata.Some? <==> metadata != null) && s.primary == primary
              && (metadata != null ==>
                    s.metadata.value == metadata.View()
                    && forall n :: (Model.HasVersion(s, n) <==> n in metadata.versions)
                                   && (n in metadata.versions ==> Model.StatusOf(s, n) == metadata.versions[n].status))
    {
    }

    /** Tells the observers something. */
    method Tell(e: Model.Event)
      requires Valid()
      modifies `log
      ensures Valid() && Objects() == old(Objects()) && View() == old(View()).(log := old(View()).log + [e])
    {
      log := log + [e];
    }

    method RevokeKey(version: int) returns (ok: bool)
      requires Valid()
      modifies Objects()
      ensures Valid() && Objects() <= old(Objects())
      ensures (View(), ok) == Model.Revoke(old(View()), version)
    {
      ViewIs();
      hide Model.RemoveKey, Model.NotifyMetadata, View, Valid;
      if version <= 0 || metadata == null || version !in metadata.versions {
        return false;
      }
      if !metadata.versions[version].status.INACTIVE? {
        return false;
      }
      var removed := RemoveKeyVersion(version);
      var erased := RemoveKey(version);
      Tell(Model.RevokedKey(version));
      return true;
    }

    /** Adds a version if it has no number yet; returns the number it gets, or 0. */
    method AddKeyVersion(v: KeyVersion) returns (version: int)
      requires Valid() && v !in Objects()
      modifies Objects(), v
      ensures Valid() && metadata == old(metadata) && Objects() <= old(Objects()) + {v}
      ensures (View(), version) == if old(v.number) != 0 || metadata == null then (old(View()), 0)
                                   else Model.AddVersionOf(old(View()), old(v.status), v.exportable)
    {
      if v.number != 0 || metadata == null {
        return 0;
      }
      var added := metadata.AddVersion(v);
      if !added {
        return 0;
      }
      if v.status.PRIMARY? {
        var updated := UpdateKeyStatus(PRIMARY, v);
      }
      NotifyOnUpdatedKeysetMetadata();
      return v.number;
    }

    /**
     Makes keys until one has a new hash. The candidates are the keys that are made, in order; None stands for a
     failure, and making keys fails after the last of them.
     */
    method MakeKey(candidates: seq<Option<Model.Key>>) returns (key: Option<Model.Key>)
      requires Valid()
      ensures key == Model.FirstFresh(View(), candidates)
    {
      var i := 0;
      while true
        invariant 0 <= i <= |candidates|
        invariant Model.FirstFresh(View(), candidates) == Model.FirstFresh(View(), candidates[i..])
        decreases |candidates| - i
      {
        if i == |candidates| {
          return None;
        }
        assert candidates[i..][0] == candidates[i] && candidates[i..][1..] == candidates[i + 1..];
        key := candidates[i];
        i := i + 1;
        if key.None? {
          return None;
        }
        if key.value.hash.None? {
          return None;
        }
        if key.value.hash.value !in hashMap {
          break;
        }
      }
    }

    /** Makes a key with a new hash and adds it as a new version; returns its number, or 0. */
    method GenerateKey(status: Status, candidates: seq<Option<Model.Key>>) returns (version: int)
      requires Valid()
      modifies Objects()
      ensures Valid() && metadata == old(metadata) && fresh(Objects() - old(Objects()))
      ensures (View(), version) == Model.Generate(old(View()), status, candidates)
    {
      ViewIs();
      hide Model.Demote, Model.AddVersionOf, Model.AddKey, Model.FirstFresh, View, Valid;
      if metadata == null {
        return 0;
      }
      var key := MakeKey(candidates);
      if key.None? {
        return 0;
      }
      if status.PRIMARY? && primary > 0 {
        var demoted := DemoteKey(primary);
        if !demoted {
          return 0;
        }
      }
      var v := new KeyVersion(0, status, false);
      version := AddKeyVersion(v);
      if version == 0 {
        return 0;
      }
      var added := AddKey(key.value, version);
      if !added {
        // a debug build takes the version out again here; KeysetRuns.RollbackIsNeverReached shows that this never happens
        return 0;
      }
    }

    /** Loads the key of a version if keys are wanted, and notes whether it is the primary one. */
    method ReadVersion(n: int, keys: map<int, Model.Key>, loadKeys: bool) returns (ok: bool)
      requires Valid() && metadata != null && n in metadata.versions
      modifies this
      ensures Valid() && metadata == old(metadata) && Objects() == old(Objects())
      ensures ok == GoThrough(old(View()), n, keys, loadKeys).1
      ensures ok ==> View() == GoThrough(old(View()), n, keys, loadKeys).0
    {
      hide Model.AddKey;
      if loadKeys {
        if n !in keys {
          return false;
        }
        var added := AddKey(keys[n], n);
        if !added {
          return false;
        }
      }
      if metadata.versions[n].status.PRIMARY? {
        if primary > 0 {
          return false;
        }
        primary := n;
      }
      return true;
    }

    /**
     Reads a keyset: its metadata from a value and, if wanted, its keys from what a reader yields for each version,
     where a version without a key stands for a failed read. Null if it cannot be read.
     */
    static method Read(root: Value, keys: map<int, Model.Key>, loadKeys: bool) returns (r: Keyset?)
      ensures r == null <==> ReadKeyset(root, keys, loadKeys).None?
      ensures r != null ==> fresh(r.Objects()) && r.Valid() && ReadKeyset(root, keys, loadKeys) == Some(r.View())
    {
      hide FromValue, Ascending, Increasing, KeysetRead.ReadVersions, GoThrough, Keyset.View, Keyset.Valid;
      ReadKeysetParts(root, keys, loadKeys);
      hide ReadKeyset;
      var m := KeysetMetadata.CreateFromValue(root);
      if m == null {
        return null;
      }
      var keyset := new Keyset();
      keyset.SetMetadata(m);
      ghost var m0 := m.View();
      assert m.versions.Keys == m0.versions.Keys;
      ReadAllIs(m0, keys, loadKeys);
      hide ReadAll;
      var ok := keyset.ReadVersions(Ascending(m.versions.Keys), keys, loadKeys);
      if !ok {
        return null;
      }
      keyset.NobodyObserves();
      return keyset;
    }

    /** Nobody observes a keyset while it is read. */
    ghost method NobodyObserves()
      requires Valid()
      modifies `log
      ensures Valid() && Objects() == old(Objects()) && View() == old(View()).(log := [])
    {
      log := [];
    }

    /** The reading loop. */
    method ReadVersions(numbers: seq<int>, keys: map<int, Model.Key>, loadKeys: bool) returns (ok: bool)
      requires Valid() && metadata != null && forall n :: n in numbers ==> n in metadata.versions
      modifies this
      ensures Valid() && metadata == old(metadata) && Objects() == old(Objects())
      ensures var r := KeysetRead.ReadVersions(old(View()), numbers, keys, loadKeys); r == if ok then Some(View()) else None
    {
      hide KeysetRead.ReadVersions, GoThrough;
      assert numbers[0..] == numbers;
      ghost var todo := numbers;
      for i := 0 to |numbers|
        invariant todo == numbers[i..]
        invariant Valid() && metadata == old(metadata) && Objects() == old(Objects())
        invariant forall n :: n in todo ==> Model.HasVersion(View(), n)
        invariant KeysetRead.ReadVersions(old(View()), numbers, keys, loadKeys)
               == KeysetRead.ReadVersions(View(), todo, keys, loadKeys)
      {
        ReadFirst(View(), todo, keys, loadKeys);
        ok := ReadVersion(numbers[i], keys, loadKeys);
        if !ok {
          return;
        }
        todo := todo[1..];
      }
      ReadNoMore(View(), keys, loadKeys);
      return true;
    }
  }
}
