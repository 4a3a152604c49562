/** What is written of metadata, and which values are read as metadata. */
module MetadataMeaning {
  import opened Prelude
  import opened JsonText
  import opened JsonGrammar
  import opened JsonParsed
  import opened Metadata

  /** The names as they are stored. */
  lemma NamesWritten()
    ensures StatusName(PRIMARY) == "PRIMARY" && StatusName(ACTIVE) == "ACTIVE" && StatusName(INACTIVE) == "INACTIVE"
    ensures PurposeName(DECRYPT_AND_ENCRYPT) == "DECRYPT_AND_ENCRYPT" && PurposeName(ENCRYPT) == "ENCRYPT"
    ensures PurposeName(SIGN_AND_VERIFY) == "SIGN_AND_VERIFY" && PurposeName(VERIFY) == "VERIFY"
    ensures TypeName(AES) == "AES" && TypeName(HMAC) == "HMAC"
    ensures TypeName(DSA_PRIV) == "DSA_PRIV" && TypeName(DSA_PUB) == "DSA_PUB"
    ensures TypeName(ECDSA_PRIV) == "ECDSA_PRIV" && TypeName(ECDSA_PUB) == "ECDSA_PUB"
    ensures TypeName(RSA_PRIV) == "RSA_PRIV" && TypeName(RSA_PUB) == "RSA_PUB"
  {
  }

  /** No other name is read. */
  lemma OnlyNamesRead(name: string)
    ensures StatusFromName(name).Some? <==> exists s :: StatusName(s) == name
    ensures PurposeFromName(name).Some? <==> exists p :: PurposeName(p) == name
    ensures TypeFromName(name).Some? <==> exists t :: TypeName(t) == name
  {
    if StatusFromName(name).Some? {
      assert StatusName(StatusFromName(name).value) == name;
    }
    if PurposeFromName(name).Some? {
      assert PurposeName(PurposeFromName(name).value) == name;
    }
    if TypeFromName(name).Some? {
      assert TypeName(TypeFromName(name).value) == name;
    }
  }

  // ---------------------------------------------------------------- one version, and what is written

  /** A value is read as a version exactly when its three fields are those of the version. */
  lemma VersionMeans(e: seq<Entry>, v: VersionInfo)
    ensures VersionFromValue(Dictionary(e)) == Some(v) <==>
              && v.number >= 0 && Lookup(e, "versionNumber") == Some(Integer(v.number))
              && Lookup(e, "status") == Some(String(StatusName(v.status)))
              && Lookup(e, "exportable") == Some(Boolean(v.exportable))
  {
    NamesRoundTrip(v.status, AES, VERIFY);
    if GetString(e, "status").Some? {
      var name := GetString(e, "status").value;
      assert StatusFromName(name).Some? ==> StatusName(StatusFromName(name).value) == name;
    }
    hide Lookup, StatusName, StatusFromName;
  }

  /** Nothing but dictionaries is read. */
  lemma OnlyDictionariesRead(v: Value)
    requires !v.Dictionary?
    ensures VersionFromValue(v).None? && FromValue(v).None?
  {
  }

  /** Written metadata has its fields and no other; a public export has no counter. */
  lemma OnlyFieldsWritten(m: MetadataInfo, publicExport: bool, key: string)
    ensures Lookup(ToValue(m, publicExport).entries, key).Some? <==>
              || key in {"name", "type", "purpose", "encrypted", "versions"}
              || (key == "nextKeyVersionNumber" && !publicExport)
  {
    ToValueLookups(m, publicExport);
    hide SetPath, Lookup, VersionValues, Ascending, TypeName, PurposeName;
    FieldsDiffer();
    if key !in {"name", "type", "purpose", "encrypted", "versions", "nextKeyVersionNumber"} {
      var e1 := SetPath([], "name", String(m.name));
      var e2 := SetPath(e1, "type", String(TypeName(m.keyType)));
      var e3 := SetPath(e2, "purpose", String(PurposeName(m.purpose)));
      var e4 := SetPath(e3, "encrypted", Boolean(m.encrypted));
      var e5 := if publicExport then e4 else SetPath(e4, "nextKeyVersionNumber", Integer(m.next));
      NothingThere(key);
      OtherField([], "name", String(m.name), key);
      OtherField(e1, "type", String(TypeName(m.keyType)), key);
      OtherField(e2, "purpose", String(PurposeName(m.purpose)), key);
      OtherField(e3, "encrypted", Boolean(m.encrypted), key);
      OtherField(e4, "nextKeyVersionNumber", Integer(m.next), key);
      OtherField(e5, "versions", List(VersionValues(m, Ascending(m.versions.Keys))), key);
    }
  }

  /** The versions are written in ascending order of their numbers, each with its three fields and no other. */
  lemma {:induction false} VersionsWritten(m: MetadataInfo, numbers: seq<int>, i: nat, key: string)
    requires (forall n :: n in numbers ==> n in m.versions) && i < |numbers|
    ensures numbers[i] in numbers && |VersionValues(m, numbers)| == |numbers|
    ensures var v := VersionValues(m, numbers)[i];
            && VersionToValue(m.versions[numbers[i]]) == v && v.Dictionary?
            && (Lookup(v.entries, key).Some? <==> key in {"versionNumber", "status", "exportable"})
            && VersionFromValue(v) == (if m.versions[numbers[i]].number < 0 then None else Some(m.versions[numbers[i]]))
    decreases |numbers|
  {
    hide VersionToValue, VersionFromValue, Lookup;
    if i == 0 {
      VersionWritten(m.versions[numbers[0]], key);
      SameLength(m, numbers);
    } else {
      VersionsWritten(m, numbers[1..], i - 1, key);
    }
  }

  lemma {:induction false} SameLength(m: MetadataInfo, numbers: seq<int>)
    requires forall n :: n in numbers ==> n in m.versions
    ensures |VersionValues(m, numbers)| == |numbers|
  {
    hide VersionToValue;
    if numbers != [] {
      SameLength(m, numbers[1..]);
    }
  }

  lemma VersionWritten(v: VersionInfo, key: string)
    ensures VersionToValue(v).Dictionary?
    ensures Lookup(VersionToValue(v).entries, key).Some? <==> key in {"versionNumber", "status", "exportable"}
    ensures VersionFromValue(VersionToValue(v)) == if v.number < 0 then None else Some(v)
  {
    hide SetPath, Lookup, StatusName, VersionFromValue;
    var e := VersionToValue(v).entries;
    VersionFields(e, Integer(v.number), String(StatusName(v.status)), Boolean(v.exportable));
    VersionFieldNames();
    if v.number >= 0 {
      VersionRoundTrip(v);
    } else {
      NegativeIsNotRead(e, v);
    }
    if key !in {"versionNumber", "status", "exportable"} {
      var e1 := SetPath([], "versionNumber", Integer(v.number));
      var e2 := SetPath(e1, "status", String(StatusName(v.status)));
      NothingThere(key);
      OtherField([], "versionNumber", Integer(v.number), key);
      OtherField(e1, "status", String(StatusName(v.status)), key);
      OtherField(e2, "exportable", Boolean(v.exportable), key);
    }
  }

  lemma NegativeIsNotRead(e: seq<Entry>, v: VersionInfo)
    requires Lookup(e, "versionNumber") == Some(Integer(v.number)) && v.number < 0
    ensures VersionFromValue(Dictionary(e)).None?
  {
    hide Lookup;
  }

  // ---------------------------------------------------------------- versions added one after the other

  /** How many versions ask for a number. */
  function Unnumbered(infos: seq<VersionInfo>): nat {
    if infos == [] then 0 else (if infos[0].number == 0 then 1 else 0) + Unnumbered(infos[1..])
  }

  /** The number of a version among others: its own, or the counter moved on once for each before it that has none. */
  function NumberAt(next: int, infos: seq<VersionInfo>, i: nat): int
    requires i < |infos|
  {
    if infos[i].number != 0 then infos[i].number else next + Unnumbered(infos[..i])
  }

  lemma NumberLater(next: int, infos: seq<VersionInfo>, i: nat)
    requires i + 1 < |infos|
    ensures NumberAt(next, infos, i + 1)
         == NumberAt(if infos[0].number == 0 then next + 1 else next, infos[1..], i)
  {
    assert infos[..i + 1] == [infos[0]] + infos[1..][..i];
    assert infos[..i + 1][1..] == infos[1..][..i];
  }

  predicate AllFree(m: MetadataInfo, infos: seq<VersionInfo>) {
    forall i :: 0 <= i < |infos| ==> NumberAt(m.next, infos, i) !in m.versions
  }

  predicate AllDifferent(next: int, infos: seq<VersionInfo>) {
    forall i, j :: 0 <= i < j < |infos| ==> NumberAt(next, infos, i) != NumberAt(next, infos, j)
  }

  ghost predicate AllRead(values: seq<Value>, infos: seq<VersionInfo>) {
    |values| == |infos| && forall i :: 0 <= i < |values| ==> VersionFromValue(values[i]) == Some(infos[i])
  }

  /** The metadata with all the versions, each under its number, and nothing else changed but the counter. */
  ghost predicate AllAdded(m: MetadataInfo, infos: seq<VersionInfo>, m': MetadataInfo) {
    && m' == m.(next := m.next + Unnumbered(infos), versions := m'.versions)
    && (forall i :: 0 <= i < |infos| ==>
          var n := NumberAt(m.next, infos, i); n in m'.versions && m'.versions[n] == infos[i].(number := n))
    && (forall n :: n in m.versions ==> n in m'.versions && m'.versions[n] == m.versions[n])
    && (forall n :: n in m'.versions ==> n in m.versions || exists i :: 0 <= i < |infos| && n == NumberAt(m.next, infos, i))
  }

  /** The least bound that is above all the numbers and not below another bound. */
  ghost predicate IsBound(next: int, infos: seq<VersionInfo>, least: int, r: int) {
    && r >= least && (forall i :: 0 <= i < |infos| ==> r > NumberAt(next, infos, i))
    && (r == least || exists i :: 0 <= i < |infos| && r == NumberAt(next, infos, i) + 1)
  }

  /** The first version added, and the numbers of the others from there on. */
  lemma FirstAdded(m: MetadataInfo, infos: seq<VersionInfo>)
    requires infos != []
    ensures var (m', ok) := AddVersion(m, infos[0]);
            && AssignedNumber(m, infos[0]) == NumberAt(m.next, infos, 0)
            && ok == (NumberAt(m.next, infos, 0) !in m.versions)
            && m'.next == m.next + Unnumbered(infos[..1])
            && forall i :: 0 <= i < |infos| - 1 ==> NumberAt(m'.next, infos[1..], i) == NumberAt(m.next, infos, i + 1)
  {
    assert infos[..1][1..] == [] && infos[..0] == [];
    forall i | 0 <= i < |infos| - 1
      ensures NumberAt(AddVersion(m, infos[0]).0.next, infos[1..], i) == NumberAt(m.next, infos, i + 1) {
      NumberLater(m.next, infos, i);
    }
  }

  /** The conditions for all versions, from those for the first and for the others. */
  lemma FreeAndDifferent(m: MetadataInfo, infos: seq<VersionInfo>)
    requires infos != []
    ensures var (m', ok) := AddVersion(m, infos[0]);
            AllFree(m, infos) && AllDifferent(m.next, infos) <==>
            ok && AllFree(m', infos[1..]) && AllDifferent(m'.next, infos[1..])
  {
    FirstAdded(m, infos);
    var (m', ok) := AddVersion(m, infos[0]);
    var n := NumberAt(m.next, infos, 0);
    hide NumberAt;
    if ok {
      assert forall k :: k in m'.versions <==> k in m.versions || k == n;
      if AllFree(m', infos[1..]) && AllDifferent(m'.next, infos[1..]) {
        assert forall i :: 0 < i < |infos| ==> NumberAt(m.next, infos, i) == NumberAt(m'.next, infos[1..], i - 1);
      }
    }
  }

  /**
   A list of versions is added exactly when all of them can be read and their numbers, assigned in turn where there
   are none, are free and different; then each is there under its number.
   */
  lemma {:induction false} AddedTogether(m: MetadataInfo, least: int, values: seq<Value>, infos: seq<VersionInfo>)
    requires AllRead(values, infos)
    ensures AddValues(m, least, values).Some? <==> AllFree(m, infos) && AllDifferent(m.next, infos)
    ensures AddValues(m, least, values).Some? ==>
              var (m', r) := AddValues(m, least, values).value;
              AllAdded(m, infos, m') && IsBound(m.next, infos, least, r)
    decreases |values|
  {
    hide VersionFromValue, AllFree, AllDifferent, AllAdded, IsBound, AddVersion, NumberAt;
    if values == [] {
      NothingAdded(m, least, infos);
    } else {
      var v := infos[0];
      var (m', ok) := AddVersion(m, v);
      FreeAndDifferent(m, infos);
      if ok {
        var bound := Max(least, AssignedNumber(m, v) + 1);
        AddedTogether(m', bound, values[1..], infos[1..]);
        var rest := AddValues(m', bound, values[1..]);
        if rest.Some? {
          AddedMore(m, infos, rest.value.0);
          BoundMore(m, infos, least, rest.value.1);
        }
      }
    }
  }

  lemma NothingAdded(m: MetadataInfo, least: int, infos: seq<VersionInfo>)
    requires infos == []
    ensures AllFree(m, infos) && AllDifferent(m.next, infos) && AllAdded(m, infos, m) && IsBound(m.next, infos, least, least)
  {
  }

  lemma AddedMore(m: MetadataInfo, infos: seq<VersionInfo>, last: MetadataInfo)
    requires infos != [] && AddVersion(m, infos[0]).1
    requires AllAdded(AddVersion(m, infos[0]).0, infos[1..], last)
    ensures AllAdded(m, infos, last)
  {
    FirstAdded(m, infos);
    var m' := AddVersion(m, infos[0]).0;
    var n := NumberAt(m.next, infos, 0);
    assert infos[..1][1..] == [];
    assert m'.versions == m.versions[n := infos[0].(number := n)];
    hide NumberAt;
    forall i | 0 <= i < |infos|
      ensures var k := NumberAt(m.next, infos, i); k in last.versions && last.versions[k] == infos[i].(number := k) {
      if i > 0 {
        assert NumberAt(m.next, infos, i) == NumberAt(m'.next, infos[1..], i - 1);
      } else {
        assert n in m'.versions;
      }
    }
    forall k | k in last.versions
      ensures k in m.versions || exists i :: 0 <= i < |infos| && k == NumberAt(m.next, infos, i) {
      if k !in m'.versions {
        var i :| 0 <= i < |infos[1..]| && k == NumberAt(m'.next, infos[1..], i);
        assert k == NumberAt(m.next, infos, i + 1);
      }
    }
  }

  lemma BoundMore(m: MetadataInfo, infos: seq<VersionInfo>, least: int, r: int)
    requires infos != []
    requires IsBound(AddVersion(m, infos[0]).0.next, infos[1..], Max(least, AssignedNumber(m, infos[0]) + 1), r)
    ensures IsBound(m.next, infos, least, r)
  {
    FirstAdded(m, infos);
    var m' := AddVersion(m, infos[0]).0;
    hide NumberAt;
    forall i | 0 <= i < |infos| ensures r > NumberAt(m.next, infos, i) {
      if i > 0 {
        assert NumberAt(m.next, infos, i) == NumberAt(m'.next, infos[1..], i - 1);
      }
    }
    if r != least && r != NumberAt(m.next, infos, 0) + 1 {
      var i :| 0 <= i < |infos[1..]| && r == NumberAt(m'.next, infos[1..], i) + 1;
      assert r == NumberAt(m.next, infos, i + 1) + 1;
    }
  }

  /** A version that cannot be read makes the whole list fail. */
  lemma {:induction false} UnreadableFails(m: MetadataInfo, least: int, values: seq<Value>, i: nat)
    requires i < |values| && VersionFromValue(values[i]).None?
    ensures AddValues(m, least, values).None?
    decreases |values|
  {
    hide VersionFromValue;
    if i > 0 && VersionFromValue(values[0]).Some? {
      var v := VersionFromValue(values[0]).value;
      UnreadableFails(AddVersion(m, v).0, Max(least, AssignedNumber(m, v) + 1), values[1..], i - 1);
    }
  }

  // ---------------------------------------------------------------- which values are metadata

  /** All versions of a list, if all of them can be read. */
  function Infos(values: seq<Value>): (r: Option<seq<VersionInfo>>)
    ensures r.Some? ==> AllRead(values, r.value)
    ensures r.None? ==> exists i :: 0 <= i < |values| && VersionFromValue(values[i]).None?
  {
    if values == [] then Some([])
    else
      match (VersionFromValue(values[0]), Infos(values[1..]))
      case (Some(v), Some(rest)) => Some([v] + rest)
      case (None, _) => assert VersionFromValue(values[0]).None?; None
      case (_, None) =>
        assert exists i :: 0 <= i < |values[1..]| && VersionFromValue(values[1..][i]).None? && VersionFromValue(values[i + 1]).None?;
        None
  }

  /** The fields that metadata cannot do without, and the counter it may have. */
  ghost predicate HasFields(e: seq<Entry>, name: string, keyType: KeyType, purpose: Purpose, encrypted: bool,
                            counter: Option<int>, values: seq<Value>) {
    && Lookup(e, "name") == Some(String(name))
    && Lookup(e, "type") == Some(String(TypeName(keyType)))
    && Lookup(e, "purpose") == Some(String(PurposeName(purpose)))
    && Lookup(e, "encrypted") == Some(Boolean(encrypted))
    && Lookup(e, "nextKeyVersionNumber") == (if counter.Some? then Some(Integer(counter.value)) else None)
    && Lookup(e, "versions") == Some(List(values))
  }

  /** What a value with all fields is read as. */
  lemma ReadFields(e: seq<Entry>, name: string, keyType: KeyType, purpose: Purpose, encrypted: bool, counter: Option<int>,
                   values: seq<Value>)
    requires HasFields(e, name, keyType, purpose, encrypted, counter, values)
    ensures var next := if counter.Some? then counter.value else 1;
            var r := AddValues(MetadataInfo(name, keyType, purpose, encrypted, next, map[]), 1, values);
            FromValue(Dictionary(e)) ==
            if next <= 0 || r.None? then None
            else Some(if counter.Some? then r.value.0 else r.value.0.(next := r.value.1))
  {
    NamesRoundTrip(PRIMARY, keyType, purpose);
    hide AddValues, Lookup, TypeName, PurposeName, TypeFromName, PurposeFromName;
  }

  /** A value that is read has all fields. */
  lemma FieldsRead(e: seq<Entry>)
    returns (name: string, keyType: KeyType, purpose: Purpose, encrypted: bool, counter: Option<int>, values: seq<Value>)
    requires FromValue(Dictionary(e)).Some?
    ensures HasFields(e, name, keyType, purpose, encrypted, counter, values)
  {
    hide AddValues, Lookup, TypeName, PurposeName, TypeFromName, PurposeFromName;
    name, encrypted, values := GetString(e, "name").value, GetBoolean(e, "encrypted").value, GetList(e, "versions").value;
    var typeName, purposeName := GetString(e, "type").value, GetString(e, "purpose").value;
    keyType, purpose := TypeFromName(typeName).value, PurposeFromName(purposeName).value;
    counter := if Lookup(e, "nextKeyVersionNumber").Some? then GetInteger(e, "nextKeyVersionNumber") else None;
    NamesFound(typeName, purposeName);
  }

  lemma NamesFound(typeName: string, purposeName: string)
    ensures TypeFromName(typeName).Some? ==> TypeName(TypeFromName(typeName).value) == typeName
    ensures PurposeFromName(purposeName).Some? ==> PurposeName(PurposeFromName(purposeName).value) == purposeName
  {
  }

  /** The metadata that fields and readable versions stand for. */
  ghost predicate Describes(e: seq<Entry>, infos: seq<VersionInfo>, m: MetadataInfo) {
    exists counter: Option<int>, values ::
      && HasFields(e, m.name, m.keyType, m.purpose, m.encrypted, counter, values) && AllRead(values, infos)
      && (counter.Some? ==> counter.value > 0 && m.next == counter.value + Unnumbered(infos))
      && (counter.None? ==> IsBound(1, infos, 1, m.next))
      && Listed(if counter.Some? then counter.value else 1, infos, m.versions)
  }

  /** The versions have different numbers, and the map holds each of them under its number and nothing else. */
  ghost predicate Listed(next: int, infos: seq<VersionInfo>, versions: map<int, VersionInfo>) {
    && AllDifferent(next, infos)
    && (forall i :: 0 <= i < |infos| ==>
          var n := NumberAt(next, infos, i); n in versions && versions[n] == infos[i].(number := n))
    && (forall n :: n in versions ==> exists i :: 0 <= i < |infos| && n == NumberAt(next, infos, i))
  }

  /** A value is read as some metadata exactly when its fields and versions describe that metadata. */
  lemma FromValueMeans(e: seq<Entry>, m: MetadataInfo)
    ensures FromValue(Dictionary(e)) == Some(m) <==> exists infos :: Describes(e, infos, m)
  {
    hide *;
    if FromValue(Dictionary(e)) == Some(m) {
      var infos := DescriptionRead(e, m);
    }
    if infos :| Describes(e, infos, m) {
      DescribedIsRead(e, infos, m);
    }
  }

  lemma DescriptionRead(e: seq<Entry>, m: MetadataInfo) returns (infos: seq<VersionInfo>)
    requires FromValue(Dictionary(e)) == Some(m)
    ensures Describes(e, infos, m)
  {
    var name, keyType, purpose, encrypted, counter, values := FieldsRead(e);
    hide FromValue, HasFields, AddValues, AllRead, NumberAt, IsBound, VersionFromValue, Infos, Listed, AllFree, AllDifferent,
         AllAdded, Unnumbered;
    ReadFields(e, name, keyType, purpose, encrypted, counter, values);
    var next := if counter.Some? then counter.value else 1;
    var empty := MetadataInfo(name, keyType, purpose, encrypted, next, map[]);
    if Infos(values).None? {
      var i :| 0 <= i < |values| && VersionFromValue(values[i]).None?;
      UnreadableFails(empty, 1, values, i);
    }
    infos := Infos(values).value;
    AddedTogether(empty, 1, values, infos);
    var last := AddValues(empty, 1, values).value.0;
    AddedToNothing(empty, infos, last);
  }

  lemma AddedToNothing(empty: MetadataInfo, infos: seq<VersionInfo>, last: MetadataInfo)
    requires empty.versions == map[]
    ensures AllFree(empty, infos)
    ensures AllAdded(empty, infos, last) && AllDifferent(empty.next, infos) <==>
            last == empty.(next := empty.next + Unnumbered(infos), versions := last.versions) && Listed(empty.next, infos, last.versions)
  {
    hide NumberAt, Unnumbered, AllDifferent;
  }

  lemma DescribedIsRead(e: seq<Entry>, infos: seq<VersionInfo>, m: MetadataInfo)
    requires Describes(e, infos, m)
    ensures FromValue(Dictionary(e)) == Some(m)
  {
    var counter: Option<int>, values :|
      && HasFields(e, m.name, m.keyType, m.purpose, m.encrypted, counter, values) && AllRead(values, infos)
      && (counter.Some? ==> counter.value > 0 && m.next == counter.value + Unnumbered(infos))
      && (counter.None? ==> IsBound(1, infos, 1, m.next))
      && Listed(if counter.Some? then counter.value else 1, infos, m.versions);
    hide *;
    ReadFields(e, m.name, m.keyType, m.purpose, m.encrypted, counter, values);
    ReadAsListed(m, infos, counter, values);
  }

  lemma ReadAsListed(m: MetadataInfo, infos: seq<VersionInfo>, counter: Option<int>, values: seq<Value>)
    requires AllRead(values, infos)
    requires counter.Some? ==> counter.value > 0 && m.next == counter.value + Unnumbered(infos)
    requires counter.None? ==> IsBound(1, infos, 1, m.next)
    requires Listed(if counter.Some? then counter.value else 1, infos, m.versions)
    ensures var next := if counter.Some? then counter.value else 1;
            var r := AddValues(MetadataInfo(m.name, m.keyType, m.purpose, m.encrypted, next, map[]), 1, values);
            r.Some? && m == if counter.Some? then r.value.0 else r.value.0.(next := r.value.1)
  {
    hide *;
    var next := if counter.Some? then counter.value else 1;
    var empty := MetadataInfo(m.name, m.keyType, m.purpose, m.encrypted, next, map[]);
    var last := empty.(next := next + Unnumbered(infos), versions := m.versions);
    AddedToNothing(empty, infos, last);
    AddedTogether(empty, 1, values, infos);
    var r := AddValues(empty, 1, values).value;
    AddedToNothing(empty, infos, r.0);
    SameVersions(next, infos, r.0.versions, m.versions);
    if counter.None? {
      SameBound(1, infos, 1, r.1, m.next);
    }
  }

  lemma SameVersions(next: int, infos: seq<VersionInfo>, a: map<int, VersionInfo>, b: map<int, VersionInfo>)
    requires Listed(next, infos, a) && Listed(next, infos, b)
    ensures a == b
  {
    SameWhereBoth(next, infos, a, b);
    SameWhereBoth(next, infos, b, a);
    SameMap(a, b);
  }

  lemma SameMap(a: map<int, VersionInfo>, b: map<int, VersionInfo>)
    requires forall n :: n in a ==> n in b
    requires forall n :: n in b ==> n in a
    requires forall n :: n in a && n in b ==> a[n] == b[n]
    ensures a == b
  {
    assert a.Keys == b.Keys by { assert forall n :: n in a.Keys <==> n in b.Keys; }
    assert forall n | n in a.Keys :: n in b.Keys && a[n] == b[n];
  }

  lemma SameWhereBoth(next: int, infos: seq<VersionInfo>, a: map<int, VersionInfo>, b: map<int, VersionInfo>)
    requires Listed(next, infos, a) && Listed(next, infos, b)
    ensures forall n :: n in a ==> n in b
    ensures forall n :: n in a && n in b ==> a[n] == b[n]
  {
    hide NumberAt, AllDifferent;
    forall n | n in a ensures n in b && b[n] == a[n] {
      var i :| 0 <= i < |infos| && n == NumberAt(next, infos, i);
      var info := infos[i];
      assert a[n] == info.(number := n) && b[n] == info.(number := n);
    }
  }

  lemma SameBound(next: int, infos: seq<VersionInfo>, least: int, a: int, b: int)
    requires IsBound(next, infos, least, a) && IsBound(next, infos, least, b)
    ensures a == b
  {
    NoBoundBelow(next, infos, least, a, b);
    NoBoundBelow(next, infos, least, b, a);
  }

  lemma NoBoundBelow(next: int, infos: seq<VersionInfo>, least: int, a: int, b: int)
    requires IsBound(next, infos, least, a) && IsBound(next, infos, least, b)
    ensures a <= b
  {
    hide NumberAt;
    if a != least {
      var i :| 0 <= i < |infos| && a == NumberAt(next, infos, i) + 1;
      assert b > NumberAt(next, infos, i);
    }
  }
}
