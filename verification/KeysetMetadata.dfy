/** The metadata of a keyset: its versions, the counter for new ones, and its form as a JSON value. */
module Metadata {
  import opened Prelude
  import opened JsonText
  import opened JsonGrammar
  import opened JsonRoundTrip
  import opened JsonDocument
  import opened JsonParsed

  datatype Status = PRIMARY | ACTIVE | INACTIVE

  datatype KeyType = AES | HMAC | DSA_PRIV | DSA_PUB | ECDSA_PRIV | ECDSA_PUB | RSA_PRIV | RSA_PUB

  datatype Purpose = DECRYPT_AND_ENCRYPT | ENCRYPT | SIGN_AND_VERIFY | VERIFY

  /** The value of a key version; number 0 stands for a number still to be assigned. */
  datatype VersionInfo = VersionInfo(number: int, status: Status, exportable: bool)

  /** The value of a keyset's metadata. */
  datatype MetadataInfo = MetadataInfo(
    name: string, keyType: KeyType, purpose: Purpose, encrypted: bool, next: int, versions: map<int, VersionInfo>)

  // ---------------------------------------------------------------- names

  function StatusName(s: Status): string {
    match s
    case PRIMARY => "PRIMARY"
    case ACTIVE => "ACTIVE"
    case INACTIVE => "INACTIVE"
  }

  function StatusFromName(name: string): Option<Status> {
    if name == "PRIMARY" then Some(PRIMARY)
    else if name == "ACTIVE" then Some(ACTIVE)
    else if name == "INACTIVE" then Some(INACTIVE)
    else None
  }

  function TypeName(t: KeyType): string {
    match t
    case AES => "AES"
    case HMAC => "HMAC"
    case DSA_PRIV => "DSA_PRIV"
    case DSA_PUB => "DSA_PUB"
    case ECDSA_PRIV => "ECDSA_PRIV"
    case ECDSA_PUB => "ECDSA_PUB"
    case RSA_PRIV => "RSA_PRIV"
    case RSA_PUB => "RSA_PUB"
  }

  function TypeFromName(name: string): Option<KeyType> {
    if name == "AES" then Some(AES)
    else if name == "HMAC" then Some(HMAC)
    else if name == "DSA_PRIV" then Some(DSA_PRIV)
    else if name == "DSA_PUB" then Some(DSA_PUB)
    else if name == "ECDSA_PRIV" then Some(ECDSA_PRIV)
    else if name == "ECDSA_PUB" then Some(ECDSA_PUB)
    else if name == "RSA_PRIV" then Some(RSA_PRIV)
    else if name == "RSA_PUB" then Some(RSA_PUB)
    else None
  }

  function PurposeName(p: Purpose): string {
    match p
    case DECRYPT_AND_ENCRYPT => "DECRYPT_AND_ENCRYPT"
    case ENCRYPT => "ENCRYPT"
    case SIGN_AND_VERIFY => "SIGN_AND_VERIFY"
    case VERIFY => "VERIFY"
  }

  function PurposeFromName(name: string): Option<Purpose> {
    if name == "DECRYPT_AND_ENCRYPT" then Some(DECRYPT_AND_ENCRYPT)
    else if name == "ENCRYPT" then Some(ENCRYPT)
    else if name == "SIGN_AND_VERIFY" then Some(SIGN_AND_VERIFY)
    else if name == "VERIFY" then Some(VERIFY)
    else None
  }

  lemma NamesRoundTrip(s: Status, t: KeyType, p: Purpose)
    ensures StatusFromName(StatusName(s)) == Some(s)
    ensures TypeFromName(TypeName(t)) == Some(t)
    ensures PurposeFromName(PurposeName(p)) == Some(p)
  {
  }

  // ---------------------------------------------------------------- adding and removing versions

  /** The number that a version gets when it is added. */
  function AssignedNumber(m: MetadataInfo, v: VersionInfo): int {
    if v.number == 0 then m.next else v.number
  }

  /** AddVersion. The counter moves on even when the number turns out to be taken. */
  function AddVersion(m: MetadataInfo, v: VersionInfo): (MetadataInfo, bool) {
    var m' := if v.number == 0 then m.(next := m.next + 1) else m;
    var n := AssignedNumber(m, v);
    if n in m.versions then (m', false)
    else (m'.(versions := m.versions[n := v.(number := n)]), true)
  }

  /** What holds of every metadata object. */
  ghost predicate ValidMetadata(m: MetadataInfo) {
    m.next >= 1 && forall n :: n in m.versions ==> n > 0 && m.versions[n].number == n
  }

  /** No number from the counter on has been used. */
  ghost predicate CounterIsFresh(m: MetadataInfo) {
    forall n :: n in m.versions ==> n < m.next
  }

  // ---------------------------------------------------------------- values

  function GetString(entries: seq<Entry>, key: string): Option<string> {
    match Lookup(entries, key)
    case Some(String(s)) => Some(s)
    case _ => None
  }

  function GetInteger(entries: seq<Entry>, key: string): Option<int> {
    match Lookup(entries, key)
    case Some(Integer(n)) => Some(n)
    case _ => None
  }

  function GetBoolean(entries: seq<Entry>, key: string): Option<bool> {
    match Lookup(entries, key)
    case Some(Boolean(b)) => Some(b)
    case _ => None
  }

  function GetList(entries: seq<Entry>, key: string): Option<seq<Value>> {
    match Lookup(entries, key)
    case Some(List(items)) => Some(items)
    case _ => None
  }

  /** KeyVersion::CreateFromValue. A negative number, on which the program stops, is a failure here. */
  function VersionFromValue(v: Value): Option<VersionInfo> {
    if !v.Dictionary? then None
    else
      match (GetInteger(v.entries, "versionNumber"), GetString(v.entries, "status"), GetBoolean(v.entries, "exportable"))
      case (Some(number), Some(name), Some(exportable)) =>
        (match StatusFromName(name)
         case Some(status) => if number < 0 then None else Some(VersionInfo(number, status, exportable))
         case None => None)
      case _ => None
  }

  function VersionToValue(v: VersionInfo): Value {
    Dictionary(SetPath(SetPath(SetPath([],
      "versionNumber", Integer(v.number)), "status", String(StatusName(v.status))), "exportable", Boolean(v.exportable)))
  }

  /** The versions of a list added one after the other, with the least counter above them all. */
  function AddValues(m: MetadataInfo, least: int, values: seq<Value>): Option<(MetadataInfo, int)>
    decreases |values|
  {
    if values == [] then Some((m, least))
    else
      match VersionFromValue(values[0])
      case None => None
      case Some(v) =>
        var (m', ok) := AddVersion(m, v);
        if !ok then None
        else AddValues(m', Max(least, AssignedNumber(m, v) + 1), values[1..])
  }

  /**
   KeysetMetadata::CreateFromValue. Without a counter in the value, the least one above all versions is taken.
   A counter that is not positive, on which the program stops, is a failure here.
   */
  function FromValue(v: Value): Option<MetadataInfo> {
    if !v.Dictionary? then None
    else
      var e := v.entries;
      match (GetString(e, "name"), GetString(e, "type"), GetString(e, "purpose"), GetBoolean(e, "encrypted"), GetList(e, "versions"))
      case (Some(name), Some(typeName), Some(purposeName), Some(encrypted), Some(values)) =>
        (match (TypeFromName(typeName), PurposeFromName(purposeName))
         case (Some(keyType), Some(purpose)) =>
           var hasNext := Lookup(e, "nextKeyVersionNumber").Some?;
           var next := if hasNext then GetInteger(e, "nextKeyVersionNumber") else Some(1);
           if next.None? || next.value <= 0 then None
           else
             (match AddValues(MetadataInfo(name, keyType, purpose, encrypted, next.value, map[]), 1, values)
              case None => None
              case Some((m, least)) => Some(if hasNext then m else m.(next := least)))
         case _ => None)
      case _ => None
  }

  lemma {:induction false} LeastExists(s: set<int>)
    requires s != {}
    ensures exists n :: IsLeast(s, n)
    decreases |s|
  {
    assert (forall n :: n !in s) ==> s == {};
    var n :| n in s;
    var rest := s - {n};
    if rest == {} {
      assert forall k :: k in s ==> k == n || k in rest;
      assert IsLeast(s, n);
    } else {
      LeastExists(rest);
      var m :| IsLeast(rest, m);
      LeastOfTwo(s, n, m);
    }
  }

  ghost predicate IsLeast(s: set<int>, n: int) {
    n in s && forall k :: k in s ==> n <= k
  }

  lemma LeastOfTwo(s: set<int>, n: int, m: int)
    requires n in s && IsLeast(s - {n}, m)
    ensures IsLeast(s, Min(n, m))
  {
    forall k | k in s ensures Min(n, m) <= k {
      assert k == n || k in s - {n};
    }
  }

  predicate Increasing(numbers: seq<int>) {
    forall i, j :: 0 <= i < j < |numbers| ==> numbers[i] < numbers[j]
  }

  function Least(s: set<int>): (n: int)
    requires s != {}
    ensures n in s && forall k :: k in s ==> n <= k
  {
    LeastExists(s);
    var n :| n in s && forall k :: k in s ==> n <= k;
    n
  }

  lemma IncreasingCons(n: int, r: seq<int>)
    requires Increasing(r) && forall k :: k in r ==> n < k
    ensures Increasing([n] + r)
  {
    var all := [n] + r;
    forall i, j | 0 <= i < j < |all| ensures all[i] < all[j] {
      var k := all[j];
      assert k == r[j - 1] && k in r;
      if i > 0 {
        assert all[i] == r[i - 1];
      }
    }
  }

  /** The numbers in the order in which a sorted map visits them. */
  function Ascending(s: set<int>): (r: seq<int>)
    ensures forall n :: n in r <==> n in s
    ensures Increasing(r)
    decreases |s|
  {
    if s == {} then []
    else
      var n := Least(s);
      var r := Ascending(s - {n});
      IncreasingCons(n, r);
      [n] + r
  }

  function VersionValues(m: MetadataInfo, numbers: seq<int>): seq<Value>
    requires forall n :: n in numbers ==> n in m.versions
  {
    if numbers == [] then []
    else
      var n := numbers[0];
      assert n in numbers;
      [VersionToValue(m.versions[n])] + VersionValues(m, numbers[1..])
  }

  /** The fields that are always written, set one after the other. */
  function Fields(name: Value, keyType: Value, purpose: Value, encrypted: Value): seq<Entry> {
    SetPath(SetPath(SetPath(SetPath([], "name", name), "type", keyType), "purpose", purpose), "encrypted", encrypted)
  }

  /** KeysetMetadata::GetValue; a public export leaves the counter out. */
  function ToValue(m: MetadataInfo, publicExport: bool): Value {
    var e4 := Fields(String(m.name), String(TypeName(m.keyType)), String(PurposeName(m.purpose)), Boolean(m.encrypted));
    var e5 := if publicExport then e4 else SetPath(e4, "nextKeyVersionNumber", Integer(m.next));
    Dictionary(SetPath(e5, "versions", List(VersionValues(m, Ascending(m.versions.Keys)))))
  }

  // ---------------------------------------------------------------- round trips

  lemma VersionFieldNames()
    ensures '.' !in "versionNumber" && '.' !in "status" && '.' !in "exportable"
    ensures "versionNumber" != "status" && "versionNumber" != "exportable" && "status" != "exportable"
  {
    assert |"versionNumber"| == 13 && |"status"| == 6 && |"exportable"| == 10;
  }

  /** Three fields of different names, looked up. */
  lemma ThreeFields(e: seq<Entry>, a: string, b: string, c: string, x: Value, y: Value, z: Value)
    requires '.' !in a && '.' !in b && '.' !in c && a != b && a != c && b != c
    requires e == SetPath(SetPath(SetPath([], a, x), b, y), c, z)
    ensures Lookup(e, a) == Some(x) && Lookup(e, b) == Some(y) && Lookup(e, c) == Some(z)
  {
    hide SetPath, Lookup;
    var e1 := SetPath([], a, x);
    var e2 := SetPath(e1, b, y);
    LookupSetPath([], a, x);
    LookupSetPath(e1, b, y);
    LookupSetPath(e2, c, z);
  }

  /** The fields of a version, looked up. */
  lemma VersionFields(e: seq<Entry>, number: Value, status: Value, exportable: Value)
    requires e == SetPath(SetPath(SetPath([], "versionNumber", number), "status", status), "exportable", exportable)
    ensures Lookup(e, "versionNumber") == Some(number) && Lookup(e, "status") == Some(status)
    ensures Lookup(e, "exportable") == Some(exportable)
  {
    hide SetPath, Lookup;
    VersionFieldNames();
    ThreeFields(e, "versionNumber", "status", "exportable", number, status, exportable);
  }

  lemma VersionRoundTrip(v: VersionInfo)
    requires v.number >= 0
    ensures VersionFromValue(VersionToValue(v)) == Some(v)
  {
    hide SetPath, StatusName, StatusFromName, Lookup;
    VersionFields(VersionToValue(v).entries, Integer(v.number), String(StatusName(v.status)), Boolean(v.exportable));
    NamesRoundTrip(v.status, AES, VERIFY);
  }

  /** The versions of m with the given numbers. */
  ghost function Restricted(m: MetadataInfo, numbers: seq<int>): map<int, VersionInfo>
    requires forall n :: n in numbers ==> n in m.versions
  {
    map n | n in numbers :: m.versions[n]
  }

  /** One more than the greatest number, or 1. */
  ghost function LeastAbove(numbers: seq<int>): int {
    if numbers == [] then 1 else Max(numbers[|numbers| - 1] + 1, 1)
  }

  lemma IncreasingSplit(done: seq<int>, n: int, rest: seq<int>)
    requires Increasing(done + [n] + rest)
    ensures n !in done
    ensures Max(LeastAbove(done), n + 1) == LeastAbove(done + [n])
  {
    var all := done + [n] + rest;
    forall i | 0 <= i < |done| ensures done[i] < n {
      assert all[i] == done[i] && all[|done|] == n;
    }
  }

  lemma RestrictedSnoc(m: MetadataInfo, done: seq<int>, n: int)
    requires forall k :: k in done + [n] ==> k in m.versions
    ensures forall k :: k in done ==> k in m.versions
    ensures Restricted(m, done + [n]) == Restricted(m, done)[n := m.versions[n]]
  {
    assert forall k :: k in done ==> k in done + [n];
    assert n in done + [n];
  }

  /** Adding the values of versions to an object that holds the versions before them. */
  lemma {:induction false} AddValuesRestores(m: MetadataInfo, done: seq<int>, todo: seq<int>, acc: MetadataInfo)
    requires ValidMetadata(m) && Increasing(done + todo)
    requires forall n :: n in done ==> n in m.versions
    requires forall n :: n in todo ==> n in m.versions
    requires acc.versions == Restricted(m, done)
    ensures forall n :: n in done + todo ==> n in m.versions
    ensures AddValues(acc, LeastAbove(done), VersionValues(m, todo))
         == Some((acc.(versions := Restricted(m, done + todo)), LeastAbove(done + todo)))
    decreases |todo|
  {
    hide VersionFromValue, VersionToValue, LeastAbove, Increasing;
    if todo == [] {
      assert done + todo == done;
    } else {
      var n, rest := todo[0], todo[1..];
      assert n in todo && m.versions[n].number == n > 0;
      assert done + [n] + rest == done + todo;
      IncreasingSplit(done, n, rest);
      RestrictedSnoc(m, done, n);
      VersionRoundTrip(m.versions[n]);
      var acc' := AddVersion(acc, m.versions[n]).0;
      assert m.versions[n].(number := n) == m.versions[n];
      AddValuesRestores(m, done + [n], rest, acc');
    }
  }

  /** The names of the metadata's fields are different. */
  lemma FieldsDiffer()
    ensures "name" != "type" && "name" != "purpose" && "name" != "encrypted" && "name" != "versions"
    ensures "type" != "purpose" && "type" != "encrypted" && "type" != "versions"
    ensures "purpose" != "encrypted" && "purpose" != "versions" && "encrypted" != "versions"
    ensures "nextKeyVersionNumber" !in ["name", "type", "purpose", "encrypted", "versions"]
    ensures '.' !in "name" && '.' !in "type" && '.' !in "purpose" && '.' !in "encrypted" && '.' !in "versions"
    ensures '.' !in "nextKeyVersionNumber"
  {
    assert "name"[0] == 'n' && "type"[0] == 't' && "purpose"[0] == 'p' && "encrypted"[0] == 'e' && "versions"[0] == 'v';
    assert |"name"| == 4 && |"nextKeyVersionNumber"| == 20;
    assert "nextKeyVersionNumber"[0] == 'n';
  }

  /** Setting one field keeps another. */
  lemma OtherField(entries: seq<Entry>, key: string, value: Value, other: string)
    requires '.' !in key && other != key
    ensures Lookup(SetPath(entries, key, value), other) == Lookup(entries, other)
  {
    LookupSetPath(entries, key, value);
  }

  lemma ThisField(entries: seq<Entry>, key: string, value: Value)
    requires '.' !in key
    ensures Lookup(SetPath(entries, key, value), key) == Some(value)
  {
    LookupSetPath(entries, key, value);
  }

  lemma FieldLookups(name: Value, keyType: Value, purpose: Value, encrypted: Value)
    ensures var e := Fields(name, keyType, purpose, encrypted);
            && Lookup(e, "name") == Some(name)
            && Lookup(e, "type") == Some(keyType)
            && Lookup(e, "purpose") == Some(purpose)
            && Lookup(e, "encrypted") == Some(encrypted)
            && Lookup(e, "nextKeyVersionNumber") == None
  {
    hide SetPath, Lookup;
    FieldsDiffer();
    var e1 := SetPath([], "name", name);
    var e2 := SetPath(e1, "type", keyType);
    var e3 := SetPath(e2, "purpose", purpose);
    ThisField([], "name", name);
    OtherField(e1, "type", keyType, "name");
    OtherField(e2, "purpose", purpose, "name");
    OtherField(e3, "encrypted", encrypted, "name");
    ThisField(e1, "type", keyType);
    OtherField(e2, "purpose", purpose, "type");
    OtherField(e3, "encrypted", encrypted, "type");
    ThisField(e2, "purpose", purpose);
    OtherField(e3, "encrypted", encrypted, "purpose");
    ThisField(e3, "encrypted", encrypted);
    assert Lookup([], "nextKeyVersionNumber") == None by { NothingThere("nextKeyVersionNumber"); }
    OtherField([], "name", name, "nextKeyVersionNumber");
    OtherField(e1, "type", keyType, "nextKeyVersionNumber");
    OtherField(e2, "purpose", purpose, "nextKeyVersionNumber");
    OtherField(e3, "encrypted", encrypted, "nextKeyVersionNumber");
  }

  lemma NothingThere(key: string)
    ensures Lookup([], key) == None
  {
  }

  lemma ToValueLookups(m: MetadataInfo, publicExport: bool)
    ensures var e := ToValue(m, publicExport).entries;
            && GetString(e, "name") == Some(m.name)
            && GetString(e, "type") == Some(TypeName(m.keyType))
            && GetString(e, "purpose") == Some(PurposeName(m.purpose))
            && GetBoolean(e, "encrypted") == Some(m.encrypted)
            && Lookup(e, "nextKeyVersionNumber") == (if publicExport then None else Some(Integer(m.next)))
            && GetList(e, "versions") == Some(VersionValues(m, Ascending(m.versions.Keys)))
  {
    hide SetPath, Lookup, VersionValues, Ascending, TypeName, PurposeName, Fields;
    FieldsDiffer();
    var e4 := Fields(String(m.name), String(TypeName(m.keyType)), String(PurposeName(m.purpose)), Boolean(m.encrypted));
    FieldLookups(String(m.name), String(TypeName(m.keyType)), String(PurposeName(m.purpose)), Boolean(m.encrypted));
    var e5 := if publicExport then e4 else SetPath(e4, "nextKeyVersionNumber", Integer(m.next));
    var others := ["name", "type", "purpose", "encrypted"];
    var list := List(VersionValues(m, Ascending(m.versions.Keys)));
    ThisField(e4, "nextKeyVersionNumber", Integer(m.next));
    ThisField(e5, "versions", list);
    OtherField(e5, "versions", list, "nextKeyVersionNumber");
    OtherField(e5, "versions", list, "name");
    OtherField(e5, "versions", list, "type");
    OtherField(e5, "versions", list, "purpose");
    OtherField(e5, "versions", list, "encrypted");
    OtherField(e4, "nextKeyVersionNumber", Integer(m.next), "name");
    OtherField(e4, "nextKeyVersionNumber", Integer(m.next), "type");
    OtherField(e4, "nextKeyVersionNumber", Integer(m.next), "purpose");
    OtherField(e4, "nextKeyVersionNumber", Integer(m.next), "encrypted");
  }

  /** The counter that is computed when a value does not carry one. */
  ghost function ComputedCounter(m: MetadataInfo): int {
    LeastAbove(Ascending(m.versions.Keys))
  }

  /**
   Reading back a written value restores the metadata exactly; a public export, which leaves the counter out,
   restores it up to the counter, which becomes the least one above all versions.
   */
  lemma FromValueInvertsToValue(m: MetadataInfo, publicExport: bool)
    requires ValidMetadata(m)
    ensures FromValue(ToValue(m, publicExport)) == Some(if publicExport then m.(next := ComputedCounter(m)) else m)
  {
    hide VersionValues, Ascending, ToValue, TypeName, TypeFromName, PurposeName, PurposeFromName, AddValues, LeastAbove;
    ToValueIsDictionary(m, publicExport);
    ToValueLookups(m, publicExport);
    NamesRoundTrip(PRIMARY, m.keyType, m.purpose);
    var numbers := Ascending(m.versions.Keys);
    var next := if publicExport then 1 else m.next;
    var empty := MetadataInfo(m.name, m.keyType, m.purpose, m.encrypted, next, map[]);
    assert [] + numbers == numbers;
    assert LeastAbove([]) == 1 by { NothingBelow(); }
    AddValuesRestores(m, [], numbers, empty);
    assert forall n :: n in numbers <==> n in m.versions;
    assert Restricted(m, numbers) == m.versions;
    var e := ToValue(m, publicExport).entries;
    var values := VersionValues(m, numbers);
    assert AddValues(empty, 1, values) == Some((empty.(versions := m.versions), LeastAbove(numbers)));
    assert empty.(versions := m.versions) == if publicExport then m.(next := 1) else m;
    assert GetInteger(e, "nextKeyVersionNumber") == if publicExport then None else Some(m.next);
  }

  lemma ToValueIsDictionary(m: MetadataInfo, publicExport: bool)
    ensures ToValue(m, publicExport).Dictionary?
  {
  }

  lemma NothingBelow()
    ensures LeastAbove([]) == 1
  {
  }

  /** Without its counter, metadata comes back unchanged exactly when the counter was the least above all versions. */
  lemma CounterIsLostUnlessLeast(m: MetadataInfo)
    requires ValidMetadata(m)
    ensures FromValue(ToValue(m, true)) == Some(m) <==> m.next == ComputedCounter(m)
  {
    hide FromValue, ToValue;
    FromValueInvertsToValue(m, true);
  }
}
