/** Metadata written as JSON text and read back. */
module MetadataText {
  import opened Prelude
  import opened JsonText
  import opened JsonGrammar
  import opened JsonRoundTrip
  import opened JsonDocument
  import opened JsonParsed
  import opened Metadata

  /** A value that can be printed and parsed: well formed, valid UTF-8, of bounded height. */
  ghost predicate Printable(v: Value, h: nat) {
    WellFormed(v) && ValidStrings(v) && Height(v) <= h
  }

  ghost predicate PrintableEntries(entries: seq<Entry>, h: nat) {
    WellFormedEntries(entries) && forall e :: e in entries ==> IsUtf8(e.key) && ValidStrings(e.value) && Height(e.value) <= h
  }

  lemma SetPrintable(entries: seq<Entry>, key: string, value: Value, h: nat)
    requires PrintableEntries(entries, h) && Printable(value, h) && '.' !in key && IsUtf8(key)
    ensures PrintableEntries(SetPath(entries, key, value), h)
  {
    hide WellFormed, WellFormedEntries, ValidStrings, IsUtf8, Height;
    NoDot(key);
    SetKeyWellFormed(entries, key, value);
    SetKeyMembers(entries, key, value);
  }

  lemma {:induction false} SetKeyMembers(entries: seq<Entry>, key: string, value: Value)
    ensures forall e :: e in SetKey(entries, key, value) ==> e == Entry(key, value) || e in entries
  {
    hide Less;
    if entries != [] {
      SetKeyMembers(entries[1..], key, value);
    }
  }

  lemma {:induction false} EntriesHeightBound(entries: seq<Entry>, h: nat)
    requires forall e :: e in entries ==> Height(e.value) <= h
    ensures EntriesHeight(entries) <= h
  {
    hide Height;
    EntriesHeightStep(entries);
    if entries != [] {
      var e := entries[0];
      assert e in entries;
      EntriesHeightBound(entries[1..], h);
    }
  }

  lemma DictionaryPrintable(entries: seq<Entry>, h: nat)
    requires PrintableEntries(entries, h)
    ensures Printable(Dictionary(entries), h + 1)
  {
    EntriesHeightBound(entries, h);
    DictionaryWellFormed(entries);
  }

  lemma NothingPrintable(h: nat)
    ensures PrintableEntries([], h)
  {
  }

  lemma NameIsUtf8(name: string)
    requires IsAscii(name)
    ensures IsUtf8(name) && Printable(String(name), 1)
  {
    AsciiIsUtf8(name);
  }

  lemma StatusPrintable(s: Status)
    ensures Printable(String(StatusName(s)), 1)
  {
    hide IsUtf8;
    NameIsUtf8(StatusName(s));
  }

  lemma TypePrintable(t: KeyType)
    ensures Printable(String(TypeName(t)), 1)
  {
    hide IsUtf8, Printable;
    NameIsUtf8(TypeName(t));
  }

  lemma PurposePrintable(p: Purpose)
    ensures Printable(String(PurposeName(p)), 1)
  {
    hide IsUtf8, Printable;
    match p
    case DECRYPT_AND_ENCRYPT => NameIsUtf8("DECRYPT_AND_ENCRYPT");
    case ENCRYPT => NameIsUtf8("ENCRYPT");
    case SIGN_AND_VERIFY => NameIsUtf8("SIGN_AND_VERIFY");
    case VERIFY => NameIsUtf8("VERIFY");
  }

  lemma FieldNamesAreAscii()
    ensures IsAscii("name") && IsAscii("type") && IsAscii("purpose") && IsAscii("encrypted") && IsAscii("versions")
  {
  }

  lemma VersionFieldsAreAscii()
    ensures IsAscii("nextKeyVersionNumber") && IsAscii("versionNumber") && IsAscii("status") && IsAscii("exportable")
  {
  }

  lemma FieldNamesAreUtf8()
    ensures IsUtf8("name") && IsUtf8("type") && IsUtf8("purpose") && IsUtf8("encrypted") && IsUtf8("versions")
    ensures IsUtf8("nextKeyVersionNumber") && IsUtf8("versionNumber") && IsUtf8("status") && IsUtf8("exportable")
  {
    FieldNamesAreAscii();
    VersionFieldsAreAscii();
    hide IsUtf8, IsAscii;
    AsciiIsUtf8("name");
    AsciiIsUtf8("type");
    AsciiIsUtf8("purpose");
    AsciiIsUtf8("encrypted");
    AsciiIsUtf8("versions");
    AsciiIsUtf8("nextKeyVersionNumber");
    AsciiIsUtf8("versionNumber");
    AsciiIsUtf8("status");
    AsciiIsUtf8("exportable");
  }

  lemma VersionFieldsHaveNoDot()
    ensures '.' !in "versionNumber" && '.' !in "status" && '.' !in "exportable"
  {
  }

  lemma LeavesPrintable(s: string, n: int, b: bool)
    requires IsUtf8(s) && INT32_MIN <= n <= INT32_MAX
    ensures Printable(String(s), 1) && Printable(Integer(n), 1) && Printable(Boolean(b), 1)
  {
  }

  lemma VersionPrintable(v: VersionInfo)
    requires INT32_MIN <= v.number <= INT32_MAX
    ensures Printable(VersionToValue(v), 2)
  {
    hide SetPath, Printable, PrintableEntries, IsUtf8, StatusName;
    FieldNamesAreUtf8();
    VersionFieldsHaveNoDot();
    StatusPrintable(v.status);
    LeavesPrintable("name", v.number, v.exportable);
    NothingPrintable(1);
    var e1 := SetPath([], "versionNumber", Integer(v.number));
    var e2 := SetPath(e1, "status", String(StatusName(v.status)));
    SetPrintable([], "versionNumber", Integer(v.number), 1);
    SetPrintable(e1, "status", String(StatusName(v.status)), 1);
    SetPrintable(e2, "exportable", Boolean(v.exportable), 1);
    DictionaryPrintable(SetPath(e2, "exportable", Boolean(v.exportable)), 1);
  }

  lemma {:induction false} VersionsPrintable(m: MetadataInfo, numbers: seq<int>)
    requires forall n :: n in numbers ==> n in m.versions && INT32_MIN <= m.versions[n].number <= INT32_MAX
    ensures Printable(List(VersionValues(m, numbers)), 3)
    decreases |numbers|
  {
    hide VersionToValue, Printable;
    if numbers == [] {
      NoItemsPrintable();
    } else {
      var n := numbers[0];
      assert n in numbers;
      VersionPrintable(m.versions[n]);
      VersionsPrintable(m, numbers[1..]);
      ListCons(VersionToValue(m.versions[n]), VersionValues(m, numbers[1..]));
    }
  }

  lemma NoItemsPrintable()
    ensures Printable(List([]), 3)
  {
  }

  lemma ListCons(item: Value, items: seq<Value>)
    requires Printable(item, 2) && Printable(List(items), 3)
    ensures Printable(List([item] + items), 3)
  {
    var all := [item] + items;
    assert all[0] == item && all[1..] == items;
    ItemsHeightStep(all);
    forall i | i in all ensures WellFormed(i) && ValidStrings(i) {
      assert i == item || i in items;
    }
  }

  /** Raising the bound on the height. */
  lemma Raise(v: Value, h: nat, h': nat)
    requires Printable(v, h) && h <= h'
    ensures Printable(v, h')
  {
  }

  lemma ToValuePrintable(m: MetadataInfo, publicExport: bool)
    requires IsUtf8(m.name) && INT32_MIN <= m.next <= INT32_MAX
    requires forall n :: n in m.versions ==> INT32_MIN <= m.versions[n].number <= INT32_MAX
    ensures Printable(ToValue(m, publicExport), 4) && IsContainer(ToValue(m, publicExport))
  {
    hide SetPath, Printable, PrintableEntries, IsUtf8, VersionValues, Ascending, TypeName, PurposeName;
    FieldNamesAreUtf8();
    FieldsDiffer();
    TypePrintable(m.keyType);
    PurposePrintable(m.purpose);
    LeavesPrintable(m.name, m.next, m.encrypted);
    Raise(String(m.name), 1, 3);
    Raise(String(TypeName(m.keyType)), 1, 3);
    Raise(String(PurposeName(m.purpose)), 1, 3);
    Raise(Boolean(m.encrypted), 1, 3);
    Raise(Integer(m.next), 1, 3);
    var numbers := Ascending(m.versions.Keys);
    VersionsPrintable(m, numbers);
    var list := List(VersionValues(m, numbers));
    NothingPrintable(3);
    var e1 := SetPath([], "name", String(m.name));
    var e2 := SetPath(e1, "type", String(TypeName(m.keyType)));
    var e3 := SetPath(e2, "purpose", String(PurposeName(m.purpose)));
    var e4 := SetPath(e3, "encrypted", Boolean(m.encrypted));
    var e5 := if publicExport then e4 else SetPath(e4, "nextKeyVersionNumber", Integer(m.next));
    SetPrintable([], "name", String(m.name), 3);
    SetPrintable(e1, "type", String(TypeName(m.keyType)), 3);
    SetPrintable(e2, "purpose", String(PurposeName(m.purpose)), 3);
    SetPrintable(e3, "encrypted", Boolean(m.encrypted), 3);
    SetPrintable(e4, "nextKeyVersionNumber", Integer(m.next), 3);
    SetPrintable(e5, "versions", list, 3);
    DictionaryPrintable(SetPath(e5, "versions", list), 3);
  }

  /**
   Metadata survives its JSON text: written compactly or prettily and read back by the strict or the lenient
   parser, it is the same, and in a public export it is the same up to the counter.
   */
  lemma MetadataSurvivesText(m: MetadataInfo, publicExport: bool, pretty: bool, trailing: bool)
    requires ValidMetadata(m) && IsUtf8(m.name) && m.next <= INT32_MAX
    requires forall n :: n in m.versions ==> n <= INT32_MAX
    ensures var read := Read(Write(ToValue(m, publicExport), pretty), trailing);
            && read.Some?
            && FromValue(read.value) == Some(if publicExport then m.(next := ComputedCounter(m)) else m)
  {
    hide ToValue, FromValue, ComputedCounter, IsUtf8, Write, Read;
    ToValuePrintable(m, publicExport);
    WriteThenRead(ToValue(m, publicExport), pretty, trailing);
    FromValueInvertsToValue(m, publicExport);
  }
}
