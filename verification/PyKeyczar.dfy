/** The Python keyset object and its version objects, updated in place. */
module PyKeyczar {
  import opened Prelude
  import opened Aes
  import Metadata
  import Model = PyKeyczarModel

  class KeyVersion {
    const number: int
    var status: Metadata.Status
    const exportable: bool

    constructor (number: int, status: Metadata.Status, exportable: bool)
      ensures this.number == number && this.status == status && this.exportable == exportable
    {
      this.number, this.status, this.exportable := number, status, exportable;
    }

    function Info(): Model.Info
      reads this
    {
      Model.Info(status, exportable)
    }
  }

  /** The version objects with keys are exactly the loaded ones, each under its number; the listed ones are among them. */
  ghost predicate Tied(loaded: map<int, KeyVersion>, keys: map<KeyVersion, AesKey>, versions: map<int, KeyVersion>) {
    && (forall n :: n in loaded ==> loaded[n].number == n && loaded[n] in keys)
    && (forall v :: v in keys ==> v.number in loaded && loaded[v.number] == v)
    && (forall n :: n in versions ==> n in loaded && loaded[n] == versions[n])
  }

  ghost function KeysOf(loaded: map<int, KeyVersion>, keys: map<KeyVersion, AesKey>): map<int, AesKey> {
    map n | n in loaded && loaded[n] in keys :: keys[loaded[n]]
  }

  lemma TiedAdd(loaded: map<int, KeyVersion>, keys: map<KeyVersion, AesKey>, versions: map<int, KeyVersion>,
          v: KeyVersion, key: AesKey)
    requires Tied(loaded, keys, versions) && v.number !in loaded
    ensures v !in keys && forall n :: n in loaded ==> loaded[n] != v
    ensures Tied(loaded[v.number := v], keys[v := key], versions[v.number := v])
    ensures KeysOf(loaded[v.number := v], keys[v := key]) == KeysOf(loaded, keys)[v.number := key]
  {
  }

  lemma TiedWithoutListing(loaded: map<int, KeyVersion>, keys: map<KeyVersion, AesKey>, versions: map<int, KeyVersion>)
    requires Tied(loaded, keys, versions)
    ensures Tied(loaded, keys, map[])
  {
  }

  class GenericKeyczar {
    /** The versions in the metadata. */
    var versions: map<int, KeyVersion>
    /** The two kinds of entries of the dictionary of keys. */
    var keysByVersion: map<KeyVersion, AesKey>
    var keysByHash: map<string, AesKey>
    var primaryVersion: KeyVersion?
    /** The version objects that have keys, by number. */
    ghost var loaded: map<int, KeyVersion>

    ghost predicate Valid()
      reads this
    {
      Tied(loaded, keysByVersion, versions)
    }

    ghost function View(): Model.State
      reads this, loaded.Values
    {
      Model.State(
        Infos(), versions.Keys, KeysOf(loaded, keysByVersion), keysByHash,
        if primaryVersion == null then Model.Nobody
        else if primaryVersion in keysByVersion then Model.Loaded(primaryVersion.number)
        else Model.Orphan)
    }

    ghost function Infos(): map<int, Model.Info>
      reads `loaded, loaded.Values
    {
      map n | n in loaded :: loaded[n].Info()
    }

    /** A keyset that lists versions, none of which has a key yet. */
    constructor Listing(versions: map<int, KeyVersion>)
      requires forall n :: n in versions ==> versions[n].number == n
      ensures Loading() && loaded == map[] && this.versions == versions
      ensures View() == Model.State(map[], versions.Keys, map[], map[], Model.Nobody)
    {
      this.versions, keysByVersion, keysByHash, primaryVersion, loaded := versions, map[], map[], null, map[];
    }

    /** The primary object is either loaded or no version at all. */
    ghost function Objects(): set<object>
      reads this
    {
      {this} + loaded.Values + if primaryVersion == null then {} else {primaryVersion}
    }

    lemma SetStatusIs(before: Model.State, n: int, status: Metadata.Status)
      requires Valid() && n in loaded && n in before.infos && loaded[n].status == status
      requires before == View().(infos := before.infos) && before.infos.Keys == loaded.Keys
      requires forall k :: k in loaded ==> loaded[k].Info() == if k == n then before.infos[n].(status := status) else before.infos[k]
      ensures View() == Model.SetStatus(before, n, status)
    {
      assert View().infos == before.infos[n := before.infos[n].(status := status)];
    }

    /** The status setter of a version, as seen from the keyset. */
    method SetStatus(v: KeyVersion, status: Metadata.Status)
      requires Valid() && v in keysByVersion
      modifies v
      ensures Valid() && v.status == status && View() == Model.SetStatus(old(View()), v.number, status)
    {
      ghost var before := View();
      v.status := status;
      assert forall k :: k in loaded && k != v.number ==> loaded[k] != v;
      SetStatusIs(before, v.number, status);
    }

    /** Makes a version with a key the primary one, retiring the former. */
    method PromoteActive(version: KeyVersion)
      requires Valid() && version in keysByVersion
      modifies Objects(), version
      ensures Valid() && Objects() <= old(Objects())
      ensures View() == Model.Retire(Model.SetStatus(old(View()), version.number, Metadata.PRIMARY)).(primary := Model.Loaded(version.number))
    {
      hide Model.Retire, Model.SetStatus;
      SetStatus(version, Metadata.PRIMARY);
      if primaryVersion != null {
        RetirePrimary();
      } else {
        Model.NobodyRetires(View());
      }
      ghost var before := View();
      primaryVersion := version;
      assert View().infos == before.infos && View().keys == before.keys;
    }

    method Promote(n: int) returns (error: Option<Model.PyError>)
      requires Valid()
      modifies Objects()
      ensures Valid() && Objects() <= old(Objects()) && (View(), error) == Model.Promote(old(View()), n)
    {
      if n !in versions {
        return Some(Model.NoSuchVersion);
      }
      var version := versions[n];
      match version.status {
        case PRIMARY =>
          return Some(Model.CannotPromotePrimary);
        case ACTIVE =>
          PromoteActive(version);
        case INACTIVE =>
          SetStatus(version, Metadata.ACTIVE);
      }
      return None;
    }

    /** Makes the primary version an active one; an object that was never added changes without effect. */
    method RetirePrimary()
      requires Valid() && primaryVersion != null
      modifies primaryVersion
      ensures Valid() && View() == Model.Retire(old(View()))
    {
      if primaryVersion in keysByVersion {
        SetStatus(primaryVersion, Metadata.ACTIVE);
      } else {
        ghost var before := View();
        assert forall n :: n in loaded ==> loaded[n] != primaryVersion;
        primaryVersion.status := Metadata.ACTIVE;
        assert View().infos == before.infos && View().keys == before.keys;
      }
    }

    method Demote(n: int) returns (error: Option<Model.PyError>)
      requires Valid()
      modifies Objects()
      ensures Valid() && Objects() <= old(Objects()) && (View(), error) == Model.Demote(old(View()), n)
    {
      if n !in versions {
        return Some(Model.NoSuchVersion);
      }
      var version := versions[n];
      match version.status {
        case PRIMARY =>
          SetStatus(version, Metadata.ACTIVE);
          ghost var before := View();
          primaryVersion := null;
          assert View().infos == before.infos && View().keys == before.keys;
        case ACTIVE =>
          SetStatus(version, Metadata.INACTIVE);
        case INACTIVE =>
          return Some(Model.CannotDemoteInactive);
      }
      return None;
    }

    method Revoke(n: int) returns (error: Option<Model.PyError>)
      requires Valid()
      modifies this
      ensures Valid() && Objects() == old(Objects()) && (View(), error) == Model.Revoke(old(View()), n)
    {
      if n !in versions {
        return Some(Model.NoSuchVersion);
      }
      if versions[n].status.INACTIVE? {
        ghost var before := View();
        versions := versions - {n};
        assert View().infos == before.infos && View().keys == before.keys;
        assert View().listed == before.listed - {n};
        return None;
      }
      return Some(Model.CannotRevoke);
    }

    /** Makes a version that is not loaded yet the primary one. */
    method MakePrimary(version: KeyVersion)
      requires Valid() && version !in keysByVersion
      modifies this, if primaryVersion == null then {} else {primaryVersion}
      ensures Valid() && primaryVersion == version && loaded == old(loaded) && keysByVersion == old(keysByVersion)
      ensures versions == old(versions)
      ensures View() == Model.Retire(old(View())).(primary := Model.Orphan)
    {
      if primaryVersion != null {
        RetirePrimary();
      }
      ghost var before := View();
      primaryVersion := version;
      assert View().infos == before.infos && View().keys == before.keys;
    }

    /** The greatest number of a version with a key. */
    method MaxVersionNumber() returns (max: int)
      requires Valid()
      ensures max == Model.Highest(View().infos.Keys) && max + 1 !in loaded
    {
      max := 0;
      var todo := keysByVersion.Keys;
      while todo != {}
        invariant todo <= keysByVersion.Keys && max >= 0
        invariant max == 0 || exists v :: v in keysByVersion && v.number == max
        invariant forall v :: v in keysByVersion && v !in todo ==> v.number <= max
        decreases todo
      {
        var version :| version in todo;
        if max < version.number {
          max := version.number;
        }
        todo := todo - {version};
      }
      assert View().infos.Keys == loaded.Keys;
      Model.HighestIs(loaded.Keys, max);
    }

    /**
     Adds a version with a new key. The candidates are the keys that are generated, in order; generation fails after
     the last of them.
     */
    method AddVersion(status: Metadata.Status, validSize: bool,
            candidates: seq<AesKey>) returns (error: Option<Model.PyError>)
      requires Valid()
      modifies Objects()
      ensures Valid() && fresh(Objects() - old(Objects()))
      ensures (View(), error) == Model.AddVersion(old(View()), status, validSize, candidates)
    {
      if !validSize {
        return Some(Model.UnsupportedSize);
      }
      Model.AddVersionSteps(View(), status, candidates);
      hide Model.AddVersion, Model.FirstNew, Model.Highest, Model.Prepared, Model.Added, Infos, KeysOf, View, Valid;
      var max := MaxVersionNumber();
      var version := new KeyVersion(max + 1, status, false);
      error := AddNewVersion(version, candidates);
    }

    /** Makes a new version the primary one if it is to be, and adds it with a new key if one can be generated. */
    method AddNewVersion(version: KeyVersion, candidates: seq<AesKey>) returns (error: Option<Model.PyError>)
      requires Valid() && version.number !in loaded && version != primaryVersion
      modifies this, if primaryVersion == null then {} else {primaryVersion}
      ensures Valid() && Objects() <= old(Objects()) + {version}
      ensures var s, info := old(View()), old(version.Info());
              var prepared := Model.Prepared(s, info.status);
              var key := Model.FirstNew(s.byHash, candidates);
              && error == (if key.None? then Some(Model.GenerationFailed) else None)
              && View() == if key.None? then prepared
                           else Model.Added(prepared, version.number, info, key.value, info.status.PRIMARY?)
    {
      Model.RetireKeeps(View());
      hide Model.FirstNew, Model.Retire, Model.Added, Infos, KeysOf;
      if version.status.PRIMARY? {
        MakePrimary(version);
      }
      assert View() == Model.Prepared(old(View()), version.status);
      var key := GenerateKey(candidates);
      if key.None? {
        return Some(Model.GenerationFailed);
      }
      AddKey(version, key.value);
      return None;
    }

    /** Generates keys until one has a new hash. */
    method GenerateKey(candidates: seq<AesKey>) returns (key: Option<AesKey>)
      ensures key == Model.FirstNew(View().byHash, candidates)
    {
      var i := 0;
      while i < |candidates| && candidates[i].HashId() in keysByHash
        invariant 0 <= i <= |candidates|
        invariant Model.FirstNew(keysByHash, candidates) == Model.FirstNew(keysByHash, candidates[i..])
      {
        i := i + 1;
      }
      key := if i == |candidates| then None else Some(candidates[i]);
    }

    /** While keys are being loaded more versions may be listed than have keys. */
    ghost predicate Loading()
      reads this, versions.Values
    {
      && Tied(loaded, keysByVersion, map[])
      && (forall n :: n in loaded ==> n in versions && versions[n] == loaded[n])
      && (forall n :: n in versions ==> versions[n].number == n)
      && (primaryVersion != null ==> primaryVersion in keysByVersion)
    }

    /** Indexes a key under its version object and its hash. */
    method IndexKey(version: KeyVersion, key: AesKey)
      requires Tied(loaded, keysByVersion, map[]) && version.number !in loaded
      modifies `keysByVersion, `keysByHash, `loaded
      ensures Tied(loaded, keysByVersion, map[]) && version !in old(keysByVersion)
      ensures keysByVersion == old(keysByVersion)[version := key] && loaded == old(loaded)[version.number := version]
      ensures keysByHash == old(keysByHash)[key.HashId() := key]
      ensures Infos() == old(Infos())[version.number := version.Info()]
      ensures KeysOf(loaded, keysByVersion) == old(KeysOf(loaded, keysByVersion))[version.number := key]
    {
      hide KeyVersion.Info, KeysOf;
      TiedAdd(loaded, keysByVersion, map[], version, key);
      hide Tied;
      ghost var before := Infos();
      keysByVersion := keysByVersion[version := key];
      keysByHash := keysByHash[key.HashId() := key];
      loaded := loaded[version.number := version];
      assert Infos() == before[version.number := version.Info()];
    }

    /** One turn of the loading loop: a listed version gets its key and may become the primary one. */
    method TakeIn(n: int, read: map<int, AesKey>) returns (error: Option<Model.PyError>)
      requires Loading() && n in versions && n !in loaded
      modifies this
      ensures var s, info := old(View()), old(versions[n].Info());
              && error == (if info.status.PRIMARY? && s.primary != Model.Nobody then Some(Model.SeveralPrimaries)
                           else if n !in read then Some(Model.ReadFailed) else None)
              && (error == None ==>
                    && Loading() && versions == old(versions) && loaded == old(loaded)[n := versions[n]]
                    && View() == Model.Taken(s, n, info, read[n]))
    {
      hide Tied, Infos, KeysOf;
      var version := versions[n];
      if version.status.PRIMARY? {
        if primaryVersion != null {
          return Some(Model.SeveralPrimaries);
        }
        primaryVersion := version;
      }
      if n !in read {
        return Some(Model.ReadFailed);
      }
      IndexKey(version, read[n]);
      return None;
    }

    /** Some of the versions have been gone through, and what is left to load leads to the outcome. */
    ghost predicate LoadedTo(i: nat, metadata: map<int, Model.Info>, order: seq<int>, read: map<int, AesKey>)
      requires i <= |order|
      reads this, loaded.Values, versions.Values
    {
      && Loading() && ReadFrom(versions, metadata)
      && versions.Keys == metadata.Keys && loaded.Keys == Numbers(order[..i])
      && Model.Within(order, metadata) && Model.Within(order[i..], metadata)
      && Model.LoadKeys(Model.Listing(metadata), metadata, order, read)
         == Model.LoadKeys(View(), metadata, order[i..], read)
    }

    /** One turn of the loading loop: the next version is taken in, or loading fails. */
    method LoadNext(ghost i: nat, ghost metadata: map<int, Model.Info>, ghost order: seq<int>, n: int,
            read: map<int, AesKey>) returns (error: Option<Model.PyError>)
      requires Model.IsOrder(order, metadata) && i < |order| && n == order[i] && LoadedTo(i, metadata, order, read)
      modifies this
      ensures if error.Some?
              then Model.LoadKeys(Model.Listing(metadata), metadata, order, read) == Err(error.value)
              else LoadedTo(i + 1, metadata, order, read)
    {
      hide Model.LoadKeys, Model.IsOrder, Model.Within, Model.Taken, Loading, View, ReadFrom, Numbers, KeyVersion.Info;
      OrderStep(metadata, order, i);
      Model.LoadFirst(View(), metadata, order[i..], read);
      ReadFromAt(versions, metadata, n);
      error := TakeIn(n, read);
    }

    /** The loading loop: goes through the listed versions in some order. */
    method LoadKeys(ghost metadata: map<int, Model.Info>, order: seq<int>, read: map<int, AesKey>)
      returns (error: Option<Model.PyError>)
      requires Loading() && loaded == map[] && View() == Model.Listing(metadata)
      requires Model.IsOrder(order, metadata) && versions.Keys == metadata.Keys && ReadFrom(versions, metadata)
      modifies this
      ensures var outcome := Model.LoadKeys(Model.Listing(metadata), metadata, order, read);
              if error.Some? then outcome == Err(error.value) else Valid() && outcome == Ok(View())
    {
      hide Model.LoadKeys, Model.IsOrder, Model.Within, Loading, View, ReadFrom, Valid;
      assert order[0..] == order && order[..0] == [];
      hide Numbers, LoadedTo;
      assert LoadedTo(0, metadata, order, read) by { LoadStarts(metadata, order, read); }
      for i := 0 to |order|
        invariant LoadedTo(i, metadata, order, read)
      {
        error := LoadNext(i, metadata, order, order[i], read);
        if error.Some? {
          return;
        }
      }
      LoadEnds(metadata, order, read);
      return None;
    }

    lemma LoadStarts(metadata: map<int, Model.Info>, order: seq<int>, read: map<int, AesKey>)
      requires Loading() && loaded == map[] && View() == Model.Listing(metadata)
      requires Model.IsOrder(order, metadata) && versions.Keys == metadata.Keys && ReadFrom(versions, metadata)
      ensures LoadedTo(0, metadata, order, read)
    {
      hide Model.LoadKeys, Model.NoRepeats, Loading, View, ReadFrom;
      assert order[0..] == order && order[..0] == [];
    }

    lemma LoadingDone()
      requires Loading() && loaded.Keys == versions.Keys
      ensures Valid()
    {
    }

    lemma LoadEnds(metadata: map<int, Model.Info>, order: seq<int>, read: map<int, AesKey>)
      requires Model.IsOrder(order, metadata) && LoadedTo(|order|, metadata, order, read)
      ensures Valid() && Model.LoadKeys(Model.Listing(metadata), metadata, order, read) == Ok(View())
    {
      hide Model.LoadKeys, Model.IsOrder, Model.Within, Loading, View, ReadFrom, Numbers, Valid;
      OrderEnds(metadata, order);
      LoadingDone();
      Model.LoadNothing(View(), metadata, read);
    }

    /** Indexes a key under its version and its hash, and lists the version. */
    method AddKey(version: KeyVersion, key: AesKey)
      requires Valid() && version.number !in loaded && version.number !in versions
      modifies this
      ensures Valid() && loaded == old(loaded)[version.number := version] && primaryVersion == old(primaryVersion)
      ensures View() == Model.Added(old(View()), version.number, version.Info(), key, primaryVersion == version)
    {
      hide KeyVersion.Info, KeysOf, Tied, Infos;
      TiedAdd(loaded, keysByVersion, versions, version, key);
      TiedWithoutListing(loaded, keysByVersion, versions);
      IndexKey(version, key);
      versions := versions[version.number := version];
    }
  }

  ghost function Numbers(order: seq<int>): set<int> {
    set n | n in order
  }

  lemma OrderIsAll(metadata: map<int, Model.Info>, order: seq<int>)
    requires Model.IsOrder(order, metadata)
    ensures Numbers(order) == metadata.Keys
  {
    assert forall n :: n in metadata.Keys <==> n in order;
  }

  lemma OrderEnds(metadata: map<int, Model.Info>, order: seq<int>)
    requires Model.IsOrder(order, metadata)
    ensures Numbers(order[..|order|]) == metadata.Keys && order[|order|..] == []
  {
    OrderIsAll(metadata, order);
    assert order[..|order|] == order;
  }

  lemma OrderStep(metadata: map<int, Model.Info>, order: seq<int>, i: nat)
    requires Model.IsOrder(order, metadata) && i < |order|
    ensures order[i] in metadata && order[i] !in Numbers(order[..i])
    ensures Numbers(order[..i + 1]) == Numbers(order[..i]) + {order[i]}
    ensures order[i..] != [] && order[i..][0] == order[i] && order[i..][1..] == order[i + 1..]
    ensures Model.Within(order[i + 1..], metadata)
  {
    assert order[i] in order;
    assert order[..i + 1] == order[..i] + [order[i]];
  }

  /** The version objects of metadata, each with the fields that were read. */
  ghost predicate ReadFrom(versions: map<int, KeyVersion>, metadata: map<int, Model.Info>)
    reads versions.Values
  {
    forall n :: n in versions ==> n in metadata && versions[n].number == n && versions[n].Info() == metadata[n]
  }

  lemma ReadFromAt(versions: map<int, KeyVersion>, metadata: map<int, Model.Info>, n: int)
    requires ReadFrom(versions, metadata) && n in versions
    ensures n in metadata && versions[n].Info() == metadata[n]
  {
  }

  /** KeyMetadata.Read: makes the version objects. */
  method ReadMetadata(metadata: map<int, Model.Info>, order: seq<int>) returns (versions: map<int, KeyVersion>)
    requires Model.Within(order, metadata)
    ensures versions.Keys == Numbers(order) && ReadFrom(versions, metadata)
    ensures forall n :: n in versions ==> fresh(versions[n])
  {
    versions := map[];
    for i := 0 to |order|
      invariant versions.Keys == Numbers(order[..i]) && ReadFrom(versions, metadata)
      invariant forall n :: n in versions ==> fresh(versions[n])
    {
      var n := order[i];
      assert n in order;
      var version := new KeyVersion(n, metadata[n].status, metadata[n].exportable);
      assert forall k :: k in order[..i + 1] <==> k in order[..i] || k == n;
      versions := versions[n := version];
    }
    assert order[..|order|] == order;
  }

  /**
   Loads a keyset of some class from metadata and what a reader yields for each version, where a version without a
   key stands for a failed read; null with an error if it cannot be loaded.
   */
  method Load(kind: Model.Kind, stored: Model.Stored, decrypts: bool, order: seq<int>, read: map<int, AesKey>)
    returns (keyczar: GenericKeyczar?, error: Option<Model.PyError>)
    requires Model.IsOrder(order, stored.versions)
    ensures keyczar == null <==> error.Some?
    ensures keyczar == null ==> Model.Load(kind, stored, decrypts, order, read) == Err(error.value)
    ensures keyczar != null ==>
              fresh(keyczar) && keyczar.Valid() && Model.Load(kind, stored, decrypts, order, read) == Ok(keyczar.View())
  {
    OrderIsAll(stored.versions, order);
    var versions := ReadMetadata(stored.versions, order);
    if !Model.IsAcceptablePurpose(kind, stored.purpose) {
      return null, Some(Model.UnacceptablePurpose);
    }
    if stored.encrypted && !decrypts {
      return null, Some(Model.NeedsEncryptedReader);
    }
    var k := new GenericKeyczar.Listing(versions);
    error := k.LoadKeys(stored.versions, order, read);
    keyczar := if error.Some? then null else k;
  }
}
