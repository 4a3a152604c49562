/** What each operation on a consistent keyset changes, and what it leaves alone. */
module KeysetEffects {
  import opened Prelude
  import opened Metadata
  import opened KeysetModel

  /** The rungs of the status ladder. */
  function Rank(s: Status): nat {
    match s
    case INACTIVE => 0
    case ACTIVE => 1
    case PRIMARY => 2
  }

  /** Nothing differs but statuses, the primary number and what observers were told. */
  ghost predicate OnlyStatuses(s: State, t: State) {
    && s.metadata.Some? && t.metadata.Some?
    && t.byVersion == s.byVersion && t.byHash == s.byHash
    && var m, n := s.metadata.value, t.metadata.value;
       && n.name == m.name && n.keyType == m.keyType && n.purpose == m.purpose && n.encrypted == m.encrypted
       && n.next == m.next && n.versions.Keys == m.versions.Keys
       && forall v :: v in m.versions ==>
            n.versions[v].number == m.versions[v].number && n.versions[v].exportable == m.versions[v].exportable
  }

  /** Every other version keeps its status, but for one that may get another. */
  ghost predicate OthersKeepStatus(s: State, t: State, version: int, other: int, status: Status)
    requires OnlyStatuses(s, t)
  {
    forall v :: HasVersion(s, v) && v != version ==> StatusOf(t, v) == if v == other then status else StatusOf(s, v)
  }

  /** Giving a version a status below PRIMARY. */
  lemma StatusGiven(s: State, version: int, status: Status)
    requires Inv(s) && HasVersion(s, version) && !status.PRIMARY?
    ensures var (t, ok) := UpdateStatus(s, version, status);
            ok && OnlyStatuses(s, t) && StatusOf(t, version) == status && t.primary == s.primary
            && OthersKeepStatus(s, t, version, 0, ACTIVE)
  {
    assert !HasVersion(s, 0);
  }

  /** Making an active version the primary one. */
  lemma PrimaryGiven(s: State, version: int)
    requires Inv(s) && HasVersion(s, version) && StatusOf(s, version).ACTIVE?
    ensures var (t, ok) := UpdateStatus(s, version, PRIMARY);
            ok && OnlyStatuses(s, t) && StatusOf(t, version) == PRIMARY && t.primary == version
            && OthersKeepStatus(s, t, version, s.primary, ACTIVE)
  {
    assert !HasVersion(s, 0);
  }

  /**
   Promotion succeeds exactly for a version that exists and is not primary yet, and takes it one rung up. Nothing
   else changes, but that the former primary version becomes active when its place is taken.
   */
  lemma PromoteClimbs(s: State, version: int)
    requires Inv(s)
    ensures var (t, ok) := Promote(s, version);
            && (ok <==> HasVersion(s, version) && Rank(StatusOf(s, version)) < 2)
            && (!ok ==> t == s)
            && (ok ==>
                  var taken := StatusOf(s, version).ACTIVE?;
                  && OnlyStatuses(s, t) && Rank(StatusOf(t, version)) == Rank(StatusOf(s, version)) + 1
                  && OthersKeepStatus(s, t, version, if taken then s.primary else 0, ACTIVE)
                  && t.primary == if taken then version else s.primary)
  {
    if HasVersion(s, version) && !StatusOf(s, version).PRIMARY? {
      assert version > 0;
      if StatusOf(s, version).ACTIVE? {
        PrimaryGiven(s, version);
      } else {
        StatusGiven(s, version, ACTIVE);
      }
      hide Inv, UpdateStatus, OnlyStatuses, OthersKeepStatus;
    }
  }

  /**
   Demotion succeeds exactly for a version that exists and is not inactive yet, and takes it one rung down. Nothing
   else changes, but that there is no primary version any more when it was the one.
   */
  lemma DemoteDescends(s: State, version: int)
    requires Inv(s)
    ensures var (t, ok) := Demote(s, version);
            && (ok <==> HasVersion(s, version) && Rank(StatusOf(s, version)) > 0)
            && (!ok ==> t == s)
            && (ok ==>
                  && OnlyStatuses(s, t) && Rank(StatusOf(t, version)) + 1 == Rank(StatusOf(s, version))
                  && OthersKeepStatus(s, t, version, 0, ACTIVE)
                  && t.primary == if StatusOf(s, version).PRIMARY? then 0 else s.primary)
  {
    if HasVersion(s, version) && !StatusOf(s, version).INACTIVE? {
      assert version > 0;
      var status := if StatusOf(s, version).PRIMARY? then ACTIVE else INACTIVE;
      StatusGiven(s, version, status);
      var t := UpdateStatus(s, version, status).0;
      assert OnlyStatuses(s, t.(primary := 0)) && OthersKeepStatus(s, t.(primary := 0), version, 0, ACTIVE);
      hide Inv, UpdateStatus, OnlyStatuses, OthersKeepStatus;
    }
  }

  /** A promotion that does not take the place of the primary version is undone by a demotion. */
  lemma DemoteUndoesPromote(s: State, version: int)
    requires Inv(s) && HasVersion(s, version) && StatusOf(s, version).INACTIVE?
    ensures var t := Demote(Promote(s, version).0, version).0;
            t.metadata == s.metadata && t.primary == s.primary && t.byVersion == s.byVersion && t.byHash == s.byHash
  {
    PromoteClimbs(s, version);
    PromoteKeepsInv(s, version);
    var p := Promote(s, version).0;
    DemoteDescends(p, version);
    var t := Demote(p, version).0;
    assert version != s.primary;
    assert !HasVersion(s, 0) && !HasVersion(p, 0);
    hide Inv, Promote, Demote;
    assert StatusOf(t, version) == StatusOf(s, version);
    assert t.metadata.value.versions == s.metadata.value.versions;
  }

  /**
   Revoking succeeds exactly for an inactive version, and takes out the version, its key and the hash of the key, in
   this order, telling the observers the metadata first and then the number.
   */
  lemma RevokeTakesOut(s: State, version: int)
    requires Inv(s)
    ensures var (t, ok) := Revoke(s, version);
            && (ok <==> HasVersion(s, version) && StatusOf(s, version).INACTIVE?)
            && (!ok ==> t == s)
            && (ok ==>
                  var m := s.metadata.value.(versions := s.metadata.value.versions - {version});
                  && t.metadata == Some(m) && t.primary == s.primary
                  && t.byVersion == s.byVersion - {version}
                  && t.byHash == (if version in s.byVersion then s.byHash - {s.byVersion[version].hash.value} else s.byHash)
                  && t.log == s.log + [UpdatedMetadata(m), RevokedKey(version)])
  {
  }

  /**
   A key is added exactly under a version that exists and has none, with a hash that leads to no key; it is then found
   under the version, its hash and its alias, and the observers are told.
   */
  lemma AddKeyAdds(s: State, key: Key, version: int)
    requires Inv(s)
    ensures var (t, ok) := AddKey(s, key, version);
            && (ok <==> HasVersion(s, version) && version !in s.byVersion && key.hash.Some? && key.hash.value !in s.byHash)
            && (!ok ==> t == s)
            && (ok ==>
                  && t.metadata == s.metadata && t.primary == s.primary
                  && t.byVersion == s.byVersion[version := key] && t.log == s.log + [NewKey(key, version)]
                  && (forall h :: h in t.byHash <==> h in s.byHash || key.hash == Some(h) || key.alias == Some(h))
                  && forall h :: h in t.byHash ==>
                       t.byHash[h] == if key.hash == Some(h) || key.alias == Some(h) then key else s.byHash[h])
  {
  }

  /** Setting the encryption flag sets it, and nothing else. */
  lemma SetEncryptedSets(s: State, encrypted: bool)
    requires s.metadata.Some?
    ensures var m := s.metadata.value.(encrypted := encrypted);
            SetEncrypted(s, encrypted) == s.(metadata := Some(m), log := s.log + [UpdatedMetadata(m)])
  {
  }

  /**
   A version without a number gets the counter, which moves on even when no version is added; any other keeps its
   number. A version is added exactly when its number is not taken.
   */
  lemma AddVersionAdds(m: MetadataInfo, v: VersionInfo)
    ensures var (t, ok) := AddVersion(m, v);
            var n := if v.number == 0 then m.next else v.number;
            && (ok <==> n !in m.versions)
            && t.next == (if v.number == 0 then m.next + 1 else m.next)
            && t.versions == (if ok then m.versions[n := VersionInfo(n, v.status, v.exportable)] else m.versions)
            && t.name == m.name && t.keyType == m.keyType && t.purpose == m.purpose && t.encrypted == m.encrypted
  {
  }

  /** Setting the metadata replaces them and nothing else, and tells the observers if there are any. */
  lemma SetMetadataSets(s: State, m: Option<MetadataInfo>)
    ensures SetMetadata(s, m) == s.(metadata := m, log := if m.Some? then s.log + [UpdatedMetadata(m.value)] else s.log)
  {
  }

  /**
   A version added to a consistent keyset gets the counter as its number, unless that is taken; then nothing but the
   counter changes. The other versions stay as they are, but that a new primary version makes the former one active.
   */
  lemma KeyVersionAdds(s: State, status: Status, exportable: bool)
    requires Inv(s) && s.metadata.Some?
    ensures var (t, n) := AddVersionOf(s, status, exportable);
            var m := s.metadata.value;
            && t.byVersion == s.byVersion && t.byHash == s.byHash && t.metadata.Some?
            && t.metadata.value == m.(next := m.next + 1, versions := t.metadata.value.versions)
            && (m.next in m.versions ==> n == 0 && t.metadata.value.versions == m.versions && t.primary == s.primary)
            && (m.next !in m.versions ==>
                  && n == m.next && t.metadata.value.versions.Keys == m.versions.Keys + {n}
                  && t.metadata.value.versions[n] == VersionInfo(n, status, exportable)
                  && (forall v :: v in m.versions ==>
                        t.metadata.value.versions[v] ==
                        if status.PRIMARY? && v == s.primary then m.versions[v].(status := ACTIVE) else m.versions[v])
                  && t.primary == if status.PRIMARY? then n else s.primary)
  {
    assert !HasVersion(s, 0);
    var m := s.metadata.value;
    if m.next !in m.versions && status.PRIMARY? {
      var s1 := s.(metadata := Some(AddVersion(m, VersionInfo(0, status, exportable)).0));
      assert s.primary != 0 ==> HasVersion(s1, s.primary) && s.primary != m.next;
      hide Inv;
      NewPrimaryGiven(s1, m.next);
      hide UpdateStatus;
    }
  }

  /** A version made the primary one while the former one is another. */
  lemma NewPrimaryGiven(s: State, version: int)
    requires HasVersion(s, version) && version != s.primary && (s.primary != 0 ==> HasVersion(s, s.primary))
    requires !HasVersion(s, 0)
    ensures var (t, ok) := UpdateStatus(s, version, PRIMARY);
            var versions := s.metadata.value.versions;
            && ok && t.metadata.Some? && t.primary == version && t.byVersion == s.byVersion && t.byHash == s.byHash
            && t.metadata.value == s.metadata.value.(versions := t.metadata.value.versions)
            && t.metadata.value.versions.Keys == versions.Keys
            && forall v :: v in versions ==>
                 t.metadata.value.versions[v] ==
                 if v == version then versions[v].(status := PRIMARY)
                 else if v == s.primary then versions[v].(status := ACTIVE)
                 else versions[v]
  {
  }
}
