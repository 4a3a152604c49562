/**
 The lifecycle of a keyset in the Python library, as functions on values. It differs from the C++ one: the number
 of a new version is computed from the versions with loaded keys, and revoking a version leaves its key in place.
 */
module PyKeyczarModel {
  import opened Prelude
  import opened Aes
  import Metadata
  import opened Reading = DecryptingStream

  type Status = Metadata.Status

  datatype Info = Info(status: Status, exportable: bool)

  /** The classes of keysets. */
  datatype Kind = Generic | Encrypter | Crypter | Verifier | UnversionedVerifier | Signer | UnversionedSigner

  /** What metadata holds, the name and the type of key aside. */
  datatype Stored = Stored(purpose: Metadata.Purpose, encrypted: bool, versions: map<int, Info>)

  datatype PyError =
    | UnacceptablePurpose
    | NeedsEncryptedReader
    | NoSuchVersion
    | CannotPromotePrimary
    | CannotDemoteInactive
    | CannotRevoke
    | SeveralPrimaries
    | UnsupportedSize
    | GenerationFailed
    | ReadFailed

  /** The primary version: none, one with a loaded key, or an object that was never added. */
  datatype Primary = Nobody | Loaded(number: int) | Orphan

  /**
   The versions that have loaded keys, with their keys; which of them the metadata lists; and the keys by hash.
   */
  datatype State = State(
    infos: map<int, Info>,
    listed: set<int>,
    keys: map<int, AesKey>,
    byHash: map<string, AesKey>,
    primary: Primary)

  // ---------------------------------------------------------------- operations

  function SetStatus(s: State, n: int, status: Status): State
    requires n in s.infos
  {
    s.(infos := s.infos[n := s.infos[n].(status := status)])
  }

  /** Takes the primary status from the version that has it, if that is loaded. */
  function Retire(s: State): State {
    if s.primary.Loaded? && s.primary.number in s.infos then SetStatus(s, s.primary.number, Metadata.ACTIVE) else s
  }

  lemma NobodyRetires(s: State)
    requires s.primary == Nobody
    ensures Retire(s) == s
  {
  }

  lemma RetireKeeps(s: State)
    ensures Retire(s) == s.(infos := Retire(s).infos) && Retire(s).infos.Keys == s.infos.Keys
  {
  }

  function Promote(s: State, n: int): (State, Option<PyError>) {
    if n !in s.listed || n !in s.infos then (s, Some(NoSuchVersion))
    else match s.infos[n].status
         case PRIMARY => (s, Some(CannotPromotePrimary))
         case ACTIVE => (Retire(SetStatus(s, n, Metadata.PRIMARY)).(primary := Loaded(n)), None)
         case INACTIVE => (SetStatus(s, n, Metadata.ACTIVE), None)
  }

  function Demote(s: State, n: int): (State, Option<PyError>) {
    if n !in s.listed || n !in s.infos then (s, Some(NoSuchVersion))
    else match s.infos[n].status
         case PRIMARY => (SetStatus(s, n, Metadata.ACTIVE).(primary := Nobody), None)
         case ACTIVE => (SetStatus(s, n, Metadata.INACTIVE), None)
         case INACTIVE => (s, Some(CannotDemoteInactive))
  }

  function Revoke(s: State, n: int): (State, Option<PyError>) {
    if n !in s.listed || n !in s.infos then (s, Some(NoSuchVersion))
    else if s.infos[n].status.INACTIVE? then (s.(listed := s.listed - {n}), None)
    else (s, Some(CannotRevoke))
  }

  /** The greatest of the numbers, at least 0. */
  function Highest(numbers: set<int>): (r: nat)
    ensures forall n :: n in numbers ==> n <= r
    ensures r == 0 || r in numbers
    decreases |numbers|
  {
    if numbers == {} then 0
    else
      var n := Metadata.Least(numbers);
      assert forall k :: k in numbers ==> k == n || k in numbers - {n};
      Max(n, Highest(numbers - {n}))
  }

  /** The first of the generated keys whose hash is new; after the last of them generation fails. */
  function FirstNew(byHash: map<string, AesKey>, candidates: seq<AesKey>): (r: Option<AesKey>)
    ensures r.Some? ==> r.value.HashId() !in byHash
  {
    if candidates == [] then None
    else if candidates[0].HashId() !in byHash then Some(candidates[0])
    else FirstNew(byHash, candidates[1..])
  }

  /** AddVersion: the former primary version is retired before a key is generated. */
  function AddVersion(s: State, status: Status, validSize: bool, candidates: seq<AesKey>): (State, Option<PyError>) {
    if !validSize then (s, Some(UnsupportedSize))
    else
      var n := Highest(s.infos.Keys) + 1;
      var s1 := Prepared(s, status);
      match FirstNew(s.byHash, candidates)
      case None => (s1, Some(GenerationFailed))
      case Some(key) => (Added(s1, n, Info(status, false), key, status.PRIMARY?), None)
  }

  /** The state in which a key is generated. */
  function Prepared(s: State, status: Status): State {
    if status.PRIMARY? then Retire(s).(primary := Orphan) else s
  }

  lemma AddVersionSteps(s: State, status: Status, candidates: seq<AesKey>)
    ensures Prepared(s, status).byHash == s.byHash
    ensures AddVersion(s, status, true, candidates) ==
            var key := FirstNew(s.byHash, candidates);
            if key.None? then (Prepared(s, status), Some(GenerationFailed))
            else (Added(Prepared(s, status), Highest(s.infos.Keys) + 1, Info(status, false), key.value, status.PRIMARY?), None)
  {
    RetireKeeps(s);
  }

  /** A version listed and its key indexed. */
  function Added(s: State, n: int, info: Info, key: AesKey, primary: bool): State {
    State(s.infos[n := info], s.listed + {n}, s.keys[n := key], s.byHash[key.HashId() := key],
          if primary then Loaded(n) else s.primary)
  }

  ghost predicate Within(order: seq<int>, metadata: map<int, Info>) {
    forall n :: n in order ==> n in metadata
  }

  /** Loads the keys of versions in some order; a later key replaces an earlier one with the same hash. */
  function LoadKeys(s: State, metadata: map<int, Info>, order: seq<int>, read: map<int, AesKey>): Result<State, PyError>
    requires Within(order, metadata)
    decreases |order|
  {
    if order == [] then Ok(s)
    else
      var n, rest := order[0], order[1..];
      assert n in order && forall k :: k in rest ==> k in order;
      if metadata[n].status.PRIMARY? && s.primary != Nobody then Err(SeveralPrimaries)
      else if n !in read then Err(ReadFailed)
      else
        LoadKeys(Taken(s, n, metadata[n], read[n]), metadata, rest, read)
  }

  /** The state with a version and its key taken in. */
  function Taken(s: State, n: int, info: Info, key: AesKey): State {
    State(s.infos[n := info], s.listed, s.keys[n := key], s.byHash[key.HashId() := key],
          if info.status.PRIMARY? then Loaded(n) else s.primary)
  }

  predicate IsAcceptablePurpose(kind: Kind, purpose: Metadata.Purpose) {
    match kind
    case Generic => true
    case Encrypter => purpose.ENCRYPT? || purpose.DECRYPT_AND_ENCRYPT?
    case Crypter => purpose.DECRYPT_AND_ENCRYPT?
    case Verifier => purpose.VERIFY? || purpose.SIGN_AND_VERIFY?
    case UnversionedVerifier => purpose.VERIFY? || purpose.SIGN_AND_VERIFY?
    case Signer => purpose.SIGN_AND_VERIFY?
    case UnversionedSigner => purpose.SIGN_AND_VERIFY?
  }

  /** Why a keyset is refused before any of its keys is read. */
  function Refusal(kind: Kind, stored: Stored, decrypts: bool): Option<PyError> {
    if !IsAcceptablePurpose(kind, stored.purpose) then Some(UnacceptablePurpose)
    else if stored.encrypted && !decrypts then Some(NeedsEncryptedReader)
    else None
  }

  /** Every version is listed before the first of their keys is read. */
  function Listing(metadata: map<int, Info>): State {
    State(map[], metadata.Keys, map[], map[], Nobody)
  }

  /**
   A keyset read from metadata and a reader of keys, which decrypts them or not. The order is that in which the
   versions are gone through.
   */
  function Load(kind: Kind, stored: Stored, decrypts: bool, order: seq<int>, read: map<int, AesKey>): Result<State, PyError>
    requires Within(order, stored.versions)
  {
    match Refusal(kind, stored, decrypts)
    case Some(e) => Err(e)
    case None => LoadKeys(Listing(stored.versions), stored.versions, order, read)
  }

  datatype Op =
    | DoAddVersion(status: Status, validSize: bool, candidates: seq<AesKey>)
    | DoPromote(n: int)
    | DoDemote(n: int)
    | DoRevoke(n: int)

  function Step(s: State, op: Op): State {
    match op
    case DoAddVersion(status, validSize, candidates) => AddVersion(s, status, validSize, candidates).0
    case DoPromote(n) => Promote(s, n).0
    case DoDemote(n) => Demote(s, n).0
    case DoRevoke(n) => Revoke(s, n).0
  }

  function Run(s: State, ops: seq<Op>): State
    decreases |ops|
  {
    if ops == [] then s else Run(Step(s, ops[0]), ops[1..])
  }

  // ---------------------------------------------------------------- the invariant

  /** Listed versions have keys; the primary number names the only listed primary version. */
  ghost predicate Inv(s: State) {
    && s.listed <= s.infos.Keys == s.keys.Keys
    && !s.primary.Orphan?
    && (s.primary.Loaded? ==> s.primary.number in s.listed)
    && (forall n :: n in s.listed ==> (s.infos[n].status.PRIMARY? <==> s.primary == Loaded(n)))
  }

  /** Every key is found under its hash. */
  ghost predicate HashesAgree(s: State) {
    forall n :: n in s.keys ==> s.keys[n].HashId() in s.byHash && s.byHash[s.keys[n].HashId()] == s.keys[n]
  }

  /** A generation of a primary key that fails once the former primary version was retired. */
  predicate FailsHalfway(s: State, op: Op) {
    op.DoAddVersion? && op.validSize && op.status.PRIMARY? && FirstNew(s.byHash, op.candidates).None?
  }

  /** An operation keeps the invariant exactly when it is not a primary generation that fails halfway. */
  lemma StepKeepsInv(s: State, op: Op)
    requires Inv(s)
    ensures Inv(Step(s, op)) <==> !FailsHalfway(s, op)
  {
    hide Highest, FirstNew;
    match op
    case DoAddVersion(status, validSize, candidates) =>
      NewNumberIsNew(s);
    case _ =>
  }

  lemma NewNumberIsNew(s: State)
    ensures Highest(s.infos.Keys) + 1 !in s.infos
  {
  }

  // ---------------------------------------------------------------- the status ladder

  /** The rungs of the ladder. */
  function Rank(s: Status): nat {
    match s
    case INACTIVE => 0
    case ACTIVE => 1
    case PRIMARY => 2
  }

  /** Nothing differs but statuses and which version is noted as the primary one. */
  ghost predicate OnlyStatuses(s: State, t: State) {
    && t.listed == s.listed && t.keys == s.keys && t.byHash == s.byHash && t.infos.Keys == s.infos.Keys
    && forall n :: n in s.infos ==> t.infos[n].exportable == s.infos[n].exportable
  }

  /** Every other listed version keeps its status, but for one that becomes active. */
  ghost predicate OthersKeepStatus(s: State, t: State, n: int, retired: Primary)
    requires OnlyStatuses(s, t)
  {
    forall k :: k in s.listed && k in s.infos && k != n ==>
      t.infos[k].status == if retired == Loaded(k) then Metadata.ACTIVE else s.infos[k].status
  }

  /**
   Promotion succeeds exactly for a listed version that is not primary yet and takes it one rung up; the former
   primary version becomes active when its place is taken, and nothing else changes.
   */
  lemma PromoteClimbs(s: State, n: int)
    requires Inv(s)
    ensures var (t, error) := Promote(s, n);
            && (error == Some(NoSuchVersion) <==> n !in s.listed)
            && (error == Some(CannotPromotePrimary) <==> n in s.listed && Rank(s.infos[n].status) == 2)
            && (error == None <==> n in s.listed && Rank(s.infos[n].status) < 2)
            && (error.Some? ==> t == s)
            && (error.None? ==>
                  var taken := s.infos[n].status.ACTIVE?;
                  && OnlyStatuses(s, t) && Rank(t.infos[n].status) == Rank(s.infos[n].status) + 1
                  && OthersKeepStatus(s, t, n, if taken then s.primary else Nobody)
                  && t.primary == if taken then Loaded(n) else s.primary)
  {
  }

  /** Demotion succeeds exactly for a listed version that is not inactive yet and takes it one rung down. */
  lemma DemoteDescends(s: State, n: int)
    requires Inv(s)
    ensures var (t, error) := Demote(s, n);
            && (error == Some(NoSuchVersion) <==> n !in s.listed)
            && (error == Some(CannotDemoteInactive) <==> n in s.listed && Rank(s.infos[n].status) == 0)
            && (error == None <==> n in s.listed && Rank(s.infos[n].status) > 0)
            && (error.Some? ==> t == s)
            && (error.None? ==>
                  && OnlyStatuses(s, t) && Rank(t.infos[n].status) + 1 == Rank(s.infos[n].status)
                  && OthersKeepStatus(s, t, n, Nobody)
                  && t.primary == if s.infos[n].status.PRIMARY? then Nobody else s.primary)
  {
  }

  /** Revoking succeeds exactly for a listed version that is inactive, and only unlists it. */
  lemma RevokeUnlists(s: State, n: int)
    requires Inv(s)
    ensures var (t, error) := Revoke(s, n);
            && (error == Some(NoSuchVersion) <==> n !in s.listed)
            && (error == Some(CannotRevoke) <==> n in s.listed && Rank(s.infos[n].status) > 0)
            && (error == None <==> n in s.listed && Rank(s.infos[n].status) == 0)
            && t == if error.None? then s.(listed := s.listed - {n}) else s
  {
  }

  /** The key that is used is the first candidate with a new hash. */
  lemma {:induction false} FirstNewIsFirst(byHash: map<string, AesKey>, candidates: seq<AesKey>, i: nat)
    requires i < |candidates| && candidates[i].HashId() !in byHash
    requires forall j :: 0 <= j < i ==> candidates[j].HashId() in byHash
    ensures FirstNew(byHash, candidates) == Some(candidates[i])
  {
    hide AesKey.HashId;
    if i > 0 {
      FirstNewIsFirst(byHash, candidates[1..], i - 1);
    }
  }

  /**
   Adding a version: an unsupported size changes nothing; otherwise the former primary version is retired first if the
   new one is to be primary, and exactly then fails generation when all candidates have hashes that are taken.
   */
  lemma AddVersionCases(s: State, status: Status, validSize: bool, candidates: seq<AesKey>)
    requires Inv(s)
    ensures var (t, error) := AddVersion(s, status, validSize, candidates);
            && (error == Some(UnsupportedSize) <==> !validSize)
            && (error == Some(GenerationFailed) <==> validSize && forall k :: k in candidates ==> k.HashId() in s.byHash)
            && (error.None? || error == Some(UnsupportedSize) || error == Some(GenerationFailed))
            && (!validSize ==> t == s)
            && (forall n :: n in s.infos ==>
                  && n in t.infos && t.infos[n].exportable == s.infos[n].exportable
                  && t.infos[n].status == (if validSize && status.PRIMARY? && s.primary == Loaded(n) then Metadata.ACTIVE
                                           else s.infos[n].status))
  {
    NewNumberIsNew(s);
    SomeIsNew(s.byHash, candidates);
    RetireKeeps(s);
    hide Highest, FirstNew, AesKey.HashId;
  }

  lemma {:induction false} SomeIsNew(byHash: map<string, AesKey>, candidates: seq<AesKey>)
    ensures FirstNew(byHash, candidates).None? <==> forall k :: k in candidates ==> k.HashId() in byHash
  {
    hide AesKey.HashId;
    if candidates != [] {
      SomeIsNew(byHash, candidates[1..]);
      assert candidates == [candidates[0]] + candidates[1..];
    }
  }

  // ---------------------------------------------------------------- purposes

  datatype Ability = ToEncrypt | ToDecrypt | ToSign | ToVerify

  /** What a class of keysets offers. */
  function Offered(kind: Kind): set<Ability> {
    match kind
    case Generic => {}
    case Encrypter => {ToEncrypt}
    case Crypter => {ToEncrypt, ToDecrypt}
    case Verifier => {ToVerify}
    case UnversionedVerifier => {ToVerify}
    case Signer => {ToSign, ToVerify}
    case UnversionedSigner => {ToSign, ToVerify}
  }

  /** What the purpose of a keyset permits. */
  function Permitted(purpose: Metadata.Purpose): set<Ability> {
    match purpose
    case DECRYPT_AND_ENCRYPT => {ToEncrypt, ToDecrypt}
    case ENCRYPT => {ToEncrypt}
    case SIGN_AND_VERIFY => {ToSign, ToVerify}
    case VERIFY => {ToVerify}
  }

  /** A purpose is acceptable exactly when it permits everything that the class offers. */
  lemma AcceptableIsPermitted(kind: Kind, purpose: Metadata.Purpose)
    ensures IsAcceptablePurpose(kind, purpose) <==> Offered(kind) <= Permitted(purpose)
  {
    match kind
    case Generic =>
    case Encrypter => assert ToEncrypt in Offered(kind);
    case Crypter => assert ToEncrypt in Offered(kind) && ToDecrypt in Offered(kind);
    case Verifier => assert ToVerify in Offered(kind);
    case UnversionedVerifier => assert ToVerify in Offered(kind);
    case Signer => assert ToSign in Offered(kind) && ToVerify in Offered(kind);
    case UnversionedSigner => assert ToSign in Offered(kind) && ToVerify in Offered(kind);
  }

  /** None of the operations of a run fails halfway. */
  predicate NeverHalfway(s: State, ops: seq<Op>)
    decreases |ops|
  {
    ops == [] || (!FailsHalfway(s, ops[0]) && NeverHalfway(Step(s, ops[0]), ops[1..]))
  }

  /** Unless a primary generation fails halfway, at most one listed version is primary all along, and it is the noted one. */
  lemma {:induction false} RunKeepsInv(s: State, ops: seq<Op>)
    requires Inv(s) && NeverHalfway(s, ops)
    ensures Inv(Run(s, ops))
    decreases |ops|
  {
    hide Inv, Step;
    if ops != [] {
      StepKeepsInv(s, ops[0]);
      RunKeepsInv(Step(s, ops[0]), ops[1..]);
    }
  }

  // ---------------------------------------------------------------- old outputs

  lemma StepKeepsHashes(s: State, op: Op, h: string)
    requires h in s.byHash
    ensures h in Step(s, op).byHash && Step(s, op).byHash[h] == s.byHash[h]
  {
    hide Highest, FirstNew;
  }

  /** Whatever is done, even if it fails halfway, a key is found under the same hash as before. */
  lemma {:induction false} RunKeepsHashes(s: State, ops: seq<Op>, h: string)
    requires h in s.byHash
    ensures h in Run(s, ops).byHash && Run(s, ops).byHash[h] == s.byHash[h]
    decreases |ops|
  {
    hide Step;
    if ops != [] {
      StepKeepsHashes(s, ops[0], h);
      RunKeepsHashes(Step(s, ops[0]), ops[1..], h);
    }
  }

  /** A key is generated until its hash is new, so every key stays under its hash. */
  lemma StepKeepsHashesAgree(s: State, op: Op)
    requires HashesAgree(s)
    ensures HashesAgree(Step(s, op))
  {
    hide Highest, FirstNew, AesKey.HashId;
  }

  lemma {:induction false} RunKeepsHashesAgree(s: State, ops: seq<Op>)
    requires HashesAgree(s)
    ensures HashesAgree(Run(s, ops))
    decreases |ops|
  {
    hide HashesAgree, Step;
    if ops != [] {
      StepKeepsHashesAgree(s, ops[0]);
      RunKeepsHashesAgree(Step(s, ops[0]), ops[1..]);
    }
  }

  /**
   A message encrypted with a key that the keyset has at some time, from the start or generated since, decrypts to
   its plaintext after any further operations, in one go and as a stream, even when the key's version was revoked
   meanwhile.
   */
  lemma OldCiphertextsDecrypt(s: State, before: seq<Op>, after: seq<Op>, n: int, iv: Block, data: Bytes,
          r: Result<Bytes, CryptError>)
    requires HashesAgree(s) && n in Run(s, before).keys && Run(s, before).keys[n].Valid()
    ensures var t := Run(s, before);
            var message := Encrypt(t.keys[n], iv, data);
            && CrypterDecrypt(Run(t, after).byHash, message) == Ok(data)
            && (Outcome(Run(t, after).byHash, message, r) ==> r == Ok(data))
  {
    RunKeepsHashesAgree(s, before);
    var t := Run(s, before);
    var key := t.keys[n];
    var keys := Run(t, after).byHash;
    RunKeepsHashes(t, after, key.HashId());
    hide Run, Encrypt, Outcome, CrypterDecrypt;
    ReadsBack(keys, key, iv, data);
    if Outcome(keys, Encrypt(key, iv, data), r) {
      EncryptedMessageIsRead(keys, key, iv, data, r);
    }
  }

  lemma ReadsBack(keys: KeySet, key: AesKey, iv: Block, data: Bytes)
    requires key.Valid() && key.HashId() in keys && keys[key.HashId()] == key
    ensures CrypterDecrypt(keys, Encrypt(key, iv, data)) == Ok(data)
  {
    var total := Encrypt(key, iv, data);
    key.HeaderIsVersionAndHash();
    assert total[..HEADER_SIZE] == key.Header();
    assert total[..HEADER_SIZE][1..] == key.hash;
    DecryptInvertsEncrypt(key, iv, data);
  }

  // ---------------------------------------------------------------- loading

  /** No two versions have different keys with the same hash. */
  ghost predicate NoClash(read: map<int, AesKey>, numbers: set<int>) {
    forall n, k :: n in numbers && k in numbers && n in read && k in read && read[n].HashId() == read[k].HashId() ==> read[n] == read[k]
  }

  /** What is known when some of the versions are loaded. */
  ghost predicate Partly(s: State, metadata: map<int, Info>, read: map<int, AesKey>, done: set<int>) {
    && s.listed == metadata.Keys
    && done <= metadata.Keys && s.infos == (map n | n in done && n in metadata :: metadata[n])
    && done <= read.Keys && s.keys == (map n | n in done && n in read :: read[n])
    && (forall n :: n in done ==> read[n].HashId() in s.byHash)
    && (forall h :: h in s.byHash ==> exists n :: n in done && n in read && read[n] == s.byHash[h] && read[n].HashId() == h)
    && (s.primary == Nobody || (s.primary.Loaded? && s.primary.number in done))
    && (forall n :: n in done ==> (metadata[n].status.PRIMARY? <==> s.primary == Loaded(n)))
  }

  lemma LoadOne(s: State, metadata: map<int, Info>, read: map<int, AesKey>, done: set<int>, n: int)
    requires Partly(s, metadata, read, done) && n in metadata && n in read && n !in done
    requires metadata[n].status.PRIMARY? ==> s.primary == Nobody
    ensures Partly(Taken(s, n, metadata[n], read[n]), metadata, read, done + {n})
  {
    hide AesKey.HashId;
    var byHash := s.byHash[read[n].HashId() := read[n]];
    forall h | h in byHash ensures exists k :: k in done + {n} && k in read && read[k] == byHash[h] && read[k].HashId() == h {
      if h == read[n].HashId() {
        assert n in done + {n} && read[n] == byHash[h];
      } else {
        var k :| k in done && k in read && read[k] == s.byHash[h] && read[k].HashId() == h;
        assert k in done + {n};
      }
    }
  }

  predicate NoRepeats(order: seq<int>) {
    forall i, j :: 0 <= i < j < |order| ==> order[i] != order[j]
  }

  /** The order goes through every version once. */
  ghost predicate IsOrder(order: seq<int>, metadata: map<int, Info>) {
    NoRepeats(order) && Within(order, metadata) && forall n :: n in metadata ==> n in order
  }

  /** At most one of the versions is primary. */
  ghost predicate OnePrimary(metadata: map<int, Info>, numbers: set<int>) {
    forall n, k :: n in numbers && k in numbers && IsPrimary(metadata, n) && IsPrimary(metadata, k) ==> n == k
  }

  predicate IsPrimary(metadata: map<int, Info>, n: int) {
    n in metadata && metadata[n].status.PRIMARY?
  }

  lemma PrimaryIsNoted(s: State, metadata: map<int, Info>, read: map<int, AesKey>, done: set<int>, n: int, all: set<int>)
    requires Partly(s, metadata, read, done) && n !in done && done + {n} <= all && OnePrimary(metadata, all)
    ensures IsPrimary(metadata, n) ==> s.primary == Nobody
  {
    if IsPrimary(metadata, n) && s.primary != Nobody {
      assert IsPrimary(metadata, s.primary.number);
    }
  }

  /** Going through the first of some versions. */
  lemma LoadFirst(s: State, metadata: map<int, Info>, order: seq<int>, read: map<int, AesKey>)
    requires order != [] && Within(order, metadata)
    ensures var n := order[0];
            && n in metadata && Within(order[1..], metadata)
            && LoadKeys(s, metadata, order, read) ==
               if metadata[n].status.PRIMARY? && s.primary != Nobody then Err(SeveralPrimaries)
               else if n !in read then Err(ReadFailed)
               else LoadKeys(Taken(s, n, metadata[n], read[n]), metadata, order[1..], read)
  {
    var n := order[0];
    assert n in order && forall k :: k in order[1..] ==> k in order;
  }

  /** The outcome when no versions are left. */
  lemma LoadNothing(s: State, metadata: map<int, Info>, read: map<int, AesKey>)
    ensures LoadKeys(s, metadata, [], read) == Ok(s)
  {
  }

  /** The versions of order are still to be gone through, each once, and after them there are those of all. */
  ghost predicate StillToLoad(metadata: map<int, Info>, done: set<int>, order: seq<int>, all: set<int>) {
    && Within(order, metadata) && (forall n :: n in order ==> n !in done) && NoRepeats(order)
    && all == done + set n | n in order
  }

  lemma StillToLoadStep(metadata: map<int, Info>, done: set<int>, order: seq<int>, all: set<int>)
    requires StillToLoad(metadata, done, order, all) && order != []
    ensures var n := order[0];
            && n in metadata && n !in done && n in all && done + {n} <= all
            && StillToLoad(metadata, done + {n}, order[1..], all)
  {
    var n, rest := order[0], order[1..];
    assert n in order && forall k :: k in rest ==> k in order && k != n;
    assert forall k :: k in order ==> k == n || k in rest;
    assert all == (done + {n}) + set k | k in rest;
  }

  lemma {:induction false} LoadKeysPartly(s: State, metadata: map<int, Info>, order: seq<int>, read: map<int, AesKey>,
          done: set<int>, all: set<int>)
    requires StillToLoad(metadata, done, order, all) && Partly(s, metadata, read, done)
    ensures var r := LoadKeys(s, metadata, order, read);
            && (r.Ok? ==> Partly(r.value, metadata, read, all))
            && (OnePrimary(metadata, all) && all <= read.Keys ==> r.Ok?)
    decreases |order|
  {
    if order == [] {
      assert all == done;
    } else {
      hide LoadKeys, StillToLoad, Partly, OnePrimary;
      var n, rest := order[0], order[1..];
      StillToLoadStep(metadata, done, order, all);
      assert Within(order, metadata) by { StillIsWithin(metadata, done, order, all); }
      LoadFirst(s, metadata, order, read);
      if OnePrimary(metadata, all) {
        PrimaryIsNoted(s, metadata, read, done, n, all);
      }
      if !(metadata[n].status.PRIMARY? && s.primary != Nobody) && n in read {
        LoadOne(s, metadata, read, done, n);
        LoadKeysPartly(Taken(s, n, metadata[n], read[n]), metadata, rest, read, done + {n}, all);
      }
    }
  }

  lemma StillIsWithin(metadata: map<int, Info>, done: set<int>, order: seq<int>, all: set<int>)
    requires StillToLoad(metadata, done, order, all)
    ensures Within(order, metadata)
  {
  }

  /**
   A keyset is loaded exactly when it is not refused, at most one version is primary and every version has a key.
   What is loaded is consistent, whatever the order, and every key is found under its hash exactly when no two
   versions have different keys with the same hash.
   */
  lemma LoadedIsConsistent(kind: Kind, stored: Stored, decrypts: bool, order: seq<int>, read: map<int, AesKey>)
    requires IsOrder(order, stored.versions)
    ensures var r := Load(kind, stored, decrypts, order, read);
            && (r.Ok? <==>
                  Refusal(kind, stored, decrypts).None? && OnePrimary(stored.versions, stored.versions.Keys)
                  && stored.versions.Keys <= read.Keys)
            && (r.Ok? ==>
                  && Inv(r.value) && r.value.infos == stored.versions && r.value.listed == stored.versions.Keys
                  && (forall n :: n in r.value.keys ==> n in read && r.value.keys[n] == read[n])
                  && (HashesAgree(r.value) <==> NoClash(read, stored.versions.Keys)))
  {
    var metadata := stored.versions;
    var all: set<int> := {} + set n | n in order;
    assert all == metadata.Keys by { assert forall n :: n in all <==> n in metadata.Keys; }
    LoadKeysPartly(Listing(metadata), metadata, order, read, {}, metadata.Keys);
    var r := LoadKeys(Listing(metadata), metadata, order, read);
    hide LoadKeys, Partly, OnePrimary, Inv, NoClash, HashesAgree;
    if r.Ok? {
      AllLoaded(r.value, metadata, read);
      AgreesUnlessClash(r.value, metadata, read);
    }
  }

  lemma AllLoaded(s: State, metadata: map<int, Info>, read: map<int, AesKey>)
    requires Partly(s, metadata, read, metadata.Keys)
    ensures Inv(s) && s.infos == metadata && s.listed == metadata.Keys
    ensures forall n :: n in s.keys ==> n in read && s.keys[n] == read[n]
    ensures OnePrimary(metadata, metadata.Keys) && metadata.Keys <= read.Keys
  {
  }

  lemma AgreesUnlessClash(s: State, metadata: map<int, Info>, read: map<int, AesKey>)
    requires Partly(s, metadata, read, metadata.Keys)
    ensures HashesAgree(s) <==> NoClash(read, metadata.Keys)
  {
    assert forall n :: n in metadata <==> n in s.keys;
    if NoClash(read, metadata.Keys) {
      forall n | n in s.keys ensures s.keys[n].HashId() in s.byHash && s.byHash[s.keys[n].HashId()] == s.keys[n] {
        var h := s.keys[n].HashId();
        assert h in s.byHash;
        var k :| k in metadata.Keys && k in read && read[k] == s.byHash[h] && read[k].HashId() == h;
      }
    }
  }

  // ---------------------------------------------------------------- numbers

  lemma HighestIs(numbers: set<int>, max: int)
    requires max >= 0 && (forall n :: n in numbers ==> n <= max) && (max == 0 || max in numbers)
    ensures max == Highest(numbers)
  {
  }

  /** What adding a version does, when a key can be generated. */
  lemma AddedVersionIs(s: State, status: Status, validSize: bool, candidates: seq<AesKey>)
    requires Inv(s) && AddVersion(s, status, validSize, candidates).1.None?
    ensures var t := AddVersion(s, status, validSize, candidates).0;
            var n := Highest(s.infos.Keys) + 1;
            && t.listed == s.listed + {n} && n !in s.infos && n !in s.listed && n > 0
            && t.infos.Keys == s.infos.Keys + {n} && t.infos[n] == Info(status, false)
            && (forall k :: k in s.keys ==> k in t.keys && t.keys[k] == s.keys[k])
            && var key := FirstNew(s.byHash, candidates);
               key.Some? && t.keys == s.keys[n := key.value] && t.byHash == s.byHash[key.value.HashId() := key.value]
               && t.primary == if status.PRIMARY? then Loaded(n) else s.primary
  {
    hide Highest, FirstNew, AesKey.HashId;
    NewNumberIsNew(s);
  }

  /** The number that an operation assigns, 0 for none. */
  function Assigned(s: State, op: Op): int {
    if op.DoAddVersion? && AddVersion(s, op.status, op.validSize, op.candidates).1.None? then Highest(s.infos.Keys) + 1 else 0
  }

  /** The numbers that are assigned along a run. */
  function Numbers(s: State, ops: seq<Op>): seq<int>
    decreases |ops|
  {
    if ops == [] then []
    else
      var rest := Numbers(Step(s, ops[0]), ops[1..]);
      if Assigned(s, ops[0]) == 0 then rest else [Assigned(s, ops[0])] + rest
  }

  /** The highest number rises to the one that is assigned, and nothing lowers it, not even revoking. */
  lemma StepRaisesHighest(s: State, op: Op)
    ensures var n := Assigned(s, op);
            && Highest(Step(s, op).infos.Keys) == (if n == 0 then Highest(s.infos.Keys) else n)
            && (n != 0 ==> n == Highest(s.infos.Keys) + 1)
  {
    hide FirstNew, AesKey.HashId, Highest;
    var n := Assigned(s, op);
    if n != 0 {
      AddVersionSteps(s, op.status, op.candidates);
      assert Step(s, op).infos.Keys == s.infos.Keys + {n};
      HighestIs(s.infos.Keys + {n}, n);
    } else {
      assert Step(s, op).infos.Keys == s.infos.Keys;
    }
  }

  /** Within a session no version number is used twice, and none that a version had at its start, not even after revoking. */
  lemma {:induction false} NumbersAreNew(s: State, ops: seq<Op>)
    ensures Metadata.Increasing(Numbers(s, ops))
    ensures forall n :: n in Numbers(s, ops) ==> n > Highest(s.infos.Keys) && n !in s.infos
    decreases |ops|
  {
    hide Step, Assigned, Highest, Metadata.Increasing;
    if ops == [] {
      NoneIncrease();
    } else {
      var t := Step(s, ops[0]);
      StepRaisesHighest(s, ops[0]);
      NumbersAreNew(t, ops[1..]);
      if Assigned(s, ops[0]) != 0 {
        Metadata.IncreasingCons(Assigned(s, ops[0]), Numbers(t, ops[1..]));
      }
    }
  }

  lemma NoneIncrease()
    ensures Metadata.Increasing([])
  {
  }

  // ---------------------------------------------------------------- writing and loading again

  /** The versions that the metadata lists. */
  function ListedVersions(s: State): map<int, Info> {
    map n | n in s.infos && n in s.listed :: s.infos[n]
  }

  lemma ListedAreConsistent(s: State)
    requires Inv(s)
    ensures ListedVersions(s).Keys == s.listed && s.listed <= s.keys.Keys && OnePrimary(ListedVersions(s), s.listed)
  {
  }

  lemma SamePrimary(s: State, t: State)
    requires Inv(s) && Inv(t) && t.infos == ListedVersions(s) && t.listed == s.listed
    ensures t.primary == s.primary
  {
  }

  /**
   A keyset that is written, with the keys of all its versions, and loaded again has the listed versions, their keys
   and the same primary version. The number of its next version is the same as before exactly when the version with
   the highest number was not revoked; otherwise it is lower.
   */
  lemma NumberAfterReload(s: State, stored: Stored, decrypts: bool, order: seq<int>)
    requires Inv(s) && forall n :: n in s.infos ==> n > 0
    requires stored.versions == ListedVersions(s) && (stored.encrypted ==> decrypts) && IsOrder(order, stored.versions)
    ensures var r := Load(Generic, stored, decrypts, order, s.keys);
            && r.Ok? && Inv(r.value) && r.value.infos == stored.versions && r.value.primary == s.primary
            && (forall n :: n in r.value.keys ==> r.value.keys[n] == s.keys[n])
            && Highest(r.value.infos.Keys) <= Highest(s.infos.Keys)
            && (Highest(r.value.infos.Keys) == Highest(s.infos.Keys) <==>
                  s.infos == map[] || Highest(s.infos.Keys) in s.listed)
  {
    ListedAreConsistent(s);
    LoadedIsConsistent(Generic, stored, decrypts, order, s.keys);
    hide Load, HashesAgree, NoClash, IsOrder, OnePrimary;
    var t := Load(Generic, stored, decrypts, order, s.keys).value;
    SamePrimary(s, t);
    HighestOfListed(s);
    hide Inv;
  }

  lemma HighestOfListed(s: State)
    requires s.listed <= s.infos.Keys && forall n :: n in s.infos ==> n > 0
    ensures Highest(s.listed) <= Highest(s.infos.Keys)
    ensures Highest(s.listed) == Highest(s.infos.Keys) <==> s.infos == map[] || Highest(s.infos.Keys) in s.listed
  {
    if s.infos != map[] {
      assert exists n :: n in s.infos by {
        assert (forall n :: n !in s.infos) ==> s.infos == map[];
      }
    }
  }

  /** A keyset of one version, loaded. */
  function Single(status: Status, key: AesKey): State {
    State(map[1 := Info(status, false)], {1}, map[1 := key], map[key.HashId() := key], if status.PRIMARY? then Loaded(1) else Nobody)
  }

  /** Its metadata. */
  function SingleStored(status: Status): Stored {
    Stored(Metadata.DECRYPT_AND_ENCRYPT, false, map[1 := Info(status, false)])
  }

  lemma SingleIsLoaded(status: Status, key: AesKey)
    ensures Within([1], SingleStored(status).versions)
    ensures Load(Generic, SingleStored(status), false, [1], map[1 := key]) == Ok(Single(status, key))
    ensures Inv(Single(status, key))
  {
    var versions := map[1 := Info(status, false)];
    var s := Taken(Listing(versions), 1, versions[1], key);
    assert versions.Keys == {1};
    assert s == Single(status, key);
    assert [1][1..] == [];
    assert LoadKeys(s, versions, [], map[1 := key]) == Ok(s);
  }

  /**
   So it happens: from a keyset that was loaded, generating a primary key fails, yet the former primary version is
   retired and the noted one was never added.
   */
  lemma GenerationFailsHalfway(key: AesKey)
    ensures Within([1], SingleStored(Metadata.PRIMARY).versions)
    ensures var s := Load(Generic, SingleStored(Metadata.PRIMARY), false, [1], map[1 := key]);
            && s.Ok? && Inv(s.value) && s.value.primary == Loaded(1)
            && var (t, error) := AddVersion(s.value, Metadata.PRIMARY, true, []);
               error == Some(GenerationFailed) && !Inv(t)
               && t.infos == map[1 := Info(Metadata.ACTIVE, false)] && t.primary == Orphan
  {
    SingleIsLoaded(Metadata.PRIMARY, key);
    hide Load;
  }

  /** So it happens: version 1 is revoked, the keyset is written and loaded again, and 1 is assigned to another key. */
  lemma NumberIsAssignedAgain(key: AesKey, other: AesKey)
    requires other.HashId() != key.HashId()
    ensures Within([1], SingleStored(Metadata.INACTIVE).versions)
    ensures var loaded := Load(Generic, SingleStored(Metadata.INACTIVE), false, [1], map[1 := key]);
            && loaded.Ok?
            && var s := Revoke(loaded.value, 1).0;
               var again := Load(Generic, SingleStored(Metadata.INACTIVE).(versions := ListedVersions(s)), false, [], s.keys);
               var op := DoAddVersion(Metadata.INACTIVE, true, [other]);
               && Assigned(s, op) == 2
               && again.Ok? && Assigned(again.value, op) == 1 && Step(again.value, op).keys == map[1 := other]
  {
    hide Highest, AesKey.HashId;
    SingleIsLoaded(Metadata.INACTIVE, key);
    var s := Revoke(Single(Metadata.INACTIVE, key), 1).0;
    assert s.infos.Keys == {1};
    HighestIs({1}, 1);
    HighestIs({}, 0);
    assert ListedVersions(s) == map[];
    assert FirstNew(s.byHash, [other]) == Some(other);
    var t := State(map[], {}, map[], map[], Nobody);
    assert Listing(map[]) == t;
    LoadNothing(t, map[], s.keys);
    assert Load(Generic, SingleStored(Metadata.INACTIVE).(versions := map[]), false, [], s.keys) == Ok(t);
    assert FirstNew(t.byHash, [other]) == Some(other);
    hide Load;
  }

  /** A primary version after another one, in some order. */
  ghost predicate Second(started: bool, metadata: map<int, Info>, order: seq<int>, i: nat) {
    i < |order| && IsPrimary(metadata, order[i]) && (started || exists j: nat :: j < i && IsPrimary(metadata, order[j]))
  }

  /** The first version in some order that is a second primary or has no key to read, and what is reported of it. */
  ghost predicate Blamed(started: bool, metadata: map<int, Info>, order: seq<int>, read: map<int, AesKey>, i: nat, e: PyError) {
    && i < |order| && (forall j: nat :: j < i ==> order[j] in read && !Second(started, metadata, order, j))
    && if Second(started, metadata, order, i) then e == SeveralPrimaries else order[i] !in read && e == ReadFailed
  }

  lemma SecondLater(started: bool, metadata: map<int, Info>, order: seq<int>, i: nat)
    requires order != [] && (started ==> !IsPrimary(metadata, order[0]))
    ensures Second(started || IsPrimary(metadata, order[0]), metadata, order[1..], i) <==> Second(started, metadata, order, i + 1)
  {
    hide IsPrimary;
    if j: nat :| j < i && i < |order[1..]| && IsPrimary(metadata, order[1..][j]) {
      assert IsPrimary(metadata, order[j + 1]);
    }
    if j: nat :| j < i + 1 < |order| && IsPrimary(metadata, order[j]) && j > 0 {
      assert IsPrimary(metadata, order[1..][j - 1]);
    }
  }

  lemma BlamedLater(started: bool, metadata: map<int, Info>, order: seq<int>, read: map<int, AesKey>, i: nat, e: PyError)
    requires order != [] && order[0] in read && (started ==> !IsPrimary(metadata, order[0]))
    requires Blamed(started || IsPrimary(metadata, order[0]), metadata, order[1..], read, i, e)
    ensures Blamed(started, metadata, order, read, i + 1, e)
  {
    SecondLater(started, metadata, order, i);
    forall j: nat | j < i + 1 ensures order[j] in read && !Second(started, metadata, order, j) {
      if j > 0 {
        SecondLater(started, metadata, order, j - 1);
        assert order[1..][j - 1] in read;
      }
    }
  }

  /** Why loading the keys fails. */
  lemma {:induction false} LoadKeysReports(s: State, metadata: map<int, Info>, order: seq<int>, read: map<int, AesKey>,
                                           started: bool)
    requires Within(order, metadata) && started == (s.primary != Nobody)
    ensures var r := LoadKeys(s, metadata, order, read);
            r.Err? ==> exists i: nat :: Blamed(started, metadata, order, read, i, r.error)
    decreases |order|
  {
    hide LoadKeys, Blamed;
    if order == [] {
      LoadNothing(s, metadata, read);
    } else {
      LoadFirst(s, metadata, order, read);
      var n := order[0];
      var r := LoadKeys(s, metadata, order, read);
      if (IsPrimary(metadata, n) && started) || n !in read {
        FirstBlamed(started, metadata, order, read, r.error);
        assert Blamed(started, metadata, order, read, 0, r.error);
      } else if r.Err? {
        var started' := started || IsPrimary(metadata, n);
        LoadKeysReports(Taken(s, n, metadata[n], read[n]), metadata, order[1..], read, started');
        var i: nat :| Blamed(started', metadata, order[1..], read, i, r.error);
        BlamedLater(started, metadata, order, read, i, r.error);
      }
    }
  }

  lemma FirstBlamed(started: bool, metadata: map<int, Info>, order: seq<int>, read: map<int, AesKey>, e: PyError)
    requires order != [] && e == if IsPrimary(metadata, order[0]) && started then SeveralPrimaries else ReadFailed
    requires (IsPrimary(metadata, order[0]) && started) || order[0] !in read
    ensures Blamed(started, metadata, order, read, 0, e)
  {
  }

  /**
   Why a keyset is not loaded: its purpose is not one of its class, its keys are encrypted and the reader does not
   decrypt them, or, of the first version in the order for which either holds, that it is a second primary version or
   that its key cannot be read.
   */
  lemma LoadReports(kind: Kind, stored: Stored, decrypts: bool, order: seq<int>, read: map<int, AesKey>)
    requires IsOrder(order, stored.versions)
    ensures var r := Load(kind, stored, decrypts, order, read);
            var permitted := Offered(kind) <= Permitted(stored.purpose);
            && (r == Err(UnacceptablePurpose) <==> !permitted)
            && (r == Err(NeedsEncryptedReader) <==> permitted && stored.encrypted && !decrypts)
            && (r.Err? && permitted && (stored.encrypted ==> decrypts) ==>
                  exists i: nat :: Blamed(false, stored.versions, order, read, i, r.error))
  {
    AcceptableIsPermitted(kind, stored.purpose);
    LoadKeysReports(Listing(stored.versions), stored.versions, order, read, false);
    hide LoadKeys;
    var r := LoadKeys(Listing(stored.versions), stored.versions, order, read);
    if i: nat :| r.Err? && Blamed(false, stored.versions, order, read, i, r.error) {
      assert r.error == SeveralPrimaries || r.error == ReadFailed;
    }
  }
}
