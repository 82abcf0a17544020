/**
 Authority admission of etzio/authority.py: the live decision over a trust store and the
 self-verifying record that embeds a snapshot of that store as sorted lists.
 */
module Authority {
  import opened Common

  const MAX_TRUSTED_KEYS: nat := 64
  const MAX_REVOCATIONS: nat := 10_000
  const MAX_CONTAINER_ITEMS: nat := 10_000
  const OPERATOR_ROLE: Id := 0
  const PERMITTED_ACTIONS: set<Id> := {1, 2}

  // ----- canonical lists -----

  lemma AppendLargest(s: set<Id>, m: Id, init: seq<Id>)
    requires m in s && (forall x | x in s :: x <= m)
    requires Increasing(init) && Elements(init) == s - {m} && |init| == |s - {m}|
    ensures Increasing(init + [m]) && Elements(init + [m]) == s && |init + [m]| == |s|
  {
    forall i | 0 <= i < |init| ensures init[i] < m { assert init[i] in Elements(init); }
    assert Elements(init + [m]) == Elements(init) + {m};
  }

  /** `sorted(values)` of a set. */
  ghost function Sorted(s: set<Id>): (r: seq<Id>)
    ensures Increasing(r) && Elements(r) == s && |r| == |s|
    decreases |s|
  {
    if s == {} then [] else
    var m := Largest(s);
    AppendLargest(s, m, Sorted(s - {m}));
    Sorted(s - {m}) + [m]
  }

  ghost function Largest(s: set<Id>): (m: Id)
    requires s != {}
    ensures m in s && forall x | x in s :: x <= m
    decreases |s|
  {
    var x :| x in s;
    var rest := s - {x};
    assert s == rest + {x};
    if rest == {} then x else
    var y := Largest(rest);
    if x < y then y else x
  }

  // ----- trust -----

  datatype TrustedKey = TrustedKey(publicKey: Bytes, roles: set<Id>, issuers: set<Id>)

  datatype TrustStore = TrustStore(keys: map<Id, TrustedKey>, revokedKeys: set<Id>, revokedGrants: set<Id>)

  datatype KeyEntry = KeyEntry(id: Id, publicKey: Bytes, roles: seq<Id>, issuers: seq<Id>)

  datatype Snapshot = Snapshot(keys: seq<KeyEntry>, revokedGrants: seq<Id>, revokedKeys: seq<Id>)

  datatype Grant = Grant(id: Id, issuer: Id, target: Id, permitted: set<Id>, notBefore: int, expiresAt: int)

  datatype Signed = Signed(envelope: Bytes, key: Id, signature: Bytes)

  /** A record without its content-derived identity. */
  datatype Fields = Fields(authority: Id, signer: Id, target: Id, decisionTime: int, required: seq<Id>,
                           expiresAt: int, snapshotId: Id, snapshot: Snapshot, signed: Signed)

  datatype Record = Record(id: Id, fields: Fields)

  /**
   Signatures, key identities, canonical envelopes and content identities; `encodable` stands
   for the codec's ceilings on nodes, strings and bytes.
   */
  datatype Crypto = Crypto(verifies: (Bytes, Bytes, Bytes) -> bool, validPoint: Bytes -> bool, keyId: Bytes -> Id,
                           parse: Bytes -> Option<Grant>, encode: Grant -> Bytes,
                           snapshotId: Snapshot -> Id, admissionId: Fields -> Id, encodable: Fields -> bool)

  /** `TrustStore.__post_init__` and `TrustedAuthorityKey.__post_init__` */
  ghost predicate ValidStore(C: Crypto, t: TrustStore) {
    && |t.keys| <= MAX_TRUSTED_KEYS && |t.revokedKeys| + |t.revokedGrants| <= MAX_REVOCATIONS
    && forall k | k in t.keys :: ValidKey(C, k, t.keys[k])
  }

  ghost predicate ValidKey(C: Crypto, id: Id, k: TrustedKey) {
    C.validPoint(k.publicKey) && C.keyId(k.publicKey) == id && k.roles != {} && k.issuers != {}
  }

  ghost predicate ValidEntry(C: Crypto, e: KeyEntry) {
    && C.validPoint(e.publicKey) && C.keyId(e.publicKey) == e.id
    && e.roles != [] && Increasing(e.roles) && e.issuers != [] && Increasing(e.issuers)
  }

  /** `_validate_trust_snapshot_body` */
  ghost predicate ValidSnapshot(C: Crypto, b: Snapshot) {
    && |b.keys| <= MAX_TRUSTED_KEYS && |b.revokedGrants| + |b.revokedKeys| <= MAX_REVOCATIONS
    && (forall e | e in b.keys :: ValidEntry(C, e))
    && KeysIncrease(b.keys)
    && Increasing(b.revokedGrants) && Increasing(b.revokedKeys)
  }

  ghost function EntryOf(id: Id, k: TrustedKey): KeyEntry {
    KeyEntry(id, k.publicKey, Sorted(k.roles), Sorted(k.issuers))
  }

  ghost function EntriesOf(keys: map<Id, TrustedKey>, ids: seq<Id>): (r: seq<KeyEntry>)
    requires forall i | i in ids :: i in keys
    ensures |r| == |ids| && forall i | 0 <= i < |ids| :: r[i] == EntryOf(ids[i], keys[ids[i]])
  {
    seq(|ids|, i requires 0 <= i < |ids| => EntryOf(ids[i], keys[ids[i]]))
  }

  /** `TrustStore.to_snapshot_body` */
  ghost function ToSnapshot(t: TrustStore): Snapshot {
    var ids := Sorted(t.keys.Keys);
    assert forall i | i in ids :: i in Elements(ids);
    Snapshot(EntriesOf(t.keys, ids), Sorted(t.revokedGrants), Sorted(t.revokedKeys))
  }

  /** The loop of `to_snapshot_body`, over keys already in order. */
  method BuildEntries(keys: map<Id, TrustedKey>, ids: seq<Id>) returns (entries: seq<KeyEntry>)
    requires forall i | i in ids :: i in keys
    ensures entries == EntriesOf(keys, ids)
  {
    hide Sorted, Increasing, Elements, EntriesOf;
    entries := [];
    for n := 0 to |ids|
      invariant |entries| == n && forall i | 0 <= i < n :: entries[i] == EntryOf(ids[i], keys[ids[i]])
    {
      var k := keys[ids[n]];
      var roles := SortIds(k.roles);
      var issuers := SortIds(k.issuers);
      entries := entries + [KeyEntry(ids[n], k.publicKey, roles, issuers)];
    }
  }

  lemma SortedLast(s: set<Id>, m: Id)
    requires m in s && forall x | x in s :: x <= m
    ensures Sorted(s) == Sorted(s - {m}) + [m]
  {
    assert m <= Largest(s) <= m;
  }

  lemma SortedEmpty()
    ensures Sorted({}) == []
  {
  }

  /** Python's `sorted` of a set, by repeatedly taking the largest. */
  method SortIds(s: set<Id>) returns (r: seq<Id>)
    ensures r == Sorted(s)
  {
    hide Sorted, Largest, Increasing, Elements;
    r := [];
    var rest := s;
    SortedEmpty();
    while rest != {}
      invariant Sorted(rest) + r == Sorted(s)
      decreases |rest|
    {
      var l := IsLargest(rest);
      var m :| m in rest && forall x | x in rest :: x <= m;
      SortedLast(rest, m);
      r, rest := [m] + r, rest - {m};
    }
  }

  lemma IsLargest(s: set<Id>) returns (m: Id)
    requires s != {}
    ensures m in s && forall x | x in s :: x <= m
  {
    m := Largest(s);
  }

  /** `TrustStore.to_snapshot_body`, as it is computed. */
  method SnapshotBody(t: TrustStore) returns (b: Snapshot)
    ensures b == ToSnapshot(t)
  {
    hide Sorted;
    var ids := SortIds(t.keys.Keys);
    assert forall i | i in ids :: i in Elements(ids);
    var entries := BuildEntries(t.keys, ids);
    var grants := SortIds(t.revokedGrants);
    var keys := SortIds(t.revokedKeys);
    b := Snapshot(entries, grants, keys);
  }

  function KeyOf(e: KeyEntry): TrustedKey {
    TrustedKey(e.publicKey, Elements(e.roles), Elements(e.issuers))
  }

  /** The store a snapshot embeds. */
  function KeysOf(entries: seq<KeyEntry>): map<Id, TrustedKey> {
    if entries == [] then map[] else
    var last := |entries| - 1;
    KeysOf(entries[..last])[entries[last].id := KeyOf(entries[last])]
  }

  function FromSnapshot(b: Snapshot): TrustStore {
    TrustStore(KeysOf(b.keys), Elements(b.revokedKeys), Elements(b.revokedGrants))
  }

  // ----- round trips -----

  lemma ElementsIn(s: seq<Id>, x: Id)
    ensures x in s <==> x in Elements(s)
  {
  }

  ghost predicate KeysIncrease(entries: seq<KeyEntry>) {
    forall i, j | 0 <= i < j < |entries| :: entries[i].id < entries[j].id
  }

  /** Looking a key up in the embedded store is finding its entry. */
  lemma {:induction false} KeyLookup(entries: seq<KeyEntry>, i: nat)
    requires KeysIncrease(entries) && i < |entries|
    ensures entries[i].id in KeysOf(entries) && KeysOf(entries)[entries[i].id] == KeyOf(entries[i])
  {
    var last := |entries| - 1;
    if i < last { KeyLookup(entries[..last], i); }
  }

  lemma {:induction false} KeyOrigin(entries: seq<KeyEntry>, k: Id) returns (i: nat)
    requires k in KeysOf(entries)
    ensures i < |entries| && entries[i].id == k
  {
    var last := |entries| - 1;
    if entries[last].id == k { return last; }
    i := KeyOrigin(entries[..last], k);
  }

  lemma {:induction false} KeyCount(entries: seq<KeyEntry>)
    requires KeysIncrease(entries)
    ensures |KeysOf(entries)| == |entries|
  {
    if entries != [] {
      var last := |entries| - 1;
      var init := entries[..last];
      KeyCount(init);
      if entries[last].id in KeysOf(init) {
        var i := KeyOrigin(init, entries[last].id);
        assert false;
      }
    }
  }

  /** The entries' identities, in order. */
  function Names(entries: seq<KeyEntry>): (r: seq<Id>)
    ensures |r| == |entries| && forall i | 0 <= i < |entries| :: r[i] == entries[i].id
  {
    seq(|entries|, i requires 0 <= i < |entries| => entries[i].id)
  }

  lemma NamesAreKeys(entries: seq<KeyEntry>)
    requires KeysIncrease(entries)
    ensures Elements(Names(entries)) == KeysOf(entries).Keys && Increasing(Names(entries))
  {
    var names := Names(entries);
    forall k | k in KeysOf(entries) ensures k in names {
      var i := KeyOrigin(entries, k);
      assert names[i] == k;
    }
    forall k | k in names ensures k in KeysOf(entries) {
      var i :| 0 <= i < |names| && names[i] == k;
      KeyLookup(entries, i);
    }
  }

  lemma SortedElements(s: seq<Id>)
    requires Increasing(s)
    ensures Sorted(Elements(s)) == s
  {
    CanonicalList(Sorted(Elements(s)), s);
  }

  lemma EntryRoundTrip(C: Crypto, e: KeyEntry)
    requires ValidEntry(C, e)
    ensures EntryOf(e.id, KeyOf(e)) == e
  {
    hide Sorted;
    SortedElements(e.roles);
    SortedElements(e.issuers);
  }

  /** A canonical snapshot is the snapshot of the store it embeds. */
  lemma SnapshotRoundTrip(C: Crypto, b: Snapshot)
    requires ValidSnapshot(C, b)
    ensures ToSnapshot(FromSnapshot(b)) == b
  {
    hide Sorted, KeysOf;
    SortedElements(b.revokedGrants);
    SortedElements(b.revokedKeys);
    NamesAreKeys(b.keys);
    SortedElements(Names(b.keys));
    forall i | 0 <= i < |b.keys| ensures ToSnapshot(FromSnapshot(b)).keys[i] == b.keys[i] {
      KeyLookup(b.keys, i);
      EntryRoundTrip(C, b.keys[i]);
    }
  }

  lemma SnapshotCanonical(C: Crypto, t: TrustStore)
    requires ValidStore(C, t)
    ensures ValidSnapshot(C, ToSnapshot(t)) && Names(ToSnapshot(t).keys) == Sorted(t.keys.Keys)
  {
    hide Sorted, KeysOf, ValidKey, EntryOf;
    var ids, b := Sorted(t.keys.Keys), ToSnapshot(t);
    forall i | 0 <= i < |b.keys| ensures ValidEntry(C, b.keys[i]) && b.keys[i].id == ids[i] {
      assert ids[i] in Elements(ids);
      EntryValid(C, ids[i], t.keys[ids[i]]);
    }
  }

  /** Entry `i` of a store's snapshot stands for the store's key of that name. */
  lemma KeyAt(t: TrustStore, i: nat)
    requires i < |Sorted(t.keys.Keys)|
    ensures var k, b := Sorted(t.keys.Keys)[i], ToSnapshot(t).keys;
            k in t.keys && |b| == |Sorted(t.keys.Keys)| && b[i].id == k && KeyOf(b[i]) == t.keys[k]
  {
    hide Sorted, Increasing;
    var ids := Sorted(t.keys.Keys);
    assert ids[i] in Elements(ids);
  }

  lemma KeysBack(C: Crypto, t: TrustStore)
    requires ValidStore(C, t)
    ensures KeysOf(ToSnapshot(t).keys) == t.keys
  {
    hide Sorted, KeysOf, KeyOf, ValidStore, ToSnapshot, Elements, Increasing, ValidEntry;
    SnapshotCanonical(C, t);
    var b := ToSnapshot(t);
    NamesAreKeys(b.keys);
    assert KeysOf(b.keys).Keys == t.keys.Keys;
    forall k | k in t.keys ensures KeysOf(b.keys)[k] == t.keys[k] {
      var i := PlaceOf(t.keys.Keys, k);
      KeyAt(t, i);
      KeyLookup(b.keys, i);
    }
  }

  /** And the snapshot of a store is canonical and embeds that store. */
  lemma StoreRoundTrip(C: Crypto, t: TrustStore)
    requires ValidStore(C, t)
    ensures ValidSnapshot(C, ToSnapshot(t)) && FromSnapshot(ToSnapshot(t)) == t
  {
    hide Sorted, ValidStore, ValidSnapshot;
    SnapshotCanonical(C, t);
    KeysBack(C, t);
  }

  lemma EntryValid(C: Crypto, id: Id, k: TrustedKey)
    requires ValidKey(C, id, k)
    ensures ValidEntry(C, EntryOf(id, k)) && EntryOf(id, k).id == id
  {
    hide Sorted;
    NoElements(Sorted(k.roles));
    NoElements(Sorted(k.issuers));
  }

  lemma FromSnapshotValid(C: Crypto, b: Snapshot)
    requires ValidSnapshot(C, b)
    ensures ValidStore(C, FromSnapshot(b))
  {
    hide KeysOf;
    KeyCount(b.keys);
    var t := FromSnapshot(b);
    IncreasingSize(b.revokedGrants);
    IncreasingSize(b.revokedKeys);
    forall k | k in t.keys ensures ValidKey(C, k, t.keys[k]) {
      var i := KeyOrigin(b.keys, k);
      KeyLookup(b.keys, i);
      assert b.keys[i] in b.keys;
      NoElements(b.keys[i].roles);
      NoElements(b.keys[i].issuers);
    }
  }

  lemma IncreasingSize(s: seq<Id>)
    requires Increasing(s)
    ensures |Elements(s)| == |s|
  {
    SortedElements(s);
  }

  // ----- the live decision -----

  datatype Refusal =
    | InvalidDecisionTime | InvalidRequiredActions | KeyRevoked | UnknownKey | KeyMissingOperatorRole
    | MalformedSignature | InvalidSignature | InvalidEnvelope | NoncanonicalEnvelope | GrantRevoked
    | IssuerNotAllowed | NotYetValid | Expired | TargetMismatch | MissingRequiredAction

  /** `Raised` is the codec's error on a record it cannot represent, which is not turned into a refusal. */
  datatype Decision = Refused(why: Refusal) | Raised | Admitted(grant: Grant, record: Record)

  /** What the signed carrier's constructor checks. */
  predicate ValidSigned(s: Signed) {
    |s.signature| == 64 && 0 < |s.envelope| <= 0x10_0000
  }

  /** `_required_action_tuple` */
  ghost function RequiredActions(actions: seq<Id>): Option<seq<Id>> {
    if !(Elements(actions) <= PERMITTED_ACTIONS) || |Elements(actions)| != |actions| then None
    else Some(Sorted(Elements(actions)))
  }

  /** The arrays of a snapshot whose length only the codec limits. */
  predicate ArraysFit(b: Snapshot) {
    forall e | e in b.keys :: |e.roles| <= MAX_CONTAINER_ITEMS && |e.issuers| <= MAX_CONTAINER_ITEMS
  }

  predicate Representable(C: Crypto, f: Fields) {
    ArraysFit(f.snapshot) && C.encodable(f)
  }

  ghost function Issue(C: Crypto, g: Grant, s: Signed, t: TrustStore, time: int, required: seq<Id>,
                       target: Id): Record {
    var b := ToSnapshot(t);
    var f := Fields(g.id, s.key, target, time, required, g.expiresAt, C.snapshotId(b), b, s);
    Record(C.admissionId(f), f)
  }

  ghost function Admit(C: Crypto, t: TrustStore, s: Signed, time: int, target: Id, actions: seq<Id>): Decision {
    var required := RequiredActions(actions);
    if time < 0 then Refused(InvalidDecisionTime)
    else if required.None? then Refused(InvalidRequiredActions)
    else if s.key in t.revokedKeys then Refused(KeyRevoked)
    else if s.key !in t.keys then Refused(UnknownKey)
    else if OPERATOR_ROLE !in t.keys[s.key].roles then Refused(KeyMissingOperatorRole)
    else if |s.signature| != 64 then Refused(MalformedSignature)
    else if !C.verifies(t.keys[s.key].publicKey, s.envelope, s.signature) then Refused(InvalidSignature)
    else
      var parsed := C.parse(s.envelope);
      if parsed.None? then Refused(InvalidEnvelope)
      else
        var g := parsed.value;
        if C.encode(g) != s.envelope then Refused(NoncanonicalEnvelope)
        else if g.id in t.revokedGrants then Refused(GrantRevoked)
        else if g.issuer !in t.keys[s.key].issuers then Refused(IssuerNotAllowed)
        else if time < g.notBefore then Refused(NotYetValid)
        else if time >= g.expiresAt then Refused(Expired)
        else if g.target != target then Refused(TargetMismatch)
        else if !(Elements(required.value) <= g.permitted) then Refused(MissingRequiredAction)
        else
          var record := Issue(C, g, s, t, time, required.value, target);
          if !Representable(C, record.fields) then Raised else Admitted(g, record)
  }

  // ----- the historical record -----

  /** The first entry with the signer's key, as `next(...)` finds it. */
  function EntryFor(entries: seq<KeyEntry>, key: Id): (r: Option<KeyEntry>)
    ensures r.Some? ==> r.value in entries && r.value.id == key
    ensures r.None? ==> forall e | e in entries :: e.id != key
  {
    if entries == [] then None
    else if entries[0].id == key then Some(entries[0])
    else
      assert entries == [entries[0]] + entries[1..];
      EntryFor(entries[1..], key)
  }

  /** `_validate_historical_admission`, over the record's own lists. */
  ghost predicate HistoryHolds(C: Crypto, f: Fields) {
    var parsed, entry := C.parse(f.signed.envelope), EntryFor(f.snapshot.keys, f.signed.key);
    && ValidSigned(f.signed)
    && parsed.Some? && C.encode(parsed.value) == f.signed.envelope
    && var g := parsed.value;
       && f.signed.key == f.signer && g.id == f.authority && g.target == f.target && g.expiresAt == f.expiresAt
       && g.notBefore <= f.decisionTime < g.expiresAt
       && Elements(f.required) <= g.permitted
       && f.signed.key !in f.snapshot.revokedKeys && g.id !in f.snapshot.revokedGrants
       && entry.Some? && OPERATOR_ROLE in entry.value.roles && g.issuer in entry.value.issuers
       && C.verifies(entry.value.publicKey, f.signed.envelope, f.signed.signature)
  }

  /** `AuthorityAdmissionV1.__post_init__` raises nothing. */
  ghost predicate Constructible(C: Crypto, r: Record) {
    var f := r.fields;
    && 0 <= f.decisionTime < f.expiresAt
    && RequiredActions(f.required) == Some(f.required)
    && ValidSnapshot(C, f.snapshot) && C.snapshotId(f.snapshot) == f.snapshotId
    && HistoryHolds(C, f)
    && Representable(C, f) && r.id == C.admissionId(f)
  }

  lemma CanonicalActions(actions: seq<Id>)
    requires RequiredActions(actions).Some?
    ensures var r := RequiredActions(actions).value;
            Increasing(r) && Elements(r) == Elements(actions) && RequiredActions(r) == Some(r)
  {
    hide Sorted;
    SortedElements(RequiredActions(actions).value);
  }

  /** In a store's snapshot the signer's entry is the store's key. */
  lemma EntryInSnapshot(C: Crypto, t: TrustStore, key: Id)
    requires ValidStore(C, t) && key in t.keys
    ensures EntryFor(ToSnapshot(t).keys, key) == Some(EntryOf(key, t.keys[key]))
  {
    hide Sorted;
    var ids, b := Sorted(t.keys.Keys), ToSnapshot(t);
    assert key in Elements(ids);
    var i :| 0 <= i < |ids| && ids[i] == key;
    FirstEntry(b.keys, i);
  }

  lemma {:induction false} FirstEntry(entries: seq<KeyEntry>, i: nat)
    requires KeysIncrease(entries) && i < |entries|
    ensures EntryFor(entries, entries[i].id) == Some(entries[i])
  {
    if i > 0 {
      assert entries[0].id < entries[i].id;
      FirstEntry(entries[1..], i - 1);
    }
  }

  /** Whatever the live decision admits leaves a record that verifies itself. */
  lemma AdmittedRecordConstructs(C: Crypto, t: TrustStore, s: Signed, time: int, target: Id, actions: seq<Id>)
    requires ValidStore(C, t) && 0 < |s.envelope| <= 0x10_0000 && Admit(C, t, s, time, target, actions).Admitted?
    ensures Constructible(C, Admit(C, t, s, time, target, actions).record)
  {
    hide Sorted, ToSnapshot, ValidSnapshot, ValidStore;
    StoreRoundTrip(C, t);
    CanonicalActions(actions);
    EntryInSnapshot(C, t, s.key);
    SnapshotLists(t);
    ElementsIn(Sorted(t.keys[s.key].roles), OPERATOR_ROLE);
    ElementsIn(Sorted(t.keys[s.key].issuers), C.parse(s.envelope).value.issuer);
  }

  /** What an operator can see of a store: no key has too many roles or issuers to be written down. */
  predicate StoreFits(t: TrustStore) {
    forall k | k in t.keys :: |t.keys[k].roles| <= MAX_CONTAINER_ITEMS && |t.keys[k].issuers| <= MAX_CONTAINER_ITEMS
  }

  /** Each entry of a snapshot is a key of the store, and each key has one. */
  lemma EntryAt(t: TrustStore, i: nat)
    requires i < |Sorted(t.keys.Keys)|
    ensures var k, b := Sorted(t.keys.Keys)[i], ToSnapshot(t).keys;
            && k in t.keys && |b| == |Sorted(t.keys.Keys)|
            && |b[i].roles| == |t.keys[k].roles| && |b[i].issuers| == |t.keys[k].issuers|
  {
    hide Sorted, Increasing;
    var ids := Sorted(t.keys.Keys);
    assert ids[i] in Elements(ids);
  }

  lemma PlaceOf(s: set<Id>, k: Id) returns (i: nat)
    requires k in s
    ensures i < |Sorted(s)| && Sorted(s)[i] == k
  {
    hide Sorted, Increasing;
    assert k in Elements(Sorted(s));
    i :| 0 <= i < |Sorted(s)| && Sorted(s)[i] == k;
  }

  lemma FitsExactly(t: TrustStore)
    ensures ArraysFit(ToSnapshot(t)) <==> StoreFits(t)
  {
    hide Sorted, ToSnapshot, Increasing, Elements;
    var b := ToSnapshot(t).keys;
    if ArraysFit(ToSnapshot(t)) {
      forall k | k in t.keys
        ensures |t.keys[k].roles| <= MAX_CONTAINER_ITEMS && |t.keys[k].issuers| <= MAX_CONTAINER_ITEMS
      {
        var i := PlaceOf(t.keys.Keys, k);
        EntryAt(t, i);
        assert b[i] in b;
      }
    }
    if StoreFits(t) {
      forall i | 0 <= i < |b| ensures |b[i].roles| <= MAX_CONTAINER_ITEMS && |b[i].issuers| <= MAX_CONTAINER_ITEMS {
        SameLength(t);
        EntryAt(t, i);
      }
    }
  }

  lemma SameLength(t: TrustStore)
    ensures |ToSnapshot(t).keys| == |Sorted(t.keys.Keys)|
  {
    hide Sorted;
  }

  /**
   Some stores admit nothing: with a key of too many roles or issuers, a grant that passes
   every check still ends in the codec's error, and that is the only way to it besides the
   codec's other ceilings.
   */
  lemma RaisesExactly(C: Crypto, t: TrustStore, s: Signed, time: int, target: Id, actions: seq<Id>)
    requires !Admit(C, t, s, time, target, actions).Refused?
    ensures var record := Issue(C, C.parse(s.envelope).value, s, t, time, RequiredActions(actions).value, target);
            Admit(C, t, s, time, target, actions).Raised? <==> !StoreFits(t) || !C.encodable(record.fields)
  {
    hide Sorted, ToSnapshot;
    FitsExactly(t);
  }

  lemma {:induction false} Below(n: nat) returns (s: set<Id>)
    ensures |s| == n && forall x: Id :: x in s <==> x < n
  {
    s := {};
    if n > 0 {
      var rest := Below(n - 1);
      s := rest + {n - 1};
    }
  }

  /** Such a store exists and passes all its own checks, so acceptance by every check does not imply a record. */
  lemma ChecksMayPassWithoutRecord() returns (C: Crypto, t: TrustStore, s: Signed)
    ensures ValidStore(C, t) && ValidSigned(s) && Admit(C, t, s, 0, 0, []).Raised?
  {
    hide Sorted;
    var issuers := Below(MAX_CONTAINER_ITEMS + 1);
    var g := Grant(0, 0, 0, {}, 0, 1);
    C := Crypto((k, m, x) => true, k => true, k => 0, e => Some(g), x => [0], b => 0, f => 0, f => true);
    var key := TrustedKey([], {OPERATOR_ROLE}, issuers);
    t := TrustStore(map[0 := key], {}, {});
    s := Signed([0], 0, seq(64, i => 0));
    assert t.keys[0] == key && !StoreFits(t);
    assert 0 in issuers && key.issuers != {};
    assert Elements([]) == {};
    RaisesExactly(C, t, s, 0, 0, []);
  }

  // ----- exactly when a grant is admitted -----

  lemma {:induction false} CountsDistinct(s: seq<Id>)
    ensures |Elements(s)| <= |s|
    ensures |Elements(s)| == |s| <==> Distinct(s)
  {
    if s != [] {
      var n := |s| - 1;
      CountsDistinct(s[..n]);
      assert s == s[..n] + [s[n]];
      assert Elements(s) == Elements(s[..n]) + {s[n]};
      if s[n] in Elements(s[..n]) {
        var i :| 0 <= i < n && s[..n][i] == s[n];
        assert s[i] == s[n];
      } else {
        assert forall i | 0 <= i < n :: s[..n][i] == s[i] && s[i] in Elements(s[..n]);
      }
    }
  }

  /** A request is well-formed exactly when it names permitted actions, none of them twice. */
  lemma RequiredExactly(actions: seq<Id>)
    ensures RequiredActions(actions).Some? <==> Distinct(actions) && forall a | a in actions :: a in PERMITTED_ACTIONS
    ensures RequiredActions(actions).Some? ==>
              && Increasing(RequiredActions(actions).value)
              && forall a :: a in RequiredActions(actions).value <==> a in actions
  {
    hide Sorted, Distinct;
    CountsDistinct(actions);
    forall a ensures a in actions <==> a in Elements(actions) { ElementsIn(actions, a); }
    if RequiredActions(actions).Some? {
      var r := RequiredActions(actions).value;
      forall a ensures a in r <==> a in Elements(r) { ElementsIn(r, a); }
    }
  }

  /** The signer may sign: a trusted, unrevoked operator key whose signature this is. */
  ghost predicate SignedByOperator(C: Crypto, t: TrustStore, s: Signed) {
    && s.key in t.keys && s.key !in t.revokedKeys && OPERATOR_ROLE in t.keys[s.key].roles
    && |s.signature| == 64 && C.verifies(t.keys[s.key].publicKey, s.envelope, s.signature)
  }

  /** The grant covers the request: canonical, unrevoked, its issuer allowed, its window, target and actions right. */
  ghost predicate Covers(C: Crypto, t: TrustStore, s: Signed, g: Grant, time: int, target: Id, actions: seq<Id>)
    requires s.key in t.keys
  {
    && C.parse(s.envelope) == Some(g) && C.encode(g) == s.envelope && g.id !in t.revokedGrants
    && g.issuer in t.keys[s.key].issuers && g.notBefore <= time < g.expiresAt && g.target == target
    && forall a | a in actions :: a in g.permitted
  }

  ghost function FieldsFor(C: Crypto, t: TrustStore, s: Signed, g: Grant, time: int, target: Id,
                           actions: seq<Id>): Fields {
    var b := ToSnapshot(t);
    Fields(g.id, s.key, target, time, Sorted(Elements(actions)), g.expiresAt, C.snapshotId(b), b, s)
  }

  /** Admission is an iff on store, grant and request, and its record is determined by them. */
  lemma AdmitsExactly(C: Crypto, t: TrustStore, s: Signed, time: int, target: Id, actions: seq<Id>, g: Grant)
    ensures Admit(C, t, s, time, target, actions).Admitted? && C.parse(s.envelope) == Some(g) <==>
            && time >= 0 && Distinct(actions) && (forall a | a in actions :: a in PERMITTED_ACTIONS)
            && SignedByOperator(C, t, s) && Covers(C, t, s, g, time, target, actions)
            && StoreFits(t) && C.encodable(FieldsFor(C, t, s, g, time, target, actions))
    ensures var d := Admit(C, t, s, time, target, actions);
            d.Admitted? && C.parse(s.envelope) == Some(g) ==>
              var f := FieldsFor(C, t, s, g, time, target, actions);
              d == Admitted(g, Record(C.admissionId(f), f))
  {
    hide Sorted, ToSnapshot, Distinct, StoreFits, ArraysFit;
    RequiredExactly(actions);
    FitsExactly(t);
    var r := RequiredActions(actions);
    if r.Some? {
      assert r.value == Sorted(Elements(actions));
      forall a ensures a in Elements(r.value) <==> a in actions { ElementsIn(r.value, a); }
    }
  }

  /** Each refusal names something that is the case. */
  ghost predicate Truthful(C: Crypto, t: TrustStore, s: Signed, time: int, target: Id, actions: seq<Id>, why: Refusal) {
    var parsed := C.parse(s.envelope);
    match why
    case InvalidDecisionTime => time < 0
    case InvalidRequiredActions => !Distinct(actions) || exists a :: a in actions && a !in PERMITTED_ACTIONS
    case KeyRevoked => s.key in t.revokedKeys
    case UnknownKey => s.key !in t.keys
    case KeyMissingOperatorRole => s.key in t.keys && OPERATOR_ROLE !in t.keys[s.key].roles
    case MalformedSignature => |s.signature| != 64
    case InvalidSignature =>
      s.key in t.keys && |s.signature| == 64 && !C.verifies(t.keys[s.key].publicKey, s.envelope, s.signature)
    case InvalidEnvelope => parsed.None?
    case NoncanonicalEnvelope => parsed.Some? && C.encode(parsed.value) != s.envelope
    case GrantRevoked => parsed.Some? && parsed.value.id in t.revokedGrants
    case IssuerNotAllowed => s.key in t.keys && parsed.Some? && parsed.value.issuer !in t.keys[s.key].issuers
    case NotYetValid => parsed.Some? && time < parsed.value.notBefore
    case Expired => parsed.Some? && parsed.value.expiresAt <= time
    case TargetMismatch => parsed.Some? && parsed.value.target != target
    case MissingRequiredAction => parsed.Some? && exists a :: a in actions && a !in parsed.value.permitted
  }

  lemma RefusalReasons(C: Crypto, t: TrustStore, s: Signed, time: int, target: Id, actions: seq<Id>)
    ensures var d := Admit(C, t, s, time, target, actions);
            d.Refused? ==> Truthful(C, t, s, time, target, actions, d.why)
  {
    hide Sorted, ToSnapshot, Distinct;
    RequiredExactly(actions);
    var r := RequiredActions(actions);
    if r.Some? {
      forall a ensures a in Elements(r.value) <==> a in actions { ElementsIn(r.value, a); }
    }
  }

  lemma SnapshotLists(t: TrustStore)
    ensures forall k :: k in ToSnapshot(t).revokedKeys <==> k in t.revokedKeys
    ensures forall g :: g in ToSnapshot(t).revokedGrants <==> g in t.revokedGrants
  {
    hide Sorted;
    forall k ensures k in ToSnapshot(t).revokedKeys <==> k in t.revokedKeys { ElementsIn(Sorted(t.revokedKeys), k); }
    forall g ensures g in ToSnapshot(t).revokedGrants <==> g in t.revokedGrants {
      ElementsIn(Sorted(t.revokedGrants), g);
    }
  }

  /** And every record that verifies itself is admitted again, and rebuilt identically, from its own contents. */
  lemma RecordReplays(C: Crypto, r: Record)
    requires Constructible(C, r)
    ensures var f := r.fields;
            var t := FromSnapshot(f.snapshot);
            && ValidStore(C, t) && 0 < |f.signed.envelope| <= 0x10_0000 && |f.signed.signature| == 64
            && Admit(C, t, f.signed, f.decisionTime, f.target, f.required)
               == Admitted(C.parse(f.signed.envelope).value, r)
  {
    hide Sorted, ToSnapshot, ValidStore, KeysOf;
    var f := r.fields;
    var t := FromSnapshot(f.snapshot);
    FromSnapshotValid(C, f.snapshot);
    SnapshotRoundTrip(C, f.snapshot);
    var e := EntryFor(f.snapshot.keys, f.signed.key).value;
    var i :| 0 <= i < |f.snapshot.keys| && f.snapshot.keys[i] == e;
    KeyLookup(f.snapshot.keys, i);
  }
}
