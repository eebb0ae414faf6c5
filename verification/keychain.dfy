/**
 * The `KeyChain` class: a key/value view of the generic-password entries of
 * one service in the platform keychain.
 *
 * The platform keychain is modelled as a map from service identifier to that
 * service's entries, each entry mapping an account name (the key) to its data.
 * The keychain searches, updates, additions and deletions become map
 * operations; status codes other than "not found" cannot arise in a map and
 * so are not modelled. The key-value-observing notifications about the `keys`
 * property are returned as a log of notices beside the new keychain contents.
 */
module KeyChainStore {
  import opened Optional
  import opened Archiving

  type Key = string

  /** The entries of one service: account name to data. */
  type Entries = map<Key, Data>

  /** The platform's generic-password keychain, partitioned by service. */
  type SecureStore = map<string, Entries>

  /** A keychain accessor bound to one service identifier. */
  datatype KeyChain = KeyChain(service: string)

  /** The entries stored under `service`; a service with no entries may be absent. */
  function Namespace(db: SecureStore, service: string): Entries {
    if service in db then db[service] else map[]
  }

  /** A keychain for the given service, which must not be empty. */
  function Init(id: string): (kc: KeyChain)
    requires id != ""
    ensures kc.service == id
  {
    KeyChain(id)
  }

  /** The accounts of all entries of the keychain's service. */
  function Keys(kc: KeyChain, db: SecureStore): (ks: set<Key>)
    ensures forall k :: k in ks <==> kc.service in db && k in db[kc.service]
  {
    Namespace(db, kc.service).Keys
  }

  /** The data stored for `key`, or `None` when no entry has that account. */
  function DataForKey(kc: KeyChain, db: SecureStore, key: Key): (r: Option<Data>)
    requires key != ""
    ensures r.None? <==> key !in Keys(kc, db)
    ensures r.Some? ==> r.value == db[kc.service][key]
  {
    var entries := Namespace(db, kc.service);
    if key in entries then Some(entries[key]) else None
  }

  // ---------------------------------------------------------------------
  // Change notification for the `keys` property.

  /** Whether the notice is sent before or after the keychain changes. */
  datatype Phase = Will | Did

  /** The set mutation a notice announces. */
  datatype SetMutation = Union | Minus

  datatype Notice = Notice(phase: Phase, mutation: SetMutation, keys: set<Key>)

  /** New keychain contents with the notices sent while producing them. */
  datatype Change = Change(db: SecureStore, notices: seq<Notice>)

  /** The will/did pair sent around a change of membership of `key`. */
  function Announce(m: SetMutation, key: Key): seq<Notice> {
    [Notice(Will, m, {key}), Notice(Did, m, {key})]
  }

  /** The key set an observer holds after receiving notice `n`. */
  function Observe(ks: set<Key>, n: Notice): set<Key> {
    match n.phase
    case Will => ks
    case Did =>
      match n.mutation
      case Union => ks + n.keys
      case Minus => ks - n.keys
  }

  /** The key set an observer holds after receiving every notice of `ns` in order. */
  function ObserveAll(ks: set<Key>, ns: seq<Notice>): set<Key>
    decreases |ns|
  {
    if ns == [] then ks else ObserveAll(Observe(ks, ns[0]), ns[1..])
  }

  lemma {:induction false} ObserveAllAppend(ks: set<Key>, ns: seq<Notice>, ms: seq<Notice>)
    ensures ObserveAll(ks, ns + ms) == ObserveAll(ObserveAll(ks, ns), ms)
    decreases |ns|
  {
    if ns != [] {
      assert (ns + ms)[1..] == ns[1..] + ms;
      ObserveAllAppend(Observe(ks, ns[0]), ns[1..], ms);
    } else {
      assert ns + ms == ms;
    }
  }

  /** A will/did pair changes an observer's set by exactly the announced key. */
  lemma ObserveAnnounce(ks: set<Key>, m: SetMutation, key: Key)
    ensures ObserveAll(ks, Announce(m, key)) == (if m == Union then ks + {key} else ks - {key})
  {
    var ns := Announce(m, key);
    var after := Observe(Observe(ks, ns[0]), ns[1]);
    assert ns[1..][1..] == [];
    assert ObserveAll(ks, ns) == ObserveAll(after, []);
  }

  // ---------------------------------------------------------------------
  // Mutation.

  /**
   * Sets the data for `key`, removing the entry when `data` is `None`.
   * An existing entry is updated or deleted; a missing one is added, or left
   * missing when there is no data. Membership notices are sent exactly when
   * the key set changes.
   */
  function SetData(kc: KeyChain, db: SecureStore, data: Option<Data>, key: Key): (r: Change)
    requires key != ""
    ensures DataForKey(kc, r.db, key) == data
    ensures Namespace(r.db, kc.service) ==
      (if data.Some? then Namespace(db, kc.service)[key := data.value]
       else Namespace(db, kc.service) - {key})
    ensures forall s :: s != kc.service ==> Namespace(r.db, s) == Namespace(db, s)
    ensures Keys(kc, r.db) == (if data.Some? then Keys(kc, db) + {key} else Keys(kc, db) - {key})
    ensures (r.notices == []) <==> (Keys(kc, r.db) == Keys(kc, db))
    ensures r.notices != [] ==>
      r.notices == Announce(if data.Some? then Union else Minus, key)
  {
    var entries := Namespace(db, kc.service);
    if key in entries then
      if data.Some? then
        // update the existing entry
        Change(db[kc.service := entries[key := data.value]], [])
      else
        // delete the existing entry
        Change(db[kc.service := entries - {key}], Announce(Minus, key))
    else
      if data.Some? then
        // add a new entry
        Change(db[kc.service := entries[key := data.value]], Announce(Union, key))
      else
        Change(db, [])
  }

  /** An observer that applies the notices of `SetData` ends with the new key set. */
  lemma SetDataNoticesTrackKeys(kc: KeyChain, db: SecureStore, data: Option<Data>, key: Key)
    requires key != ""
    ensures var r := SetData(kc, db, data, key);
      ObserveAll(Keys(kc, db), r.notices) == Keys(kc, r.db)
  {
    var r := SetData(kc, db, data, key);
    if r.notices != [] {
      ObserveAnnounce(Keys(kc, db), if data.Some? then Union else Minus, key);
    }
  }

  /** Removes the entry for `key`, if there is one. */
  function RemoveDataForKey(kc: KeyChain, db: SecureStore, key: Key): (r: Change)
    requires key != ""
    ensures r == SetData(kc, db, None, key)
    ensures key !in Keys(kc, r.db)
  {
    SetData(kc, db, None, key)
  }

  /** The notices of removals of the keys in `order`, one will/did `.minus` pair per key, drawn from `all`. */
  predicate RemovalLog(all: set<Key>, order: seq<Key>, ns: seq<Notice>) {
    && |ns| == 2 * |order|
    && (forall i | 0 <= i < |ns| :: ns[i].mutation == Minus && ns[i].keys <= all)
    && (forall i | 0 <= i < |order| ::
          ns[2 * i] == Notice(Will, Minus, {order[i]}) && ns[2 * i + 1] == Notice(Did, Minus, {order[i]}))
  }

  /** Removing one more key of `all` extends a removal log by that key's pair. */
  lemma RemovalLogAppend(all: set<Key>, order: seq<Key>, ns: seq<Notice>, key: Key)
    requires RemovalLog(all, order, ns) && key in all
    ensures RemovalLog(all, order + [key], ns + Announce(Minus, key))
  {
  }

  /**
   * Removes every entry of the keychain's service, one key at a time, as
   * `SetData` with no data; the entries of other services are untouched.
   * `order` is the order in which the keys were removed: each removal sends
   * its own will/did `.minus` pair.
   */
  method RemoveAll(kc: KeyChain, db: SecureStore) returns (r: Change, order: seq<Key>)
    requires "" !in Keys(kc, db)
    ensures Keys(kc, r.db) == {}
    ensures Namespace(r.db, kc.service) == map[]
    ensures forall s :: s != kc.service ==> Namespace(r.db, s) == Namespace(db, s)
    ensures ObserveAll(Keys(kc, db), r.notices) == {}
    ensures |r.notices| == 2 * |Keys(kc, db)|
    ensures forall i | 0 <= i < |r.notices| ::
      r.notices[i].mutation == Minus && r.notices[i].keys <= Keys(kc, db)
    ensures |order| == |Keys(kc, db)| && (forall k :: k in order <==> k in Keys(kc, db))
    ensures |r.notices| == 2 * |order|
    ensures forall i | 0 <= i < |order| ::
      r.notices[2 * i] == Notice(Will, Minus, {order[i]}) && r.notices[2 * i + 1] == Notice(Did, Minus, {order[i]})
  {
    var pending := Keys(kc, db);
    var current := db;
    var notices := [];
    order := [];
    while pending != {}
      invariant pending <= Keys(kc, db)
      invariant Keys(kc, current) == pending
      invariant forall s :: s != kc.service ==> Namespace(current, s) == Namespace(db, s)
      invariant ObserveAll(Keys(kc, db), notices) == pending
      invariant |order| == |Keys(kc, db)| - |pending|
      invariant forall k :: k in order <==> k in Keys(kc, db) && k !in pending
      invariant RemovalLog(Keys(kc, db), order, notices)
      decreases pending
    {
      var key :| key in pending;
      var c := SetData(kc, current, None, key);
      SetDataNoticesTrackKeys(kc, current, None, key);
      ObserveAllAppend(Keys(kc, db), notices, c.notices);
      RemovalLogAppend(Keys(kc, db), order, notices, key);
      current, notices, order := c.db, notices + c.notices, order + [key];
      pending := pending - {key};
    }
    r := Change(current, notices);
  }

  // ---------------------------------------------------------------------
  // The object subscript.

  /** Reading `key` through the subscript does not trap: the key is not empty and its data, if any, is an archive. */
  predicate Readable(kc: KeyChain, db: SecureStore, key: Key) {
    key != "" && (key in Namespace(db, kc.service) ==> Unarchive(Namespace(db, kc.service)[key]).Some?)
  }

  /** Subscript get: the object archived under `key`, or `None` when there is no entry. */
  function Get(kc: KeyChain, db: SecureStore, key: Key): (r: Option<Object>)
    requires Readable(kc, db, key)
    ensures r.None? <==> key !in Keys(kc, db)
    ensures r.Some? ==> DataForKey(kc, db, key) == Some(Archive(r.value))
  {
    match DataForKey(kc, db, key)
    case None => None
    case Some(d) => Unarchive(d)
  }

  /** Subscript set: stores the archive of `obj`, or removes the entry when `obj` is `None`. */
  function Put(kc: KeyChain, db: SecureStore, key: Key, obj: Option<Object>): (r: Change)
    requires key != ""
    ensures Readable(kc, r.db, key) && Get(kc, r.db, key) == obj
    ensures Namespace(r.db, kc.service) - {key} == Namespace(db, kc.service) - {key}
    ensures forall s :: s != kc.service ==> Namespace(r.db, s) == Namespace(db, s)
    ensures obj.None? ==> r == RemoveDataForKey(kc, db, key)
    ensures r.notices ==
      if key in Keys(kc, db) then (if obj.None? then Announce(Minus, key) else [])
      else (if obj.None? then [] else Announce(Union, key))
  {
    match obj
    case Some(o) =>
      ArchiveRoundTrip(Archive(o), o);
      SetData(kc, db, Some(Archive(o)), key)
    case None => SetData(kc, db, None, key)
  }

  // ---------------------------------------------------------------------
  // Runs of mutations against a reference dictionary.

  /** One `SetData` call: data for a key, or `None` to remove it. */
  datatype Op = SetOp(key: Key, data: Option<Data>)

  predicate ValidOps(ops: seq<Op>) {
    forall i :: 0 <= i < |ops| ==> ops[i].key != ""
  }

  /** Applies `ops` in order, collecting every notice sent. */
  function Perform(kc: KeyChain, db: SecureStore, ops: seq<Op>): (r: Change)
    requires ValidOps(ops)
    decreases |ops|
  {
    if ops == [] then Change(db, [])
    else
      var c := SetData(kc, db, ops[0].data, ops[0].key);
      var rest := Perform(kc, c.db, ops[1..]);
      Change(rest.db, c.notices + rest.notices)
  }

  /** The same operations on a plain dictionary. */
  function Reference(m: Entries, ops: seq<Op>): Entries
    decreases |ops|
  {
    if ops == [] then m
    else
      var op := ops[0];
      var m' := if op.data.Some? then m[op.key := op.data.value] else m - {op.key};
      Reference(m', ops[1..])
  }

  /**
   * Any run of set and remove operations leaves the keychain's entries equal
   * to a dictionary given the same operations, leaves other services alone,
   * and sends notices from which an observer reconstructs the key set.
   */
  lemma {:induction false} PerformMatchesReference(kc: KeyChain, db: SecureStore, ops: seq<Op>)
    requires ValidOps(ops)
    ensures Namespace(Perform(kc, db, ops).db, kc.service) == Reference(Namespace(db, kc.service), ops)
    ensures forall s :: s != kc.service ==> Namespace(Perform(kc, db, ops).db, s) == Namespace(db, s)
    ensures ObserveAll(Keys(kc, db), Perform(kc, db, ops).notices) == Keys(kc, Perform(kc, db, ops).db)
    decreases |ops|
  {
    if ops != [] {
      var c := SetData(kc, db, ops[0].data, ops[0].key);
      assert ValidOps(ops[1..]) by {
        forall i | 0 <= i < |ops[1..]| ensures ops[1..][i].key != "" {
          assert ops[1..][i] == ops[i + 1];
        }
      }
      PerformMatchesReference(kc, c.db, ops[1..]);
      var rest := Perform(kc, c.db, ops[1..]);
      SetDataNoticesTrackKeys(kc, db, ops[0].data, ops[0].key);
      ObserveAllAppend(Keys(kc, db), c.notices, rest.notices);
    }
  }

  /** `n` successive updates of `key` with the given values. */
  function Updates(key: Key, values: seq<Data>): (ops: seq<Op>)
    ensures |ops| == |values|
    ensures forall i :: 0 <= i < |values| ==> ops[i] == SetOp(key, Some(values[i]))
  {
    if values == [] then [] else [SetOp(key, Some(values[0]))] + Updates(key, values[1..])
  }

  /**
   * Repeatedly setting the same key adds that one key to the key set,
   * however many times it is set, and keeps the last value.
   */
  lemma {:induction false} RepeatedUpdateAddsOneKey(kc: KeyChain, db: SecureStore, key: Key, values: seq<Data>)
    requires key != "" && values != []
    ensures ValidOps(Updates(key, values))
    ensures var r := Perform(kc, db, Updates(key, values));
      Keys(kc, r.db) == Keys(kc, db) + {key} && DataForKey(kc, r.db, key) == Some(values[|values| - 1])
    decreases |values|
  {
    var ops := Updates(key, values);
    var c := SetData(kc, db, Some(values[0]), key);
    if |values| > 1 {
      assert ops[1..] == Updates(key, values[1..]);
      RepeatedUpdateAddsOneKey(kc, c.db, key, values[1..]);
    }
  }
}
