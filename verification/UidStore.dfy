/**
 The two-way table between the keys a backend uses and the uids the interface uses
 (lib/uidstore/uidstore.go).  The counter is a 32-bit unsigned integer shared by all
 stores of the process; it wraps around.
 */
module UidStore {
  import opened Collections

  const WRAP: nat := 0x1_0000_0000

  type Uid = nat
  type Key = string

  datatype Table = Table(keyByUid: map<Uid, Key>, uidByKey: map<Key, Uid>)

  const EMPTY := Table(map[], map[])

  function NextUid(counter: nat): (uid: Uid)
    ensures uid < WRAP
  {
    (counter + 1) % WRAP
  }

  /** GetOrInsert on values: the table afterwards.  A key already present changes nothing. */
  function Insert(t: Table, key: Key, uid: Uid): Table {
    if key in t.uidByKey then t
    else Table(t.keyByUid[uid := key], t.uidByKey[key := uid])
  }

  function Remove(t: Table, uid: Uid): Table {
    if uid in t.keyByUid
    then Table(t.keyByUid - {uid}, t.uidByKey - {t.keyByUid[uid]})
    else t
  }

  /** Each map is the other's inverse. */
  ghost predicate Inverse(t: Table) {
    && (forall u :: u in t.keyByUid ==> t.keyByUid[u] in t.uidByKey && t.uidByKey[t.keyByUid[u]] == u)
    && (forall k :: k in t.uidByKey ==> t.uidByKey[k] in t.keyByUid && t.keyByUid[t.uidByKey[k]] == k)
  }

  /** Every uid of t names in t' the key it names in t. */
  ghost predicate Extends(t: Table, t': Table) {
    && (forall u :: u in t.keyByUid ==> u in t'.keyByUid && t'.keyByUid[u] == t.keyByUid[u])
    && (forall k :: k in t.uidByKey ==> k in t'.uidByKey && t'.uidByKey[k] == t.uidByKey[k])
  }

  /**
   A uid keeps naming the same key exactly when the number handed out is not in use:
   that is all the wrap-around can break, and it does break it.
   */
  lemma InsertKeepsNames(t: Table, key: Key, uid: Uid)
    requires Inverse(t)
    ensures Extends(t, Insert(t, key, uid)) <==> key in t.uidByKey || uid !in t.keyByUid
    ensures Inverse(Insert(t, key, uid)) <==> key in t.uidByKey || uid !in t.keyByUid
  {
    var t' := Insert(t, key, uid);
    if key !in t.uidByKey && uid in t.keyByUid {
      assert t'.keyByUid[uid] == key != t.keyByUid[uid];
      assert t'.uidByKey[t.keyByUid[uid]] == uid;
    }
  }

  /** As long as the counter has not wrapped, what it hands out next is new. */
  lemma FreshBeforeWrap(t: Table, counter: nat)
    requires forall u :: u in t.keyByUid ==> u <= counter
    requires counter + 1 < WRAP
    ensures NextUid(counter) == counter + 1
    ensures NextUid(counter) !in t.keyByUid
  {
  }

  lemma RemoveKeepsInverse(t: Table, uid: Uid)
    requires Inverse(t)
    ensures Inverse(Remove(t, uid))
    ensures Extends(Remove(t, uid), t)
    ensures uid !in Remove(t, uid).keyByUid
  {
  }

  /** The process-wide counter nextUID. */
  class Counter {
    var value: nat
    constructor ()
      ensures value == 1
    {
      value := 1;
    }
  }

  class Store {
    var keyByUid: map<Uid, Key>
    var uidByKey: map<Key, Uid>
    const counter: Counter

    constructor (counter: Counter)
      ensures View() == EMPTY && this.counter == counter
    {
      keyByUid, uidByKey := map[], map[];
      this.counter := counter;
    }

    function View(): Table
      reads this
    {
      Table(keyByUid, uidByKey)
    }

    method GetOrInsert(key: Key) returns (uid: Uid)
      modifies this, counter
      ensures View() == Insert(old(View()), key, NextUid(old(counter.value)))
      ensures key in uidByKey && uid == uidByKey[key]
      ensures counter.value == if key in old(uidByKey) then old(counter.value) else NextUid(old(counter.value))
    {
      if key in uidByKey {
        return uidByKey[key];
      }
      uid := (counter.value + 1) % WRAP;
      counter.value := uid;
      keyByUid := keyByUid[uid := key];
      uidByKey := uidByKey[key := uid];
    }

    method GetKey(uid: Uid) returns (key: Option<Key>)
      ensures key == if uid in keyByUid then Some(keyByUid[uid]) else None
    {
      key := if uid in keyByUid then Some(keyByUid[uid]) else None;
    }

    method RemoveUid(uid: Uid)
      modifies this
      ensures View() == Remove(old(View()), uid)
    {
      if uid in keyByUid {
        uidByKey := uidByKey - {keyByUid[uid]};
      }
      keyByUid := keyByUid - {uid};
      assert uid !in old(keyByUid) ==> keyByUid == old(keyByUid);
    }
  }

  /** An instance: a counter that has come round gives uid 1 to a second key. */
  lemma WrapRenames()
    ensures NextUid(WRAP) == 1
    ensures var t := Insert(EMPTY, "a", 1);
      Insert(t, "b", NextUid(WRAP)).keyByUid[1] == "b" && !Extends(t, Insert(t, "b", NextUid(WRAP)))
  {
    InsertKeepsNames(Insert(EMPTY, "a", 1), "b", 1);
  }
}
