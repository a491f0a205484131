/**
 Copying and removing messages of maildirs: the container's file operations
 (worker/maildir/container.go).
 */
module MaildirMove {
  import opened Collections
  import opened UidStore

  type Dir = string

  /** Who a message is.  A copy is the same mail under another key. */
  type Mail = int

  /** The files of each maildir, and which mail every key ever used stands for. */
  datatype Box = Box(files: map<Dir, set<Key>>, names: map<Key, Mail>)

  // The file operations.  What the file system does is a parameter.  Generated keys are new.

  /** One copy: the key it was written under, or the rubbish a failure left in the destination. */
  datatype Outcome = Copied(key: Key) | Failed(junk: set<Key>)

  /** Rubbish left by a failed copy is nobody's mail. */
  const RUBBISH: Mail := -1

  predicate NewKey(b: Box, t: Table, key: Key) {
    key !in b.names && key !in t.uidByKey
  }

  predicate NewKeys(b: Box, t: Table, o: Outcome) {
    match o
    case Copied(key) => NewKey(b, t, key)
    case Failed(junk) => forall k :: k in junk ==> NewKey(b, t, k)
  }

  /** The uid has a key, and its file is in the directory. */
  predicate HasFile(b: Box, t: Table, dir: Dir, uid: Uid) {
    && uid in t.keyByUid
    && dir in b.files
    && t.keyByUid[uid] in b.files[dir]
  }

  predicate CopyWorks(b: Box, t: Table, dest: Dir, src: Dir, uid: Uid, o: Outcome) {
    HasFile(b, t, src, uid) && t.keyByUid[uid] in b.names && dest in b.files && o.Copied?
  }

  function AddFiles(b: Box, dir: Dir, keys: set<Key>, mail: Mail): Box {
    if dir in b.files
    then Box(b.files[dir := b.files[dir] + keys], b.names + (map k | k in keys :: mail))
    else b
  }

  /** One copy: the files afterwards, and whether it worked. */
  function CopyOne(b: Box, t: Table, dest: Dir, src: Dir, uid: Uid, o: Outcome): (Box, bool) {
    if CopyWorks(b, t, dest, src, uid, o) then
      (Box(b.files[dest := b.files[dest] + {o.key}], b.names[o.key := b.names[t.keyByUid[uid]]]), true)
    else (if o.Failed? then AddFiles(b, dest, o.junk, RUBBISH) else b, false)
  }

  /** Copies one after the other up to the first that fails. */
  function CopyRun(b: Box, t: Table, dest: Dir, src: Dir, uids: seq<Uid>, os: seq<Outcome>): (Box, bool)
    requires |uids| == |os|
  {
    if uids == [] then (b, true)
    else
      var n := |uids| - 1;
      var (b', ok) := CopyRun(b, t, dest, src, uids[..n], os[..n]);
      if ok then CopyOne(b', t, dest, src, uids[n], os[n]) else (b', false)
  }

  predicate RemoveWorks(b: Box, t: Table, dir: Dir, uid: Uid, ok: bool) {
    ok && HasFile(b, t, dir, uid)
  }

  function RemoveOne(b: Box, t: Table, dir: Dir, uid: Uid): Box
    requires dir in b.files && uid in t.keyByUid
  {
    b.(files := b.files[dir := b.files[dir] - {t.keyByUid[uid]}])
  }

  /** Removes one after the other up to the first that fails: the files afterwards, and how many went. */
  function RemoveRun(b: Box, t: Table, dir: Dir, uids: seq<Uid>, oks: seq<bool>): (r: (Box, nat))
    requires |uids| == |oks|
    ensures r.1 <= |uids|
  {
    if uids == [] then (b, 0)
    else
      var n := |uids| - 1;
      var (b', done) := RemoveRun(b, t, dir, uids[..n], oks[..n]);
      if done == n && RemoveWorks(b', t, dir, uids[n], oks[n]) then (RemoveOne(b', t, dir, uids[n]), n + 1) else (b', done)
  }

  lemma {:induction false} CopyRunSticks(b: Box, t: Table, dest: Dir, src: Dir, uids: seq<Uid>, os: seq<Outcome>, n: nat)
    requires |uids| == |os| && n <= |uids| && !CopyRun(b, t, dest, src, uids[..n], os[..n]).1
    ensures CopyRun(b, t, dest, src, uids, os) == CopyRun(b, t, dest, src, uids[..n], os[..n])
  {
    if n == |uids| {
      assert uids[..n] == uids && os[..n] == os;
    } else {
      var m := |uids| - 1;
      assert uids[..m][..n] == uids[..n] && os[..m][..n] == os[..n];
      CopyRunSticks(b, t, dest, src, uids[..m], os[..m], n);
    }
  }

  lemma {:induction false} RemoveRunSticks(b: Box, t: Table, dir: Dir, uids: seq<Uid>, oks: seq<bool>, n: nat)
    requires |uids| == |oks| && n <= |uids| && RemoveRun(b, t, dir, uids[..n], oks[..n]).1 < n
    ensures RemoveRun(b, t, dir, uids, oks) == RemoveRun(b, t, dir, uids[..n], oks[..n])
  {
    if n == |uids| {
      assert uids[..n] == uids && oks[..n] == oks;
    } else {
      var m := |uids| - 1;
      assert uids[..m][..n] == uids[..n] && oks[..m][..n] == oks[..n];
      RemoveRunSticks(b, t, dir, uids[..m], oks[..m], n);
    }
  }

  lemma CopyRunNext(b: Box, t: Table, dest: Dir, src: Dir, uids: seq<Uid>, os: seq<Outcome>, n: nat)
    requires n < |uids| == |os| && CopyRun(b, t, dest, src, uids[..n], os[..n]).1
    ensures CopyRun(b, t, dest, src, uids[..n + 1], os[..n + 1])
         == CopyOne(CopyRun(b, t, dest, src, uids[..n], os[..n]).0, t, dest, src, uids[n], os[n])
  {
    assert uids[..n + 1][..n] == uids[..n] && os[..n + 1][..n] == os[..n];
  }

  lemma RemoveRunNext(b: Box, t: Table, dir: Dir, uids: seq<Uid>, oks: seq<bool>, n: nat)
    requires n < |uids| == |oks| && RemoveRun(b, t, dir, uids[..n], oks[..n]).1 == n
    ensures RemoveRun(b, t, dir, uids[..n + 1], oks[..n + 1])
         == var b' := RemoveRun(b, t, dir, uids[..n], oks[..n]).0;
            if RemoveWorks(b', t, dir, uids[n], oks[n]) then (RemoveOne(b', t, dir, uids[n]), n + 1) else (b', n)
  {
    assert uids[..n + 1][..n] == uids[..n] && oks[..n + 1][..n] == oks[..n];
  }

  /** Nothing that was in any directory has left it, and every key still stands for the same mail. */
  ghost predicate NothingLost(b: Box, b': Box) {
    && b'.files.Keys == b.files.Keys
    && (forall d :: d in b.files ==> b.files[d] <= b'.files[d])
    && (forall k :: k in b.names ==> k in b'.names && b'.names[k] == b.names[k])
  }

  /** The mail of uid lies in dest under the given key. */
  ghost predicate CopyIsThere(b: Box, t: Table, dest: Dir, uid: Uid, key: Key) {
    && uid in t.keyByUid && t.keyByUid[uid] in b.names
    && key in b.names && b.names[key] == b.names[t.keyByUid[uid]]
    && dest in b.files && key in b.files[dest]
  }

  /** Of the files of dir exactly the given uids' are gone, and nothing else has changed. */
  ghost predicate Removed(b: Box, b': Box, t: Table, dir: Dir, gone: seq<Uid>) {
    && b'.names == b.names
    && b'.files.Keys == b.files.Keys
    && (forall d :: d in b.files && d != dir ==> b'.files[d] == b.files[d])
    && (forall u :: u in gone ==> u in t.keyByUid)
    && (dir in b.files ==> forall k :: k in b'.files[dir] <==>
          k in b.files[dir] && !NamesKey(t, gone, k))
  }

  ghost predicate NamesKey(t: Table, uids: seq<Uid>, k: Key) {
    exists u :: u in uids && u in t.keyByUid && t.keyByUid[u] == k
  }

  /** All keys written are new, and no copy is written under another's key. */
  ghost predicate Fresh(b: Box, t: Table, os: seq<Outcome>) {
    && (forall i :: 0 <= i < |os| ==> NewKeys(b, t, os[i]))
    && (forall i, j :: 0 <= i < j < |os| && os[i].Copied? ==> !Writes(os[j], os[i].key))
  }

  predicate Writes(o: Outcome, key: Key) {
    match o
    case Copied(k) => k == key
    case Failed(junk) => key in junk
  }

  class Container {
    var files: map<Dir, set<Key>>
    var names: map<Key, Mail>
    const uids: Store

    constructor (files: map<Dir, set<Key>>, names: map<Key, Mail>, uids: Store)
      ensures View() == Box(files, names) && this.uids == uids
    {
      this.files, this.names, this.uids := files, names, uids;
    }

    function View(): Box
      reads this
    {
      Box(files, names)
    }

    method CopyMessage(dest: Dir, src: Dir, uid: Uid, o: Outcome) returns (ok: bool)
      modifies this
      ensures (View(), ok) == CopyOne(old(View()), uids.View(), dest, src, uid, o)
    {
      var key := uids.GetKey(uid);
      ok := key.Some? && src in files && key.value in files[src] && key.value in names && dest in files && o.Copied?;
      if ok {
        names := names[o.key := names[key.value]];
        files := files[dest := files[dest] + {o.key}];
      } else if o.Failed? && dest in files {
        names := names + map k | k in o.junk :: RUBBISH;
        files := files[dest := files[dest] + o.junk];
      }
    }

    /**
     Copies until the first failure.  Whatever happens nothing is lost; and when it
     reports success every message has a copy of its own in dest.
     */
    method CopyAll(dest: Dir, src: Dir, toCopy: seq<Uid>, os: seq<Outcome>) returns (ok: bool)
      requires Inverse(uids.View()) && |os| == |toCopy| && Fresh(View(), uids.View(), os)
      modifies this
      ensures (View(), ok) == CopyRun(old(View()), uids.View(), dest, src, toCopy, os)
      ensures NothingLost(old(View()), View())
      ensures ok ==> forall i :: 0 <= i < |toCopy| ==>
        os[i].Copied? && CopyIsThere(View(), uids.View(), dest, toCopy[i], os[i].key)
      ensures ok <==> forall i :: 0 <= i < |toCopy| ==>
        CopyWorks(old(View()), uids.View(), dest, src, toCopy[i], os[i])
    {
      CopyRunKeeps(View(), uids.View(), dest, src, toCopy, os);
      CopyRunWorksIff(View(), uids.View(), dest, src, toCopy, os);
      ok := CopyEach(dest, src, toCopy, os);
    }

    /** The loop of CopyAll. */
    method CopyEach(dest: Dir, src: Dir, toCopy: seq<Uid>, os: seq<Outcome>) returns (ok: bool)
      requires |os| == |toCopy|
      modifies this
      ensures (View(), ok) == CopyRun(old(View()), uids.View(), dest, src, toCopy, os)
    {
      ghost var b, t := View(), uids.View();
      for i := 0 to |toCopy|
        invariant CopyRun(b, t, dest, src, toCopy[..i], os[..i]) == (View(), true)
      {
        CopyRunNext(b, t, dest, src, toCopy, os, i);
        ok := CopyMessage(dest, src, toCopy[i], os[i]);
        if !ok {
          CopyRunSticks(b, t, dest, src, toCopy, os, i + 1);
          return;
        }
      }
      assert toCopy[..|toCopy|] == toCopy && os[..|os|] == os;
      ok := true;
    }

    method Message(dir: Dir, uid: Uid) returns (key: Option<Key>)
      ensures key == if uid in uids.keyByUid then Some(uids.keyByUid[uid]) else None
    {
      key := uids.GetKey(uid);
    }

    /**
     Removes until the first failure and reports what it removed: a prefix of what
     was asked, all of it exactly when there was no failure.
     */
    method DeleteAll(dir: Dir, toDelete: seq<Uid>, oks: seq<bool>) returns (success: seq<Uid>, ok: bool)
      requires |oks| == |toDelete|
      modifies this`files
      ensures (View(), |success|) == RemoveRun(old(View()), uids.View(), dir, toDelete, oks)
      ensures success <= toDelete
      ensures ok <==> success == toDelete
      ensures Removed(old(View()), View(), uids.View(), dir, success)
    {
      ghost var b, t := View(), uids.View();
      RemoveRunRemoves(b, t, dir, toDelete, oks);
      success := [];
      for i := 0 to |toDelete|
        invariant success == toDelete[..i] && names == b.names
        invariant RemoveRun(b, t, dir, toDelete[..i], oks[..i]) == (View(), i)
      {
        RemoveRunNext(b, t, dir, toDelete, oks, i);
        var key := Message(dir, toDelete[i]);
        if key == None || !(oks[i] && dir in files && key.value in files[dir]) {
          RemoveRunSticks(b, t, dir, toDelete, oks, i + 1);
          return success, false;
        }
        files := files[dir := files[dir] - {key.value}];
        assert toDelete[..i + 1] == success + [toDelete[i]];
        success := success + [toDelete[i]];
      }
      assert toDelete[..|toDelete|] == toDelete && oks[..|oks|] == oks;
      return success, true;
    }
  }

  lemma RemovedStep(b: Box, b': Box, t: Table, dir: Dir, gone: seq<Uid>, uid: Uid)
    requires Removed(b, b', t, dir, gone) && HasFile(b', t, dir, uid)
    ensures Removed(b, RemoveOne(b', t, dir, uid), t, dir, gone + [uid])
  {
    var all := gone + [uid];
    forall k ensures NamesKey(t, all, k) <==> NamesKey(t, gone, k) || t.keyByUid[uid] == k {
      if t.keyByUid[uid] == k {
        assert uid in all;
      }
    }
  }

  lemma {:induction false} RemoveRunRemoves(b: Box, t: Table, dir: Dir, uids: seq<Uid>, oks: seq<bool>)
    requires |uids| == |oks|
    ensures var (b', n) := RemoveRun(b, t, dir, uids, oks); Removed(b, b', t, dir, uids[..n])
  {
    if uids != [] {
      var n := |uids| - 1;
      var (b', done) := RemoveRun(b, t, dir, uids[..n], oks[..n]);
      RemoveRunRemoves(b, t, dir, uids[..n], oks[..n]);
      assert uids[..n][..done] == uids[..done];
      if done == n && RemoveWorks(b', t, dir, uids[n], oks[n]) {
        RemovedStep(b, b', t, dir, uids[..n], uids[n]);
        assert uids[..n + 1] == uids[..n] + [uids[n]];
      }
    }
  }

  /** What a run of copies has named, and put into directories, it has written. */
  lemma {:induction false} CopyRunNames(b: Box, t: Table, dest: Dir, src: Dir, uids: seq<Uid>, os: seq<Outcome>, k: Key)
    requires |uids| == |os|
    ensures var b' := CopyRun(b, t, dest, src, uids, os).0;
      && (k in b'.names ==> k in b.names || exists j :: 0 <= j < |os| && Writes(os[j], k))
      && (forall d :: d in b'.files && k in b'.files[d] ==>
            (d in b.files && k in b.files[d]) || exists j :: 0 <= j < |os| && Writes(os[j], k))
  {
    if uids != [] {
      var n := |uids| - 1;
      CopyRunNames(b, t, dest, src, uids[..n], os[..n], k);
      if exists j :: 0 <= j < |os[..n]| && Writes(os[..n][j], k) {
        var j :| 0 <= j < |os[..n]| && Writes(os[..n][j], k);
        assert Writes(os[j], k);
      }
    }
  }

  /** Copies made so far do not change whether the next one works. */
  lemma WorksAsBefore(b: Box, t: Table, dest: Dir, src: Dir, uids: seq<Uid>, os: seq<Outcome>, uid: Uid, o: Outcome)
    requires |uids| == |os| && Fresh(b, t, os) && Inverse(t)
    ensures CopyWorks(CopyRun(b, t, dest, src, uids, os).0, t, dest, src, uid, o) <==> CopyWorks(b, t, dest, src, uid, o)
  {
    CopyRunKeeps(b, t, dest, src, uids, os);
    if uid in t.keyByUid {
      CopyRunNames(b, t, dest, src, uids, os, t.keyByUid[uid]);
    }
  }

  /** All copies work if and only if each would have worked by itself. */
  lemma {:induction false} CopyRunWorksIff(b: Box, t: Table, dest: Dir, src: Dir, uids: seq<Uid>, os: seq<Outcome>)
    requires |uids| == |os| && Fresh(b, t, os) && Inverse(t)
    ensures CopyRun(b, t, dest, src, uids, os).1 <==>
            forall i :: 0 <= i < |uids| ==> CopyWorks(b, t, dest, src, uids[i], os[i])
  {
    if uids != [] {
      var n := |uids| - 1;
      assert Fresh(b, t, os[..n]);
      CopyRunWorksIff(b, t, dest, src, uids[..n], os[..n]);
      WorksAsBefore(b, t, dest, src, uids[..n], os[..n], uids[n], os[n]);
      assert forall i :: 0 <= i < n ==> uids[..n][i] == uids[i] && os[..n][i] == os[i];
    }
  }

  /** In a run so far successful the next copy's keys are still new. */
  lemma StillNew(b: Box, t: Table, dest: Dir, src: Dir, uids: seq<Uid>, os: seq<Outcome>, n: nat)
    requires n < |uids| == |os| && Fresh(b, t, os) && CopyRun(b, t, dest, src, uids[..n], os[..n]).1
    ensures NewKeys(CopyRun(b, t, dest, src, uids[..n], os[..n]).0, t, os[n])
  {
    var b' := CopyRun(b, t, dest, src, uids[..n], os[..n]).0;
    AllCopied(b, t, dest, src, uids[..n], os[..n]);
    forall k | Writes(os[n], k) ensures NewKey(b', t, k) {
      CopyRunNames(b, t, dest, src, uids[..n], os[..n], k);
      assert NewKey(b, t, k);
      forall j | 0 <= j < n ensures !Writes(os[..n][j], k) {
        assert os[..n][j] == os[j] && os[j].Copied?;
      }
    }
  }

  lemma {:induction false} AllCopied(b: Box, t: Table, dest: Dir, src: Dir, uids: seq<Uid>, os: seq<Outcome>)
    requires |uids| == |os| && CopyRun(b, t, dest, src, uids, os).1
    ensures forall j :: 0 <= j < |os| ==> os[j].Copied?
  {
    if uids != [] {
      var n := |uids| - 1;
      AllCopied(b, t, dest, src, uids[..n], os[..n]);
      forall j | 0 <= j < |os| ensures os[j].Copied? {
        assert j < n ==> os[..n][j] == os[j];
      }
    }
  }

  lemma CopyOneKeeps(b: Box, t: Table, dest: Dir, src: Dir, uid: Uid, o: Outcome)
    requires NewKeys(b, t, o)
    ensures NothingLost(b, CopyOne(b, t, dest, src, uid, o).0)
    ensures CopyOne(b, t, dest, src, uid, o).1 ==> CopyIsThere(CopyOne(b, t, dest, src, uid, o).0, t, dest, uid, o.key)
  {
  }

  lemma {:induction false} CopyRunKeeps(b: Box, t: Table, dest: Dir, src: Dir, uids: seq<Uid>, os: seq<Outcome>)
    requires |uids| == |os| && Fresh(b, t, os)
    ensures var (b', ok) := CopyRun(b, t, dest, src, uids, os);
      && NothingLost(b, b')
      && (ok ==> forall i :: 0 <= i < |uids| ==> os[i].Copied? && CopyIsThere(b', t, dest, uids[i], os[i].key))
  {
    if uids != [] {
      var n := |uids| - 1;
      var front := CopyRun(b, t, dest, src, uids[..n], os[..n]);
      assert Fresh(b, t, os[..n]);
      CopyRunKeeps(b, t, dest, src, uids[..n], os[..n]);
      if front.1 {
        StillNew(b, t, dest, src, uids, os, n);
        CopyOneKeeps(front.0, t, dest, src, uids[n], os[n]);
        forall i | 0 <= i < n ensures os[i].Copied? && CopyIsThere(front.0, t, dest, uids[i], os[i].key) {
          assert uids[..n][i] == uids[i] && os[..n][i] == os[i];
        }
      }
    }
  }
}
