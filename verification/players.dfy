/**
 The server's player table: a JavaScript `Map` from socket id to the
 `{id, color}` a client declared on `join`. A `Map` iterates in insertion
 order, and that order is observable (the `dead` handler removes the first
 entry carrying a player id, and the snapshot lets later entries overwrite
 earlier ones), so the table is an insertion-ordered sequence of entries whose
 socket ids are pairwise distinct.
 */
module Players {

  datatype Option<T> = None | Some(value: T)

  type SocketId = string
  type PlayerId = string
  type Color = string

  /** What a client declares about itself on `join`. */
  datatype Info = Info(id: PlayerId, color: Color)

  /** One `[socketId, info]` pair of the map. */
  datatype Entry = Entry(sid: SocketId, info: Info)

  type Table = seq<Entry>

  /** What a scan of the table looks for: a socket id (the map key) or a player id (an attribute). */
  datatype Key = BySocket(sid: SocketId) | ByPlayer(id: PlayerId)

  predicate Matches(e: Entry, key: Key) {
    match key
    case BySocket(sid) => e.sid == sid
    case ByPlayer(id) => e.info.id == id
  }

  /** A `Map` never holds a key twice. */
  predicate WellFormed(t: Table) {
    forall i, j :: 0 <= i < j < |t| ==> t[i].sid != t[j].sid
  }

  /** The ids of all players in the table. */
  function PlayerIds(t: Table): set<PlayerId> {
    set i | 0 <= i < |t| :: t[i].info.id
  }

  /** The socket ids that have an entry: the keys of the `Map`. */
  function SocketIds(t: Table): set<SocketId> {
    set i | 0 <= i < |t| :: t[i].sid
  }

  lemma SocketIdsSnoc(t: Table)
    requires |t| > 0
    ensures SocketIds(t) == SocketIds(t[..|t| - 1]) + {t[|t| - 1].sid}
  {
    var p := t[..|t| - 1];
    forall x | x in SocketIds(t) ensures x in SocketIds(p) + {t[|t| - 1].sid} {
      var i :| 0 <= i < |t| && t[i].sid == x;
      if i < |p| { assert p[i] == t[i]; }
    }
    forall x | x in SocketIds(p) ensures x in SocketIds(t) {
      var i :| 0 <= i < |p| && p[i].sid == x;
      assert t[i] == p[i];
    }
  }

  lemma LastSocketIsNew(t: Table)
    requires WellFormed(t) && |t| > 0
    ensures WellFormed(t[..|t| - 1])
    ensures t[|t| - 1].sid !in SocketIds(t[..|t| - 1])
  {
    var p := t[..|t| - 1];
    forall i | 0 <= i < |p| ensures p[i].sid != t[|t| - 1].sid {
      assert p[i] == t[i];
    }
  }

  /** A `Map` has one key per entry, so its `size` (the number of keys) is the table length. */
  lemma {:induction false} SizeIsKeyCount(t: Table)
    requires WellFormed(t)
    ensures |SocketIds(t)| == |t|
    decreases |t|
  {
    if |t| > 0 {
      LastSocketIsNew(t);
      SizeIsKeyCount(t[..|t| - 1]);
      SocketIdsSnoc(t);
    }
  }

  /** Position of the first entry, in insertion order, that matches `key`. */
  function IndexOf(t: Table, key: Key): (r: Option<nat>)
    ensures r.Some? ==> r.value < |t| && Matches(t[r.value], key)
    ensures r.Some? ==> forall j :: 0 <= j < r.value ==> !Matches(t[j], key)
    ensures r.None? <==> forall j :: 0 <= j < |t| ==> !Matches(t[j], key)
    decreases |t|
  {
    if |t| == 0 then None
    else if Matches(t[0], key) then Some(0)
    else match IndexOf(t[1..], key)
      case None => None
      case Some(k) => Some(k + 1)
  }

  /** The first match is the only index meeting the contract of `IndexOf`. */
  lemma IndexOfIs(t: Table, key: Key, k: nat)
    requires k < |t| && Matches(t[k], key)
    requires forall j :: 0 <= j < k ==> !Matches(t[j], key)
    ensures IndexOf(t, key) == Some(k)
  {
  }

  /** Two tables that agree on which positions match `key` agree on the first match. */
  lemma IndexOfAgrees(a: Table, b: Table, key: Key)
    requires |a| == |b|
    requires forall j :: 0 <= j < |a| ==> (Matches(a[j], key) <==> Matches(b[j], key))
    ensures IndexOf(a, key) == IndexOf(b, key)
  {
    match IndexOf(a, key)
    case None =>
    case Some(k) => IndexOfIs(b, key, k);
  }

  /** `players.get(sid)`: the value stored under a socket id, if any. */
  function Get(t: Table, sid: SocketId): (r: Option<Info>)
    ensures r.Some? <==> exists i :: 0 <= i < |t| && t[i].sid == sid
    ensures r.Some? ==> exists i :: 0 <= i < |t| && t[i] == Entry(sid, r.value)
  {
    match IndexOf(t, BySocket(sid))
    case None =>
      assert forall i :: 0 <= i < |t| ==> !Matches(t[i], BySocket(sid));
      None
    case Some(k) => Some(t[k].info)
  }

  /** In a well-formed table, the entry stored under a socket id is the one `Get` finds. */
  lemma GetEntry(t: Table, i: nat)
    requires WellFormed(t) && i < |t|
    ensures Get(t, t[i].sid) == Some(t[i].info)
  {
    IndexOfIs(t, BySocket(t[i].sid), i);
  }

  /**
   `players.set(sid, info)`: an existing key keeps its position and gets the
   new value; a new key is appended at the end.
   */
  function Set(t: Table, sid: SocketId, info: Info): (r: Table)
    ensures Get(r, sid) == Some(info)
    ensures forall s :: s != sid ==> Get(r, s) == Get(t, s)
    ensures Get(t, sid).Some? ==> |r| == |t| && IndexOf(r, BySocket(sid)) == IndexOf(t, BySocket(sid))
    ensures Get(t, sid).Some? ==> forall j :: 0 <= j < |t| && t[j].sid != sid ==> r[j] == t[j]
    ensures Get(t, sid).None? ==> |r| == |t| + 1 && r[..|t|] == t && r[|t|] == Entry(sid, info)
    ensures WellFormed(t) ==> WellFormed(r)
  {
    match IndexOf(t, BySocket(sid))
    case Some(k) =>
      ReplaceKeepsOthers(t, k, Entry(sid, info));
      t[k := Entry(sid, info)]
    case None =>
      AppendKeepsOthers(t, Entry(sid, info));
      t + [Entry(sid, info)]
  }

  /** After `set`, the stored player id is among the table's player ids. */
  lemma SetStoresId(t: Table, sid: SocketId, info: Info)
    ensures info.id in PlayerIds(Set(t, sid, info))
  {
    var r := Set(t, sid, info);
    var i :| 0 <= i < |r| && r[i] == Entry(sid, info);
    assert r[i].info.id == info.id;
  }

  /** Overwriting an entry's value in place moves no key. */
  lemma ReplaceKeepsOthers(t: Table, k: nat, e: Entry)
    requires k < |t| && t[k].sid == e.sid
    ensures IndexOf(t[k := e], BySocket(e.sid)) == IndexOf(t, BySocket(e.sid))
    ensures forall s :: s != e.sid ==> Get(t[k := e], s) == Get(t, s)
  {
    var r := t[k := e];
    IndexOfAgrees(r, t, BySocket(e.sid));
    forall s | s != e.sid
      ensures Get(r, s) == Get(t, s)
    {
      IndexOfAgrees(r, t, BySocket(s));
    }
  }

  /** Appending an entry for a new key leaves every other key's lookup alone. */
  lemma AppendKeepsOthers(t: Table, e: Entry)
    requires Get(t, e.sid).None?
    ensures Get(t + [e], e.sid) == Some(e.info)
    ensures forall s :: s != e.sid ==> Get(t + [e], s) == Get(t, s)
  {
    var r := t + [e];
    IndexOfIs(r, BySocket(e.sid), |t|);
    forall s | s != e.sid
      ensures Get(r, s) == Get(t, s)
    {
      match IndexOf(t, BySocket(s))
      case None =>
        assert forall j :: 0 <= j < |r| ==> !Matches(r[j], BySocket(s));
      case Some(m) => IndexOfIs(r, BySocket(s), m);
    }
  }

  /** The table with position `k` cut out; every other entry keeps its relative order. */
  function RemoveAt(t: Table, k: nat): (r: Table)
    requires k < |t|
    ensures |r| == |t| - 1
    ensures forall j :: 0 <= j < k ==> r[j] == t[j]
    ensures forall j :: k <= j < |r| ==> r[j] == t[j + 1]
  {
    t[..k] + t[k + 1..]
  }

  /** Cutting out one entry leaves every other socket's value where `Get` finds it. */
  lemma GetAfterRemoveAt(t: Table, k: nat, s: SocketId)
    requires k < |t| && s != t[k].sid
    ensures Get(RemoveAt(t, k), s) == Get(t, s)
  {
    var r := RemoveAt(t, k);
    var key := BySocket(s);
    match IndexOf(t, key)
    case None =>
      assert forall j :: 0 <= j < |r| ==> !Matches(r[j], key) by {
        forall j | 0 <= j < |r| ensures !Matches(r[j], key) {
          if j < k { assert r[j] == t[j]; } else { assert r[j] == t[j + 1]; }
        }
      }
    case Some(m) =>
      if m < k {
        IndexOfIs(r, key, m);
      } else {
        assert m != k;
        forall j | 0 <= j < m - 1 ensures !Matches(r[j], key) {
          if j < k { assert r[j] == t[j]; } else { assert r[j] == t[j + 1]; }
        }
        IndexOfIs(r, key, m - 1);
      }
  }

  lemma RemoveAtKeepsOthers(t: Table, k: nat)
    requires k < |t|
    ensures forall s :: s != t[k].sid ==> Get(RemoveAt(t, k), s) == Get(t, s)
  {
    forall s | s != t[k].sid ensures Get(RemoveAt(t, k), s) == Get(t, s) {
      GetAfterRemoveAt(t, k, s);
    }
  }

  /** Cutting an entry out of a well-formed table keeps it well formed and drops its socket. */
  lemma RemoveAtWellFormed(t: Table, k: nat)
    requires k < |t|
    ensures WellFormed(t) ==> WellFormed(RemoveAt(t, k)) && Get(RemoveAt(t, k), t[k].sid).None?
  {
    if !WellFormed(t) { return; }
    var r := RemoveAt(t, k);
    forall i, j | 0 <= i < j < |r| ensures r[i].sid != r[j].sid {
      var i' := if i < k then i else i + 1;
      var j' := if j < k then j else j + 1;
      assert r[i] == t[i'] && r[j] == t[j'];
    }
    forall i | 0 <= i < |r| ensures r[i].sid != t[k].sid {
      var i' := if i < k then i else i + 1;
      assert r[i] == t[i'];
    }
  }

  /**
   Removes the first entry, in insertion order, that matches `key`, or
   nothing when no entry does. At most one entry goes; the others keep their
   values and relative order.
   */
  function RemoveFirst(t: Table, key: Key): (r: Table)
    ensures (forall j :: 0 <= j < |t| ==> !Matches(t[j], key)) ==> r == t
    ensures (exists j :: 0 <= j < |t| && Matches(t[j], key)) ==>
      exists k :: 0 <= k < |t| && Matches(t[k], key)
                  && (forall j :: 0 <= j < k ==> !Matches(t[j], key))
                  && r == t[..k] + t[k + 1..]
    ensures WellFormed(t) ==> WellFormed(r)
  {
    match IndexOf(t, key)
    case None => t
    case Some(k) =>
      RemoveAtWellFormed(t, k);
      RemoveAt(t, k)
  }

  /** `players.delete(sid)`: drops the socket's entry, if it has one. */
  function Delete(t: Table, sid: SocketId): (r: Table)
    ensures Get(t, sid).None? ==> r == t
    ensures Get(t, sid).Some? ==>
      exists k :: 0 <= k < |t| && t[k].sid == sid
                  && (forall j :: 0 <= j < k ==> t[j].sid != sid)
                  && r == t[..k] + t[k + 1..]
    ensures forall s :: s != sid ==> Get(r, s) == Get(t, s)
    ensures WellFormed(t) ==> WellFormed(r) && Get(r, sid).None?
    ensures |r| == if Get(t, sid).Some? then |t| - 1 else |t|
  {
    match IndexOf(t, BySocket(sid))
    case None => t
    case Some(k) =>
      RemoveAtKeepsOthers(t, k);
      RemoveAtWellFormed(t, k);
      RemoveAt(t, k)
  }

  /** Removing the first entry with a player id leaves every other socket's value untouched. */
  lemma RemoveFirstPlayerKeepsOthers(t: Table, id: PlayerId)
    requires WellFormed(t)
    ensures IndexOf(t, ByPlayer(id)).None? ==> RemoveFirst(t, ByPlayer(id)) == t
    ensures IndexOf(t, ByPlayer(id)).Some? ==>
      var gone := t[IndexOf(t, ByPlayer(id)).value];
      && gone.info.id == id
      && Get(RemoveFirst(t, ByPlayer(id)), gone.sid).None?
      && |RemoveFirst(t, ByPlayer(id))| == |t| - 1
      && forall s :: s != gone.sid ==> Get(RemoveFirst(t, ByPlayer(id)), s) == Get(t, s)
  {
    match IndexOf(t, ByPlayer(id))
    case None =>
    case Some(k) =>
      RemoveAtWellFormed(t, k);
      RemoveAtKeepsOthers(t, k);
  }

  /**
   The one property name that a plain assignment does not store. On an object
   created by `{}`, `obj["__proto__"] = v` runs the setter inherited from
   `Object.prototype`: it replaces the object's prototype and adds no own key,
   so the key never shows up when the object is serialised.
   */
  const ProtoKey: PlayerId := "__proto__"

  /**
   `obj[key] = {color}` on an object literal, seen through its own keys: every
   key except `ProtoKey` becomes (or stays) an own key holding the new value.
   */
  function AssignProperty(obj: map<PlayerId, Color>, key: PlayerId, color: Color): (r: map<PlayerId, Color>)
    ensures r.Keys == if key == ProtoKey then obj.Keys else obj.Keys + {key}
    ensures key != ProtoKey ==> r[key] == color
    ensures forall k :: k in obj && k != key ==> r[k] == obj[k]
  {
    if key == ProtoKey then obj else obj[key := color]
  }

  lemma PlayerIdsSnoc(t: Table)
    requires |t| > 0
    ensures PlayerIds(t) == PlayerIds(t[..|t| - 1]) + {t[|t| - 1].info.id}
  {
    var p := t[..|t| - 1];
    forall x | x in PlayerIds(t) ensures x in PlayerIds(p) + {t[|t| - 1].info.id} {
      var i :| 0 <= i < |t| && t[i].info.id == x;
      if i < |p| { assert p[i] == t[i]; }
    }
    forall x | x in PlayerIds(p) ensures x in PlayerIds(t) {
      var i :| 0 <= i < |p| && p[i].info.id == x;
      assert t[i] == p[i];
    }
  }

  /**
   `getPlayers()`: walks the table in insertion order and writes each entry's
   color under its player id, so a later entry overwrites an earlier one with
   the same id. Its own keys are the stored player ids, except `ProtoKey`.
   */
  function GetPlayers(t: Table): (m: map<PlayerId, Color>)
    ensures m.Keys == PlayerIds(t) - {ProtoKey}
    decreases |t|
  {
    if |t| == 0 then map[]
    else
      PlayerIdsSnoc(t);
      AssignProperty(GetPlayers(t[..|t| - 1]), t[|t| - 1].info.id, t[|t| - 1].info.color)
  }

  /** A stored player id appears in the snapshot exactly when it is not `ProtoKey`. */
  lemma SnapshotHasId(t: Table, id: PlayerId)
    requires id in PlayerIds(t)
    ensures id in GetPlayers(t) <==> id != ProtoKey
  {
  }

  /** No entry after position `i` carries the same player id as `t[i]`. */
  predicate LastWithId(t: Table, i: nat)
    requires i < |t|
  {
    forall j :: i < j < |t| ==> t[j].info.id != t[i].info.id
  }

  /**
   Each stored id other than `ProtoKey` is in the snapshot, with the color of
   the last entry carrying it; `ProtoKey` is never there.
   */
  lemma {:induction false} GetPlayersLastWins(t: Table, i: nat)
    requires i < |t| && LastWithId(t, i)
    ensures t[i].info.id in GetPlayers(t) <==> t[i].info.id != ProtoKey
    ensures t[i].info.id != ProtoKey ==> GetPlayers(t)[t[i].info.id] == t[i].info.color
    decreases |t|
  {
    var p := t[..|t| - 1];
    assert t[i].info.id in PlayerIds(t);
    if i < |p| {
      assert p[i] == t[i];
      assert LastWithId(p, i) by {
        forall j | i < j < |p| ensures p[j].info.id != p[i].info.id {
          assert p[j] == t[j];
        }
      }
      GetPlayersLastWins(p, i);
      assert t[|t| - 1].info.id != t[i].info.id;
    }
  }

  /** Every last entry of an id other than `ProtoKey` shows its color in the snapshot. */
  lemma GetPlayersSpec(t: Table)
    ensures forall i :: 0 <= i < |t| && LastWithId(t, i) && t[i].info.id != ProtoKey ==>
      t[i].info.id in GetPlayers(t) && GetPlayers(t)[t[i].info.id] == t[i].info.color
  {
    forall i | 0 <= i < |t| && LastWithId(t, i) && t[i].info.id != ProtoKey
      ensures t[i].info.id in GetPlayers(t) && GetPlayers(t)[t[i].info.id] == t[i].info.color
    {
      GetPlayersLastWins(t, i);
    }
  }

  /**
   The loop of `getPlayers()` as written: one pass over the table in
   insertion order, each entry assigning its color under its id.
   */
  method CollectPlayers(t: Table) returns (obj: map<PlayerId, Color>)
    ensures obj.Keys == PlayerIds(t) - {ProtoKey}
    ensures forall i :: 0 <= i < |t| && LastWithId(t, i) && t[i].info.id != ProtoKey ==>
      t[i].info.id in obj && obj[t[i].info.id] == t[i].info.color
  {
    obj := map[];
    var i := 0;
    while i < |t|
      invariant 0 <= i <= |t|
      invariant obj == GetPlayers(t[..i])
    {
      assert t[..i + 1][..i] == t[..i];
      obj := AssignProperty(obj, t[i].info.id, t[i].info.color);
      i := i + 1;
    }
    assert t[..i] == t;
    GetPlayersSpec(t);
  }

  /**
   The loop of the `dead` handler as written: scan in insertion order and
   delete the first entry whose player id matches, then stop.
   */
  method ScanRemovePlayer(t: Table, id: PlayerId) returns (r: Table, removed: bool)
    ensures removed <==> id in PlayerIds(t)
    ensures r == RemoveFirst(t, ByPlayer(id))
  {
    var i := 0;
    while i < |t|
      invariant 0 <= i <= |t|
      invariant forall j :: 0 <= j < i ==> t[j].info.id != id
    {
      if t[i].info.id == id {
        IndexOfIs(t, ByPlayer(id), i);
        return t[..i] + t[i + 1..], true;
      }
      i := i + 1;
    }
    assert IndexOf(t, ByPlayer(id)).None?;
    return t, false;
  }
}
