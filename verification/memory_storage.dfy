/**
 * The in-memory store (internal/storage/memory/storage.go): a key -> record
 * map and a user -> list index, updated in place. Each method is specified by
 * the shared functions of module Store.
 */
module MemoryStorage {
  import opened Wrappers
  import opened Model
  import opened Store

  /** `memoryURL`: a record with nothing beyond the shared fields. */
  type MemoryURL = Record<()>

  class DB {
    var dbMap: map<string, MemoryURL>
    var usersMap: map<string, seq<KeyAndOURL>>

    /** The two maps as one value. */
    function State(): Tables<()>
      reads this
    {
      Tables(dbMap, usersMap)
    }

    /** `New`: both maps empty. */
    constructor New()
      ensures dbMap == map[] && usersMap == map[]
      ensures IndexExact(State()) && KeysCoherent(dbMap)
    {
      dbMap := map[];
      usersMap := map[];
    }

    /** `Get`: "not found" for a key never stored, `ErrIsDeleted` for a flagged one. */
    function Get(key: string): (r: Result<string, Error>)
      reads this
      ensures r == Lookup(dbMap, key)
    {
      if key !in dbMap then Failure(NotFound)
      else if dbMap[key].isDeleted then Failure(IsDeleted)
      else Success(dbMap[key].originalURL)
    }

    /**
     * `Set`: the URL comes back with `Conflict` set when its key is already
     * stored (and nothing changes); otherwise the key is stored and, for a
     * non-empty user, appended to that user's list.
     */
    method Set(url: URL) returns (out: URL)
      modifies this
      ensures (State(), out) == Save(old(State()), url, ())
    {
      if url.key in dbMap {
        out := url.(conflict := true);
        return;
      }
      dbMap := dbMap[url.key := Record((), url.key, url.originalURL, url.userID, false)];
      out := url;
      if url.userID == "" {
        return;
      }
      var userURLS := if url.userID in usersMap then usersMap[url.userID] else [];
      userURLS := userURLS + [KeyAndOURL(url.key, url.originalURL)];
      usersMap := usersMap[url.userID := userURLS];
    }

    /** `GetByUser`: the user's list, empty for an unknown user. */
    function GetByUser(user: string): (r: seq<KeyAndOURL>)
      reads this
      ensures r == Listed(usersMap, user)
    {
      if user in usersMap then usersMap[user] else []
    }

    /**
     * `UpdateDeleteFlag`: flag each key the user may delete and swap-remove it
     * from the user's list; then store that list back, or empty the whole
     * index when the user is empty.
     */
    method UpdateDeleteFlag(user: string, keys: seq<string>)
      modifies this
      ensures State() == Delete(old(State()), user, keys, ())
    {
      var ok := user in usersMap;
      var userURLS := if ok then usersMap[user] else [];
      var i := 0;
      while i < |keys|
        invariant 0 <= i <= |keys|
        invariant usersMap == old(usersMap)
        invariant !ok ==> userURLS == []
        invariant (dbMap, userURLS) == DeleteKeys(old(dbMap), Listed(old(usersMap), user), user, keys[..i], ())
      {
        var key := keys[i];
        DeleteKeysStep(old(dbMap), Listed(old(usersMap), user), user, keys, i, ());
        var url := if key in dbMap then dbMap[key] else Zero(());
        if url.userID != user && user != "" {
          i := i + 1;
          continue;
        }
        url := url.(isDeleted := true);
        dbMap := dbMap[key := url];
        if ok {
          var idx := IndexOf(userURLS, key);
          if idx >= 0 {
            userURLS := userURLS[idx := userURLS[|userURLS| - 1]];
            userURLS := userURLS[..|userURLS| - 1];
          }
        }
        i := i + 1;
      }
      assert keys[..|keys|] == keys;
      if user != "" {
        usersMap := usersMap[user := userURLS];
      } else {
        usersMap := map[];
      }
    }
  }

  /** A call on the store's repository: a save of one URL, or a delete. */
  datatype Op = SaveOp(url: URL) | DeleteOp(user: string, keys: seq<string>)

  function Apply(t: Tables<()>, op: Op): Tables<()> {
    match op
    case SaveOp(url) => Save(t, url, ()).0
    case DeleteOp(user, keys) => Delete(t, user, keys, ())
  }

  function Run(t: Tables<()>, ops: seq<Op>): Tables<()>
    decreases |ops|
  {
    if ops == [] then t else Run(Apply(t, ops[0]), ops[1..])
  }

  /**
   * Over any sequence of saves and deletes no key is lost, no stored URL or
   * owner changes, and a deletion flag is never cleared.
   */
  lemma {:induction false} RunEvolves(t: Tables<()>, ops: seq<Op>)
    ensures Evolves(t.data, Run(t, ops).data)
    decreases |ops|
  {
    if ops != [] {
      var next := Apply(t, ops[0]);
      match ops[0] {
        case SaveOp(url) => SaveEvolves(t, url, ());
        case DeleteOp(user, keys) => DeleteKeysEvolves(t.data, Listed(t.users, user), user, keys, ());
      }
      RunEvolves(next, ops[1..]);
    }
  }

  /**
   * As long as no delete is made by the empty user, the index stays exactly the
   * live owned records and every record stays under its own key.
   */
  lemma {:induction false} RunKeepsIndex(t: Tables<()>, ops: seq<Op>)
    requires IndexExact(t) && KeysCoherent(t.data)
    requires forall i :: 0 <= i < |ops| ==> ops[i].DeleteOp? ==> ops[i].user != ""
    ensures IndexExact(Run(t, ops)) && KeysCoherent(Run(t, ops).data)
    decreases |ops|
  {
    if ops != [] {
      match ops[0] {
        case SaveOp(url) => SaveKeepsInvariants(t, url, ());
        case DeleteOp(user, keys) =>
          DeleteKeepsIndex(t, user, keys, ());
          DeleteKeysKeepCoherent(t.data, Listed(t.users, user), user, keys, ());
      }
      RunKeepsIndex(Apply(t, ops[0]), ops[1..]);
    }
  }
}
