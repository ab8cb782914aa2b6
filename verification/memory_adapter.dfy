/**
 * The repository over the memory store (internal/adapter/memory/url.go): the
 * `URLRepository` operations as thin wrappers of the store's methods.
 */
module MemoryAdapter {
  import opened Wrappers
  import opened Model
  import opened Store
  import MemoryStorage

  /** `Set` applied to each URL of a batch in index order; the URLs as `Set` leaves them. */
  function SaveAll(t: Tables<()>, urls: seq<URL>): (Tables<()>, seq<URL>)
    decreases |urls|
  {
    if urls == [] then (t, [])
    else
      var p := SaveAll(t, urls[..|urls| - 1]);
      var s := Save(p.0, urls[|urls| - 1], ());
      (s.0, p.1 + [s.1])
  }

  /** After a batch save the stored keys are the old ones plus the batch's. */
  lemma {:induction false} SaveAllKeys(t: Tables<()>, urls: seq<URL>)
    ensures |SaveAll(t, urls).1| == |urls|
    ensures SaveAll(t, urls).0.data.Keys == t.data.Keys + set u | u in urls :: u.key
    decreases |urls|
  {
    if urls != [] {
      var prefix, last := urls[..|urls| - 1], urls[|urls| - 1];
      SaveAllKeys(t, prefix);
      var p := SaveAll(t, prefix).0;
      assert SaveAll(t, urls).0 == Save(p, last, ()).0;
      assert Save(p, last, ()).0.data.Keys == p.data.Keys + {last.key};
      assert urls == prefix + [last];
      KeysOfSnoc(prefix, last);
    }
  }

  /** The keys of a batch grown by one URL. */
  lemma KeysOfSnoc(prefix: seq<URL>, last: URL)
    ensures (set u | u in prefix + [last] :: u.key) == (set u | u in prefix :: u.key) + {last.key}
  {
  }

  /** Whether URL `j` finds its key stored: before the batch, or saved by an earlier URL. */
  lemma KeyStoredBefore(t: Tables<()>, urls: seq<URL>, j: nat)
    requires j < |urls|
    ensures urls[j].key in SaveAll(t, urls[..j]).0.data <==> urls[j].key in t.data || KeySeenBetween(urls, 0, j)
  {
    var prefix, k := urls[..j], urls[j].key;
    SaveAllKeys(t, prefix);
    if KeySeenBetween(urls, 0, j) {
      var i :| 0 <= i < j && urls[i].key == k;
      assert prefix[i] in prefix;
    } else if k !in t.data {
      forall u | u in prefix ensures u.key != k {
        var i :| 0 <= i < j && prefix[i] == u;
      }
    }
  }

  /** An earlier-key witness within a prefix is one within the whole batch. */
  lemma KeySeenInPrefix(urls: seq<URL>, n: nat, j: nat)
    requires j < n <= |urls|
    ensures KeySeenBetween(urls[..n], 0, j) == KeySeenBetween(urls, 0, j)
  {
    if KeySeenBetween(urls, 0, j) {
      var i :| 0 <= i < j && urls[i].key == urls[j].key;
      assert urls[..n][i].key == urls[..n][j].key;
    }
  }

  /**
   * A batch save: URL `j` comes back with `Conflict` set exactly when it was
   * set already, its key was stored before the batch, or an earlier URL of the
   * batch has the same key; nothing else about a URL changes.
   */
  lemma {:induction false} SaveAllConflicts(t: Tables<()>, urls: seq<URL>)
    ensures |SaveAll(t, urls).1| == |urls|
    ensures forall j :: 0 <= j < |urls| ==>
      SaveAll(t, urls).1[j] ==
        urls[j].(conflict := urls[j].conflict || urls[j].key in t.data || KeySeenBetween(urls, 0, j))
    decreases |urls|
  {
    if urls != [] {
      var n := |urls|;
      var prefix, last := urls[..n - 1], urls[n - 1];
      SaveAllConflicts(t, prefix);
      var p := SaveAll(t, prefix);
      var out := SaveAll(t, urls).1;
      assert out == p.1 + [Save(p.0, last, ()).1];
      KeyStoredBefore(t, urls, n - 1);
      forall j | 0 <= j < n
        ensures out[j] == urls[j].(conflict := urls[j].conflict || urls[j].key in t.data || KeySeenBetween(urls, 0, j))
      {
        if j < n - 1 {
          KeySeenInPrefix(urls, n - 1, j);
          assert out[j] == p.1[j] && urls[j] == prefix[j];
        } else {
          assert out[j] == Save(p.0, last, ()).1;
        }
      }
    }
  }

  class Repository {
    const db: MemoryStorage.DB

    constructor (db: MemoryStorage.DB)
      ensures this.db == db
    {
      this.db := db;
    }

    /**
     * `GetURL`: the store's error unchanged (and no URL), or a URL holding the
     * queried key and the stored original URL, every other field at its zero value.
     */
    function GetURL(key: string): (r: Result<URL, Error>)
      reads db
      ensures r.Failure? <==> key !in db.dbMap || db.dbMap[key].isDeleted
      ensures r.Failure? ==> db.Get(key) == Failure(r.error)
      ensures r.Success? ==> r.value == URL(db.dbMap[key].originalURL, key, "", false, "")
    {
      match db.Get(key)
      case Failure(err) => Failure(err)
      case Success(ourl) => Success(URL(ourl, key, "", false, ""))
    }

    /** `SaveURL`: `Set` on each element in place, in index order; never an error. */
    method SaveURL(urls: array<URL>) returns (err: Option<Error>)
      modifies db, urls
      ensures err == None
      ensures (db.State(), urls[..]) == SaveAll(old(db.State()), old(urls[..]))
    {
      var i := 0;
      while i < urls.Length
        invariant 0 <= i <= urls.Length
        invariant urls[i..] == old(urls[..])[i..]
        invariant (db.State(), urls[..i]) == SaveAll(old(db.State()), old(urls[..])[..i])
      {
        assert old(urls[..])[..i + 1][..i] == old(urls[..])[..i];
        var u := db.Set(urls[i]);
        urls[i] := u;
        assert urls[..i + 1] == urls[..i] + [u];
        i := i + 1;
      }
      assert urls[..] == urls[..urls.Length];
      assert old(urls[..]) == old(urls[..])[..urls.Length];
      err := None;
    }

    /** `PingDB`: there is no connection to check, so always an error. */
    function PingDB(): (err: Option<Error>)
      ensures err.Some?
    {
      Some(NoConnection)
    }

    /** `GetUsersURL`: the user's list, never an error. */
    function GetUsersURL(user: string): (r: Result<seq<KeyAndOURL>, Error>)
      reads db
      ensures r.Success? && r.value == Listed(db.usersMap, user)
    {
      Success(db.GetByUser(user))
    }

    /** `DeleteURL`: `UpdateDeleteFlag`, with no error result at all. */
    method DeleteURL(user: string, keys: seq<string>)
      modifies db
      ensures db.State() == Delete(old(db.State()), user, keys, ())
    {
      db.UpdateDeleteFlag(user, keys);
    }
  }
}
