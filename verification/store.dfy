/**
 * The map-plus-index rules that the memory store
 * (internal/storage/memory/storage.go) and the file store
 * (internal/storage/file/storage.go) share, written once as functions over
 * the two maps: key -> record, and user -> list of {Key, OriginalURL}.
 *
 * A record is `memoryURL` in the memory store and `fileURL` in the file
 * store; the only difference is the file store's UUID, carried here as the
 * record's `tag` (the memory store uses the unit tag `()`).
 */
module Store {
  import opened Wrappers
  import opened Model

  datatype Record<Tag> = Record(
    tag: Tag,
    shortKey: string,
    originalURL: string,
    userID: string,
    isDeleted: bool)

  /** Go's zero value of a record: what reading a missing key of the map yields. */
  function Zero<Tag>(zeroTag: Tag): Record<Tag> {
    Record(zeroTag, "", "", "", false)
  }

  /** The store's two maps (`dbMap`/`data` and `usersMap`). */
  datatype Tables<Tag> = Tables(
    data: map<string, Record<Tag>>,
    users: map<string, seq<KeyAndOURL>>)

  /** `usersMap[user]`: a missing user reads as the empty (nil) list. */
  function Listed(users: map<string, seq<KeyAndOURL>>, user: string): seq<KeyAndOURL> {
    if user in users then users[user] else []
  }

  /** `Get`: "not found", `ErrIsDeleted`, or the stored original URL. */
  function Lookup<Tag>(data: map<string, Record<Tag>>, key: string): (r: Result<string, Error>)
    ensures r == Failure(NotFound) <==> key !in data
    ensures r == Failure(IsDeleted) <==> key in data && data[key].isDeleted
    ensures r.Success? <==> key in data && !data[key].isDeleted
    ensures r.Success? ==> r.value == data[key].originalURL
  {
    if key !in data then Failure(NotFound)
    else if data[key].isDeleted then Failure(IsDeleted)
    else Success(data[key].originalURL)
  }

  /** The record `Set` stores for a key it has not seen. */
  function NewRecord<Tag>(url: URL, tag: Tag): Record<Tag> {
    Record(tag, url.key, url.originalURL, url.userID, false)
  }

  /**
   * The new-key branch of `Set`: store the record, and append the entry to the
   * owner's list unless the owner is empty. No other list changes.
   */
  function Insert<Tag>(t: Tables<Tag>, url: URL, tag: Tag): (r: Tables<Tag>)
    ensures url.key in r.data && r.data[url.key] == NewRecord(url, tag)
    ensures forall k :: k != url.key ==> SameAt(r.data, t.data, k)
  {
    var data := t.data[url.key := NewRecord(url, tag)];
    if url.userID == "" then Tables(data, t.users)
    else Tables(data, t.users[url.userID := Listed(t.users, url.userID) + [KeyAndOURL(url.key, url.originalURL)]])
  }

  /** `Insert` appends the entry to its owner's list, unless the owner is empty; no other list changes. */
  lemma InsertListed<Tag>(t: Tables<Tag>, url: URL, tag: Tag, u: string)
    ensures Listed(Insert(t, url, tag).users, u) ==
              if u == url.userID && u != "" then Listed(t.users, u) + [KeyAndOURL(url.key, url.originalURL)]
              else Listed(t.users, u)
  {
  }

  /**
   * `Set` of one URL: an existing key is never overwritten, the URL comes back
   * with `Conflict` set and both maps stay as they were; a new key is inserted
   * and the URL comes back as it was given.
   */
  function Save<Tag>(t: Tables<Tag>, url: URL, tag: Tag): (r: (Tables<Tag>, URL))
    ensures url.key in t.data ==> r.0 == t && r.1 == url.(conflict := true)
    ensures url.key !in t.data ==> r.0 == Insert(t, url, tag) && r.1 == url
  {
    if url.key in t.data then (t, url.(conflict := true))
    else (Insert(t, url, tag), url)
  }

  /** Some URL of the batch from index `lo` on, before `j`, has the key of `urls[j]`. */
  ghost predicate KeySeenBetween(urls: seq<URL>, lo: int, j: int)
    requires 0 <= lo <= j < |urls|
  {
    exists i :: lo <= i < j && urls[i].key == urls[j].key
  }

  /** Both maps agree at `k`: both lack it, or both hold the same record. */
  ghost predicate SameAt<Tag>(a: map<string, Record<Tag>>, b: map<string, Record<Tag>>, k: string) {
    (k in a <==> k in b) && (k in a ==> a[k] == b[k])
  }

  /** `slices.IndexFunc` with `v.Key == key`: the first index, or -1. */
  function IndexOf(list: seq<KeyAndOURL>, key: string): (i: int)
    ensures -1 <= i < |list|
    ensures i == -1 <==> forall j :: 0 <= j < |list| ==> list[j].key != key
    ensures i >= 0 ==> list[i].key == key && forall j :: 0 <= j < i ==> list[j].key != key
  {
    if list == [] then -1
    else if list[0].key == key then 0
    else
      var i := IndexOf(list[1..], key);
      if i == -1 then -1 else i + 1
  }

  ghost predicate NoDupKeys(list: seq<KeyAndOURL>) {
    forall i, j :: 0 <= i < j < |list| ==> list[i].key != list[j].key
  }

  /**
   * Swap-remove: the first entry with `key` is overwritten by the last entry
   * and the list shortened by one; with no such entry the list is unchanged.
   */
  function SwapRemove(list: seq<KeyAndOURL>, key: string): seq<KeyAndOURL> {
    var idx := IndexOf(list, key);
    if idx < 0 then list else list[idx := list[|list| - 1]][..|list| - 1]
  }

  /**
   * Exactly the first entry with the key leaves, the others stay (as a
   * multiset); with no such entry the list is unchanged. On a list without
   * duplicate keys the key is gone afterwards.
   */
  lemma SwapRemoveSpec(list: seq<KeyAndOURL>, key: string)
    ensures var r := SwapRemove(list, key);
      && (IndexOf(list, key) == -1 ==> r == list)
      && (IndexOf(list, key) >= 0 ==>
            |r| == |list| - 1 && multiset(r) + multiset{list[IndexOf(list, key)]} == multiset(list))
      && (forall e :: e in r ==> e in list)
      && (forall e :: e in list && e.key != key ==> e in r)
      && (NoDupKeys(list) ==> NoDupKeys(r) && forall e :: e in r ==> e.key != key)
  {
    var idx := IndexOf(list, key);
    if idx >= 0 {
      SwapRemoveAt(list, idx);
      SwapRemoveAtNoDup(list, idx);
    }
  }

  /** Overwriting position `idx` with the last entry and dropping the last loses exactly `list[idx]`. */
  lemma SwapRemoveAt(list: seq<KeyAndOURL>, idx: nat)
    requires idx < |list|
    ensures var r := list[idx := list[|list| - 1]][..|list| - 1];
      && |r| == |list| - 1
      && multiset(r) + multiset{list[idx]} == multiset(list)
      && (forall e :: e in r ==> e in list)
      && (forall j :: 0 <= j < |list| && j != idx ==> list[j] in r)
  {
    var n := |list|;
    var r := list[idx := list[n - 1]][..n - 1];
    SwapRemoveAtMultiset(list, idx);
    assert forall i :: 0 <= i < |r| ==> r[i] == list[if i == idx then n - 1 else i];
    forall j | 0 <= j < n && j != idx
      ensures list[j] in r
    {
      if j == n - 1 {
        assert r[idx] == list[j];
      } else {
        assert r[j] == list[j];
      }
    }
  }

  /** The multiset half of `SwapRemoveAt`. */
  lemma SwapRemoveAtMultiset(list: seq<KeyAndOURL>, idx: nat)
    requires idx < |list|
    ensures multiset(list[idx := list[|list| - 1]][..|list| - 1]) + multiset{list[idx]} == multiset(list)
  {
    var n := |list|;
    var r := list[idx := list[n - 1]][..n - 1];
    if idx == n - 1 {
      assert list == r + [list[idx]];
    } else {
      var front, mid := list[..idx], list[idx + 1..n - 1];
      assert list == front + [list[idx]] + mid + [list[n - 1]];
      assert r == front + [list[n - 1]] + mid;
      calc {
        multiset(r) + multiset{list[idx]};
        multiset(front) + multiset{list[n - 1]} + multiset(mid) + multiset{list[idx]};
        multiset(front) + multiset{list[idx]} + multiset(mid) + multiset{list[n - 1]};
        multiset(list);
      }
    }
  }

  /** On a list without duplicate keys, swap-remove keeps that and drops the key completely. */
  lemma SwapRemoveAtNoDup(list: seq<KeyAndOURL>, idx: nat)
    requires idx < |list|
    ensures var r := list[idx := list[|list| - 1]][..|list| - 1];
      NoDupKeys(list) ==> NoDupKeys(r) && forall e :: e in r ==> e.key != list[idx].key
  {
    var n := |list|;
    var r := list[idx := list[n - 1]][..n - 1];
    assert forall i :: 0 <= i < |r| ==> r[i] == list[if i == idx then n - 1 else i];
  }

  /**
   * One key of `UpdateDeleteFlag`'s loop. The record read for a missing key is
   * the zero record. With a non-empty `user`, a record owned by someone else is
   * skipped; otherwise the flag is set (a missing key gets a zero record with
   * the flag set) and the key is swap-removed from the user's list.
   */
  function DeleteKey<Tag>(data: map<string, Record<Tag>>, list: seq<KeyAndOURL>,
                          user: string, key: string, zeroTag: Tag): (map<string, Record<Tag>>, seq<KeyAndOURL>)
  {
    var url := if key in data then data[key] else Zero(zeroTag);
    if url.userID != user && user != "" then (data, list)
    else (data[key := url.(isDeleted := true)], SwapRemove(list, key))
  }

  /** The loop of `UpdateDeleteFlag` over `keys`, in order. */
  function DeleteKeys<Tag>(data: map<string, Record<Tag>>, list: seq<KeyAndOURL>,
                           user: string, keys: seq<string>, zeroTag: Tag): (map<string, Record<Tag>>, seq<KeyAndOURL>)
    decreases |keys|
  {
    if keys == [] then (data, list)
    else
      var p := DeleteKeys(data, list, user, keys[..|keys| - 1], zeroTag);
      DeleteKey(p.0, p.1, user, keys[|keys| - 1], zeroTag)
  }

  /** The loop over one more key is one more `DeleteKey`. */
  lemma DeleteKeysStep<Tag>(data: map<string, Record<Tag>>, list: seq<KeyAndOURL>,
                            user: string, keys: seq<string>, i: nat, zeroTag: Tag)
    requires i < |keys|
    ensures var p := DeleteKeys(data, list, user, keys[..i], zeroTag);
      DeleteKeys(data, list, user, keys[..i + 1], zeroTag) == DeleteKey(p.0, p.1, user, keys[i], zeroTag)
  {
    assert keys[..i + 1][..i] == keys[..i];
  }

  /**
   * `UpdateDeleteFlag`: the key loop on the user's list, then the user's list
   * is written back for a non-empty user, and the whole index is replaced by an
   * empty map for the empty user.
   */
  function Delete<Tag>(t: Tables<Tag>, user: string, keys: seq<string>, zeroTag: Tag): Tables<Tag> {
    var p := DeleteKeys(t.data, Listed(t.users, user), user, keys, zeroTag);
    Tables(p.0, if user != "" then t.users[user := p.1] else map[])
  }

  /**
   * How a key map may change over time: no key disappears, and a record keeps
   * everything but its flag, which only goes from false to true.
   */
  ghost predicate Evolves<Tag>(before: map<string, Record<Tag>>, after: map<string, Record<Tag>>) {
    forall k | k in before ::
      && k in after
      && after[k] == before[k].(isDeleted := after[k].isDeleted)
      && (before[k].isDeleted ==> after[k].isDeleted)
  }

  /** Every record is stored under its own short key. */
  ghost predicate KeysCoherent<Tag>(data: map<string, Record<Tag>>) {
    forall k | k in data :: data[k].shortKey == k
  }

  /** One user's list: no key twice, and each entry names a live record of that user. */
  ghost predicate ListSound<Tag>(data: map<string, Record<Tag>>, user: string, list: seq<KeyAndOURL>) {
    && NoDupKeys(list)
    && forall e | e in list ::
      && e.key in data
      && data[e.key].userID == user
      && !data[e.key].isDeleted
      && data[e.key].originalURL == e.originalURL
  }

  /**
   * The index is exactly the live, owned records: every list belongs to a
   * non-empty user and is sound, and every live record with an owner is in its
   * owner's list.
   */
  ghost predicate IndexExact<Tag>(t: Tables<Tag>) {
    && (forall u | u in t.users :: u != "" && ListSound(t.data, u, t.users[u]))
    && (forall k | k in t.data && !t.data[k].isDeleted && t.data[k].userID != "" ::
          KeyAndOURL(k, t.data[k].originalURL) in Listed(t.users, t.data[k].userID))
  }

  /** `Save` keeps bindings and flags: a stored URL is never overwritten. */
  lemma SaveEvolves<Tag>(t: Tables<Tag>, url: URL, tag: Tag)
    ensures Evolves(t.data, Save(t, url, tag).0.data)
  {
  }

  /** `Save` keeps the index exact and every record under its own key. */
  lemma SaveKeepsInvariants<Tag>(t: Tables<Tag>, url: URL, tag: Tag)
    requires IndexExact(t) && KeysCoherent(t.data)
    ensures IndexExact(Save(t, url, tag).0) && KeysCoherent(Save(t, url, tag).0.data)
  {
    if url.key !in t.data {
      InsertKeepsListsSound(t, url, tag);
      InsertKeepsLiveListed(t, url, tag);
    }
  }

  /** Inserting a new key keeps every list sound, the owner's grown by the new entry. */
  lemma InsertKeepsListsSound<Tag>(t: Tables<Tag>, url: URL, tag: Tag)
    requires IndexExact(t) && url.key !in t.data
    ensures var r := Insert(t, url, tag);
      forall u | u in r.users :: u != "" && ListSound(r.data, u, r.users[u])
  {
    var r := Insert(t, url, tag);
    var e := KeyAndOURL(url.key, url.originalURL);
    forall u | u in r.users
      ensures u != "" && ListSound(r.data, u, r.users[u])
    {
      assert u in t.users || u == url.userID;
      if u == url.userID {
        var old_ := Listed(t.users, u);
        assert r.users[u] == old_ + [e];
        assert forall x | x in old_ :: x.key in t.data;
      }
    }
  }

  /** Inserting a new key keeps every live owned record listed, the new one included. */
  lemma InsertKeepsLiveListed<Tag>(t: Tables<Tag>, url: URL, tag: Tag)
    requires IndexExact(t) && url.key !in t.data
    ensures var r := Insert(t, url, tag);
      forall k | k in r.data && !r.data[k].isDeleted && r.data[k].userID != "" ::
        KeyAndOURL(k, r.data[k].originalURL) in Listed(r.users, r.data[k].userID)
  {
    var r := Insert(t, url, tag);
    forall k | k in r.data && !r.data[k].isDeleted && r.data[k].userID != ""
      ensures KeyAndOURL(k, r.data[k].originalURL) in Listed(r.users, r.data[k].userID)
    {
      if k != url.key {
        var w := r.data[k].userID;
        assert KeyAndOURL(k, t.data[k].originalURL) in Listed(t.users, w);
      }
    }
  }

  /** The delete loop only sets flags (and may add zero records). */
  lemma {:induction false} DeleteKeysEvolves<Tag>(data: map<string, Record<Tag>>, list: seq<KeyAndOURL>,
                                                  user: string, keys: seq<string>, zeroTag: Tag)
    ensures Evolves(data, DeleteKeys(data, list, user, keys, zeroTag).0)
    decreases |keys|
  {
    if keys != [] {
      DeleteKeysEvolves(data, list, user, keys[..|keys| - 1], zeroTag);
    }
  }

  /**
   * With a non-empty user, a key that is missing or owned by someone else is
   * skipped; and a key not in `keys` is never touched.
   */
  lemma {:induction false} DeleteKeysSkips<Tag>(data: map<string, Record<Tag>>, list: seq<KeyAndOURL>,
                                                user: string, keys: seq<string>, zeroTag: Tag)
    ensures forall k :: (k !in keys || (user != "" && (k !in data || data[k].userID != user))) ==>
      SameAt(DeleteKeys(data, list, user, keys, zeroTag).0, data, k)
    decreases |keys|
  {
    if keys != [] {
      var prefix := keys[..|keys| - 1];
      DeleteKeysSkips(data, list, user, prefix, zeroTag);
      forall k | k !in keys ensures k !in prefix {
        assert forall i :: 0 <= i < |prefix| ==> prefix[i] == keys[i];
      }
    }
  }

  /**
   * Every listed key that the user may delete (any key for the empty user;
   * otherwise a stored key the user owns) ends up present and flagged.
   */
  lemma {:induction false} DeleteKeysMarks<Tag>(data: map<string, Record<Tag>>, list: seq<KeyAndOURL>,
                                                user: string, keys: seq<string>, zeroTag: Tag)
    ensures forall k :: k in keys && (user == "" || (k in data && data[k].userID == user)) ==>
      k in DeleteKeys(data, list, user, keys, zeroTag).0 &&
      DeleteKeys(data, list, user, keys, zeroTag).0[k].isDeleted
    decreases |keys|
  {
    if keys != [] {
      var prefix, last := keys[..|keys| - 1], keys[|keys| - 1];
      DeleteKeysMarks(data, list, user, prefix, zeroTag);
      DeleteKeysEvolves(data, list, user, prefix, zeroTag);
      assert keys == prefix + [last];
    }
  }

  /** One step of the delete loop keeps the index exact, for a non-empty user. */
  lemma DeleteKeyKeepsIndex<Tag>(data: map<string, Record<Tag>>, users: map<string, seq<KeyAndOURL>>,
                                 list: seq<KeyAndOURL>, user: string, key: string, zeroTag: Tag)
    requires user != ""
    requires IndexExact(Tables(data, users[user := list]))
    ensures var p := DeleteKey(data, list, user, key, zeroTag);
      IndexExact(Tables(p.0, users[user := p.1]))
  {
    var url := if key in data then data[key] else Zero(zeroTag);
    if url.userID == user {
      var d := data[key := url.(isDeleted := true)];
      var l := SwapRemove(list, key);
      SwapRemoveSpec(list, key);
      var before := users[user := list];
      var after := users[user := l];
      assert user in before && before[user] == list;
      assert ListSound(data, user, list);
      forall u | u in after
        ensures u != "" && ListSound(d, u, after[u])
      {
        assert ListSound(data, u, before[u]);
        if u != user {
          forall e: KeyAndOURL | e in after[u] ensures e.key != key {
            assert data[e.key].userID == u;
          }
        }
      }
      forall k | k in d && !d[k].isDeleted && d[k].userID != ""
        ensures KeyAndOURL(k, d[k].originalURL) in Listed(after, d[k].userID)
      {
        assert k != key && d[k] == data[k];
        assert KeyAndOURL(k, data[k].originalURL) in Listed(before, data[k].userID);
      }
    }
  }

  /** The whole delete loop keeps the index exact, for a non-empty user. */
  lemma {:induction false} DeleteKeysKeepIndex<Tag>(data: map<string, Record<Tag>>, users: map<string, seq<KeyAndOURL>>,
                                                    list: seq<KeyAndOURL>, user: string, keys: seq<string>, zeroTag: Tag)
    requires user != ""
    requires IndexExact(Tables(data, users[user := list]))
    ensures var p := DeleteKeys(data, list, user, keys, zeroTag);
      IndexExact(Tables(p.0, users[user := p.1]))
    decreases |keys|
  {
    if keys != [] {
      var prefix := keys[..|keys| - 1];
      DeleteKeysKeepIndex(data, users, list, user, prefix, zeroTag);
      var p := DeleteKeys(data, list, user, prefix, zeroTag);
      DeleteKeyKeepsIndex(p.0, users, p.1, user, keys[|keys| - 1], zeroTag);
    }
  }

  /**
   * A delete by a non-empty user keeps the index exact: the deleted keys leave
   * the user's list, nothing else changes in the index.
   */
  lemma DeleteKeepsIndex<Tag>(t: Tables<Tag>, user: string, keys: seq<string>, zeroTag: Tag)
    requires user != "" && IndexExact(t)
    ensures IndexExact(Delete(t, user, keys, zeroTag))
    ensures forall u :: u != user ==> Listed(Delete(t, user, keys, zeroTag).users, u) == Listed(t.users, u)
  {
    var list := Listed(t.users, user);
    var start := t.users[user := list];
    if user in t.users {
      assert start == t.users;
    } else {
      forall w ensures Listed(start, w) == Listed(t.users, w) {}
    }
    DeleteKeysKeepIndex(t.data, t.users, list, user, keys, zeroTag);
  }

  /** The delete loop keeps every record under its own key unless a missing key is flagged. */
  lemma {:induction false} DeleteKeysKeepCoherent<Tag>(data: map<string, Record<Tag>>, list: seq<KeyAndOURL>,
                                                       user: string, keys: seq<string>, zeroTag: Tag)
    requires KeysCoherent(data)
    requires user != "" || forall k :: k in keys ==> k in data
    ensures KeysCoherent(DeleteKeys(data, list, user, keys, zeroTag).0)
    decreases |keys|
  {
    if keys != [] {
      var prefix := keys[..|keys| - 1];
      assert forall k :: k in prefix ==> k in keys;
      DeleteKeysKeepCoherent(data, list, user, prefix, zeroTag);
      DeleteKeysEvolves(data, list, user, prefix, zeroTag);
    }
  }

  /**
   * The empty user's delete flags a key that was never saved by inserting a
   * zero record for it: that record's short key is "" and not the key.
   */
  lemma WildcardDeleteOfMissingKey<Tag>(t: Tables<Tag>, key: string, zeroTag: Tag)
    requires key !in t.data && key != ""
    ensures var r := Delete(t, "", [key], zeroTag);
      key in r.data && r.data[key] == Zero(zeroTag).(isDeleted := true) && !KeysCoherent(r.data)
  {
    var l := Listed(t.users, "");
    assert [key][..0] == [];
    assert DeleteKeys(t.data, l, "", [], zeroTag) == (t.data, l);
    assert DeleteKeys(t.data, l, "", [key], zeroTag) == DeleteKey(t.data, l, "", key, zeroTag);
    var r := Delete(t, "", [key], zeroTag);
    assert r.data == DeleteKey(t.data, Listed(t.users, ""), "", key, zeroTag).0;
    assert r.data[key].shortKey != key;
  }

  /** The empty user's delete replaces the whole index by an empty map, whatever the keys. */
  lemma WildcardDeleteEmptiesIndex<Tag>(t: Tables<Tag>, keys: seq<string>, zeroTag: Tag)
    ensures Delete(t, "", keys, zeroTag).users == map[]
  {
  }

  /**
   * The empty user's delete empties the whole index. Any live owned record
   * whose key is not among the deleted ones stays live but drops out of its
   * owner's list, so the index is no longer exact.
   */
  lemma WildcardDeleteDropsLiveEntries<Tag>(t: Tables<Tag>, keys: seq<string>, k: string, zeroTag: Tag)
    requires k in t.data && !t.data[k].isDeleted && t.data[k].userID != "" && k !in keys
    ensures forall u :: Listed(Delete(t, "", keys, zeroTag).users, u) == []
    ensures var r := Delete(t, "", keys, zeroTag);
      k in r.data && !r.data[k].isDeleted && !IndexExact(r)
  {
    DeleteKeysSkips(t.data, Listed(t.users, ""), "", keys, zeroTag);
    var r := Delete(t, "", keys, zeroTag);
    assert SameAt(r.data, t.data, k);
    assert Listed(r.users, r.data[k].userID) == [];
  }
}
