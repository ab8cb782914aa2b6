/**
 * The file store (internal/storage/file/storage.go): the same two maps as the
 * memory store, kept in step with an append-only log of one JSON object per
 * line. The log is modelled as its text; the JSON encoder and decoder are a
 * pair of functions passed in as a `Codec`.
 */
module FileStorage {
  import opened Wrappers
  import opened Model
  import opened Store
  import opened Strings

  /** `fileURL`: a record tagged with its UUID. */
  type FileURL = Record<int>

  /**
   * The JSON encoder (one object, without its newline) and the decoder, which
   * decodes into the previous value: `readStorageFile` reuses one `schema`
   * variable for every line.
   */
  datatype Codec = Codec(
    encode: FileURL -> string,
    decode: (string, FileURL) -> Result<FileURL, Error>)

  /**
   * What the model assumes of the JSON pair: an encoding is one non-empty line,
   * and it decodes back to the record whatever the previous value was (every
   * field is present in it).
   */
  ghost predicate RoundTrips(c: Codec) {
    forall r: FileURL ::
      && c.encode(r) != ""
      && '\n' !in c.encode(r)
      && forall prev: FileURL :: c.decode(c.encode(r), prev) == Success(r)
  }

  /** What `json.NewEncoder(f).Encode(&r)` writes: the object and a newline. */
  function Line(c: Codec, r: FileURL): string {
    c.encode(r) + "\n"
  }

  /** The text of several records written one after another. */
  function Emit(c: Codec, recs: seq<FileURL>): string
    decreases |recs|
  {
    if recs == [] then "" else Line(c, recs[0]) + Emit(c, recs[1..])
  }

  lemma {:induction false} EmitSnoc(c: Codec, recs: seq<FileURL>, r: FileURL)
    ensures Emit(c, recs + [r]) == Emit(c, recs) + Line(c, r)
    decreases |recs|
  {
    if recs == [] {
      assert [r][1..] == [];
    } else {
      assert (recs + [r])[1..] == recs[1..] + [r];
      EmitSnoc(c, recs[1..], r);
    }
  }

  /** One decoded line of replay: it wins in `data` and is appended to its user's list. */
  function ReplayRecord(t: Tables<int>, rec: FileURL): Tables<int> {
    Tables(
      t.data[rec.shortKey := rec],
      t.users[rec.userID := Listed(t.users, rec.userID) + [KeyAndOURL(rec.shortKey, rec.originalURL)]])
  }

  /** The replay loop over the lines: blank lines skipped, the first decode error ends it. */
  function ReplayLines(c: Codec, lines: seq<string>, t: Tables<int>, schema: FileURL): Result<Tables<int>, Error>
    decreases |lines|
  {
    if lines == [] then Success(t)
    else if lines[0] == "" then ReplayLines(c, lines[1..], t, schema)
    else match c.decode(lines[0], schema)
      case Failure(e) => Failure(e)
      case Success(rec) => ReplayLines(c, lines[1..], ReplayRecord(t, rec), rec)
  }

  /** `readStorageFile` on the text of the file: split on newlines, replay from empty maps. */
  function Replay(c: Codec, text: string): Result<Tables<int>, Error> {
    ReplayLines(c, Split(text, '\n'), Tables(map[], map[]), Zero(0))
  }

  /** The records a sequence of successful decodes adds, in order. */
  function FoldRecords(t: Tables<int>, recs: seq<FileURL>): Tables<int>
    decreases |recs|
  {
    if recs == [] then t else FoldRecords(ReplayRecord(t, recs[0]), recs[1..])
  }

  /** A blank line anywhere in the file changes nothing. */
  lemma {:induction false} ReplaySkipsBlankLines(c: Codec, a: seq<string>, b: seq<string>, t: Tables<int>, schema: FileURL)
    ensures ReplayLines(c, a + [""] + b, t, schema) == ReplayLines(c, a + b, t, schema)
    decreases |a|
  {
    if a == [] {
      assert a + [""] + b == [""] + b && a + b == b;
      assert ([""] + b)[1..] == b;
    } else {
      assert (a + [""] + b)[0] == a[0] && (a + b)[0] == a[0];
      assert (a + [""] + b)[1..] == a[1..] + [""] + b;
      assert (a + b)[1..] == a[1..] + b;
      if a[0] == "" {
        ReplaySkipsBlankLines(c, a[1..], b, t, schema);
      } else {
        match c.decode(a[0], schema)
        case Failure(e) =>
        case Success(rec) =>
          ReplaySkipsBlankLines(c, a[1..], b, ReplayRecord(t, rec), rec);
      }
    }
  }

  /** A failed replay fails with the decode error of one of its non-blank lines, nothing else. */
  lemma {:induction false} ReplayErrorIsDecodeError(c: Codec, lines: seq<string>, t: Tables<int>, schema: FileURL)
    requires ReplayLines(c, lines, t, schema).Failure?
    ensures exists i, prev ::
      && 0 <= i < |lines| && lines[i] != ""
      && c.decode(lines[i], prev) == Failure(ReplayLines(c, lines, t, schema).error)
    decreases |lines|
  {
    var e := ReplayLines(c, lines, t, schema).error;
    if lines[0] == "" {
      ReplayErrorIsDecodeError(c, lines[1..], t, schema);
      var i, prev :| 0 <= i < |lines| - 1 && lines[1..][i] != "" && c.decode(lines[1..][i], prev) == Failure(e);
      assert lines[i + 1] == lines[1..][i];
    } else {
      match c.decode(lines[0], schema)
      case Failure(_) =>
        assert c.decode(lines[0], schema) == Failure(e);
      case Success(rec) =>
        ReplayErrorIsDecodeError(c, lines[1..], ReplayRecord(t, rec), rec);
        var i, prev :| 0 <= i < |lines| - 1 && lines[1..][i] != "" && c.decode(lines[1..][i], prev) == Failure(e);
        assert lines[i + 1] == lines[1..][i];
    }
  }

  /**
   * A non-blank line that no `schema` can decode aborts the whole replay,
   * wherever it sits: the load never skips it.
   */
  lemma {:induction false} ReplayAbortsOnBadLine(c: Codec, a: seq<string>, l: string, b: seq<string>,
                                                 t: Tables<int>, schema: FileURL)
    requires l != "" && forall prev :: c.decode(l, prev).Failure?
    ensures ReplayLines(c, a + [l] + b, t, schema).Failure?
    decreases |a|
  {
    var lines := a + [l] + b;
    if a == [] {
      assert lines[0] == l;
    } else {
      assert lines[1..] == a[1..] + [l] + b;
      if lines[0] != "" && c.decode(lines[0], schema).Success? {
        ReplayAbortsOnBadLine(c, a[1..], l, b, ReplayRecord(t, c.decode(lines[0], schema).value), c.decode(lines[0], schema).value);
      } else if lines[0] == "" {
        ReplayAbortsOnBadLine(c, a[1..], l, b, t, schema);
      }
    }
  }

  /** The `schema` in force after replaying some records: the last of them. */
  function LastSchema(recs: seq<FileURL>, schema: FileURL): FileURL {
    if recs == [] then schema else recs[|recs| - 1]
  }

  /** Replaying written records followed by any text: the records fold first, then the text replays. */
  lemma {:induction false} ReplayAfterEmitted(c: Codec, recs: seq<FileURL>, s: string, t: Tables<int>, schema: FileURL)
    requires RoundTrips(c)
    ensures ReplayLines(c, Split(Emit(c, recs) + s, '\n'), t, schema)
         == ReplayLines(c, Split(s, '\n'), FoldRecords(t, recs), LastSchema(recs, schema))
    decreases |recs|
  {
    if recs == [] {
      assert Emit(c, recs) + s == s;
    } else {
      var enc := c.encode(recs[0]);
      var rest := Emit(c, recs[1..]) + s;
      assert Emit(c, recs) + s == enc + ['\n'] + rest;
      SplitAtFirst(enc, '\n', rest);
      var lines := Split(Emit(c, recs) + s, '\n');
      assert lines[0] == enc && lines[1..] == Split(rest, '\n');
      assert c.decode(enc, schema) == Success(recs[0]);
      ReplayAfterEmitted(c, recs[1..], s, ReplayRecord(t, recs[0]), recs[0]);
      assert LastSchema(recs[1..], recs[0]) == LastSchema(recs, schema);
    }
  }

  /**
   * A file of written records followed by a non-blank line that does not
   * decode against the last of them fails to load with exactly that
   * decoder error, whatever follows.
   */
  lemma ReplayStopsAtBadLine(c: Codec, recs: seq<FileURL>, l: string, rest: string)
    requires RoundTrips(c) && l != "" && '\n' !in l
    requires c.decode(l, LastSchema(recs, Zero(0))).Failure?
    ensures Replay(c, Emit(c, recs) + l + "\n" + rest) == Failure(c.decode(l, LastSchema(recs, Zero(0))).error)
  {
    assert Emit(c, recs) + l + "\n" + rest == Emit(c, recs) + (l + ['\n'] + rest);
    ReplayAfterEmitted(c, recs, l + ['\n'] + rest, Tables(map[], map[]), Zero(0));
    SplitAtFirst(l, '\n', rest);
  }

  /** Replaying written records folds them in order. */
  lemma {:induction false} ReplayEmitted(c: Codec, recs: seq<FileURL>, t: Tables<int>, schema: FileURL)
    requires RoundTrips(c)
    ensures ReplayLines(c, Split(Emit(c, recs), '\n'), t, schema) == Success(FoldRecords(t, recs))
    decreases |recs|
  {
    if recs == [] {
      assert Split("", '\n') == [""];
      assert [""][1..] == [];
    } else {
      var enc := c.encode(recs[0]);
      assert Emit(c, recs) == enc + ['\n'] + Emit(c, recs[1..]);
      SplitAtFirst(enc, '\n', Emit(c, recs[1..]));
      var lines := Split(Emit(c, recs), '\n');
      assert lines[0] == enc && lines[1..] == Split(Emit(c, recs[1..]), '\n');
      assert c.decode(enc, schema) == Success(recs[0]);
      ReplayEmitted(c, recs[1..], ReplayRecord(t, recs[0]), recs[0]);
    }
  }

  /** No later record has the short key of record `j`. */
  ghost predicate LastWithKey(recs: seq<FileURL>, j: int)
    requires 0 <= j < |recs|
  {
    forall j' :: j < j' < |recs| ==> recs[j'].shortKey != recs[j].shortKey
  }

  /** Replay adds no key but the short keys of the records it folds in. */
  lemma {:induction false} FoldKeysWithin(t: Tables<int>, recs: seq<FileURL>, keys: set<string>)
    requires t.data.Keys <= keys
    requires forall j :: 0 <= j < |recs| ==> recs[j].shortKey in keys
    ensures FoldRecords(t, recs).data.Keys <= keys
    decreases |recs|
  {
    if recs != [] {
      assert forall j :: 0 <= j < |recs| - 1 ==> recs[1..][j] == recs[j + 1];
      FoldKeysWithin(ReplayRecord(t, recs[0]), recs[1..], keys);
    }
  }

  /** Replay keeps, per short key, the last record with that key. */
  lemma {:induction false} FoldLastWins(t: Tables<int>, recs: seq<FileURL>)
    ensures forall j :: 0 <= j < |recs| && LastWithKey(recs, j) ==>
      recs[j].shortKey in FoldRecords(t, recs).data &&
      FoldRecords(t, recs).data[recs[j].shortKey] == recs[j]
    decreases |recs|
  {
    if recs != [] {
      var t' := ReplayRecord(t, recs[0]);
      var rest := recs[1..];
      FoldLastWins(t', rest);
      forall j | 0 < j < |recs| && LastWithKey(recs, j)
        ensures LastWithKey(rest, j - 1) && rest[j - 1] == recs[j]
      {
      }
      if LastWithKey(recs, 0) {
        FoldUntouched(t', rest, recs[0].shortKey);
      }
    }
  }

  /** A key no record names keeps its earlier record. */
  lemma {:induction false} FoldUntouched(t: Tables<int>, recs: seq<FileURL>, k: string)
    requires k in t.data && forall j :: 0 <= j < |recs| ==> recs[j].shortKey != k
    ensures k in FoldRecords(t, recs).data && FoldRecords(t, recs).data[k] == t.data[k]
    decreases |recs|
  {
    if recs != [] {
      assert recs[0].shortKey != k;
      FoldUntouched(ReplayRecord(t, recs[0]), recs[1..], k);
    }
  }

  /** Replay lists every record under its owner, deleted and owner-less ones included. */
  lemma {:induction false} FoldListsEveryRecord(t: Tables<int>, recs: seq<FileURL>)
    ensures forall u, e :: e in Listed(t.users, u) ==> e in Listed(FoldRecords(t, recs).users, u)
    ensures forall j :: 0 <= j < |recs| ==>
      KeyAndOURL(recs[j].shortKey, recs[j].originalURL) in Listed(FoldRecords(t, recs).users, recs[j].userID)
    decreases |recs|
  {
    if recs != [] {
      var t' := ReplayRecord(t, recs[0]);
      FoldListsEveryRecord(t', recs[1..]);
      forall u, e | e in Listed(t.users, u) ensures e in Listed(t'.users, u) {
        if u == recs[0].userID {
          assert Listed(t'.users, u) == Listed(t.users, u) + [KeyAndOURL(recs[0].shortKey, recs[0].originalURL)];
        }
      }
      assert KeyAndOURL(recs[0].shortKey, recs[0].originalURL) in Listed(t'.users, recs[0].userID);
      forall j | 0 < j < |recs|
        ensures KeyAndOURL(recs[j].shortKey, recs[j].originalURL) in Listed(FoldRecords(t, recs).users, recs[j].userID)
      {
        assert recs[j] == recs[1..][j - 1];
      }
    }
  }

  /** `order` lists every key of `keys` exactly once. */
  ghost predicate Enumerates(order: seq<string>, keys: set<string>) {
    && (forall i, j :: 0 <= i < j < |order| ==> order[i] != order[j])
    && (forall k :: k in order <==> k in keys)
  }

  /** The records of `data` in the order of `order`. */
  function RecordsAt(data: map<string, FileURL>, order: seq<string>): (recs: seq<FileURL>)
    requires forall k :: k in order ==> k in data
    ensures |recs| == |order| && forall j :: 0 <= j < |order| ==> recs[j] == data[order[j]]
  {
    seq(|order|, j requires 0 <= j < |order| => data[order[j]])
  }

  /**
   * The rewrite round trip: re-emitting every record of `data`, in any order,
   * and replaying the text gives back `data` exactly, provided each record is
   * stored under its own short key.
   */
  lemma RewriteReplays(c: Codec, data: map<string, FileURL>, order: seq<string>)
    requires RoundTrips(c) && KeysCoherent(data) && Enumerates(order, data.Keys)
    ensures Replay(c, Emit(c, RecordsAt(data, order))).Success?
    ensures Replay(c, Emit(c, RecordsAt(data, order))).value.data == data
  {
    ReplayEmitted(c, RecordsAt(data, order), Tables(map[], map[]), Zero(0));
    FoldRestores(data, order);
  }

  /** Folding every record of `data` once, from empty maps, rebuilds `data`. */
  lemma FoldRestores(data: map<string, FileURL>, order: seq<string>)
    requires KeysCoherent(data) && Enumerates(order, data.Keys)
    ensures FoldRecords(Tables(map[], map[]), RecordsAt(data, order)).data == data
  {
    var recs := RecordsAt(data, order);
    var empty: Tables<int> := Tables(map[], map[]);
    FoldKeysWithin(empty, recs, data.Keys);
    FoldLastWins(empty, recs);
    var r := FoldRecords(empty, recs);
    forall k | k in data ensures k in r.data && r.data[k] == data[k] {
      var j :| 0 <= j < |order| && order[j] == k;
      assert recs[j].shortKey == k;
      forall j' | j < j' < |recs| ensures recs[j'].shortKey != k {
        assert recs[j'].shortKey == order[j'];
      }
      assert LastWithKey(recs, j);
    }
  }

  /**
   * After a rewrite and a replay, every record is back in its owner's list,
   * a deleted one too: the restart does not reproduce the index.
   */
  lemma RestartListsEveryRecord(c: Codec, data: map<string, FileURL>, order: seq<string>, k: string)
    requires RoundTrips(c) && Enumerates(order, data.Keys) && k in data
    ensures Replay(c, Emit(c, RecordsAt(data, order))).Success?
    ensures KeyAndOURL(data[k].shortKey, data[k].originalURL) in
      Listed(Replay(c, Emit(c, RecordsAt(data, order))).value.users, data[k].userID)
  {
    var recs := RecordsAt(data, order);
    var empty: Tables<int> := Tables(map[], map[]);
    ReplayEmitted(c, recs, empty, Zero(0));
    FoldListsEveryRecord(empty, recs);
    var j :| 0 <= j < |order| && order[j] == k;
    assert recs[j] == data[k];
  }

  /** The outcome of `Set` on a batch: the file, the maps, the URLs, the error. */
  datatype SetResult = SetResult(file: string, tables: Tables<int>, urls: seq<URL>, err: Option<Error>)

  /**
   * `Set`'s loop from batch index `i` with next UUID `uuid`. An existing key
   * gets `Conflict` and consumes nothing; a new key is written as one line,
   * then stored, and takes the next UUID. The write at index `failAt` fails
   * (the I/O error the encoder would return): the call returns at once.
   */
  function SetFrom(c: Codec, file: string, t: Tables<int>, urls: seq<URL>, i: nat, uuid: int,
                   failAt: Option<nat>): SetResult
    requires i <= |urls|
    decreases |urls| - i
  {
    if i == |urls| then SetResult(file, t, urls, None)
    else
      var u := urls[i];
      if u.key in t.data then SetFrom(c, file, t, urls[i := u.(conflict := true)], i + 1, uuid, failAt)
      else if failAt == Some(i) then SetResult(file, t, urls, Some(WriteFailed))
      else SetFrom(c, file + Line(c, NewRecord(u, uuid)), Insert(t, u, uuid), urls, i + 1, uuid + 1, failAt)
  }

  /** `d` keeps every record of `before`, unchanged, and may hold more. */
  ghost predicate Grows(before: map<string, FileURL>, d: map<string, FileURL>) {
    |before| <= |d| && forall k :: k in before ==> k in d && d[k] == before[k]
  }

  lemma GrowsTrans(a: map<string, FileURL>, b: map<string, FileURL>, c: map<string, FileURL>)
    requires Grows(a, b) && Grows(b, c)
    ensures Grows(a, c)
  {
  }

  /** Storing a record under a new key grows the map by one. */
  lemma InsertGrows(t: Tables<int>, u: URL, uuid: int)
    requires u.key !in t.data
    ensures Grows(t.data, Insert(t, u, uuid).data)
    ensures |Insert(t, u, uuid).data| == |t.data| + 1
  {
  }

  /** `Set` never replaces or flags a stored record; the map only grows. */
  lemma {:induction false} SetKeepsStored(c: Codec, file: string, t: Tables<int>, urls: seq<URL>, i: nat,
                                          uuid: int, failAt: Option<nat>)
    requires i <= |urls|
    ensures Grows(t.data, SetFrom(c, file, t, urls, i, uuid, failAt).tables.data)
    decreases |urls| - i
  {
    if i < |urls| {
      var u := urls[i];
      var r := SetFrom(c, file, t, urls, i, uuid, failAt);
      if u.key in t.data {
        SetKeepsStored(c, file, t, urls[i := u.(conflict := true)], i + 1, uuid, failAt);
      } else if failAt != Some(i) {
        var file', t' := file + Line(c, NewRecord(u, uuid)), Insert(t, u, uuid);
        assert r == SetFrom(c, file', t', urls, i + 1, uuid + 1, failAt);
        InsertGrows(t, u, uuid);
        SetKeepsStored(c, file', t', urls, i + 1, uuid + 1, failAt);
        GrowsTrans(t.data, t'.data, r.tables.data);
      }
    }
  }

  /**
   * `recs` are the records a `Set` from `t` and `file`, numbering from `uuid`,
   * stored, in order: the file grew by their lines, each is under its own new
   * key, unflagged, and the `j`-th is numbered `uuid + j`.
   */
  ghost predicate AppendedBy(c: Codec, file: string, t: Tables<int>, uuid: int, r: SetResult, recs: seq<FileURL>) {
    && r.file == file + Emit(c, recs)
    && |recs| == |r.tables.data| - |t.data|
    && forall j :: 0 <= j < |recs| ==>
         && recs[j].tag == uuid + j
         && recs[j].shortKey !in t.data
         && recs[j].shortKey in r.tables.data
         && r.tables.data[recs[j].shortKey] == recs[j]
         && !recs[j].isDeleted
  }

  /**
   * The file grows by exactly one line per record `Set` stores, each line that
   * record, unflagged, and the records are numbered consecutively. Started at
   * `uuid = |data| + 1`, the `j`-th new record is numbered `|data| + 1 + j`,
   * the size of the map right after it is stored; conflicting URLs consume no
   * number.
   */
  lemma {:induction false} SetAppends(c: Codec, file: string, t: Tables<int>, urls: seq<URL>, i: nat,
                                      uuid: int, failAt: Option<nat>)
    requires i <= |urls|
    ensures exists recs :: AppendedBy(c, file, t, uuid, SetFrom(c, file, t, urls, i, uuid, failAt), recs)
    decreases |urls| - i
  {
    var r := SetFrom(c, file, t, urls, i, uuid, failAt);
    if i == |urls| || (urls[i].key !in t.data && failAt == Some(i)) {
      assert r.file == file + Emit(c, []);
      assert AppendedBy(c, file, t, uuid, r, []);
    } else if urls[i].key in t.data {
      SetAppends(c, file, t, urls[i := urls[i].(conflict := true)], i + 1, uuid, failAt);
    } else {
      var u := urls[i];
      var rec := NewRecord(u, uuid);
      var file' := file + Line(c, rec);
      var t' := Insert(t, u, uuid);
      assert r == SetFrom(c, file', t', urls, i + 1, uuid + 1, failAt);
      SetAppends(c, file', t', urls, i + 1, uuid + 1, failAt);
      assert t'.data == t.data[rec.shortKey := rec];
      SetKeepsStored(c, file', t', urls, i + 1, uuid + 1, failAt);
      var recs :| AppendedBy(c, file', t', uuid + 1, r, recs);
      AppendedCons(c, file, t, uuid, r, rec, t', recs);
    }
  }

  /** One more record in front: the step of `SetAppends` for a new key. */
  lemma AppendedCons(c: Codec, file: string, t: Tables<int>, uuid: int, r: SetResult,
                     rec: FileURL, t': Tables<int>, recs: seq<FileURL>)
    requires rec.shortKey !in t.data && rec.tag == uuid && !rec.isDeleted
    requires t'.data == t.data[rec.shortKey := rec]
    requires rec.shortKey in r.tables.data && r.tables.data[rec.shortKey] == rec
    requires AppendedBy(c, file + Line(c, rec), t', uuid + 1, r, recs)
    ensures AppendedBy(c, file, t, uuid, r, [rec] + recs)
  {
    var all := [rec] + recs;
    assert all[1..] == recs;
    assert Emit(c, all) == Line(c, rec) + Emit(c, recs);
    assert |t'.data| == |t.data| + 1;
    forall j | 1 <= j < |all| ensures all[j].tag == uuid + j && all[j].shortKey !in t.data {
      assert all[j] == recs[j - 1];
    }
  }

  /**
   * A failed write ends the batch: the error is the write error, it happened
   * at a new key, and the maps and file are those of the batch cut just
   * before it, run without failure: the earlier entries stay committed.
   */
  lemma {:induction false} SetFailureKeepsPrefix(c: Codec, file: string, t: Tables<int>, urls: seq<URL>, i: nat,
                                                 uuid: int, failAt: Option<nat>)
    requires i <= |urls|
    requires SetFrom(c, file, t, urls, i, uuid, failAt).err.Some?
    ensures var r := SetFrom(c, file, t, urls, i, uuid, failAt);
      && r.err == Some(WriteFailed)
      && failAt.Some? && i <= failAt.value < |urls|
      && urls[failAt.value].key !in r.tables.data
      && var cut := SetFrom(c, file, t, urls[..failAt.value], i, uuid, None);
         r.file == cut.file && r.tables == cut.tables
    decreases |urls| - i
  {
    var u := urls[i];
    if u.key in t.data {
      var urls' := urls[i := u.(conflict := true)];
      SetFailureKeepsPrefix(c, file, t, urls', i + 1, uuid, failAt);
      var f := failAt.value;
      assert urls'[..f] == urls[..f][i := u.(conflict := true)];
    } else if failAt != Some(i) {
      SetFailureKeepsPrefix(c, file + Line(c, NewRecord(u, uuid)), Insert(t, u, uuid), urls, i + 1, uuid + 1, failAt);
      var f := failAt.value;
      assert urls[..f][i] == u;
    } else {
      assert urls[..i] == urls[..i];
    }
  }

  class DB {
    const codec: Codec
    var file: string
    var data: map<string, FileURL>
    var usersMap: map<string, seq<KeyAndOURL>>

    function State(): Tables<int>
      reads this
    {
      Tables(data, usersMap)
    }

    /** `new(DB)` with the opened file: no maps yet. */
    constructor (codec: Codec, file: string)
      ensures this.codec == codec && this.file == file
      ensures data == map[] && usersMap == map[]
    {
      this.codec := codec;
      this.file := file;
      data := map[];
      usersMap := map[];
    }

    /**
     * `readStorageFile`: a read error is returned as is; otherwise the lines are
     * replayed into fresh maps, which replace the store's only when every
     * non-blank line decoded.
     */
    method ReadStorageFile(content: Result<string, Error>) returns (err: Option<Error>)
      modifies this
      ensures file == old(file)
      ensures content.Failure? ==> err == Some(content.error) && State() == old(State())
      ensures content.Success? ==>
        match Replay(codec, content.value)
        case Failure(e) => err == Some(e) && State() == old(State())
        case Success(t) => err == None && State() == t
    {
      if content.Failure? {
        return Some(content.error);
      }
      var fileData: map<string, FileURL> := map[];
      var users: map<string, seq<KeyAndOURL>> := map[];
      var schema: FileURL := Zero(0);
      var sliceData := Split(content.value, '\n');
      var i := 0;
      while i < |sliceData|
        invariant 0 <= i <= |sliceData|
        invariant ReplayLines(codec, sliceData[i..], Tables(fileData, users), schema) == Replay(codec, content.value)
      {
        assert sliceData[i..][1..] == sliceData[i + 1..];
        var line := sliceData[i];
        if line == "" {
          i := i + 1;
          continue;
        }
        var decoded := codec.decode(line, schema);
        if decoded.Failure? {
          return Some(decoded.error);
        }
        schema := decoded.value;
        fileData := fileData[schema.shortKey := schema];
        var userURLS := if schema.userID in users then users[schema.userID] else [];
        userURLS := userURLS + [KeyAndOURL(schema.shortKey, schema.originalURL)];
        users := users[schema.userID := userURLS];
        i := i + 1;
      }
      data := fileData;
      usersMap := users;
      err := None;
    }

    /** `Get`: "not found" for a key never stored, `ErrIsDeleted` for a flagged one. */
    function Get(key: string): (r: Result<string, Error>)
      reads this
      ensures r == Lookup(data, key)
    {
      if key !in data then Failure(NotFound)
      else if data[key].isDeleted then Failure(IsDeleted)
      else Success(data[key].originalURL)
    }

    /**
     * `Set` on a batch, the URLs updated in place. `failAt` names the batch
     * index whose line write fails, if any.
     */
    method Set(urls: array<URL>, failAt: Option<nat>) returns (err: Option<Error>)
      modifies this, urls
      ensures var r := SetFrom(codec, old(file), old(State()), old(urls[..]), 0, |old(data)| + 1, failAt);
        file == r.file && State() == r.tables && urls[..] == r.urls && err == r.err
    {
      var uuid := |data| + 1;
      var i := 0;
      while i < urls.Length
        invariant 0 <= i <= urls.Length
        invariant SetFrom(codec, file, State(), urls[..], i, uuid, failAt) ==
                  SetFrom(codec, old(file), old(State()), old(urls[..]), 0, |old(data)| + 1, failAt)
      {
        var url := urls[i];
        if url.key in data {
          urls[i] := url.(conflict := true);
          i := i + 1;
          continue;
        }
        var rec := Record(uuid, url.key, url.originalURL, url.userID, false);
        if failAt == Some(i) {
          return Some(WriteFailed);
        }
        file := file + Line(codec, rec);
        data := data[rec.shortKey := rec];
        uuid := uuid + 1;
        if url.userID == "" {
          i := i + 1;
          continue;
        }
        var userURLS := if url.userID in usersMap then usersMap[url.userID] else [];
        userURLS := userURLS + [KeyAndOURL(url.key, url.originalURL)];
        usersMap := usersMap[url.userID := userURLS];
        i := i + 1;
      }
      err := None;
    }

    /** The file is every record of `data` once, one line each, in the order `order`. */
    ghost predicate HoldsExactly(order: seq<string>)
      reads this
    {
      Enumerates(order, data.Keys) && file == Emit(codec, RecordsAt(data, order))
    }

    /** `GetByUser`: the user's list, empty for an unknown user. */
    function GetByUser(user: string): (r: seq<KeyAndOURL>)
      reads this
      ensures r == Listed(usersMap, user)
    {
      if user in usersMap then usersMap[user] else []
    }

    /**
     * `UpdateDeleteFlag`: the same flag-and-swap-remove loop and index update
     * as the memory store, then the rewrite of the whole file.
     */
    method UpdateDeleteFlag(user: string, keys: seq<string>) returns (ghost order: seq<string>)
      modifies this
      ensures State() == Delete(old(State()), user, keys, 0)
      ensures HoldsExactly(order)
    {
      MarkDeleted(user, keys);
      order := RewriteFile();
    }

    /** The first half of `UpdateDeleteFlag`: the key loop and the index update, the file untouched. */
    method MarkDeleted(user: string, keys: seq<string>)
      modifies this
      ensures State() == Delete(old(State()), user, keys, 0)
      ensures file == old(file)
    {
      var ok := user in usersMap;
      var userURLS := if ok then usersMap[user] else [];
      ghost var data0, list0 := data, Listed(usersMap, user);
      var i := 0;
      while i < |keys|
        invariant 0 <= i <= |keys|
        invariant usersMap == old(usersMap) && file == old(file)
        invariant !ok ==> userURLS == []
        invariant (data, userURLS) == DeleteKeys(data0, list0, user, keys[..i], 0)
      {
        var key := keys[i];
        DeleteKeysStep(data0, list0, user, keys, i, 0);
        ghost var next := DeleteKey(data, userURLS, user, key, 0);
        var url := if key in data then data[key] else Zero(0);
        if url.userID != user && user != "" {
          i := i + 1;
          continue;
        }
        url := url.(isDeleted := true);
        data := data[key := url];
        if ok {
          var idx := IndexOf(userURLS, key);
          if idx >= 0 {
            userURLS := userURLS[idx := userURLS[|userURLS| - 1]];
            userURLS := userURLS[..|userURLS| - 1];
          }
        }
        assert data == next.0 && userURLS == next.1;
        i := i + 1;
      }
      assert keys[..|keys|] == keys;
      if user != "" {
        usersMap := usersMap[user := userURLS];
      } else {
        usersMap := map[];
      }
    }

    /**
     * The rewrite at the end of `UpdateDeleteFlag`: the file is recreated and
     * every record of `data` (flagged ones included) written to it once, in
     * the map's iteration order `order`.
     */
    method RewriteFile() returns (ghost order: seq<string>)
      modifies this
      ensures State() == old(State())
      ensures HoldsExactly(order)
    {
      file := "";
      var rest := data.Keys;
      order := [];
      while rest != {}
        invariant data == old(data) && usersMap == old(usersMap)
        invariant forall k :: k in data ==> (k in rest <==> k !in order)
        invariant rest <= data.Keys
        invariant forall k :: k in order ==> k in data
        invariant forall a, b :: 0 <= a < b < |order| ==> order[a] != order[b]
        invariant file == Emit(codec, RecordsAt(data, order))
        decreases rest
      {
        var k :| k in rest;
        EmitSnoc(codec, RecordsAt(data, order), data[k]);
        assert RecordsAt(data, order + [k]) == RecordsAt(data, order) + [data[k]];
        file := file + Line(codec, data[k]);
        order := order + [k];
        rest := rest - {k};
      }
    }
  }

  /**
   * `New`: `disk` is the file's text, or the error opening or reading it.
   * An error, or a line that does not decode, fails the whole construction.
   */
  method New(codec: Codec, disk: Result<string, Error>) returns (r: Result<DB, Error>)
    ensures disk.Failure? ==> r == Failure(disk.error)
    ensures disk.Success? ==>
      match Replay(codec, disk.value)
      case Failure(e) => r == Failure(e)
      case Success(t) => r.Success? && r.value.codec == codec && r.value.file == disk.value && r.value.State() == t
  {
    if disk.Failure? {
      return Failure(disk.error);
    }
    var db := new DB(codec, disk.value);
    var err := db.ReadStorageFile(disk);
    if err.Some? {
      return Failure(err.value);
    }
    return Success(db);
  }

  /**
   * The rewrite after a delete replays to the same key map, as long as every
   * record was under its own key before and the delete did not flag a key the
   * store never held.
   */
  lemma DeleteThenRestart(c: Codec, t: Tables<int>, user: string, keys: seq<string>, order: seq<string>)
    requires RoundTrips(c) && KeysCoherent(t.data)
    requires user != "" || forall k :: k in keys ==> k in t.data
    requires Enumerates(order, Delete(t, user, keys, 0).data.Keys)
    ensures var d := Delete(t, user, keys, 0).data;
      Replay(c, Emit(c, RecordsAt(d, order))).Success? &&
      Replay(c, Emit(c, RecordsAt(d, order))).value.data == d
  {
    DeleteKeysKeepCoherent(t.data, Listed(t.users, user), user, keys, 0);
    RewriteReplays(c, Delete(t, user, keys, 0).data, order);
  }

  /**
   * Where the round trip breaks: the empty user's delete of a key the store
   * never held flags a zero record under it, whose short key is "". After the
   * rewrite and a replay that key is gone, so `Get` answers "not found" where
   * it answered `ErrIsDeleted` before the restart.
   */
  lemma WildcardDeleteBreaksRestart(c: Codec, t: Tables<int>, k: string, order: seq<string>)
    requires RoundTrips(c) && KeysCoherent(t.data) && k !in t.data && k != ""
    requires Enumerates(order, Delete(t, "", [k], 0).data.Keys)
    ensures var d := Delete(t, "", [k], 0).data;
      var r := Replay(c, Emit(c, RecordsAt(d, order)));
      && Lookup(d, k) == Failure(IsDeleted)
      && r.Success? && Lookup(r.value.data, k) == Failure(NotFound)
  {
    var d := Delete(t, "", [k], 0).data;
    WildcardDeleteOfMissingKey(t, k, 0);
    var recs := RecordsAt(d, order);
    var empty: Tables<int> := Tables(map[], map[]);
    ReplayEmitted(c, recs, empty, Zero(0));
    DeleteKeysSkips(t.data, Listed(t.users, ""), "", [k], 0);
    var keys := (d.Keys - {k}) + {""};
    forall j | 0 <= j < |recs| ensures recs[j].shortKey in keys {
      var key := order[j];
      if key == k {
        assert recs[j] == d[k] && d[k].shortKey == "";
      } else {
        assert key !in [k];
        assert SameAt(d, t.data, key);
        assert recs[j].shortKey == key;
      }
    }
    FoldKeysWithin(empty, recs, keys);
  }

  /**
   * Where the restart differs in the index: from an exact index, a flagged
   * record comes back in its owner's list after the rewrite and a replay, so
   * the replayed `usersMap` is not the one before.
   */
  lemma RestartRelistsDeleted(c: Codec, t: Tables<int>, order: seq<string>, k: string)
    requires RoundTrips(c) && KeysCoherent(t.data) && IndexExact(t)
    requires Enumerates(order, t.data.Keys) && k in t.data && t.data[k].isDeleted
    ensures var r := Replay(c, Emit(c, RecordsAt(t.data, order)));
      && r.Success?
      && KeyAndOURL(k, t.data[k].originalURL) in Listed(r.value.users, t.data[k].userID)
      && KeyAndOURL(k, t.data[k].originalURL) !in Listed(t.users, t.data[k].userID)
      && r.value.users != t.users
  {
    RestartListsEveryRecord(c, t.data, order, k);
    var w := t.data[k].userID;
    if w in t.users {
      assert ListSound(t.data, w, t.users[w]);
    }
  }

  /** Replaying one more record is one more `ReplayRecord` at the end. */
  lemma {:induction false} FoldSnoc(t: Tables<int>, recs: seq<FileURL>, r: FileURL)
    ensures FoldRecords(t, recs + [r]) == ReplayRecord(FoldRecords(t, recs), r)
    decreases |recs|
  {
    if recs == [] {
      assert [r][1..] == [];
    } else {
      assert (recs + [r])[1..] == recs[1..] + [r];
      FoldSnoc(ReplayRecord(t, recs[0]), recs[1..], r);
    }
  }

  /**
   * The file is the lines of some records, one after another, whose replay
   * from empty maps gives `data`: what a restart would rebuild the key map from.
   */
  ghost predicate Logged(c: Codec, file: string, data: map<string, FileURL>) {
    exists prev :: file == Emit(c, prev) && FoldRecords(Tables(map[], map[]), prev).data == data
  }

  /** A logged file replays to its key map. */
  lemma LoggedReplays(c: Codec, file: string, data: map<string, FileURL>)
    requires RoundTrips(c) && Logged(c, file, data)
    ensures Replay(c, file).Success? && Replay(c, file).value.data == data
  {
    var prev :| file == Emit(c, prev) && FoldRecords(Tables(map[], map[]), prev).data == data;
    ReplayEmitted(c, prev, Tables(map[], map[]), Zero(0));
  }

  /** Appending a record's line and storing it under its short key keeps the file logged. */
  lemma LoggedStep(c: Codec, file: string, data: map<string, FileURL>, rec: FileURL)
    requires Logged(c, file, data)
    ensures Logged(c, file + Line(c, rec), data[rec.shortKey := rec])
  {
    var empty: Tables<int> := Tables(map[], map[]);
    var prev :| file == Emit(c, prev) && FoldRecords(empty, prev).data == data;
    EmitSnoc(c, prev, rec);
    FoldSnoc(empty, prev, rec);
    assert file + Line(c, rec) == Emit(c, prev + [rec]);
  }

  /** A new store and a freshly rewritten file are logged. */
  lemma RewriteLogged(c: Codec, data: map<string, FileURL>, order: seq<string>)
    requires KeysCoherent(data) && Enumerates(order, data.Keys)
    ensures Logged(c, "", map[])
    ensures Logged(c, Emit(c, RecordsAt(data, order)), data)
  {
    assert Emit(c, []) == "" && FoldRecords(Tables(map[], map[]), []).data == map[];
    FoldRestores(data, order);
  }

  /**
   * Restart after appends: a `Set` on a logged file leaves it logged, so a
   * replay after any run of `Set`s from a fresh or rewritten file rebuilds the
   * key map, a failed write included.
   */
  lemma {:induction false} SetKeepsLogged(c: Codec, file: string, t: Tables<int>, urls: seq<URL>, i: nat,
                                          uuid: int, failAt: Option<nat>)
    requires i <= |urls| && Logged(c, file, t.data)
    ensures var r := SetFrom(c, file, t, urls, i, uuid, failAt);
      Logged(c, r.file, r.tables.data)
    decreases |urls| - i
  {
    if i < |urls| {
      var u := urls[i];
      var r := SetFrom(c, file, t, urls, i, uuid, failAt);
      if u.key in t.data {
        SetKeepsLogged(c, file, t, urls[i := u.(conflict := true)], i + 1, uuid, failAt);
      } else if failAt != Some(i) {
        var rec := NewRecord(u, uuid);
        var file', t' := file + Line(c, rec), Insert(t, u, uuid);
        assert r == SetFrom(c, file', t', urls, i + 1, uuid + 1, failAt);
        assert t'.data == t.data[rec.shortKey := rec];
        LoggedStep(c, file, t.data, rec);
        SetKeepsLogged(c, file', t', urls, i + 1, uuid + 1, failAt);
      }
    }
  }

  /** An earlier key from `i` on is one at `i` itself or one from `i + 1` on. */
  lemma KeySeenStep(urls: seq<URL>, urls': seq<URL>, i: nat, j: nat)
    requires i < j < |urls| == |urls'|
    requires forall m :: i < m <= j ==> urls'[m] == urls[m]
    requires urls'[i].key == urls[i].key
    ensures KeySeenBetween(urls, i, j) <==> KeySeenBetween(urls', i + 1, j) || urls[i].key == urls[j].key
  {
    if KeySeenBetween(urls, i, j) {
      var m :| i <= m < j && urls[m].key == urls[j].key;
      if m > i {
        assert urls'[m].key == urls'[j].key;
      }
    }
    if KeySeenBetween(urls', i + 1, j) {
      var m :| i + 1 <= m < j && urls'[m].key == urls'[j].key;
      assert urls[m].key == urls[j].key;
    }
  }

  /**
   * The URLs `r` hands back for a `Set` from index `i`: the earlier ones as
   * they were; then, up to the failed write (or to the end), URL `j` with
   * `Conflict` set exactly when it had it already, its key was stored before,
   * or an earlier URL of the batch from `i` on has the same key; from the
   * failed write on, as they were.
   */
  ghost predicate ConflictsFlagged(t: Tables<int>, urls: seq<URL>, i: nat, r: SetResult, failAt: Option<nat>)
    requires i <= |urls|
  {
    && |r.urls| == |urls|
    && (r.err.Some? ==> failAt.Some? && i <= failAt.value)
    && (forall j :: 0 <= j < i ==> r.urls[j] == urls[j])
    && (forall j :: i <= j < |urls| ==>
          if r.err.Some? && failAt.value <= j then r.urls[j] == urls[j]
          else r.urls[j] == urls[j].(conflict := urls[j].conflict || urls[j].key in t.data || KeySeenBetween(urls, i, j)))
  }

  /** The step of `SetConflicts` for a key already stored. */
  lemma ConflictsAtStored(t: Tables<int>, urls: seq<URL>, i: nat, r: SetResult, failAt: Option<nat>)
    requires i < |urls| && urls[i].key in t.data
    requires ConflictsFlagged(t, urls[i := urls[i].(conflict := true)], i + 1, r, failAt)
    ensures ConflictsFlagged(t, urls, i, r, failAt)
  {
    var urls' := urls[i := urls[i].(conflict := true)];
    forall j | i < j < |urls| ensures KeySeenBetween(urls, i, j) <==> KeySeenBetween(urls', i + 1, j) || urls[i].key == urls[j].key {
      KeySeenStep(urls, urls', i, j);
    }
  }

  /** The step of `SetConflicts` for a new key written and stored. */
  lemma ConflictsAtNew(t: Tables<int>, t': Tables<int>, urls: seq<URL>, i: nat, r: SetResult, failAt: Option<nat>)
    requires i < |urls| && urls[i].key !in t.data && failAt != Some(i)
    requires t'.data.Keys == t.data.Keys + {urls[i].key}
    requires ConflictsFlagged(t', urls, i + 1, r, failAt)
    ensures ConflictsFlagged(t, urls, i, r, failAt)
  {
    forall j | i < j < |urls| ensures KeySeenBetween(urls, i, j) <==> KeySeenBetween(urls, i + 1, j) || urls[i].key == urls[j].key {
      KeySeenStep(urls, urls, i, j);
    }
    assert !KeySeenBetween(urls, i, i);
  }

  /** The per-URL `Conflict` effects of `Set`, up to a failed write. */
  lemma {:induction false} SetConflicts(c: Codec, file: string, t: Tables<int>, urls: seq<URL>, i: nat,
                                        uuid: int, failAt: Option<nat>)
    requires i <= |urls|
    ensures ConflictsFlagged(t, urls, i, SetFrom(c, file, t, urls, i, uuid, failAt), failAt)
    decreases |urls| - i
  {
    var r := SetFrom(c, file, t, urls, i, uuid, failAt);
    if i == |urls| || (urls[i].key !in t.data && failAt == Some(i)) {
      assert r.urls == urls;
    } else if urls[i].key in t.data {
      var urls' := urls[i := urls[i].(conflict := true)];
      assert r == SetFrom(c, file, t, urls', i + 1, uuid, failAt);
      SetConflicts(c, file, t, urls', i + 1, uuid, failAt);
      ConflictsAtStored(t, urls, i, r, failAt);
    } else {
      var u := urls[i];
      var file', t' := file + Line(c, NewRecord(u, uuid)), Insert(t, u, uuid);
      assert r == SetFrom(c, file', t', urls, i + 1, uuid + 1, failAt);
      SetConflicts(c, file', t', urls, i + 1, uuid + 1, failAt);
      assert t'.data.Keys == t.data.Keys + {u.key};
      ConflictsAtNew(t, t', urls, i, r, failAt);
    }
  }
}
