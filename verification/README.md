# URL shortener storage core, in Dafny

This project models the storage core of a Go URL shortener
(`winkor4/taktaev-yandex-dev-uri`), together with the short-key derivation
and two Content-Type validators.

- **Key derivation** (`Model`). `ShortKey` hashes the URL's bytes with MD5
  and returns the digest as 32 lowercase hex digits. MD5 is a parameter. Hex
  encoding and decoding are concrete.
- **Shared map rules** (`Store`). Both in-process stores keep two maps: key →
  record (with an `IsDeleted` tombstone) and user → list of `{Key,
  OriginalURL}`. The rules are written once, as functions:
  - conflict on an existing key;
  - owner-scoped soft delete, where the empty user is a wildcard that also
    replaces the whole index by an empty map;
  - swap-remove from the user's list.
  The invariants they keep are stated as predicates: `Evolves`,
  `KeysCoherent`, `IndexExact`.
- **Memory store** (`MemoryStorage`) and its **repository**
  (`MemoryAdapter`). Classes whose methods update the maps in place. Each
  method is proved against the `Store` functions.
- **File store** (`FileStorage`) and its **repository** (`FileAdapter`). The
  same maps, plus the storage file, modelled as its text. The JSON encoder and
  decoder are a `Codec` parameter, and `RoundTrips(c)` states what is assumed
  of them. Replay splits the text on `'\n'`, skips blank lines, lets the last
  line per key win, and fails on the first line that does not decode. `Set`
  appends one line per new record, numbered consecutively. `UpdateDeleteFlag`
  rewrites the whole file in the map's (unspecified) iteration order.
- **Validators** (`Handlers`, `ShortenerHandlers`). `badContentType` and
  `invalidContentType` look for an exact match among the `;`-separated
  segments of the header, with no trimming.

Go strings are modelled as `string`, one `char` per byte. `Strings.Split` is
Go's `strings.Split` for a one-character separator.

Several behaviours of the code differ from what a repository of this kind is
meant to promise. The model follows the code:

- **Wildcard delete.** A delete by the empty user is meant to remove the
  deleted keys from the user index. The code replaces the whole index by an
  empty map (`Store.WildcardDeleteEmptiesIndex`). Every live owned record
  whose key was not deleted stays live but leaves its owner's list
  (`Store.WildcardDeleteDropsLiveEntries`).
- **Wildcard delete of an unknown key.** Flagging a key that was never saved
  inserts a zero record whose short key is `""`
  (`Store.WildcardDeleteOfMissingKey`).
- **File store restart.** A restart is meant to reproduce the key → URL map
  and the user index exactly.
  - The key map comes back whenever every record sits under its own key. This
    holds after a rewrite (`FileStorage.DeleteThenRestart`) and after any run
    of `Set`s (`FileStorage.SetKeepsLogged`).
  - The empty user's delete of a never-saved key breaks it: after a restart
    that key answers "not found" instead of `ErrIsDeleted`
    (`FileStorage.WildcardDeleteBreaksRestart`).
  - Replay lists every record under its owner, including deleted records and
    records with an empty owner. `Set` and deletes by non-empty users keep the
    index exact from a fresh store. From such an exact index, the first
    restart after a record is flagged rebuilds a different index
    (`FileStorage.RestartRelistsDeleted`).
- **File repository.** The file repository defines only `GetURL`, `SaveURL`
  and `PingDB`, not the whole repository interface.
- **Locking.** The stores have no lock, and the model is sequential.

## Model

| member | source | states |
|---|---|---|
| Model.HexValue | internal/model/url.go:47 | A character has a digit value exactly when it is a lowercase hex digit. That value is the character's position in `0123456789abcdef`. |
| Model.HexEncode | internal/model/url.go:47 | The encoding has two characters per byte, all of them lowercase hex digits. |
| Model.HexRoundTrip | internal/model/url.go:47 | Decoding the hex encoding of any byte sequence gives the bytes back. |
| Model.HexInjective | internal/model/url.go:47 | Two byte sequences have the same encoding if and only if they are equal. |
| Model.ShortKey | internal/model/url.go:40-48 | The key has exactly 32 characters, all lowercase hex digits. It decodes to the MD5 of exactly the URL's bytes, so it depends on nothing else. |
| Model.ShortKeyCollision | internal/model/url.go:40-47 | Two URLs get the same key if and only if their MD5 digests are equal. |
| Strings.Split | internal/storage/file/storage.go:62 | Go's `strings.Split` for a one-character separator, as the file replay (separator `'\n'`) and both validators (separator `;`, internal/handlers/handlers.go:144 and cmd/shortener/handlers.go:29) call it. Its result always has at least one piece. Its properties are stated by `SplitPiecesHaveNoSep`, `JoinSplit`, `SplitJoin`, `SplitNoSep` and `SplitAtFirst`. |
| Strings.SplitPiecesHaveNoSep | internal/storage/file/storage.go:62 | No piece of a split contains the separator. |
| Strings.JoinSplit | internal/storage/file/storage.go:62 | Joining the pieces of a split with the separator gives back the original text. |
| Strings.SplitJoin | internal/handlers/handlers.go:144 | Splitting the join of separator-free pieces (at least one) gives back the pieces. |
| Strings.SplitNoSep | internal/handlers/handlers.go:144 | A text without the separator splits into one piece, itself. |
| Strings.SplitAtFirst | internal/handlers/handlers.go:144 | Splitting at the first separator yields the text before it, followed by the pieces of the rest. |
| Store.Lookup | internal/storage/memory/storage.go:33-42 | "Not found" exactly for a key that is not stored. `ErrIsDeleted` exactly for a stored, flagged key. Otherwise success, with the stored original URL. |
| Store.Insert | internal/storage/memory/storage.go:51-56 | The new key holds an unflagged record of the URL, its owner and the tag. Every other key is unchanged. |
| Store.InsertListed | internal/storage/memory/storage.go:58-66 | Only a non-empty owner's list changes: `{Key, OriginalURL}` is appended at its end. Every other list is unchanged. |
| Store.Save | internal/storage/memory/storage.go:45-67 | Existing key: both maps unchanged, and the URL comes back with `Conflict` set. New key: the URL is inserted and comes back unchanged. |
| Store.SwapRemove | internal/storage/memory/storage.go:92-98 | The swap-remove itself: the first entry with the key is overwritten by the last entry and the list shortened by one, or the list is returned unchanged. Its properties are stated by `SwapRemoveSpec`. |
| Store.IndexOf | internal/storage/memory/storage.go:93 | The first index whose entry has the key, or -1 exactly when no entry has it. |
| Store.SwapRemoveSpec | internal/storage/memory/storage.go:92-98 | No entry with the key: the list is unchanged. Otherwise the list loses exactly that entry, one shorter, and the other entries remain as a multiset. Nothing new appears, and every entry with another key stays. On a list without duplicate keys, the key is gone and no duplicates appear. |
| Store.SwapRemoveAt | internal/storage/memory/storage.go:95-96 | Overwriting position `idx` with the last entry and truncating drops exactly `list[idx]` from the multiset and keeps every other position's entry. |
| Store.SwapRemoveAtNoDup | internal/storage/memory/storage.go:95-96 | On a list without duplicate keys, the swap-remove keeps that property and removes the key entirely. |
| Store.DeleteKey | internal/storage/memory/storage.go:85-98 | One key of the delete loop: a missing key reads as the zero record. For a non-empty user, a record owned by someone else is skipped. Otherwise the record is stored flagged and the key is swap-removed from the user's list. Its properties are stated by the `DeleteKeys…` lemmas. |
| Store.DeleteKeys | internal/storage/memory/storage.go:84-99 | The delete loop over the keys in order, threading the map and the user's list. |
| Store.Delete | internal/storage/memory/storage.go:81-108 | `UpdateDeleteFlag` on both maps: the loop, then the user's list stored back for a non-empty user, or the whole index replaced by an empty map. |
| Store.SaveEvolves | internal/storage/memory/storage.go:46-56 | `Set` loses no key. It changes no stored record and clears no flag. |
| Store.SaveKeepsInvariants | internal/storage/memory/storage.go:45-67 | `Set` keeps the index exactly the live owned records, and keeps every record under its own short key. |
| Store.InsertKeepsListsSound | internal/storage/memory/storage.go:58-66 | After a new-key insert, every list belongs to a non-empty user, has no duplicate keys, and names live records of that user with their URLs. |
| Store.InsertKeepsLiveListed | internal/storage/memory/storage.go:51-66 | After a new-key insert, every live record with an owner, the new one included, is in its owner's list. |
| Store.DeleteKeysEvolves | internal/storage/memory/storage.go:84-90 | The delete loop keeps every existing key, and every existing record except its flag, which only goes from false to true. It may add zero records under new keys (see `WildcardDeleteOfMissingKey`). |
| Store.DeleteKeysSkips | internal/storage/memory/storage.go:85-88 | A key not in `keys` is untouched. So is, for a non-empty user, a key that is missing or owned by someone else. |
| Store.DeleteKeysMarks | internal/storage/memory/storage.go:84-90 | Every listed key the user may delete ends up present and flagged. With the empty user that is every listed key, including one never saved. |
| Store.DeleteKeyKeepsIndex | internal/storage/memory/storage.go:85-98 | For a non-empty user, one step of the delete loop keeps the index exact. |
| Store.DeleteKeysKeepIndex | internal/storage/memory/storage.go:84-99 | For a non-empty user, the whole delete loop keeps the index exact. |
| Store.DeleteKeepsIndex | internal/storage/memory/storage.go:81-108 | For a non-empty user, `UpdateDeleteFlag` keeps the index exact, so the user's deleted keys leave the user's list. Every other user's list is unchanged. |
| Store.DeleteKeysKeepCoherent | internal/storage/memory/storage.go:84-90 | Every record stays under its own short key, unless the empty user deletes a key that is not stored. |
| Store.WildcardDeleteOfMissingKey | internal/storage/memory/storage.go:85-90 | The empty user's delete of a never-saved key stores a flagged zero record under it. That record's short key is `""`, so records are no longer all under their own keys. |
| Store.WildcardDeleteEmptiesIndex | internal/storage/memory/storage.go:104-106 | For every store and every key list, the empty user's delete leaves an empty index. |
| Store.WildcardDeleteDropsLiveEntries | internal/storage/memory/storage.go:101-106 | A live owned record whose key is not among the deleted keys stays live but is in no list, so the index is not exact afterwards. |
| MemoryStorage.DB.New | internal/storage/memory/storage.go:25-30 | Both maps start empty, which satisfies the index invariants. |
| MemoryStorage.DB.Get | internal/storage/memory/storage.go:33-42 | Equals `Lookup` on the key map: "not found", `ErrIsDeleted`, or the original URL. |
| MemoryStorage.DB.Set | internal/storage/memory/storage.go:45-67 | The new maps and the URL written back are those of `Save`: no overwrite, and `Conflict` on an existing key. |
| MemoryStorage.DB.GetByUser | internal/storage/memory/storage.go:75-78 | The user's list, or the empty list for an unknown user. |
| MemoryStorage.DB.UpdateDeleteFlag | internal/storage/memory/storage.go:81-108 | The new maps are `Delete` of the old ones: the key loop, then the user's list stored back, or the whole index emptied for the empty user. |
| MemoryStorage.RunEvolves | internal/storage/memory/storage.go:45-108 | Over any sequence of saves and deletes: no key is lost, no stored URL or owner changes, and no flag is cleared. |
| MemoryStorage.RunKeepsIndex | internal/storage/memory/storage.go:45-108 | Over any sequence of saves and deletes by non-empty users: the index stays exact, and records stay under their own keys. |
| MemoryAdapter.SaveAll | internal/adapter/memory/url.go:25-30 | `Set` applied to each element in index order, with the elements as `Set` leaves them. Its properties are stated by `SaveAllKeys` and `SaveAllConflicts`. |
| MemoryAdapter.SaveAllKeys | internal/adapter/memory/url.go:25-30 | After a batch save, the stored keys are the old ones plus the batch's keys, and the batch keeps its length. |
| MemoryAdapter.KeyStoredBefore | internal/adapter/memory/url.go:26-28 | When element `j` is saved, its key is stored if and only if it was stored before the batch or an earlier element has the same key. |
| MemoryAdapter.SaveAllConflicts | internal/adapter/memory/url.go:25-30 | Element `j` comes back with `Conflict` set if and only if it was set already, its key was stored before the batch, or an earlier element has the same key. Nothing else about an element changes. |
| MemoryAdapter.Repository.constructor | internal/adapter/memory/repository.go:11-15 | The repository wraps the given store. |
| MemoryAdapter.Repository.GetURL | internal/adapter/memory/url.go:11-22 | Fails exactly for a missing or flagged key, with the store's error unchanged. On success: the queried key, the stored original URL, and every other field at its zero value. |
| MemoryAdapter.Repository.SaveURL | internal/adapter/memory/url.go:25-30 | Never returns an error. The store and the array (updated in place) are those of `Set` applied to each element in index order. |
| MemoryAdapter.Repository.PingDB | internal/adapter/memory/url.go:33-35 | Returns an error in every state. |
| MemoryAdapter.Repository.GetUsersURL | internal/adapter/memory/url.go:38-40 | Never returns an error. The value is the user's list. |
| MemoryAdapter.Repository.DeleteURL | internal/adapter/memory/url.go:43-45 | The store becomes `Delete` of the old one. There is no error result to report a failure (the interface at internal/model/url.go:21 has none). |
| FileStorage.Line | internal/storage/file/storage.go:118 | What one `Encode` call writes: the encoded record followed by a newline. |
| FileStorage.Emit | internal/storage/file/storage.go:191-196 | The lines of several records, one after another. |
| FileStorage.ReplayRecord | internal/storage/file/storage.go:70-77 | One decoded line: the record wins in `data` under its short key, and its entry is appended to its owner's list, whatever the owner and the flag. |
| FileStorage.ReplayLines | internal/storage/file/storage.go:63-78 | The replay loop: blank lines are skipped, the first decode error ends it, and each decoded record becomes the next line's `schema`. |
| FileStorage.Replay | internal/storage/file/storage.go:52-84 | `readStorageFile` on the file's text: split on newlines, replayed from empty maps and a zero `schema`. |
| FileStorage.EmitSnoc | internal/storage/file/storage.go:191-196 | Writing one more record appends exactly its line. |
| FileStorage.ReplaySkipsBlankLines | internal/storage/file/storage.go:63-66 | A blank line anywhere, trailing ones included, leaves the replay result unchanged. |
| FileStorage.ReplayErrorIsDecodeError | internal/storage/file/storage.go:67-69 | A failed replay fails with the decoder's error on one of the non-blank lines. |
| FileStorage.ReplayAbortsOnBadLine | internal/storage/file/storage.go:67-69 | A non-blank line that no `schema` decodes makes the whole replay fail, wherever it sits among the lines. |
| FileStorage.ReplayAfterEmitted | internal/storage/file/storage.go:63-78 | Replaying written records followed by any text folds the records first, then replays the text from the last record as `schema`. |
| FileStorage.ReplayStopsAtBadLine | internal/storage/file/storage.go:67-69 | A file of written records followed by a non-blank line that does not decode against the last record fails to load with exactly that decoder error. |
| FileStorage.ReplayEmitted | internal/storage/file/storage.go:61-78 | If the codec round-trips, replaying the text written for a sequence of records succeeds and folds those records in order. |
| FileStorage.FoldKeysWithin | internal/storage/file/storage.go:70 | Replay adds no key other than the short keys of the records it reads. |
| FileStorage.FoldLastWins | internal/storage/file/storage.go:70 | For each short key, the last record with that key is the one in `data`. |
| FileStorage.FoldUntouched | internal/storage/file/storage.go:70 | A key that no later record names keeps its earlier record. |
| FileStorage.FoldListsEveryRecord | internal/storage/file/storage.go:72-77 | Replay keeps earlier list entries, and lists every record read under its owner, deleted and owner-less records included. |
| FileStorage.RecordsAt | internal/storage/file/storage.go:191-196 | The `j`-th record written is the record stored under the `j`-th key of the order. |
| FileStorage.RewriteReplays | internal/storage/file/storage.go:191-196 | Re-emitting every record of `data` once, in any order, and replaying the text succeeds and rebuilds `data` exactly, provided every record is under its own short key and the codec round-trips. |
| FileStorage.FoldRestores | internal/storage/file/storage.go:70 | Folding each record of `data` once, from empty maps, rebuilds `data`, provided every record is under its own key. |
| FileStorage.RestartListsEveryRecord | internal/storage/file/storage.go:72-77 | After a rewrite and a replay, every record, a deleted one included, is in its owner's list. |
| FileStorage.RestartRelistsDeleted | internal/storage/file/storage.go:72-77 | From an exact index with a flagged record, the rewrite and a replay put that record back into its owner's list. It was not there before, so the replayed index differs from the old one. |
| FileStorage.InsertGrows | internal/storage/file/storage.go:122 | Storing under a new key keeps every record and adds exactly one key. |
| FileStorage.SetFrom | internal/storage/file/storage.go:99-137 | `Set`'s loop from a batch index: an existing key gets `Conflict`; a new key has its line written, is stored and takes the next UUID; a failed write returns at once. Its properties are stated by the `Set…` lemmas. |
| FileStorage.SetKeepsStored | internal/storage/file/storage.go:103-108 | `Set` never replaces or flags a stored record, and the map never shrinks. |
| FileStorage.SetAppends | internal/storage/file/storage.go:101-123 | Some sequence of records, one per new entry stored, exists such that: the file grew by exactly their lines; each sits unflagged under a key that was new; the number of new keys is their count; and the `j`-th is numbered `uuid + j`. Started from `len(data)+1`, each UUID is the map size just after its insert, and conflicts consume no number. |
| FileStorage.AppendedCons | internal/storage/file/storage.go:110-123 | One more new record in front of an appended run is again an appended run, numbered one lower. |
| FileStorage.SetFailureKeepsPrefix | internal/storage/file/storage.go:118-121 | A failed write returns the write error at once, at a new key, which is not stored. The file and maps equal those of the batch cut just before that element, run without failure, so earlier entries stay committed. |
| FileStorage.SetConflicts | internal/storage/file/storage.go:104-107 | Up to the failed write, or to the end, element `j` comes back with `Conflict` set if and only if it had it, its key was stored before the batch, or an earlier element has the same key. From the failed write on, and before the start index, elements come back unchanged. |
| FileStorage.ConflictsAtStored | internal/storage/file/storage.go:104-107 | The conflict branch keeps that characterization one index earlier. |
| FileStorage.ConflictsAtNew | internal/storage/file/storage.go:110-123 | The new-key branch keeps that characterization one index earlier. |
| FileStorage.SetKeepsLogged | internal/storage/file/storage.go:99-137 | A `Set` on a file that is the lines of records replaying to `data` leaves such a file for the new `data`, a failed write included. |
| FileStorage.LoggedStep | internal/storage/file/storage.go:118-122 | Appending a record's line and storing it under its short key keeps the file and the key map in step. |
| FileStorage.LoggedReplays | internal/storage/file/storage.go:52-84 | A file in step with `data` replays successfully to exactly `data`. |
| FileStorage.RewriteLogged | internal/storage/file/storage.go:191-196 | An empty file is in step with an empty map, and so is a rewritten file with a map whose records are under their own keys. |
| FileStorage.FoldSnoc | internal/storage/file/storage.go:63-78 | Replaying one more record is one more record step at the end. |
| FileStorage.DB.constructor | internal/storage/file/storage.go:36-37 | A store holding the opened file and no maps yet. |
| FileStorage.DB.ReadStorageFile | internal/storage/file/storage.go:52-84 | A read error comes back unchanged. Otherwise: if the replay succeeds, its maps replace the store's and there is no error; if a decode error occurs, it is returned and the store keeps its old maps. The file is untouched. |
| FileStorage.DB.Get | internal/storage/file/storage.go:87-96 | Equals `Lookup` on `data`: "not found", `ErrIsDeleted`, or the original URL, exactly as in the memory store. |
| FileStorage.DB.Set | internal/storage/file/storage.go:99-137 | The new file, maps, URLs (updated in place) and error are those of `SetFrom` from index 0 with UUID `len(data)+1`. |
| FileStorage.DB.GetByUser | internal/storage/file/storage.go:140-143 | The user's list, or the empty list for an unknown user. |
| FileStorage.DB.UpdateDeleteFlag | internal/storage/file/storage.go:146-197 | The maps become `Delete` of the old ones, with the same rules as the memory store. The file then holds every record once, flagged ones included, in some order of the keys. |
| FileStorage.DB.MarkDeleted | internal/storage/file/storage.go:147-171 | The maps become `Delete` of the old ones. The file is unchanged. |
| FileStorage.DB.RewriteFile | internal/storage/file/storage.go:173-196 | The maps are unchanged. The file is the lines of every record of `data`, each key once, in the iteration order returned. |
| FileStorage.New | internal/storage/file/storage.go:30-45 | An open or read error, or a line that does not decode, is returned as the error. Otherwise: a store over the file whose maps are the replay of its text. |
| FileStorage.DeleteThenRestart | internal/storage/file/storage.go:146-196 | Replaying the rewritten file after a delete rebuilds the key map exactly, provided records were under their own keys before and no never-stored key was flagged by the empty user. |
| FileStorage.WildcardDeleteBreaksRestart | internal/storage/file/storage.go:150-155 | When the empty user deletes a key the store never held, `Get` answers `ErrIsDeleted` before the restart. After the rewrite and a replay, which succeeds, it answers "not found". |
| FileAdapter.Repository.constructor | internal/adapter/file/repository.go:11-15 | The repository wraps the given store. |
| FileAdapter.Repository.GetURL | internal/adapter/file/url.go:9-20 | Fails exactly for a missing or flagged key, with the store's error unchanged. On success: the queried key and the stored original URL, every other field at its zero value. |
| FileAdapter.Repository.SaveURL | internal/adapter/file/url.go:22-24 | Exactly `Set`: the same file, maps and per-element `Conflict` effects, and the same error. |
| FileAdapter.Repository.PingDB | internal/adapter/file/url.go:26-28 | Returns an error in every state. |
| Handlers.BadContentType | internal/handlers/handlers.go:139-151 | True if and only if the header is empty, or no `;`-separated segment equals the expected type or `application/x-gzip` exactly. |
| Handlers.SingleSegment | internal/handlers/handlers.go:144-145 | A header without `;` is accepted if and only if it is exactly the expected type or `application/x-gzip`. |
| Handlers.GzipSegmentAccepted | internal/handlers/handlers.go:145 | A header with an `application/x-gzip` segment in any position (first, middle or last) is accepted whatever type is expected. Every header is the join of its segments. |
| Handlers.ParametersAfterType | internal/handlers/handlers.go:144-145 | The expected type followed by `;` and parameters (`text/plain;charset=utf-8`) is accepted. |
| Handlers.SpacedTypeRejected | internal/handlers/handlers.go:144-145 | Segments are not trimmed: `charset=utf-8; text/plain` is rejected for `text/plain`. |
| ShortenerHandlers.InvalidContentType | cmd/shortener/handlers.go:24-36 | True if and only if the header is empty, or no `;`-separated segment equals `text/plain` exactly. |
| ShortenerHandlers.NarrowerThanBadContentType | cmd/shortener/handlers.go:28-35 | Every header this check accepts, `badContentType` with `text/plain` expected accepts too. |
| ShortenerHandlers.GzipNotAccepted | cmd/shortener/handlers.go:30 | `application/x-gzip` alone is not accepted here, although `badContentType` accepts it for any expected type. |
| ShortenerHandlers.SpacedSegmentNotCounted | cmd/shortener/handlers.go:29-30 | A segment with a leading space does not count as the segment. |
| ShortenerHandlers.SpaceBeforeTypeNotCounted | cmd/shortener/handlers.go:29-30 | A header whose only `text/plain` comes after `"; "` (with the space) is invalid. |
| ShortenerHandlers.SegmentAfterParameter | cmd/shortener/handlers.go:29-30 | A segment directly after a `;` counts. |
| ShortenerHandlers.TypeAfterParameterCounted | cmd/shortener/handlers.go:29-30 | A header whose `text/plain` comes directly after `;` (no space) is valid. |

## Left out

- MD5 itself is a function parameter (`Md5`). Its internals are not modelled, only that it yields 16 bytes.
- The JSON encoder and decoder are the `Codec` parameter. The round-trip and single-line properties are assumed through `RoundTrips`, not derived from `encoding/json`.
- RoundTrips: `encoding/json` replaces invalid UTF-8 bytes in strings by U+FFFD, so it round-trips only records whose fields are valid UTF-8. An original URL taken verbatim from a text/plain body containing, say, byte 0xFF comes back changed after a restart. `RewriteReplays`, `DeleteThenRestart`, `LoggedReplays` and `SetKeepsLogged` do not cover such records.
- The OS calls are not modelled. The file is its text, and opening, reading, closing, removing and recreating it are not separate steps.
- New's open and read errors are merged into one `disk` parameter: the file's text or the error.
- The rewrite's close, remove, open and per-line encode errors are silently swallowed in the source. The model assumes these steps succeed. A failure part-way through the rewrite (a truncated file) is not modelled.
- FileStorage.DB.Set: a failed write is modelled as appending nothing. A partial line left by a failing encoder is not modelled.
- FileStorage.DB.UpdateDeleteFlag: the map's iteration order is a ghost result `order` chosen by the model, not Go's randomized order. The split into `MarkDeleted` and `RewriteFile` is a decomposition of the one Go method.
- `CloseFile` only closes the OS file handle, so it is not modelled.
- `GetByUser` returns the store's own slice, so the caller shares its backing array. The model returns a value and does not capture this aliasing.
- `PingDB`'s context argument is not used by the code and is not modelled.
- The file repository defines no `GetUsersURL` or `DeleteURL` (only `GetURL`, `SaveURL` and `PingDB`), so neither appears in `FileAdapter`.
- Concurrency is not modelled: neither store has a lock, and the model is sequential. The asynchronous delete queue and server lifecycle are also out.
- The SQL backend, the HTTP and gRPC transport, the random short-key generators, configuration, logging and wiring are outside this model.
- Strings are sequences of bytes. UTF-8 decoding is not modelled.
