/**
 * The file store behind the repository operations
 * (internal/adapter/file/url.go): `GetURL`, `SaveURL` and `PingDB` over an
 * embedded `FileStorage.DB`.
 */
module FileAdapter {
  import opened Wrappers
  import opened Model
  import opened Store
  import FileStorage

  class Repository {
    const db: FileStorage.DB

    constructor (db: FileStorage.DB)
      ensures this.db == db
    {
      this.db := db;
    }

    /**
     * `GetURL`: the store's error unchanged (and no URL), or a URL holding the
     * queried key and the stored original URL, every other field at its zero value.
     */
    function GetURL(key: string): (r: Result<URL, Error>)
      reads db
      ensures r.Failure? <==> key !in db.data || db.data[key].isDeleted
      ensures r.Failure? ==> db.Get(key) == Failure(r.error)
      ensures r.Success? ==> r.value == URL(db.data[key].originalURL, key, "", false, "")
    {
      match db.Get(key)
      case Failure(err) => Failure(err)
      case Success(ourl) => Success(URL(ourl, key, "", false, ""))
    }

    /**
     * `SaveURL`: exactly `Set` on the batch, its error returned as is; `failAt`
     * names the batch index whose line write fails, if any.
     */
    method SaveURL(urls: array<URL>, failAt: Option<nat>) returns (err: Option<Error>)
      modifies db, urls
      ensures var r := FileStorage.SetFrom(db.codec, old(db.file), old(db.State()), old(urls[..]), 0,
                                           |old(db.data)| + 1, failAt);
        db.file == r.file && db.State() == r.tables && urls[..] == r.urls && err == r.err
    {
      err := db.Set(urls, failAt);
    }

    /** `PingDB`: there is no connection to check, so always an error. */
    function PingDB(): (err: Option<Error>)
      ensures err.Some?
    {
      Some(NoConnection)
    }
  }
}
