/**
 * `badContentType` (internal/handlers/handlers.go): is a request's
 * Content-Type header unacceptable for an expected media type?
 */
module Handlers {
  import opened Strings

  /** Compressed bodies are accepted whatever type is expected. */
  const Gzip: string := "application/x-gzip"

  /** Some `;`-separated segment is exactly `expType` or the gzip type; nothing is trimmed. */
  predicate Accepts(contentType: string, expType: string) {
    var parts := Split(contentType, ';');
    exists i :: 0 <= i < |parts| && (parts[i] == expType || parts[i] == Gzip)
  }

  /**
   * `badContentType`: an empty header is bad; otherwise the segments are
   * scanned in order and the first accepted one ends the scan.
   */
  method BadContentType(contentType: string, expType: string) returns (out: bool)
    ensures out <==> contentType == "" || !Accepts(contentType, expType)
  {
    if contentType == "" {
      return true;
    }
    out := true;
    var parts := Split(contentType, ';');
    var i := 0;
    while i < |parts|
      invariant 0 <= i <= |parts|
      invariant out
      invariant forall j :: 0 <= j < i ==> parts[j] != expType && parts[j] != Gzip
    {
      var v := parts[i];
      if v == expType || v == Gzip {
        out := false;
        break;
      }
      i := i + 1;
    }
  }

  /** A header without `;` is accepted exactly when it is the expected type or the gzip type. */
  lemma SingleSegment(contentType: string, expType: string)
    requires ';' !in contentType
    ensures Accepts(contentType, expType) <==> contentType == expType || contentType == Gzip
  {
    SplitNoSep(contentType, ';');
    assert Split(contentType, ';')[0] == contentType;
  }

  /**
   * A header is accepted when any one of its segments, in any position, is the
   * gzip type, whatever is expected. Every header is the join of its segments
   * (`JoinSplit`), so `parts` ranges over all headers.
   */
  lemma GzipSegmentAccepted(parts: seq<string>, i: nat, expType: string)
    requires i < |parts| && parts[i] == Gzip
    requires forall j :: 0 <= j < |parts| ==> ';' !in parts[j]
    ensures Accepts(Join(parts, ';'), expType)
  {
    SplitJoin(parts, ';');
    assert Split(Join(parts, ';'), ';')[i] == Gzip;
  }

  /** Parameters may follow the type: `text/plain;charset=utf-8` is accepted for `text/plain`. */
  lemma ParametersAfterType(expType: string, params: string)
    requires ';' !in expType
    ensures Accepts(expType + [';'] + params, expType)
  {
    SplitAtFirst(expType, ';', params);
    assert Split(expType + [';'] + params, ';')[0] == expType;
  }

  /**
   * Segments are not trimmed: with the type after a parameter and a space, as
   * in `charset=utf-8; text/plain`, the header is rejected.
   */
  lemma SpacedTypeRejected(param: string, expType: string)
    requires ';' !in param && ';' !in expType
    requires param != expType && param != Gzip && [' '] + expType != Gzip
    ensures !Accepts(param + "; " + expType, expType)
  {
    assert param + "; " + expType == param + [';'] + ([' '] + expType);
    SplitAtFirst(param, ';', [' '] + expType);
    SplitNoSep([' '] + expType, ';');
    var parts := Split(param + "; " + expType, ';');
    assert parts == [param, [' '] + expType];
    assert [' '] + expType != expType by {
      assert |[' '] + expType| != |expType|;
    }
  }
}
