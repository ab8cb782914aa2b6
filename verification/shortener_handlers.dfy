/**
 * `invalidContentType` (cmd/shortener/handlers.go): the older check, which
 * wants `text/plain` and nothing else.
 */
module ShortenerHandlers {
  import opened Strings
  import Handlers

  const TextPlain: string := "text/plain"

  /** Some `;`-separated segment is exactly `t`; nothing is trimmed. */
  predicate HasSegment(contentType: string, t: string) {
    var parts := Split(contentType, ';');
    exists i :: 0 <= i < |parts| && parts[i] == t
  }

  predicate HasTextPlain(contentType: string) {
    HasSegment(contentType, TextPlain)
  }

  /**
   * `invalidContentType`: an empty header is invalid; otherwise the segments
   * are scanned in order and the first `text/plain` ends the scan.
   */
  method InvalidContentType(contentType: string) returns (out: bool)
    ensures out <==> contentType == "" || !HasTextPlain(contentType)
  {
    if contentType == "" {
      return true;
    }
    out := true;
    var parts := Split(contentType, ';');
    var i := 0;
    while i < |parts|
      invariant 0 <= i <= |parts|
      invariant out
      invariant forall j :: 0 <= j < i ==> parts[j] != TextPlain
    {
      var v := parts[i];
      if v == TextPlain {
        out := false;
        break;
      }
      i := i + 1;
    }
  }

  /** Whatever `badContentType` with `text/plain` expected rejects, this check rejects too. */
  lemma NarrowerThanBadContentType(contentType: string)
    ensures HasTextPlain(contentType) ==> Handlers.Accepts(contentType, TextPlain)
  {
  }

  /** Unlike `badContentType` with any expected type, this check does not accept the gzip type. */
  lemma GzipNotAccepted(expType: string)
    ensures !HasTextPlain(Handlers.Gzip)
    ensures Handlers.Accepts(Handlers.Gzip, expType)
  {
    Handlers.SingleSegment(Handlers.Gzip, expType);
    SplitNoSep(Handlers.Gzip, ';');
    assert Split(Handlers.Gzip, ';') == [Handlers.Gzip];
  }

  /** A segment with a space in front is not the segment. */
  lemma SpacedSegmentNotCounted(param: string, t: string)
    requires ';' !in param && ';' !in t && param != t
    ensures !HasSegment(param + "; " + t, t)
  {
    var spaced := [' '] + t;
    assert param + "; " + t == param + [';'] + spaced;
    SplitAtFirst(param, ';', spaced);
    SplitNoSep(spaced, ';');
    assert |spaced| != |t|;
  }

  /** Segments are not trimmed: a space between `;` and `text/plain` makes the segment not count. */
  lemma SpaceBeforeTypeNotCounted(param: string)
    requires ';' !in param && param != TextPlain
    ensures !HasTextPlain(param + "; " + TextPlain)
  {
    SpacedSegmentNotCounted(param, TextPlain);
  }

  /** A segment right after a `;` is counted. */
  lemma SegmentAfterParameter(param: string, t: string)
    requires ';' !in param && ';' !in t
    ensures HasSegment(param + ";" + t, t)
  {
    assert param + ";" + t == param + [';'] + t;
    SplitAtFirst(param, ';', t);
    SplitNoSep(t, ';');
    assert Split(param + ";" + t, ';')[1] == t;
  }

  /** Without the space the same header is valid. */
  lemma TypeAfterParameterCounted(param: string)
    requires ';' !in param
    ensures HasTextPlain(param + ";" + TextPlain)
  {
    SegmentAfterParameter(param, TextPlain);
  }
}
