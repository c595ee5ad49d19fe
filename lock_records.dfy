/**
 * Lock records of the lock-file synchronizer: the contents written into a lock
 * file, the in-memory view of a listed lock, the lock filename and its parser,
 * and the expiration arithmetic.
 */
module LockRecords {
  import opened Basics

  /** The infix between the entry filename and the owning query id. */
  const LOCK_INFIX := "sb-lock_"

  /** The literal the lock filename pattern requires: a dot, then the infix. */
  const MARKER := "." + LOCK_INFIX

  /** How long a freshly written lock stays live: five minutes, in nanoseconds. */
  const EXPIRATION_NANOS := 5 * 60 * 1_000_000_000

  const NANOS_PER_MILLI := 1_000_000

  /** The record serialised into a lock file. */
  datatype LockFileContents = LockFileContents(clusterId: string, owningQuery: string, expirationEpochMillis: int)

  /** A lock file as read back from the lock directory. */
  datatype LockInfo = LockInfo(lockFilename: string, entryFilename: string, contents: LockFileContents)

  /** The characters a regular-expression `.` does not match by default. */
  predicate IsLineTerminator(c: char)
  {
    c == '\n' || c == '\r' || c == '\U{85}' || c == '\U{2028}' || c == '\U{2029}'
  }

  predicate SingleLine(s: string)
  {
    forall i :: 0 <= i < |s| ==> !IsLineTerminator(s[i])
  }

  /** The marker occurs in `s` starting at index `i`. */
  predicate MarkerAt(s: string, i: int)
  {
    0 <= i && i + |MARKER| <= |s| && s[i..i + |MARKER|] == MARKER
  }

  /** The name of the lock file that claims `entryFilename` for `queryId`. */
  function LockFilename(entryFilename: string, queryId: string): string
  {
    entryFilename + "." + LOCK_INFIX + queryId
  }

  /** The last occurrence of the marker starting before index `k`, if any. */
  function LastMarkerBefore(s: string, k: int): (r: Option<nat>)
    decreases k
    ensures r.Some? ==> r.value < k && MarkerAt(s, r.value)
    ensures r.Some? ==> forall j :: r.value < j < k ==> !MarkerAt(s, j)
    ensures r.None? ==> forall j :: j < k ==> !MarkerAt(s, j)
  {
    if k <= 0 then None
    else if MarkerAt(s, k - 1) then Some(k - 1)
    else LastMarkerBefore(s, k - 1)
  }

  /**
   * The entry filename a lock filename claims: the first group of a full match
   * of `(.*)\.sb-lock_.*`. The group is greedy, so it is everything before the
   * LAST occurrence of the marker; the whole name must be free of line
   * terminators, since `.` does not match them. None when the name does not
   * match, where the source throws IllegalArgumentException.
   */
  function ParseEntryFilename(lockFilename: string): (r: Option<string>)
    ensures r.Some? <==> SingleLine(lockFilename) && exists i :: MarkerAt(lockFilename, i)
    ensures r.Some? ==> |r.value| <= |lockFilename| && lockFilename[..|r.value|] == r.value
    ensures r.Some? ==> MarkerAt(lockFilename, |r.value|)
    ensures r.Some? ==> forall j :: |r.value| < j ==> !MarkerAt(lockFilename, j)
  {
    if !SingleLine(lockFilename) then None
    else
      match LastMarkerBefore(lockFilename, |lockFilename|)
      case None => None
      case Some(i) => Some(lockFilename[..i])
  }

  /** The full match of the lock filename pattern that listing applies. */
  predicate MatchesLockPattern(name: string)
  {
    ParseEntryFilename(name).Some?
  }

  /** The LockInfo constructor: the entry filename is parsed from the lock filename. */
  function NewLockInfo(lockFilename: string, contents: LockFileContents): (r: LockInfo)
    requires MatchesLockPattern(lockFilename)
    ensures r.lockFilename == lockFilename && r.contents == contents
    ensures |r.entryFilename| <= |lockFilename| && lockFilename[..|r.entryFilename|] == r.entryFilename
    ensures MarkerAt(lockFilename, |r.entryFilename|)
    ensures forall j :: |r.entryFilename| < j ==> !MarkerAt(lockFilename, j)
  {
    LockInfo(lockFilename, ParseEntryFilename(lockFilename).value, contents)
  }

  /** `Instant.ofEpochMilli(expiration).isBefore(now)`, with `now` in nanoseconds. */
  predicate ExpiredAt(contents: LockFileContents, now: int)
  {
    contents.expirationEpochMillis * NANOS_PER_MILLI < now
  }

  /** `now.plus(EXPIRATION_DURATION).toEpochMilli()`; the conversion rounds down. */
  function ExpirationMillis(now: int): (r: int)
    ensures r * NANOS_PER_MILLI <= now + EXPIRATION_NANOS < r * NANOS_PER_MILLI + NANOS_PER_MILLI
  {
    (now + EXPIRATION_NANOS) / NANOS_PER_MILLI
  }

  /**
   * A lock filename built from single-line parts matches the pattern, and the
   * marker written between the parts is a match of its literal.
   */
  lemma LockFilenameMatches(entry: string, queryId: string)
    ensures MarkerAt(LockFilename(entry, queryId), |entry|)
    ensures SingleLine(entry) && SingleLine(queryId) ==> MatchesLockPattern(LockFilename(entry, queryId))
  {
    var name := LockFilename(entry, queryId);
    assert name == entry + MARKER + queryId;
    var n := |entry|;
    assert name[n..n + |MARKER|] == MARKER;
    if SingleLine(entry) && SingleLine(queryId) {
      forall i | 0 <= i < |name| ensures !IsLineTerminator(name[i]) {
        if i < n {
          assert name[i] == entry[i];
        } else if i < n + |MARKER| {
          assert name[i] == MARKER[i - n];
        } else {
          assert name[i] == queryId[i - n - |MARKER|];
        }
      }
      assert SingleLine(name) && MarkerAt(name, n);
    }
  }

  /**
   * Building a lock filename and parsing it back yields the entry filename,
   * provided neither part contains a line terminator and the query id does not
   * itself contain the marker.
   */
  lemma LockFilenameRoundTrip(entry: string, queryId: string)
    requires SingleLine(entry) && SingleLine(queryId)
    requires forall i :: !MarkerAt(queryId, i)
    ensures ParseEntryFilename(LockFilename(entry, queryId)) == Some(entry)
  {
    LockFilenameMatches(entry, queryId);
    var name := LockFilename(entry, queryId);
    var n := |entry|;
    forall j | n < j ensures !MarkerAt(name, j) {
      NoMarkerAfter(entry, queryId, j);
    }
    var r := ParseEntryFilename(name);
    assert |r.value| == n;
    assert r.value == name[..n] == entry;
  }

  /** The marker has no '.' after its first character. */
  lemma MarkerTail(d: int)
    requires 0 < d < |MARKER|
    ensures MARKER[d] != '.'
  {
    assert MARKER == ".sb-lock_";
  }

  /** No marker of a lock filename starts after the one its parts are joined by, if the query id holds none. */
  lemma NoMarkerAfter(entry: string, queryId: string, j: int)
    requires forall i :: !MarkerAt(queryId, i)
    requires |entry| < j
    ensures !MarkerAt(LockFilename(entry, queryId), j)
  {
    var name := LockFilename(entry, queryId);
    var n := |entry|;
    var m := |MARKER|;
    assert name == entry + MARKER + queryId;
    if j + m <= |name| {
      if j < n + m {
        MarkerTail(j - n);
        assert name[j..j + m][0] == name[j] == MARKER[j - n];
      } else {
        var k := j - n - m;
        assert name[j..j + m] == queryId[k..k + m];
        assert !MarkerAt(queryId, k);
      }
    }
  }

  /**
   * A lock written at reading `now` is live for every reading up to five minutes
   * later, less the millisecond lost by rounding down, and expired for every
   * reading past five minutes.
   */
  lemma FreshLockLifetime(clusterId: string, queryId: string, now: int, t: int)
    ensures var c := LockFileContents(clusterId, queryId, ExpirationMillis(now));
      && (t <= now + EXPIRATION_NANOS - NANOS_PER_MILLI + 1 ==> !ExpiredAt(c, t))
      && (t > now + EXPIRATION_NANOS ==> ExpiredAt(c, t))
  {
    var x := now + EXPIRATION_NANOS;
    var e := x / NANOS_PER_MILLI;
    assert x == e * NANOS_PER_MILLI + x % NANOS_PER_MILLI;
    assert 0 <= x % NANOS_PER_MILLI < NANOS_PER_MILLI;
  }
}
