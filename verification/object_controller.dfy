/** The listing action of the object controller: a pure filter over the index's newest-first
    list, chaining `SkipWhile`, `TakeWhile` and `Take` exactly as the action does. */
module ObjectController {
  import opened Wrappers
  import opened Records
  import opened Linq
  import opened ObjectIndexer

  /** The most records one listing returns. */
  const MAX_NENTRY: nat := 20

  /** The optional `since` and `until` query parameters, as timestamps. */
  datatype GetRangeParams = GetRangeParams(since: Option<int>, until: Option<int>)

  /** `d` is how many leading records `SkipWhile(x => x.LastModifiedUtc < since)` drops: none
      without `since`, otherwise the longest leading run older than `since`. */
  ghost predicate SkipsOlderThan(s: seq<ObjectIndex>, since: Option<int>, d: int)
  {
    && 0 <= d <= |s|
    && match since
       case None => d == 0
       case Some(t) =>
         && (forall i :: 0 <= i < d ==> s[i].lastModifiedUtc < t)
         && (d < |s| ==> s[d].lastModifiedUtc >= t)
  }

  /** `r` is the run of `s` that starts at position `d`. */
  ghost predicate IsRunAt(s: seq<ObjectIndex>, r: seq<ObjectIndex>, d: int)
  {
    0 <= d && d + |r| <= |s| && r == s[d..d + |r|]
  }

  /** Dropping a prefix and then keeping prefixes twice leaves a run of the original list. */
  lemma PrefixOfSuffixIsRun(s: seq<ObjectIndex>, skipped: seq<ObjectIndex>, taken: seq<ObjectIndex>, r: seq<ObjectIndex>)
    requires |skipped| <= |s| && skipped == s[|s| - |skipped|..]
    requires |taken| <= |skipped| && taken == skipped[..|taken|]
    requires |r| <= |taken| && r == taken[..|r|]
    ensures IsRunAt(s, r, |s| - |skipped|)
  {
  }

  /** The `since` stage of the listing: `SkipWhile(x => x.LastModifiedUtc < since)` when
      `since` is given, the whole list otherwise. */
  function SkipSince(s: seq<ObjectIndex>, since: Option<int>): (r: seq<ObjectIndex>)
    ensures |r| <= |s| && r == s[|s| - |r|..]
    ensures SkipsOlderThan(s, since, |s| - |r|)
  {
    match since
    case None => s
    case Some(t) => SkipWhile(s, (x: ObjectIndex) => x.lastModifiedUtc < t)
  }

  /** The `until` stage of the listing: `TakeWhile(x => x.LastModifiedUtc <= until)` when
      `until` is given, the whole list otherwise. */
  function TakeUntil(s: seq<ObjectIndex>, until: Option<int>): (r: seq<ObjectIndex>)
    ensures |r| <= |s| && r == s[..|r|]
    ensures until.Some? ==> forall i :: 0 <= i < |r| ==> r[i].lastModifiedUtc <= until.value
    ensures |r| < |s| ==> until.Some? && s[|r|].lastModifiedUtc > until.value
  {
    match until
    case None => s
    case Some(t) => TakeWhile(s, (x: ObjectIndex) => x.lastModifiedUtc <= t)
  }

  /** `Get(GetRangeParams)`: the listing as the action computes it. The result is a contiguous
      run of the index list starting after the skipped prefix, at most `MAX_NENTRY` long; with
      `until` every returned record is no newer than `until`; and the run only ends at the limit,
      at the end of the list, or at the first record newer than `until`. */
  function Get(ix: Indexer, rng: GetRangeParams): (r: seq<ObjectIndex>)
    ensures |r| <= MAX_NENTRY
    ensures rng.since.Some? && r != [] ==> r[0].lastModifiedUtc >= rng.since.value
    ensures rng.until.Some? ==> forall i :: 0 <= i < |r| ==> r[i].lastModifiedUtc <= rng.until.value
    ensures exists d :: ListedRunAt(ix.idxs, rng, r, d)
  {
    var s := ix.idxs;
    var skipped := SkipSince(s, rng.since);
    var taken := TakeUntil(skipped, rng.until);
    var r := Take(taken, MAX_NENTRY);
    GetStopsForAReason(s, rng, skipped, taken, r);
    r
  }

  /** `r` is the run of `s` after the records `since` skips (`d` of them), and it ends only at
      the limit, at the end of the list, or before a record newer than `until`. */
  ghost predicate ListedRunAt(s: seq<ObjectIndex>, rng: GetRangeParams, r: seq<ObjectIndex>, d: int)
  {
    && SkipsOlderThan(s, rng.since, d)
    && IsRunAt(s, r, d)
    && (|r| == MAX_NENTRY || d + |r| == |s|
        || (rng.until.Some? && s[d + |r|].lastModifiedUtc > rng.until.value))
  }

  /** The three stages of the listing produce a run as `ListedRunAt` describes. */
  lemma GetStopsForAReason(s: seq<ObjectIndex>, rng: GetRangeParams, skipped: seq<ObjectIndex>, taken: seq<ObjectIndex>, r: seq<ObjectIndex>)
    requires skipped == SkipSince(s, rng.since)
    requires taken == TakeUntil(skipped, rng.until)
    requires r == Take(taken, MAX_NENTRY)
    ensures ListedRunAt(s, rng, r, |s| - |skipped|)
  {
    var d := |s| - |skipped|;
    PrefixOfSuffixIsRun(s, skipped, taken, r);
    if |r| < MAX_NENTRY && d + |r| < |s| {
      assert r == taken && |taken| < |skipped|;
      assert s[d + |r|] == skipped[|taken|];
    }
  }

  /** Without `since` and `until` the listing is the newest `MAX_NENTRY` records, or all of them. */
  lemma GetUnboundedIsNewestRecords(ix: Indexer)
    ensures var r := Get(ix, GetRangeParams(None, None));
            r == ix.idxs[..if |ix.idxs| < MAX_NENTRY then |ix.idxs| else MAX_NENTRY]
  {
  }

  /** On a newest-first list the `since` stage drops nothing or everything. */
  lemma SkipSinceOnNewestFirst(s: seq<ObjectIndex>, since: Option<int>)
    requires SortedNewestFirst(s)
    ensures SkipSince(s, since) == [] || SkipSince(s, since) == s
  {
    var d := |s| - |SkipSince(s, since)|;
    if 0 < d < |s| {
      assert false;
    }
  }

  /** On a newest-first list the `until` stage keeps nothing or everything. */
  lemma TakeUntilOnNewestFirst(s: seq<ObjectIndex>, until: Option<int>)
    requires SortedNewestFirst(s)
    ensures TakeUntil(s, until) == [] || TakeUntil(s, until) == s
  {
    var n := |TakeUntil(s, until)|;
    if 0 < n < |s| {
      assert false;
    }
  }

  /** On the newest-first list the two bounds act all-or-nothing: the listing is either empty or
      the same as with no bounds at all. */
  lemma GetOnNewestFirstIsAllOrNothing(ix: Indexer, rng: GetRangeParams)
    requires SortedNewestFirst(ix.idxs)
    ensures Get(ix, rng) == [] || Get(ix, rng) == Get(ix, GetRangeParams(None, None))
  {
    var s := ix.idxs;
    SkipSinceOnNewestFirst(s, rng.since);
    var skipped := SkipSince(s, rng.since);
    if skipped == s {
      TakeUntilOnNewestFirst(s, rng.until);
    }
    assert Get(ix, GetRangeParams(None, None)) == Take(s, MAX_NENTRY);
  }

  /** `r` is the run of `s` starting at `d`, and nothing before it lies in the window: the
      listing starts from the newest end of the window. */
  ghost predicate WindowRunAt(s: seq<ObjectIndex>, rng: GetRangeParams, r: seq<ObjectIndex>, d: int)
  {
    && IsRunAt(s, r, d)
    && forall j :: 0 <= j < d ==> !InWindow(s[j], rng)
  }

  /** The evident intent of the bounds: `since <= LastModifiedUtc <= until`, each bound only
      when given. */
  predicate InWindow(x: ObjectIndex, rng: GetRangeParams)
  {
    && (rng.since.Some? ==> rng.since.value <= x.lastModifiedUtc)
    && (rng.until.Some? ==> x.lastModifiedUtc <= rng.until.value)
  }

  /** The corrected `until` stage: `SkipWhile(x => x.LastModifiedUtc > until)` when `until` is
      given, the whole list otherwise. */
  function SkipNewerThan(s: seq<ObjectIndex>, until: Option<int>): (r: seq<ObjectIndex>)
    ensures |r| <= |s| && r == s[|s| - |r|..]
    ensures forall i :: 0 <= i < |s| - |r| ==> until.Some? && s[i].lastModifiedUtc > until.value
    ensures r != [] && until.Some? ==> r[0].lastModifiedUtc <= until.value
  {
    match until
    case None => s
    case Some(t) => SkipWhile(s, (x: ObjectIndex) => x.lastModifiedUtc > t)
  }

  /** The corrected `since` stage: `TakeWhile(x => x.LastModifiedUtc >= since)` when `since` is
      given, the whole list otherwise. */
  function TakeNotOlderThan(s: seq<ObjectIndex>, since: Option<int>): (r: seq<ObjectIndex>)
    ensures |r| <= |s| && r == s[..|r|]
    ensures since.Some? ==> forall i :: 0 <= i < |r| ==> r[i].lastModifiedUtc >= since.value
    ensures |r| < |s| ==> since.Some? && s[|r|].lastModifiedUtc < since.value
  {
    match since
    case None => s
    case Some(t) => TakeWhile(s, (x: ObjectIndex) => x.lastModifiedUtc >= t)
  }

  /** The listing with its stages turned to face a newest-first list: skip the records newer
      than `until`, then keep those no older than `since`, then take at most `MAX_NENTRY`.
      The result is a run of the list with no window record before it, so the records listed
      are the newest ones in the window; on a newest-first list every returned record lies in
      the window and nothing in the window is missed unless the limit was reached. */
  function GetWindow(ix: Indexer, rng: GetRangeParams): (r: seq<ObjectIndex>)
    ensures |r| <= MAX_NENTRY
    ensures exists d :: WindowRunAt(ix.idxs, rng, r, d)
    ensures SortedNewestFirst(ix.idxs) ==> forall i :: 0 <= i < |r| ==> InWindow(r[i], rng)
    ensures SortedNewestFirst(ix.idxs) && |r| < MAX_NENTRY ==>
              forall x :: x in ix.idxs && InWindow(x, rng) ==> x in r
  {
    var s := ix.idxs;
    var skipped := SkipNewerThan(s, rng.until);
    var taken := TakeNotOlderThan(skipped, rng.since);
    var r := Take(taken, MAX_NENTRY);
    PrefixOfSuffixIsRun(s, skipped, taken, r);
    assert WindowRunAt(s, rng, r, |s| - |skipped|);
    if SortedNewestFirst(s) then
      WindowStagesKeepOnlyWindow(s, rng, skipped, taken);
      WindowStagesMissNothing(s, rng, skipped, taken);
      r
    else
      r
  }

  /** On a newest-first list, the corrected stages keep only records in the window ... */
  lemma WindowStagesKeepOnlyWindow(s: seq<ObjectIndex>, rng: GetRangeParams, skipped: seq<ObjectIndex>, taken: seq<ObjectIndex>)
    requires SortedNewestFirst(s)
    requires skipped == SkipNewerThan(s, rng.until)
    requires taken == TakeNotOlderThan(skipped, rng.since)
    ensures forall i :: 0 <= i < |taken| ==> InWindow(taken[i], rng)
  {
    var d := |s| - |skipped|;
    forall i | 0 <= i < |taken|
      ensures InWindow(taken[i], rng)
    {
      assert taken[i] == skipped[i] == s[d + i];
      if rng.until.Some? {
        assert skipped[0] == s[d];
        assert s[d].lastModifiedUtc >= s[d + i].lastModifiedUtc;
      }
    }
  }

  /** ... and every record in the window. */
  lemma WindowStagesMissNothing(s: seq<ObjectIndex>, rng: GetRangeParams, skipped: seq<ObjectIndex>, taken: seq<ObjectIndex>)
    requires SortedNewestFirst(s)
    requires skipped == SkipNewerThan(s, rng.until)
    requires taken == TakeNotOlderThan(skipped, rng.since)
    ensures forall x :: x in s && InWindow(x, rng) ==> x in taken
  {
    var d, m := |s| - |skipped|, |taken|;
    forall x | x in s && InWindow(x, rng)
      ensures x in taken
    {
      var k :| 0 <= k < |s| && s[k] == x;
      if k < d {
        assert false;
      }
      if d + m <= k {
        assert false;
      }
      assert taken[k - d] == x;
    }
  }

  /** A newest-first index with records at times 10 and 5. */
  function TwoRecordIndex(): (ix: Indexer)
    ensures Valid(ix)
  {
    var newer, older := ObjectIndex("b", 10, 0), ObjectIndex("a", 5, 0);
    Indexer([newer, older], map["b" := newer, "a" := older])
  }

  /** Listing `TwoRecordIndex` with `until` = 7: the record at time 5 lies in the window, yet the
      action returns nothing, while `GetWindow` returns it. */
  lemma GetMissesRecordInWindow()
    ensures var rng := GetRangeParams(None, Some(7));
            && InWindow(TwoRecordIndex().idxs[1], rng)
            && Get(TwoRecordIndex(), rng) == []
            && GetWindow(TwoRecordIndex(), rng) == [TwoRecordIndex().idxs[1]]
  {
    var ix, rng := TwoRecordIndex(), GetRangeParams(None, Some(7));
    var s := ix.idxs;
    assert SkipSince(s, rng.since) == s;
    assert TakeUntil(s, rng.until) == [];
    assert SkipNewerThan(s, rng.until) == [s[1]];
    assert TakeNotOlderThan([s[1]], rng.since) == [s[1]];
  }
}
