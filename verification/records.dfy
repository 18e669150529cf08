/** The per-object metadata record and the newest-first order the index keeps its records in. */
module Records {

  /** Metadata of one stored object: its name (also its file name in the storage directory), the
      time of its last write (a `DateTime` reduced to an integer tick count) and its length in bytes. */
  datatype ObjectIndex = ObjectIndex(name: string, lastModifiedUtc: int, fileSize: int)

  /** `x.CompareTo(y)` on timestamps: negative, zero or positive as `x` is earlier, equal or later. */
  function CompareTo(x: int, y: int): int
  {
    if x < y then -1 else if x > y then 1 else 0
  }

  /** The index's comparer: the timestamp comparison negated, so that a NEWER record compares as
      smaller and therefore sorts first. */
  function LastModCmp(a: ObjectIndex, b: ObjectIndex): (r: int)
    ensures r < 0 <==> a.lastModifiedUtc > b.lastModifiedUtc
    ensures r == 0 <==> a.lastModifiedUtc == b.lastModifiedUtc
    ensures r > 0 <==> a.lastModifiedUtc < b.lastModifiedUtc
  {
    -CompareTo(a.lastModifiedUtc, b.lastModifiedUtc)
  }

  /** The order of the index list: no record is older than a record after it. */
  predicate SortedNewestFirst(s: seq<ObjectIndex>)
  {
    forall i, j :: 0 <= i < j < |s| ==> s[i].lastModifiedUtc >= s[j].lastModifiedUtc
  }

  /** No two positions of `s` hold records with the same name. */
  predicate UniqueNames(s: seq<ObjectIndex>)
  {
    forall i, j :: 0 <= i < j < |s| ==> s[i].name != s[j].name
  }

  /** The names of the records in `s`. */
  function Names(s: seq<ObjectIndex>): set<string>
  {
    set x | x in s :: x.name
  }
}
