/** The object store as the ingestion code sees it: an object has a length, an ETag and a
    body, and a ranged GET returns a slice of the body. */
module ObjectStore {
  import opened Results
  import opened Text

  /** One object of the bucket. `faults` are the range starts at which a GET fails with a
      client error other than `InvalidRange` (a transient failure of the store). */
  datatype S3Object = S3Object(body: string, etag: string, faults: set<nat>)

  /** The answer to a HEAD request, as `getStations` distinguishes it. */
  datatype HeadResult = Found(etag: string) | NoSuchKey | HeadFailed

  /** `get_object(Range="bytes=first-last")`: the range is inclusive and clamped to the body;
      `None` for `InvalidRange` (start past the end) and for a transient failure. */
  function RangeGet(obj: S3Object, first: nat, last: nat): (r: Option<string>)
    requires first <= last
    ensures r.Some? <==> first !in obj.faults && first < |obj.body|
    ensures r.Some? ==> 0 < |r.value| <= last + 1 - first && first + |r.value| <= |obj.body|
    ensures r.Some? ==> r.value == obj.body[first..first + |r.value|]
    ensures r.Some? && last < |obj.body| ==> |r.value| == last + 1 - first
    ensures r.Some? && |obj.body| <= last ==> first + |r.value| == |obj.body|
  {
    if first in obj.faults || first >= |obj.body| then None
    else Some(obj.body[first..Min(last + 1, |obj.body|)])
  }

  /** The key of a year's CSV object: `f"{ghcn_path}{year}.csv"`. */
  function YearKey(path: string, year: int): string
  {
    path + IntToString(year) + ".csv"
  }
}
