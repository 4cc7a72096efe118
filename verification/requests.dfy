/**
 The request and result values of the storage abstraction. Go's `*T` fields
 become `Option<T>`, Go strings become byte strings, and the object contents
 stream of a create request is left out.
 */
module Requests {
  import opened Wrappers
  import opened ByteStrings

  /** Go's `int64`. */
  type Int64 = x: int | -0x8000_0000_0000_0000 <= x < 0x8000_0000_0000_0000

  /** The generation of a stored object. Zero is reserved: it stands for "no object" in a
      create precondition and for "the latest generation" in a read request. */
  type Generation = g: Int64 | g != 0 witness 1

  /** The object fields the requests below create, read, list and update. An attribute the
      object does not have is `None`. */
  datatype ObjectRecord = ObjectRecord(
    name: Bytes,
    generation: Generation,
    contentType: Option<Bytes>,
    contentLanguage: Option<Bytes>,
    contentEncoding: Option<Bytes>,
    cacheControl: Option<Bytes>,
    metadata: map<Bytes, Bytes>)

  /** A request to create an object. An empty attribute string means "not given". */
  datatype CreateObjectRequest = CreateObjectRequest(
    name: Bytes,
    contentType: Bytes,
    contentLanguage: Bytes,
    contentEncoding: Bytes,
    cacheControl: Bytes,
    metadata: map<Bytes, Bytes>,
    generationPrecondition: Option<Int64>)

  /** A request to read an object at a generation; generation zero means the latest one. */
  datatype ReadObjectRequest = ReadObjectRequest(name: Bytes, generation: Int64)

  datatype StatObjectRequest = StatObjectRequest(name: Bytes)

  /** A listing request. An empty delimiter disables collapsing; a zero `maxResults`
      leaves the bound to the service. */
  datatype ListObjectsRequest = ListObjectsRequest(
    prefix: Bytes,
    delimiter: Bytes,
    continuationToken: Bytes,
    maxResults: nat)

  /** One page of a listing. A non-empty continuation token means there is more to fetch. */
  datatype Listing = Listing(
    objects: seq<ObjectRecord>,
    collapsedRuns: seq<Bytes>,
    continuationToken: Bytes)

  /** A metadata update. For each attribute, `None` leaves it alone, `Some([])` removes it
      and any other `Some(v)` sets it; a metadata key mapped to `None` is deleted. */
  datatype UpdateObjectRequest = UpdateObjectRequest(
    name: Bytes,
    contentType: Option<Bytes>,
    contentEncoding: Option<Bytes>,
    contentLanguage: Option<Bytes>,
    cacheControl: Option<Bytes>,
    metadata: map<Bytes, Option<Bytes>>)
}
