/**
 Metadata updates. Each string attribute of an update request is tri-state:
 `None` leaves the attribute untouched, `Some([])` removes it and `Some(v)`
 sets it to `v`, so no attribute can be set to the empty string. The
 content type can never be removed. User metadata is updated key by key:
 keys the request does not mention keep their value, keys mapped to `None`
 are deleted and the others are set.
 */
module Updates {
  import opened Wrappers
  import opened ByteStrings
  import opened Requests
  import opened Create

  /** `updated` is what the tri-state field `f` makes of the attribute `current`. */
  predicate UpdatedAs(current: Option<Bytes>, f: Option<Bytes>, updated: Option<Bytes>) {
    && (f.None? ==> updated == current)
    && (f == Some([]) ==> updated.None?)
    && (f.Some? && f.value != [] ==> updated == f)
  }

  function ApplyField(current: Option<Bytes>, f: Option<Bytes>): (r: Option<Bytes>)
    ensures UpdatedAs(current, f, r)
    ensures r == Some([]) ==> current == Some([]) && f.None?
  {
    match f
    case None => current
    case Some(v) => if v == [] then None else Some(v)
  }

  function ApplyMetadata(m: map<Bytes, Bytes>, u: map<Bytes, Option<Bytes>>): (r: map<Bytes, Bytes>)
    ensures forall k :: k !in u ==> (k in r <==> k in m)
    ensures forall k :: k !in u && k in m ==> r[k] == m[k]
    ensures forall k :: k in u && u[k].None? ==> k !in r
    ensures forall k :: k in u && u[k].Some? ==> k in r && r[k] == u[k].value
  {
    map k | k in m.Keys + u.Keys && (k !in u || u[k].Some?) :: if k in u then u[k].value else m[k]
  }

  /** The request is well formed: it names an object and does not ask to remove the content type. */
  predicate IsValidUpdate(req: UpdateObjectRequest) {
    |req.name| > 0 && req.contentType != Some([])
  }

  /** The record of the object `req` names after the update. */
  function ApplyUpdate(rec: ObjectRecord, req: UpdateObjectRequest): (r: ObjectRecord)
    requires IsValidUpdate(req) && req.name == rec.name
    ensures r.name == rec.name && r.generation == rec.generation
    ensures UpdatedAs(rec.contentType, req.contentType, r.contentType)
    ensures UpdatedAs(rec.contentEncoding, req.contentEncoding, r.contentEncoding)
    ensures UpdatedAs(rec.contentLanguage, req.contentLanguage, r.contentLanguage)
    ensures UpdatedAs(rec.cacheControl, req.cacheControl, r.cacheControl)
    ensures r.metadata == ApplyMetadata(rec.metadata, req.metadata)
    ensures rec.contentType.Some? ==> r.contentType.Some?
    ensures HasNoEmptyAttribute(rec) ==> HasNoEmptyAttribute(r)
  {
    rec.(
      contentType := ApplyField(rec.contentType, req.contentType),
      contentEncoding := ApplyField(rec.contentEncoding, req.contentEncoding),
      contentLanguage := ApplyField(rec.contentLanguage, req.contentLanguage),
      cacheControl := ApplyField(rec.cacheControl, req.cacheControl),
      metadata := ApplyMetadata(rec.metadata, req.metadata))
  }

  /** The later of two tri-state fields: the second wins unless it leaves the attribute alone. */
  function Later(f1: Option<Bytes>, f2: Option<Bytes>): Option<Bytes> {
    if f2.Some? then f2 else f1
  }

  /** The single update with the effect of `q1` followed by `q2`. */
  function Compose(q1: UpdateObjectRequest, q2: UpdateObjectRequest): (q: UpdateObjectRequest)
    requires q1.name == q2.name
    ensures IsValidUpdate(q1) && IsValidUpdate(q2) ==> IsValidUpdate(q)
    ensures q1 == q2 ==> q == q1
  {
    UpdateObjectRequest(
      q1.name,
      Later(q1.contentType, q2.contentType),
      Later(q1.contentEncoding, q2.contentEncoding),
      Later(q1.contentLanguage, q2.contentLanguage),
      Later(q1.cacheControl, q2.cacheControl),
      q1.metadata + q2.metadata)
  }

  lemma ApplyFieldCompose(current: Option<Bytes>, f1: Option<Bytes>, f2: Option<Bytes>)
    ensures ApplyField(ApplyField(current, f1), f2) == ApplyField(current, Later(f1, f2))
  {
  }

  lemma ApplyMetadataCompose(m: map<Bytes, Bytes>, u1: map<Bytes, Option<Bytes>>, u2: map<Bytes, Option<Bytes>>)
    ensures ApplyMetadata(ApplyMetadata(m, u1), u2) == ApplyMetadata(m, u1 + u2)
  {
  }

  /** Applying two updates one after the other is applying their composition once. */
  lemma UpdateCompose(rec: ObjectRecord, q1: UpdateObjectRequest, q2: UpdateObjectRequest)
    requires IsValidUpdate(q1) && IsValidUpdate(q2) && q1.name == rec.name && q2.name == rec.name
    ensures ApplyUpdate(ApplyUpdate(rec, q1), q2) == ApplyUpdate(rec, Compose(q1, q2))
  {
    ApplyFieldCompose(rec.contentType, q1.contentType, q2.contentType);
    ApplyFieldCompose(rec.contentEncoding, q1.contentEncoding, q2.contentEncoding);
    ApplyFieldCompose(rec.contentLanguage, q1.contentLanguage, q2.contentLanguage);
    ApplyFieldCompose(rec.cacheControl, q1.cacheControl, q2.cacheControl);
    ApplyMetadataCompose(rec.metadata, q1.metadata, q2.metadata);
  }

  /** Repeating an update changes nothing further. */
  lemma UpdateIdempotent(rec: ObjectRecord, req: UpdateObjectRequest)
    requires IsValidUpdate(req) && req.name == rec.name
    ensures ApplyUpdate(ApplyUpdate(rec, req), req) == ApplyUpdate(rec, req)
  {
  }

  /**
   A create stores the same record as an update that gives each of the
   create's attributes and metadata entries to an object of that name that
   has none yet: the create's "empty means not given" and the update's
   "empty means remove" agree on a record with no attributes.
   */
  lemma CreateIsUpdateOfBlank(req: CreateObjectRequest, gen: Generation)
    requires IsValidCreateRequest(req)
    ensures
      var blank := ObjectRecord(req.name, gen, None, None, None, None, map[]);
      var u := UpdateObjectRequest(
        req.name,
        if req.contentType == [] then None else Some(req.contentType),
        Some(req.contentEncoding),
        Some(req.contentLanguage),
        Some(req.cacheControl),
        map k | k in req.metadata :: Some(req.metadata[k]));
      IsValidUpdate(u) && ApplyUpdate(blank, u) == NewRecord(req, gen)
  {
    var u := UpdateObjectRequest(
      req.name,
      if req.contentType == [] then None else Some(req.contentType),
      Some(req.contentEncoding),
      Some(req.contentLanguage),
      Some(req.cacheControl),
      map k | k in req.metadata :: Some(req.metadata[k]));
    assert ApplyMetadata(map[], u.metadata) == req.metadata;
  }
}
