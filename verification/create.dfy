/**
 Creating an object: which requests are acceptable, when the generation
 precondition lets the write through, and the record a successful create
 leaves behind.
 */
module Create {
  import opened Wrappers
  import opened ByteStrings
  import opened ObjectNames
  import opened Requests
  import opened Read

  /** The request names its object by a valid object name. */
  predicate IsValidCreateRequest(req: CreateObjectRequest) {
    IsValidName(req.name)
  }

  /**
   Whether a write with precondition `pre` may proceed when the name's current
   generation is `live` (`None` when no object has the name). A precondition
   of zero asks for the name to be unused.
   */
  function CreatePermitted(pre: Option<Int64>, live: Option<Generation>): (ok: bool)
    ensures pre.None? ==> ok
    ensures pre == Some(0) ==> (ok <==> live.None?)
    ensures pre.Some? && pre.value != 0 ==> (ok <==> live.Some? && live.value == pre.value)
  {
    match pre
    case None => true
    case Some(g) => g == (if live.None? then 0 else live.value)
  }

  /**
   The generation left live by a create, or `None` when the create fails:
   because the name breaks the object-name rules or because the precondition
   does not hold. `newGeneration` is the generation the service assigns to the
   new object; generations are assigned in increasing order, so an overwrite
   produces a generation greater than the one it replaces.
   */
  function CreateGeneration(req: CreateObjectRequest, live: Option<Generation>, newGeneration: Generation): (r: Option<Generation>)
    requires live.None? || newGeneration > live.value
    ensures r.Some? <==> IsValidName(req.name) && CreatePermitted(req.generationPrecondition, live)
    ensures r.Some? ==> r.value == newGeneration
    ensures r.Some? && req.generationPrecondition.Some? ==> !CreatePermitted(req.generationPrecondition, r)
  {
    if IsValidCreateRequest(req) && CreatePermitted(req.generationPrecondition, live) then Some(newGeneration) else None
  }

  /** The attribute a create request gives: the empty string gives none. */
  function GivenAttribute(v: Bytes): (r: Option<Bytes>)
    ensures r.None? <==> v == []
    ensures r.Some? ==> r.value == v
  {
    if v == [] then None else Some(v)
  }

  /** No string attribute of `r` is present with the empty string. */
  predicate HasNoEmptyAttribute(r: ObjectRecord) {
    && r.contentType != Some([])
    && r.contentLanguage != Some([])
    && r.contentEncoding != Some([])
    && r.cacheControl != Some([])
  }

  /**
   The record of the object a successful create makes, at generation `gen`.
   Each attribute the request gives is stored as given; an empty one is not
   given, so the record has no attribute holding the empty string.
   */
  function NewRecord(req: CreateObjectRequest, gen: Generation): (r: ObjectRecord)
    requires IsValidCreateRequest(req)
    ensures IsValidName(r.name)
    ensures r.name == req.name && r.generation == gen && r.metadata == req.metadata
    ensures HasNoEmptyAttribute(r)
    ensures r.contentType.Some? <==> req.contentType != []
    ensures r.contentLanguage.Some? <==> req.contentLanguage != []
    ensures r.contentEncoding.Some? <==> req.contentEncoding != []
    ensures r.cacheControl.Some? <==> req.cacheControl != []
    ensures req.contentType != [] ==> r.contentType == Some(req.contentType)
    ensures req.contentLanguage != [] ==> r.contentLanguage == Some(req.contentLanguage)
    ensures req.contentEncoding != [] ==> r.contentEncoding == Some(req.contentEncoding)
    ensures req.cacheControl != [] ==> r.cacheControl == Some(req.cacheControl)
  {
    ObjectRecord(
      req.name, gen,
      GivenAttribute(req.contentType),
      GivenAttribute(req.contentLanguage),
      GivenAttribute(req.contentEncoding),
      GivenAttribute(req.cacheControl),
      req.metadata)
  }

  /** The generation of a name that is live over the stored generations `stored`. */
  function LiveGeneration(stored: seq<Generation>): Option<Generation> {
    if |stored| == 0 then None else Some(Latest(stored))
  }

  /**
   After a create succeeds, a read of generation zero finds the new
   generation, and so does a read naming it: the new object is the latest.
   */
  lemma {:induction false} CreateThenRead(req: CreateObjectRequest, stored: seq<Generation>, newGeneration: Generation)
    requires forall g :: g in stored ==> g < newGeneration
    requires IsValidCreateRequest(req)
    requires CreatePermitted(req.generationPrecondition, LiveGeneration(stored))
    ensures CreateGeneration(req, LiveGeneration(stored), newGeneration) == Some(newGeneration)
    ensures ResolveRead(ReadObjectRequest(req.name, 0), stored + [newGeneration]) == Some(newGeneration)
    ensures ResolveRead(ReadObjectRequest(req.name, newGeneration), stored + [newGeneration]) == Some(newGeneration)
  {
    var after := stored + [newGeneration];
    var r := ResolveRead(ReadObjectRequest(req.name, 0), after);
    assert newGeneration in after by { assert after[|stored|] == newGeneration; }
    assert newGeneration <= r.value;
  }

  /** A create whose name breaks the object-name rules never succeeds, whatever its precondition. */
  lemma InvalidNameNotCreated(req: CreateObjectRequest, live: Option<Generation>, newGeneration: Generation)
    requires live.None? || newGeneration > live.value
    requires !IsValidName(req.name)
    ensures CreateGeneration(req, live, newGeneration).None?
  {
  }
}
