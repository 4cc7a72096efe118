/** Which stored generation a read request designates. */
module Read {
  import opened Wrappers
  import opened Requests

  /** The newest of the given generations. */
  function Latest(gens: seq<Generation>): (g: Generation)
    requires |gens| > 0
    ensures g in gens
    ensures forall x :: x in gens ==> x <= g
  {
    if |gens| == 1 then gens[0]
    else
      var rest := Latest(gens[1..]);
      assert gens == [gens[0]] + gens[1..];
      if gens[0] >= rest then gens[0] else rest
  }

  /**
   The generation `req` reads when the bucket holds the generations `stored`
   of the object's name, or `None` when there is nothing to read.
   */
  function ResolveRead(req: ReadObjectRequest, stored: seq<Generation>): (r: Option<Generation>)
    ensures r.Some? ==> r.value in stored
    ensures req.generation == 0 ==> (r.Some? <==> |stored| > 0)
    ensures req.generation == 0 && r.Some? ==> forall g :: g in stored ==> g <= r.value
    ensures req.generation != 0 ==> (r.Some? <==> req.generation in stored)
    ensures req.generation != 0 && r.Some? ==> r.value == req.generation
  {
    if req.generation == 0 then
      if |stored| == 0 then None else Some(Latest(stored))
    else if req.generation in stored then Some(req.generation)
    else None
  }
}
