/**
 Listing semantics: how a name is reported under a prefix and a delimiter,
 what a single page guarantees, and what the continuation guarantee between
 consecutive pages gives for a whole listing session.
 */
module Listings {
  import opened Wrappers
  import opened ByteStrings
  import opened Requests

  /** How one matching name shows up in a listing. */
  datatype Entry = ObjectEntry(name: Bytes) | CollapsedEntry(run: Bytes)

  /**
   `run` has the form `<prefix><S><delimiter>` and is the shortest such form:
   after the prefix the delimiter occurs only at the end. In particular `S`
   itself does not contain the delimiter.
   */
  predicate IsCollapsedRun(prefix: Bytes, delimiter: Bytes, run: Bytes) {
    && |delimiter| > 0
    && IsPrefix(prefix, run)
    && |run| >= |prefix| + |delimiter|
    && IsSuffix(delimiter, run)
    && !Contains(run[|prefix|..|run| - 1], delimiter)
  }

  /**
   The entry a listing with `prefix` and `delimiter` reports for an object
   called `name`: nothing when the name lacks the prefix, the object itself
   when collapsing is off or no delimiter follows the prefix, and otherwise
   the name up to and including the first delimiter after the prefix.
   */
  function Classify(prefix: Bytes, delimiter: Bytes, name: Bytes): (r: Option<Entry>)
    ensures r.None? <==> !IsPrefix(prefix, name)
    ensures r.Some? && |delimiter| == 0 ==> r == Some(ObjectEntry(name))
    ensures r.Some? && r.value.ObjectEntry? ==> r.value.name == name
    ensures r.Some? && r.value.ObjectEntry? && |delimiter| > 0 ==> !Contains(name[|prefix|..], delimiter)
    ensures r.Some? && r.value.CollapsedEntry? ==>
      IsCollapsedRun(prefix, delimiter, r.value.run) && IsPrefix(r.value.run, name)
  {
    if !IsPrefix(prefix, name) then None
    else if |delimiter| == 0 then Some(ObjectEntry(name))
    else
      var rest := name[|prefix|..];
      match Find(delimiter, rest)
      case None => Some(ObjectEntry(name))
      case Some(i) =>
        var run := name[..|prefix| + i + |delimiter|];
        assert IsSuffix(delimiter, run) by {
          assert run[|run| - |delimiter|..] == rest[i..i + |delimiter|];
        }
        assert !Contains(run[|prefix|..|run| - 1], delimiter) by {
          assert run[|prefix|..|run| - 1] == rest[..i + |delimiter| - 1];
          FirstOccurrenceEndsPrefix(delimiter, rest, i);
        }
        Some(CollapsedEntry(run))
  }

  /** A name is reported as itself exactly when it has the prefix and no delimiter follows the prefix. */
  lemma ClassifyObjectIff(prefix: Bytes, delimiter: Bytes, name: Bytes)
    ensures Classify(prefix, delimiter, name) == Some(ObjectEntry(name)) <==>
      IsPrefix(prefix, name) && (|delimiter| == 0 || !Contains(name[|prefix|..], delimiter))
  {
  }

  /** A name is collapsed into `run` exactly when `run` is a collapsed run that begins the name. */
  lemma ClassifyCollapsedIff(prefix: Bytes, delimiter: Bytes, name: Bytes, run: Bytes)
    ensures Classify(prefix, delimiter, name) == Some(CollapsedEntry(run)) <==>
      IsCollapsedRun(prefix, delimiter, run) && IsPrefix(run, name)
  {
    if IsCollapsedRun(prefix, delimiter, run) && IsPrefix(run, name) {
      var rest := name[|prefix|..];
      var at := |run| - |prefix| - |delimiter|;
      assert OccursAt(delimiter, rest, at) by {
        assert rest[at..at + |delimiter|] == run[|run| - |delimiter|..];
      }
      assert run[|prefix|..|run| - 1] == rest[..at + |delimiter| - 1];
      NoOccurrenceBefore(delimiter, rest, at);
      assert Find(delimiter, rest) == Some(at);
    }
  }

  /** Every name of the form `<prefix><S><delimiter><...>` collapses to `<prefix><S><delimiter>`. */
  lemma CollapsedRunCoversItsNames(prefix: Bytes, delimiter: Bytes, run: Bytes, tail: Bytes)
    requires IsCollapsedRun(prefix, delimiter, run)
    ensures Classify(prefix, delimiter, run + tail) == Some(CollapsedEntry(run))
  {
    assert (run + tail)[..|run|] == run;
    ClassifyCollapsedIff(prefix, delimiter, run + tail, run);
  }

  /** Strict lexicographic order on (name, generation) pairs. */
  predicate ObjectLess(a: ObjectRecord, b: ObjectRecord) {
    LexLess(a.name, b.name) || (a.name == b.name && a.generation < b.generation)
  }

  lemma ObjectLessTransitive(a: ObjectRecord, b: ObjectRecord, c: ObjectRecord)
    requires ObjectLess(a, b) && ObjectLess(b, c)
    ensures ObjectLess(a, c)
  {
    if LexLess(a.name, b.name) && LexLess(b.name, c.name) {
      LexLessTransitive(a.name, b.name, c.name);
    }
  }

  predicate ObjectsIncreasing(objects: seq<ObjectRecord>) {
    forall i, j :: 0 <= i < j < |objects| ==> ObjectLess(objects[i], objects[j])
  }

  predicate RunsIncreasing(runs: seq<Bytes>) {
    forall i, j :: 0 <= i < j < |runs| ==> LexLess(runs[i], runs[j])
  }

  /** A non-zero `maxResults` bounds the objects and collapsed runs of a page together. */
  predicate WithinMaxResults(l: Listing, maxResults: nat) {
    maxResults != 0 ==> |l.objects| + |l.collapsedRuns| <= maxResults
  }

  /** What a page promises about itself for the request that produced it. */
  predicate ConformsTo(req: ListObjectsRequest, l: Listing) {
    && ObjectsIncreasing(l.objects)
    && RunsIncreasing(l.collapsedRuns)
    && WithinMaxResults(l, req.maxResults)
    && (forall i :: 0 <= i < |l.objects| ==>
          Classify(req.prefix, req.delimiter, l.objects[i].name) == Some(ObjectEntry(l.objects[i].name)))
    && (forall i :: 0 <= i < |l.collapsedRuns| ==> IsCollapsedRun(req.prefix, req.delimiter, l.collapsedRuns[i]))
  }

  /** Decides the object ordering guarantee of a page by comparing neighbours only. */
  method CheckObjectsIncreasing(objects: seq<ObjectRecord>) returns (ok: bool)
    ensures ok <==> ObjectsIncreasing(objects)
  {
    if |objects| < 2 {
      return true;
    }
    var i := 1;
    while i < |objects|
      invariant 1 <= i <= |objects|
      invariant ObjectsIncreasing(objects[..i])
    {
      if !ObjectLess(objects[i - 1], objects[i]) {
        return false;
      }
      forall k | 0 <= k < i - 1
        ensures ObjectLess(objects[k], objects[i])
      {
        assert objects[..i][k] == objects[k] && objects[..i][i - 1] == objects[i - 1];
        ObjectLessTransitive(objects[k], objects[i - 1], objects[i]);
      }
      i := i + 1;
    }
    assert objects[..i] == objects;
    return true;
  }

  /** Decides the collapsed-run ordering guarantee of a page by comparing neighbours only. */
  method CheckRunsIncreasing(runs: seq<Bytes>) returns (ok: bool)
    ensures ok <==> RunsIncreasing(runs)
  {
    if |runs| < 2 {
      return true;
    }
    var i := 1;
    while i < |runs|
      invariant 1 <= i <= |runs|
      invariant RunsIncreasing(runs[..i])
    {
      if !LexLess(runs[i - 1], runs[i]) {
        return false;
      }
      forall k | 0 <= k < i - 1
        ensures LexLess(runs[k], runs[i])
      {
        assert runs[..i][k] == runs[k] && runs[..i][i - 1] == runs[i - 1];
        LexLessTransitive(runs[k], runs[i - 1], runs[i]);
      }
      i := i + 1;
    }
    assert runs[..i] == runs;
    return true;
  }

  /** Decides whether a page keeps every promise it makes for `req`. */
  method CheckPage(req: ListObjectsRequest, l: Listing) returns (ok: bool)
    ensures ok <==> ConformsTo(req, l)
    ensures ok && req.maxResults != 0 ==> |l.objects| + |l.collapsedRuns| <= req.maxResults
  {
    var objectsOk := CheckObjectsIncreasing(l.objects);
    var runsOk := CheckRunsIncreasing(l.collapsedRuns);
    ok := objectsOk && runsOk && WithinMaxResults(l, req.maxResults)
      && (forall i :: 0 <= i < |l.objects| ==>
            Classify(req.prefix, req.delimiter, l.objects[i].name) == Some(ObjectEntry(l.objects[i].name)))
      && (forall i :: 0 <= i < |l.collapsedRuns| ==> IsCollapsedRun(req.prefix, req.delimiter, l.collapsedRuns[i]));
  }

  /** The object names and collapsed runs of a page. */
  function Keys(l: Listing): (keys: seq<Bytes>)
    ensures |keys| == |l.objects| + |l.collapsedRuns|
    ensures forall i :: 0 <= i < |l.objects| ==> keys[i] == l.objects[i].name
    ensures forall i :: 0 <= i < |l.collapsedRuns| ==> keys[|l.objects| + i] == l.collapsedRuns[i]
  {
    seq(|l.objects|, i requires 0 <= i < |l.objects| => l.objects[i].name) + l.collapsedRuns
  }

  /**
   The guarantee for a page `r2` fetched with the continuation token of `r1`:
   every object name and collapsed run of `r1` is strictly less than every
   object name and collapsed run of `r2`.
   */
  predicate ContinuesFrom(r1: Listing, r2: Listing) {
    forall x, y :: x in Keys(r1) && y in Keys(r2) ==> LexLess(x, y)
  }

  /** One request of a listing session and the page it got back. */
  datatype Exchange = Exchange(request: ListObjectsRequest, reply: Listing)

  /** `next` asks for the continuation of `prev`'s page with otherwise the same request. */
  predicate IsContinuation(prev: Exchange, next: Exchange) {
    && prev.reply.continuationToken != []
    && next.request == prev.request.(continuationToken := prev.reply.continuationToken)
  }

  /** A session of exchanges, each continuing the one before, with every promised guarantee. */
  predicate IsSession(ex: seq<Exchange>) {
    && (forall i :: 0 <= i < |ex| ==> ConformsTo(ex[i].request, ex[i].reply))
    && (forall i :: 0 < i < |ex| ==> IsContinuation(ex[i - 1], ex[i]))
    && (forall i :: 0 < i < |ex| ==> ContinuesFrom(ex[i - 1].reply, ex[i].reply))
  }

  /** No page strictly between the first and the last of the session is empty. */
  predicate InnerPagesNonEmpty(ex: seq<Exchange>) {
    forall i :: 0 < i < |ex| - 1 ==> |Keys(ex[i].reply)| > 0
  }

  function AllObjects(ex: seq<Exchange>): seq<ObjectRecord> {
    if |ex| == 0 then [] else ex[0].reply.objects + AllObjects(ex[1..])
  }

  function AllRuns(ex: seq<Exchange>): seq<Bytes> {
    if |ex| == 0 then [] else ex[0].reply.collapsedRuns + AllRuns(ex[1..])
  }

  lemma NameInKeys(l: Listing, o: ObjectRecord)
    requires o in l.objects
    ensures o.name in Keys(l)
  {
  }

  lemma RunInKeys(l: Listing, run: Bytes)
    requires run in l.collapsedRuns
    ensures run in Keys(l)
  {
  }

  /** The continuation guarantee carries across a page that has at least one entry. */
  lemma ContinuesFromThrough(r1: Listing, r2: Listing, r3: Listing)
    requires ContinuesFrom(r1, r2) && ContinuesFrom(r2, r3) && |Keys(r2)| > 0
    ensures ContinuesFrom(r1, r3)
  {
    var k := Keys(r2)[0];
    forall x, y | x in Keys(r1) && y in Keys(r3)
      ensures LexLess(x, y)
    {
      LexLessTransitive(x, k, y);
    }
  }

  /** With no empty page in between, every later page of a session continues from the first. */
  lemma {:induction false} FirstPageBeforeLater(ex: seq<Exchange>, j: nat)
    requires IsSession(ex) && InnerPagesNonEmpty(ex) && 0 < j < |ex|
    ensures ContinuesFrom(ex[0].reply, ex[j].reply)
  {
    if j > 1 {
      FirstPageBeforeLater(ex, j - 1);
      ContinuesFromThrough(ex[0].reply, ex[j - 1].reply, ex[j].reply);
    }
  }

  lemma {:induction false} PageOfObject(ex: seq<Exchange>, o: ObjectRecord) returns (j: nat)
    requires o in AllObjects(ex)
    ensures j < |ex| && o in ex[j].reply.objects
  {
    if o in ex[0].reply.objects {
      j := 0;
    } else {
      var k := PageOfObject(ex[1..], o);
      j := k + 1;
    }
  }

  lemma {:induction false} PageOfRun(ex: seq<Exchange>, run: Bytes) returns (j: nat)
    requires run in AllRuns(ex)
    ensures j < |ex| && run in ex[j].reply.collapsedRuns
  {
    if run in ex[0].reply.collapsedRuns {
      j := 0;
    } else {
      var k := PageOfRun(ex[1..], run);
      j := k + 1;
    }
  }

  lemma ConcatObjectsIncreasing(a: seq<ObjectRecord>, b: seq<ObjectRecord>)
    requires ObjectsIncreasing(a) && ObjectsIncreasing(b)
    requires forall x, y :: x in a && y in b ==> ObjectLess(x, y)
    ensures ObjectsIncreasing(a + b)
  {
  }

  lemma ConcatRunsIncreasing(a: seq<Bytes>, b: seq<Bytes>)
    requires RunsIncreasing(a) && RunsIncreasing(b)
    requires forall x, y :: x in a && y in b ==> LexLess(x, y)
    ensures RunsIncreasing(a + b)
  {
  }

  /**
   Over a session whose inner pages are non-empty, the objects of all pages
   taken in order are strictly increasing on (name, generation), and so are
   the collapsed runs.
   */
  lemma {:induction false} SessionIncreasing(ex: seq<Exchange>)
    requires IsSession(ex) && InnerPagesNonEmpty(ex)
    ensures ObjectsIncreasing(AllObjects(ex))
    ensures RunsIncreasing(AllRuns(ex))
    decreases |ex|
  {
    if |ex| > 0 {
      var tail := ex[1..];
      assert IsSession(tail) by {
        forall i | 0 < i < |tail|
          ensures IsContinuation(tail[i - 1], tail[i]) && ContinuesFrom(tail[i - 1].reply, tail[i].reply)
        {
          assert tail[i - 1] == ex[i] && tail[i] == ex[i + 1];
        }
      }
      assert InnerPagesNonEmpty(tail) by {
        forall i | 0 < i < |tail| - 1
          ensures |Keys(tail[i].reply)| > 0
        {
          assert tail[i] == ex[i + 1];
        }
      }
      SessionIncreasing(tail);
      var first := ex[0].reply;
      forall x, y | x in first.objects && y in AllObjects(tail)
        ensures ObjectLess(x, y)
      {
        var j := PageOfObject(tail, y);
        FirstPageBeforeLater(ex, j + 1);
        NameInKeys(first, x);
        NameInKeys(ex[j + 1].reply, y);
      }
      ConcatObjectsIncreasing(first.objects, AllObjects(tail));
      forall x, y | x in first.collapsedRuns && y in AllRuns(tail)
        ensures LexLess(x, y)
      {
        var j := PageOfRun(tail, y);
        FirstPageBeforeLater(ex, j + 1);
        RunInKeys(first, x);
        RunInKeys(ex[j + 1].reply, y);
      }
      ConcatRunsIncreasing(first.collapsedRuns, AllRuns(tail));
    }
  }

  /** A page with no entries meets the continuation guarantee towards any page, in both directions. */
  lemma EmptyPageContinues(r1: Listing, e: Listing, r2: Listing)
    requires |e.objects| == 0 && |e.collapsedRuns| == 0
    ensures ContinuesFrom(r1, e) && ContinuesFrom(e, r2)
  {
    assert Keys(e) == [];
  }

  /** Without prefix or delimiter, a page holding one object keeps every page promise. */
  lemma SingleObjectPageConforms(req: ListObjectsRequest, o: ObjectRecord, token: Bytes)
    requires req.prefix == [] && req.delimiter == []
    ensures ConformsTo(req, Listing([o], [], token))
  {
    assert IsPrefix([], o.name);
  }

  /**
   The guarantee relates only a page and the page that continues it, so an
   empty page in the middle of a session lets the pages around it come back
   out of order.
   */
  lemma EmptyInnerPageBreaksOrder()
    ensures exists ex :: IsSession(ex) && !ObjectsIncreasing(AllObjects(ex))
  {
    var token: Bytes := [1];
    var first := ListObjectsRequest([], [], [], 0);
    var next := first.(continuationToken := token);
    var a := ObjectRecord([0x61], 1, None, None, None, None, map[]);
    var b := ObjectRecord([0x62], 1, None, None, None, None, map[]);
    var p0, p1, p2 := Listing([b], [], token), Listing([], [], token), Listing([a], [], []);
    var ex := [Exchange(first, p0), Exchange(next, p1), Exchange(next, p2)];
    assert AllObjects(ex) == [b, a] by {
      assert AllObjects(ex[2..]) == [a];
      assert AllObjects(ex[1..]) == [a];
    }
    assert !ObjectsIncreasing(AllObjects(ex)) by {
      assert !ObjectLess(AllObjects(ex)[0], AllObjects(ex)[1]);
    }
    SingleObjectPageConforms(first, b, token);
    SingleObjectPageConforms(next, a, []);
    EmptyPageContinues(p0, p1, p2);
    assert IsSession(ex);
  }
}
