/** `getImagesFromFrame` of scripts/fetch-icons.ts: extract the icons of a
    frame, resolve their download URLs in requests of at most 200 ids, sort
    them by name, download the files in batches of 10 and assemble the
    module text, reporting how many downloads failed. */
module FetchIconsTs {
  import opened Wrappers
  import opened Records
  import opened Tree
  import opened Sorting
  import opened Batching
  import opened Assembly
  import opened Figma

  /** The URL requests for `chunks` in order, stopping at the first that
      fails: the resolved `iconsData`, or None. */
  function ResolveChunks(chunks: seq<seq<string>>, urls: seq<string> -> Option<Reply>, nodes: Rec): Option<seq<IconEntry>>
    requires Honest(urls)
    requires AllKnown(chunks, nodes)
  {
    if chunks == [] then Some([])
    else
      var last := chunks[|chunks| - 1];
      assert forall c <- chunks[..|chunks| - 1] :: c in chunks;
      match ResolveChunks(chunks[..|chunks| - 1], urls, nodes)
      case None => None
      case Some(done) =>
        match urls(last)
        case None => None
        case Some(reply) =>
          assert Known(last, nodes);
          assert forall e <- reply :: e.0 in last;
          Some(done + EntriesOf(reply, nodes))
  }

  predicate AllKnown(chunks: seq<seq<string>>, nodes: Rec) {
    forall c <- chunks :: Known(c, nodes)
  }

  /** The outcome of `getImagesFromFrame(nodeId, setName)`. */
  function SetResult(nodeId: string, setName: string, net: Net): SetOutcome
    requires Honest(net.urls)
  {
    match net.frame(nodeId)
    case None => FrameFailed
    case Some(root) =>
      var nodes := ImageNodes(root);
      if nodes.keys == [] then NoIcons
      else
        KnownChunks(root);
        match ResolveChunks(Chunks(nodes.keys, UrlBatchSize), net.urls, nodes)
        case None => UrlsFailed
        case Some(iconsData) => Assemble(setName, SortByName(iconsData), net.files, true)
  }

  /** Every id the URL requests carry has a name. */
  lemma KnownChunks(root: Node)
    ensures forall c <- Chunks(ImageNodes(root).keys, UrlBatchSize) :: Known(c, ImageNodes(root))
  {
    var nodes := ImageNodes(root);
    ImageNodesValid(root);
    ChunksWithin(nodes.keys, UrlBatchSize);
  }

  /** `getImagesFromFrame` step by step. Besides the outcome it returns the
      URL requests it made, each the list of ids it carried. */
  method GetImagesFromFrame(nodeId: string, setName: string, net: Net)
    returns (outcome: SetOutcome, urlRequests: seq<seq<string>>)
    requires Honest(net.urls)
    ensures outcome == SetResult(nodeId, setName, net)
    ensures urlRequests <= Chunks(FoundIds(nodeId, net), UrlBatchSize)
    ensures outcome.Written? ==> urlRequests == Chunks(FoundIds(nodeId, net), UrlBatchSize)
    ensures outcome == NoIcons || outcome == FrameFailed ==> urlRequests == []
    ensures outcome == UrlsFailed ==> StoppedAtFailure(urlRequests, net.urls)
    ensures outcome.Written? ==> forall c <- urlRequests :: net.urls(c).Some?
  {
    urlRequests := [];
    var mainNode := net.frame(nodeId);
    if mainNode.None? {
      return FrameFailed, [];
    }
    var imageNodes := GetImageNodes(mainNode.value);
    var ids := imageNodes.keys;
    if |ids| == 0 {
      return NoIcons, [];
    }
    KnownChunks(mainNode.value);
    var resolved;
    resolved, urlRequests := FetchAllUrls(ids, net.urls, imageNodes);
    if resolved.None? {
      return UrlsFailed, urlRequests;
    }
    var iconsData := SortByName(resolved.value);
    outcome := WriteIcons(setName, iconsData, net.files);
  }

  /** Steps 4 and 5: download the files in batches of `FileBatchSize`,
      append the registry, and report the failed downloads. */
  method WriteIcons(setName: string, iconsData: seq<IconEntry>, files: FileFetch) returns (outcome: SetOutcome)
    ensures outcome == Assemble(setName, iconsData, files, true)
  {
    var fileContent, iconArray, _ := FetchIconFiles(iconsData, FileBatchSize, files);
    fileContent := fileContent + [Registry(setName, iconArray)];
    var failedReport := None;
    if |iconArray| < |iconsData| {
      failedReport := Some(|iconsData| - |iconArray|);
    }
    outcome := Written(Concat(fileContent), |iconArray|, |iconsData|, failedReport);
  }

  /** Step 3, the loop over the ids in slices of `UrlBatchSize`: the
      entries of every reply in order, or None when a request fails, which
      ends the loop. */
  method FetchAllUrls(ids: seq<string>, urls: seq<string> -> Option<Reply>, nodes: Rec)
    returns (iconsData: Option<seq<IconEntry>>, urlRequests: seq<seq<string>>)
    requires Honest(urls)
    requires AllKnown(Chunks(ids, UrlBatchSize), nodes)
    ensures iconsData == ResolveChunks(Chunks(ids, UrlBatchSize), urls, nodes)
    ensures urlRequests <= Chunks(ids, UrlBatchSize)
    ensures iconsData.Some? ==> urlRequests == Chunks(ids, UrlBatchSize)
    ensures iconsData.Some? ==> forall c <- urlRequests :: urls(c).Some?
    ensures iconsData.None? ==> StoppedAtFailure(urlRequests, urls)
  {
    urlRequests := [];
    var found: seq<IconEntry> := [];
    var i := 0;
    while i < |ids|
      invariant urlRequests + ChunksFrom(ids, UrlBatchSize, i) == Chunks(ids, UrlBatchSize)
      invariant AllKnown(urlRequests, nodes)
      invariant ResolveChunks(urlRequests, urls, nodes) == Some(found)
      invariant forall c <- urlRequests :: urls(c).Some?
      decreases |ids| - i
    {
      var chunk := Slice(ids, i, i + UrlBatchSize);
      var imageUrls := urls(chunk);
      UrlStep(ids, i, urlRequests, urls, nodes);
      ghost var before := urlRequests;
      urlRequests := urlRequests + [chunk];
      if imageUrls.None? {
        RequestFailed(ids, i + UrlBatchSize, urlRequests, urls, nodes);
        FailedLast(before, chunk, urls);
        return None, urlRequests;
      }
      assert forall e <- imageUrls.value :: e.0 in chunk;
      found := found + EntriesOf(imageUrls.value, nodes);
      i := i + UrlBatchSize;
    }
    AllRequested(ids, i, urlRequests);
    return Some(found), urlRequests;
  }

  /** The requests end with the first one that failed: every earlier
      request succeeded. */
  predicate StoppedAtFailure(requests: seq<seq<string>>, urls: seq<string> -> Option<Reply>) {
    && requests != []
    && urls(requests[|requests| - 1]).None?
    && forall c <- requests[..|requests| - 1] :: urls(c).Some?
  }

  lemma FailedLast(before: seq<seq<string>>, chunk: seq<string>, urls: seq<string> -> Option<Reply>)
    requires forall c <- before :: urls(c).Some?
    requires urls(chunk).None?
    ensures StoppedAtFailure(before + [chunk], urls)
  {
    assert (before + [chunk])[..|before|] == before;
  }

  /** A failed request fails the whole loop, and the requests made so far
      are the first slices. */
  lemma RequestFailed(ids: seq<string>, next: nat, done: seq<seq<string>>, urls: seq<string> -> Option<Reply>, nodes: Rec)
    requires Honest(urls)
    requires done + ChunksFrom(ids, UrlBatchSize, next) == Chunks(ids, UrlBatchSize)
    requires AllKnown(Chunks(ids, UrlBatchSize), nodes) && AllKnown(done, nodes)
    requires ResolveChunks(done, urls, nodes).None?
    ensures ResolveChunks(Chunks(ids, UrlBatchSize), urls, nodes).None?
    ensures done <= Chunks(ids, UrlBatchSize)
  {
    ResolveFailurePersists(done, ChunksFrom(ids, UrlBatchSize, next), urls, nodes);
  }

  /** When the loop ends, every slice has been requested. */
  lemma AllRequested(ids: seq<string>, i: nat, done: seq<seq<string>>)
    requires i >= |ids|
    requires done + ChunksFrom(ids, UrlBatchSize, i) == Chunks(ids, UrlBatchSize)
    ensures done == Chunks(ids, UrlBatchSize)
  {
    assert ChunksFrom(ids, UrlBatchSize, i) == [];
    assert done + [] == done;
  }

  /** One turn of the URL loop: the next request is the next slice, and its
      reply extends the resolution. */
  lemma UrlStep(ids: seq<string>, i: nat, done: seq<seq<string>>, urls: seq<string> -> Option<Reply>, nodes: Rec)
    requires Honest(urls) && i < |ids|
    requires AllKnown(Chunks(ids, UrlBatchSize), nodes) && AllKnown(done, nodes)
    requires done + ChunksFrom(ids, UrlBatchSize, i) == Chunks(ids, UrlBatchSize)
    ensures var chunk := Slice(ids, i, i + UrlBatchSize);
      && (done + [chunk]) + ChunksFrom(ids, UrlBatchSize, i + UrlBatchSize) == Chunks(ids, UrlBatchSize)
      && AllKnown(done + [chunk], nodes)
      && Known(chunk, nodes)
      && ResolveChunks(done + [chunk], urls, nodes)
         == match ResolveChunks(done, urls, nodes)
            case None => None
            case Some(d) => if urls(chunk).None? then None else Some(d + EntriesOf(urls(chunk).value, nodes))
  {
    var chunk := Slice(ids, i, i + UrlBatchSize);
    ChunksFromStep(ids, UrlBatchSize, i, done);
    assert chunk in Chunks(ids, UrlBatchSize);
    ResolveStep(done, chunk, urls, nodes);
  }

  lemma ResolveStep(done: seq<seq<string>>, chunk: seq<string>, urls: seq<string> -> Option<Reply>, nodes: Rec)
    requires Honest(urls)
    requires AllKnown(done, nodes)
    requires Known(chunk, nodes)
    ensures AllKnown(done + [chunk], nodes)
    ensures ResolveChunks(done + [chunk], urls, nodes)
      == match ResolveChunks(done, urls, nodes)
         case None => None
         case Some(d) => if urls(chunk).None? then None else Some(d + EntriesOf(urls(chunk).value, nodes))
  {
    assert (done + [chunk])[..|done|] == done;
  }

  /** Once a URL request fails, the whole resolution fails. */
  lemma {:induction false} ResolveFailurePersists(done: seq<seq<string>>, rest: seq<seq<string>>,
                                                  urls: seq<string> -> Option<Reply>, nodes: Rec)
    requires Honest(urls)
    requires AllKnown(done + rest, nodes)
    requires AllKnown(done, nodes)
    requires ResolveChunks(done, urls, nodes).None?
    ensures ResolveChunks(done + rest, urls, nodes).None?
    decreases |rest|
  {
    if rest != [] {
      var init, last := rest[..|rest| - 1], rest[|rest| - 1];
      assert done + rest == (done + init) + [last];
      assert forall c <- done + init :: c in done + rest;
      ResolveFailurePersists(done, init, urls, nodes);
      ResolveStep(done + init, last, urls, nodes);
    } else {
      assert done + rest == done;
    }
  }

  /** With a single request, step 3 yields the entries of its reply. */
  lemma SingleRequest(ids: seq<string>, urls: seq<string> -> Option<Reply>, nodes: Rec)
    requires Honest(urls) && Known(ids, nodes)
    ensures AllKnown([ids], nodes)
    ensures ResolveChunks([ids], urls, nodes)
      == if urls(ids).None? then None else Some(EntriesOf(urls(ids).value, nodes))
  {
    assert [ids][..0] == [];
    if urls(ids).Some? {
      var entries := EntriesOf(urls(ids).value, nodes);
      assert [] + entries == entries;
    }
  }

  /** Step 3 fails exactly when one of its requests fails. */
  lemma {:induction false} ResolveFailsIff(chunks: seq<seq<string>>, urls: seq<string> -> Option<Reply>, nodes: Rec)
    requires Honest(urls) && AllKnown(chunks, nodes)
    ensures ResolveChunks(chunks, urls, nodes).None? <==> exists c <- chunks :: urls(c).None?
    decreases |chunks|
  {
    if chunks != [] {
      var init, last := chunks[..|chunks| - 1], chunks[|chunks| - 1];
      assert forall c <- init :: c in chunks;
      ResolveFailsIff(init, urls, nodes);
      assert chunks == init + [last];
    }
  }

  /** Every resolved icon carries the name of one of the image nodes. */
  lemma {:induction false} ResolvedNames(chunks: seq<seq<string>>, urls: seq<string> -> Option<Reply>, nodes: Rec)
    requires Honest(urls) && AllKnown(chunks, nodes) && Valid(nodes)
    requires ResolveChunks(chunks, urls, nodes).Some?
    ensures forall e <- ResolveChunks(chunks, urls, nodes).value :: exists id <- nodes.keys :: Get(nodes, id) == Some(e.name)
    decreases |chunks|
  {
    if chunks != [] {
      var init, last := chunks[..|chunks| - 1], chunks[|chunks| - 1];
      assert forall c <- init :: c in chunks;
      ResolvedNames(init, urls, nodes);
      var done := ResolveChunks(init, urls, nodes).value;
      var reply := urls(last).value;
      assert Known(last, nodes);
      assert forall e <- reply :: e.0 in last;
      var entries := EntriesOf(reply, nodes);
      forall e: IconEntry | e in done + entries
        ensures exists id <- nodes.keys :: Get(nodes, id) == Some(e.name)
      {
        if e !in done {
          var k :| 0 <= k < |entries| && entries[k] == e;
          assert Get(nodes, reply[k].0) == Some(e.name);
        }
      }
    }
  }
}
