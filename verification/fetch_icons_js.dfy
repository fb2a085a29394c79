/** `getImagesFromFrame` of scripts/fetch-icons.js, the older script: one
    image-URL request for all ids at once, the entries sorted by name, the
    files downloaded in batches of 10, and no report of failed downloads. */
module FetchIconsJs {
  import opened Wrappers
  import opened Records
  import opened Tree
  import opened Sorting
  import opened Batching
  import opened Assembly
  import opened Figma
  import FetchIconsTs

  /** The outcome of `getImagesFromFrame(nodeId, setName)`. */
  function SetResult(nodeId: string, setName: string, net: Net): SetOutcome
    requires Honest(net.urls)
  {
    match net.frame(nodeId)
    case None => FrameFailed
    case Some(root) =>
      var nodes := ImageNodes(root);
      if nodes.keys == [] then NoIcons
      else
        match net.urls(nodes.keys)
        case None => UrlsFailed
        case Some(reply) =>
          KnownReply(root, net.urls);
          Assemble(setName, SortByName(EntriesOf(reply, nodes)), net.files, false)
  }

  /** Every id of the reply to the request for all ids has a name. */
  lemma KnownReply(root: Node, urls: seq<string> -> Option<Reply>)
    requires Honest(urls)
    requires urls(ImageNodes(root).keys).Some?
    ensures forall e <- urls(ImageNodes(root).keys).value :: e.0 in ImageNodes(root).vals
  {
    ImageNodesValid(root);
  }

  /** `getImagesFromFrame` step by step. Besides the outcome it returns the
      URL requests it made, each the list of ids it carried. */
  method GetImagesFromFrame(nodeId: string, setName: string, net: Net)
    returns (outcome: SetOutcome, urlRequests: seq<seq<string>>)
    requires Honest(net.urls)
    ensures outcome == SetResult(nodeId, setName, net)
    ensures urlRequests == if FoundIds(nodeId, net) == [] then [] else [FoundIds(nodeId, net)]
  {
    var mainNode := net.frame(nodeId);
    if mainNode.None? {
      return FrameFailed, [];
    }
    var imageNodes := GetImageNodes(mainNode.value);
    var ids := imageNodes.keys;
    if |ids| == 0 {
      return NoIcons, [];
    }
    var imageUrls := net.urls(ids);
    urlRequests := [ids];
    if imageUrls.None? {
      return UrlsFailed, urlRequests;
    }
    KnownReply(mainNode.value, net.urls);
    var iconsData := SortByName(EntriesOf(imageUrls.value, imageNodes));
    var fileContent, iconArray, _ := FetchIconFiles(iconsData, JsBatchSize, net.files);
    fileContent := fileContent + [Registry(setName, iconArray)];
    outcome := Written(Concat(fileContent), |iconArray|, |iconsData|, None);
  }

  /** Up to 200 icons the two scripts make the same single request and write
      the same module; only the TypeScript one reports failed downloads. */
  lemma AgreesWithTs(nodeId: string, setName: string, net: Net)
    requires Honest(net.urls)
    requires |FoundIds(nodeId, net)| <= UrlBatchSize
    ensures Chunks(FoundIds(nodeId, net), UrlBatchSize)
      == (if FoundIds(nodeId, net) == [] then [] else [FoundIds(nodeId, net)])
    ensures var js, ts := SetResult(nodeId, setName, net), FetchIconsTs.SetResult(nodeId, setName, net);
      && (js.Written? <==> ts.Written?)
      && (js.Written? ==> js.text == ts.text && js.emitted == ts.emitted && js.resolved == ts.resolved)
      && (!js.Written? ==> js == ts)
  {
    var ids := FoundIds(nodeId, net);
    if ids != [] {
      OneChunk(ids, UrlBatchSize);
      var root := net.frame(nodeId).value;
      FetchIconsTs.KnownChunks(root);
      FetchIconsTs.SingleRequest(ids, net.urls, ImageNodes(root));
    }
  }
}
