/** What both `getImagesFromFrame` variants share: the network replies they
    consume, given here as plain input values, the outcome of processing one
    icon set, the mapping of a URL reply to `iconsData` entries, the module
    text written for a set, and the node-id conversion of the driver loop. */
module Figma {
  import opened Wrappers
  import opened Records
  import opened Tree
  import opened Sorting
  import opened Assembly

  /** `Object.entries(data.images)` of an image-URL reply: node id -> URL,
      None standing for a `null` URL (a node that could not be rendered). */
  type Reply = seq<(string, Option<string>)>

  /** The network as the scripts see it. `frame(nodeId)` is the document of
      the node, or None when the request failed; `urls(ids)` is the reply to
      one image-URL request for `ids`, or None when it failed; `files(url)`
      is the text of one icon file, or None when the download failed. */
  datatype Net = Net(
    frame: string -> Option<Node>,
    urls: seq<string> -> Option<Reply>,
    files: FileFetch)

  /** The assumption made of the image API: a reply only names ids that
      were asked for. */
  ghost predicate Honest(urls: seq<string> -> Option<Reply>) {
    forall ids: seq<string> :: urls(ids).Some? ==> forall e <- urls(ids).value :: e.0 in ids
  }

  /** Every id in `ids` has a name in `nodes`. */
  predicate Known(ids: seq<string>, nodes: Rec) {
    forall id <- ids :: id in nodes.vals
  }

  /** The ids the walk found for the set, or none when the frame request failed. */
  function FoundIds(nodeId: string, net: Net): seq<string> {
    match net.frame(nodeId)
    case None => []
    case Some(root) => ImageNodes(root).keys
  }

  /** `String(url)`: a null URL becomes the text "null". */
  function UrlText(url: Option<string>): string {
    match url
    case Some(u) => u
    case None => "null"
  }

  /** `.map(([id, url]) => ({ url: String(url), name: imageNodes[id] }))` */
  function EntriesOf(reply: Reply, nodes: Rec): (entries: seq<IconEntry>)
    requires forall e <- reply :: e.0 in nodes.vals
    ensures |entries| == |reply|
    ensures forall k | 0 <= k < |reply| ::
      entries[k] == IconEntry(UrlText(reply[k].1), nodes.vals[reply[k].0])
  {
    if reply == [] then []
    else
      var last := reply[|reply| - 1];
      assert forall e <- reply[..|reply| - 1] :: e in reply;
      EntriesOf(reply[..|reply| - 1], nodes) + [IconEntry(UrlText(last.1), nodes.vals[last.0])]
  }

  /** How processing one icon set ends. `FrameFailed` and `UrlsFailed` are
      errors caught by the `try` block: nothing is written. `NoIcons` is the
      `process.exit(1)` when the frame holds no icon. `Written` carries the
      module text, the number of declarations, the number of resolved icons
      and the count of the "Failed to fetch" report, if one is printed. */
  datatype SetOutcome =
    | FrameFailed
    | NoIcons
    | UrlsFailed
    | Written(text: string, emitted: nat, resolved: nat, failedReport: Option<nat>)

  /** Steps 4 and 5 for the sorted `iconsData`: the module text and the
      counts. Only the TypeScript script prints the failure report. */
  function Assemble(setName: string, iconsData: seq<IconEntry>, files: FileFetch, reportFailures: bool): SetOutcome {
    var kept := Kept(iconsData, files);
    Written(ModuleText(setName, kept), |kept|, |iconsData|,
            if reportFailures && |kept| < |iconsData| then Some(|iconsData| - |kept|) else None)
  }

  /** The failure report names exactly the failed downloads, and appears
      exactly when some download failed. */
  lemma FailureReport(setName: string, iconsData: seq<IconEntry>, files: FileFetch)
    ensures var o := Assemble(setName, iconsData, files, true);
      && o.emitted + CountFailed(iconsData, files) == o.resolved
      && (o.failedReport.Some? <==> CountFailed(iconsData, files) > 0)
      && (o.failedReport.Some? ==> o.failedReport.value == CountFailed(iconsData, files))
  {
    KeptAndFailed(iconsData, files);
  }

  /** `s.replace("-", ":")` with a string pattern: only the first occurrence
      of `from` is replaced. */
  function ReplaceFirst(s: string, from: char, to: char): (r: string)
    ensures |r| == |s|
  {
    if s == [] then []
    else if s[0] == from then [to] + s[1..]
    else [s[0]] + ReplaceFirst(s[1..], from, to)
  }

  /** With its first `from` at index k, only index k changes. */
  lemma {:induction false} ReplaceFirstAt(s: string, from: char, to: char, k: nat)
    requires k < |s| && s[k] == from && from !in s[..k]
    ensures ReplaceFirst(s, from, to) == s[..k] + [to] + s[k + 1..]
    decreases k
  {
    if k > 0 {
      assert s[0] in s[..k];
      assert s[1..][..k - 1] == s[1..k];
      assert forall c <- s[1..k] :: c in s[..k];
      ReplaceFirstAt(s[1..], from, to, k - 1);
      assert s[..k] == [s[0]] + s[1..][..k - 1];
    }
  }

  /** Without any `from` nothing changes. */
  lemma {:induction false} ReplaceFirstAbsent(s: string, from: char, to: char)
    requires from !in s
    ensures ReplaceFirst(s, from, to) == s
    decreases |s|
  {
    if s != [] {
      assert forall c <- s[1..] :: c in s;
      ReplaceFirstAbsent(s[1..], from, to);
      assert s == [s[0]] + s[1..];
    }
  }

  /** A node id of the form "2403-4364" becomes the API form "2403:4364";
      a second dash would be left alone. */
  lemma NodeIdConverted(left: string, right: string)
    requires '-' !in left
    ensures ReplaceFirst(left + "-" + right, '-', ':') == left + ":" + right
  {
    var s := left + "-" + right;
    assert s[..|left|] == left;
    assert s[|left|] == '-';
    ReplaceFirstAt(s, '-', ':', |left|);
    assert s[|left| + 1..] == right;
  }

  /** The generated file of a set. */
  function FileName(setName: string): string {
    setName + ".ts"
  }
}
