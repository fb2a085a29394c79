/** The top level of both scripts: for every entry of `iconSets`, in order,
    turn the node id "A-B" into the API form "A:B" and run
    `getImagesFromFrame` for the set. The icons folder is modelled as a map
    from file name to text. A set's old file is removed first, its new file is
    written only when the set succeeds, and a frame without icons ends the
    whole process. */
module Driver {
  import opened Wrappers
  import opened Figma
  import FetchIconsTs
  import FetchIconsJs

  /** `iconSets`: the set names and the Figma frames they come from. */
  const IconSets: seq<(string, string)> := [("toggle", "2403-4364"), ("search", "2403-4568"), ("action", "2403-6067")]

  /** Which of the two scripts runs. */
  datatype Script = TypeScript | JavaScript

  /** The icons folder: file name -> text. */
  type Disk = map<string, string>

  /** What the folder holds under `name`. */
  function Lookup(disk: Disk, name: string): Option<string> {
    if name in disk then Some(disk[name]) else None
  }

  /** The outcome of the set `entry` (its name and its frame's node id). */
  function SetOutcomeOf(script: Script, entry: (string, string), net: Net): SetOutcome
    requires Honest(net.urls)
  {
    var nodeId := ReplaceFirst(entry.1, '-', ':');
    match script
    case TypeScript => FetchIconsTs.SetResult(nodeId, entry.0, net)
    case JavaScript => FetchIconsJs.SetResult(nodeId, entry.0, net)
  }

  /** The folder after one set: its old file is gone, and the new module
      is there when the set was written. */
  function AfterSet(disk: Disk, setName: string, outcome: SetOutcome): Disk {
    var cleared := disk - {FileName(setName)};
    if outcome.Written? then cleared[FileName(setName) := outcome.text] else cleared
  }

  /** One set changes its own file only: the file holds the new module
      when the set was written and is gone otherwise. */
  lemma AfterSetLookup(disk: Disk, setName: string, outcome: SetOutcome, name: string)
    ensures Lookup(AfterSet(disk, setName, outcome), name)
      == if name != FileName(setName) then Lookup(disk, name)
         else if outcome.Written? then Some(outcome.text) else None
  {
  }

  /** The folder at the end, and whether `process.exit(1)` ended the run. */
  datatype Run = Run(disk: Disk, exited: bool)

  /** The loop over `sets`, starting from the folder `disk`. */
  function RunSets(script: Script, sets: seq<(string, string)>, net: Net, disk: Disk): Run
    requires Honest(net.urls)
  {
    if sets == [] then Run(disk, false)
    else
      var outcome := SetOutcomeOf(script, sets[0], net);
      var after := AfterSet(disk, sets[0].0, outcome);
      if outcome == NoIcons then Run(after, true) else RunSets(script, sets[1..], net, after)
  }

  /** One set, step by step, with the script's own `getImagesFromFrame`. */
  method ProcessSet(script: Script, entry: (string, string), net: Net, disk0: Disk)
    returns (outcome: SetOutcome, disk: Disk)
    requires Honest(net.urls)
    ensures outcome == SetOutcomeOf(script, entry, net)
    ensures disk == AfterSet(disk0, entry.0, outcome)
  {
    var (setName, nodeId) := entry;
    var fileName := FileName(setName);
    disk := disk0 - {fileName};
    var apiId := ReplaceFirst(nodeId, '-', ':');
    var urlRequests;
    match script {
      case TypeScript =>
        outcome, urlRequests := FetchIconsTs.GetImagesFromFrame(apiId, setName, net);
      case JavaScript =>
        outcome, urlRequests := FetchIconsJs.GetImagesFromFrame(apiId, setName, net);
    }
    if outcome.Written? {
      disk := disk[fileName := outcome.text];
    }
  }

  /** The loop of the script over `sets`. */
  method FetchAll(script: Script, sets: seq<(string, string)>, net: Net, disk0: Disk)
    returns (disk: Disk, exited: bool)
    requires Honest(net.urls)
    ensures Run(disk, exited) == RunSets(script, sets, net, disk0)
  {
    disk, exited := disk0, false;
    var i := 0;
    while i < |sets|
      invariant i <= |sets|
      invariant RunSets(script, sets[i..], net, disk) == RunSets(script, sets, net, disk0)
    {
      var outcome;
      assert sets[i..][1..] == sets[i + 1..];
      outcome, disk := ProcessSet(script, sets[i], net, disk);
      if outcome == NoIcons {
        return disk, true;
      }
      i := i + 1;
    }
  }

  /** The set names are distinct, as the keys of an object are. */
  predicate DistinctNames(sets: seq<(string, string)>) {
    forall i, j | 0 <= i < j < |sets| :: sets[i].0 != sets[j].0
  }

  /** Some set of `sets` is stored under `name`. */
  predicate NamesFile(sets: seq<(string, string)>, name: string) {
    exists s <- sets :: FileName(s.0) == name
  }

  /** No set before index `j` ended the run. */
  predicate Reached(script: Script, sets: seq<(string, string)>, net: Net, j: nat)
    requires Honest(net.urls) && j <= |sets|
  {
    forall m | 0 <= m < j :: SetOutcomeOf(script, sets[m], net) != NoIcons
  }

  /** Different sets are stored in different files. */
  lemma FileNameInjective(a: string, b: string)
    requires FileName(a) == FileName(b)
    ensures a == b
  {
    assert a == FileName(a)[..|a|];
  }

  /** The run ends early exactly when some set's frame has no icon. */
  lemma {:induction false} ExitedIff(script: Script, sets: seq<(string, string)>, net: Net, disk: Disk)
    requires Honest(net.urls)
    ensures RunSets(script, sets, net, disk).exited
      <==> exists j | 0 <= j < |sets| :: SetOutcomeOf(script, sets[j], net) == NoIcons
    decreases |sets|
  {
    if sets != [] {
      var outcome := SetOutcomeOf(script, sets[0], net);
      ExitedIff(script, sets[1..], net, AfterSet(disk, sets[0].0, outcome));
      if exists j | 0 <= j < |sets| :: SetOutcomeOf(script, sets[j], net) == NoIcons {
        var j :| 0 <= j < |sets| && SetOutcomeOf(script, sets[j], net) == NoIcons;
        if j > 0 {
          assert sets[1..][j - 1] == sets[j];
        }
      }
      if exists j | 0 <= j < |sets| - 1 :: SetOutcomeOf(script, sets[1..][j], net) == NoIcons {
        var j :| 0 <= j < |sets| - 1 && SetOutcomeOf(script, sets[1..][j], net) == NoIcons;
        assert sets[1..][j] == sets[j + 1];
      }
    }
  }

  /** A file that belongs to no set keeps its contents. */
  lemma {:induction false} OtherFilesKept(script: Script, sets: seq<(string, string)>, net: Net, disk: Disk, name: string)
    requires Honest(net.urls)
    requires !NamesFile(sets, name)
    ensures Lookup(RunSets(script, sets, net, disk).disk, name) == Lookup(disk, name)
    decreases |sets|
  {
    if sets != [] {
      var outcome := SetOutcomeOf(script, sets[0], net);
      assert sets[0] in sets;
      var after := AfterSet(disk, sets[0].0, outcome);
      AfterSetLookup(disk, sets[0].0, outcome, name);
      if outcome != NoIcons {
        assert forall s <- sets[1..] :: s in sets;
        OtherFilesKept(script, sets[1..], net, after, name);
      }
    }
  }

  /** Every set the run reaches leaves its file holding the new module when
      it was written, and no file at all otherwise. */
  lemma {:induction false} SetFile(script: Script, sets: seq<(string, string)>, net: Net, disk: Disk, j: nat)
    requires Honest(net.urls) && DistinctNames(sets)
    requires j < |sets| && Reached(script, sets, net, j)
    ensures var outcome := SetOutcomeOf(script, sets[j], net);
      Lookup(RunSets(script, sets, net, disk).disk, FileName(sets[j].0))
        == if outcome.Written? then Some(outcome.text) else None
    decreases j
  {
    var outcome := SetOutcomeOf(script, sets[0], net);
    var after := AfterSet(disk, sets[0].0, outcome);
    if j == 0 {
      AfterSetLookup(disk, sets[0].0, outcome, FileName(sets[0].0));
      if outcome != NoIcons {
        FirstFileUnshared(sets);
        OtherFilesKept(script, sets[1..], net, after, FileName(sets[0].0));
      }
    } else {
      ReachedTail(script, sets, net, j);
      assert sets[1..][j - 1] == sets[j];
      SetFile(script, sets[1..], net, after, j - 1);
    }
  }

  /** After the frame of set `j` turns out to hold no icon, the files of the
      sets after it are left as they were. */
  lemma {:induction false} LaterSetsUntouched(script: Script, sets: seq<(string, string)>, net: Net, disk: Disk, j: nat, name: string)
    requires Honest(net.urls)
    requires j < |sets| && Reached(script, sets, net, j)
    requires SetOutcomeOf(script, sets[j], net) == NoIcons
    requires !NamesFile(sets[..j + 1], name)
    ensures Lookup(RunSets(script, sets, net, disk).disk, name) == Lookup(disk, name)
    decreases j
  {
    var outcome := SetOutcomeOf(script, sets[0], net);
    var after := AfterSet(disk, sets[0].0, outcome);
    NamesFileTail(sets, j, name);
    AfterSetLookup(disk, sets[0].0, outcome, name);
    if j > 0 {
      assert sets[1..][j - 1] == sets[j];
      ReachedTail(script, sets, net, j);
      LaterSetsUntouched(script, sets[1..], net, after, j - 1, name);
    }
  }

  /** The first set's file is not the file of any later set. */
  lemma FirstFileUnshared(sets: seq<(string, string)>)
    requires sets != [] && DistinctNames(sets)
    ensures !NamesFile(sets[1..], FileName(sets[0].0))
  {
    forall s <- sets[1..] ensures FileName(s.0) != FileName(sets[0].0) {
      var m :| 0 <= m < |sets[1..]| && sets[1..][m] == s;
      assert s == sets[m + 1];
      if FileName(s.0) == FileName(sets[0].0) {
        FileNameInjective(s.0, sets[0].0);
      }
    }
  }

  lemma ReachedTail(script: Script, sets: seq<(string, string)>, net: Net, j: nat)
    requires Honest(net.urls) && 0 < j <= |sets| && Reached(script, sets, net, j)
    ensures SetOutcomeOf(script, sets[0], net) != NoIcons
    ensures Reached(script, sets[1..], net, j - 1)
  {
    forall m | 0 <= m < j - 1 ensures SetOutcomeOf(script, sets[1..][m], net) != NoIcons {
      assert sets[1..][m] == sets[m + 1];
    }
  }

  lemma NamesFileTail(sets: seq<(string, string)>, j: nat, name: string)
    requires j < |sets| && !NamesFile(sets[..j + 1], name)
    ensures FileName(sets[0].0) != name
    ensures j > 0 ==> !NamesFile(sets[1..][..j], name)
  {
    assert sets[0] in sets[..j + 1];
    assert forall s <- sets[1..][..j] :: s in sets[..j + 1];
  }

  /** The three sets of the scripts have distinct names. */
  lemma IconSetsDistinct()
    ensures DistinctNames(IconSets)
  {
  }

  /** The frame of the "toggle" set is requested as "2403:4364". */
  lemma ToggleNodeId()
    ensures IconSets[0].0 == "toggle"
    ensures ReplaceFirst(IconSets[0].1, '-', ':') == "2403:4364"
  {
    NodeIdConverted("2403", "4364");
    assert "2403" + "-" + "4364" == IconSets[0].1;
  }
}
