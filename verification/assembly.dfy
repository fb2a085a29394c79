/** Fetching the icon files in batches and assembling the generated module,
    shared by both scripts: for every batch of `iconsData` the settled fetches
    that produced a value become one `export const Icon<name>` declaration and
    one registry entry each, in order; a failed fetch is skipped. After the
    loop the `<setname>IconSet` registry is appended. */
module Assembly {
  import opened Wrappers
  import opened Svg
  import opened Sorting
  import opened Batching

  /** What `getPromise` resolves to for a fetch that worked. */
  datatype Fetched = Fetched(name: string, data: string)

  /** The outcome of downloading one icon: the file's text, or None when
      the request failed (a thrown error or a response that is not ok). */
  type FileFetch = string -> Option<string>

  /** `getPromise(item)`: the name and text of the icon, or nothing. */
  function Settle(item: IconEntry, files: FileFetch): (o: Option<Fetched>)
    ensures o.Some? <==> files(item.url).Some?
    ensures o.Some? ==> o.value == Fetched(item.name, files(item.url).value)
  {
    match files(item.url)
    case Some(data) => Some(Fetched(item.name, data))
    case None => None
  }

  /** `Promise.allSettled(batch.map(getPromise))`, one outcome per item. */
  function SettleAll(batch: seq<IconEntry>, files: FileFetch): (outcomes: seq<Option<Fetched>>)
    ensures |outcomes| == |batch|
    ensures forall k | 0 <= k < |batch| :: outcomes[k] == Settle(batch[k], files)
  {
    if batch == [] then [] else SettleAll(batch[..|batch| - 1], files) + [Settle(batch[|batch| - 1], files)]
  }

  /** The fetches that produced a value, in the order of `items`. */
  function Kept(items: seq<IconEntry>, files: FileFetch): seq<Fetched> {
    if items == [] then []
    else
      var last := Settle(items[|items| - 1], files);
      Kept(items[..|items| - 1], files) + (if last.Some? then [last.value] else [])
  }

  /** How many fetches among `items` failed. */
  function CountFailed(items: seq<IconEntry>, files: FileFetch): nat {
    if items == [] then 0
    else CountFailed(items[..|items| - 1], files) + (if files(items[|items| - 1].url).None? then 1 else 0)
  }

  function IconName(name: string): string {
    "Icon" + name
  }

  const DeclarationHead: string := "export const "
  const DeclarationArrow: string := " = (color: string) =>\n  `"
  const DeclarationTail: string := "`;\n"

  /** The declaration emitted for one fetched icon. */
  function Declaration(icon: Fetched): string {
    DeclarationHead + IconName(icon.name) + DeclarationArrow + CleanupSvg(icon.data) + DeclarationTail
  }

  function Declarations(icons: seq<Fetched>): (ds: seq<string>)
    ensures |ds| == |icons|
  {
    if icons == [] then [] else Declarations(icons[..|icons| - 1]) + [Declaration(icons[|icons| - 1])]
  }

  function IconNames(icons: seq<Fetched>): (ns: seq<string>)
    ensures |ns| == |icons|
  {
    if icons == [] then [] else IconNames(icons[..|icons| - 1]) + [IconName(icons[|icons| - 1].name)]
  }

  /** `toLocaleLowerCase`, on ASCII letters. */
  function Lower(s: string): (r: string)
    ensures |r| == |s|
    ensures forall k | 0 <= k < |s| :: r[k] == if 'A' <= s[k] <= 'Z' then (s[k] as int + 32) as char else s[k]
  {
    if s == [] then [] else Lower(s[..|s| - 1]) + [if 'A' <= s[|s| - 1] <= 'Z' then (s[|s| - 1] as int + 32) as char else s[|s| - 1]]
  }

  /** `parts.join(sep)` */
  function Join(parts: seq<string>, sep: string): string {
    if parts == [] then ""
    else if |parts| == 1 then parts[0]
    else Join(parts[..|parts| - 1], sep) + sep + parts[|parts| - 1]
  }

  const EntrySeparator: string := [','] + "\r\n  "

  /** The registry appended after the declarations. */
  function Registry(setName: string, iconNames: seq<string>): string {
    "\r\nexport const " + Lower(setName) + "IconSet: Record<string, (color: string) => string> = {\r\n  "
      + Join(iconNames, EntrySeparator) + "\r\n};\r\n"
  }

  /** `fileContent.join("")` */
  function Concat(parts: seq<string>): string {
    if parts == [] then "" else Concat(parts[..|parts| - 1]) + parts[|parts| - 1]
  }

  /** The text of the generated `<setName>.ts` module. */
  function ModuleText(setName: string, icons: seq<Fetched>): string {
    Concat(Declarations(icons) + [Registry(setName, IconNames(icons))])
  }

  /** The file-fetching loop: `items` is walked in consecutive batches of
      `batchSize`; each batch is settled, and every settled fetch that
      produced a value pushes its declaration and its icon name. */
  method FetchIconFiles(items: seq<IconEntry>, batchSize: nat, files: FileFetch)
    returns (fileContent: seq<string>, iconArray: seq<string>, batches: seq<seq<IconEntry>>)
    requires batchSize > 0
    ensures batches == Chunks(items, batchSize)
    ensures fileContent == Declarations(Kept(items, files))
    ensures iconArray == IconNames(Kept(items, files))
  {
    fileContent, iconArray, batches := [], [], [];
    ghost var done: seq<IconEntry> := [];
    var i := 0;
    while i < |items|
      invariant batches + ChunksFrom(items, batchSize, i) == Chunks(items, batchSize)
      invariant done == Flatten(batches)
      invariant fileContent == Declarations(Kept(done, files))
      invariant iconArray == IconNames(Kept(done, files))
      decreases |items| - i
    {
      var batch := Slice(items, i, i + batchSize);
      var settled := SettleAll(batch, files);
      fileContent, iconArray := PushFetched(fileContent, iconArray, settled, done, batch, files);
      FlattenSnoc(batches, batch);
      ChunksFromStep(items, batchSize, i, batches);
      batches := batches + [batch];
      done := done + batch;
      i := i + batchSize;
    }
    ChunksCover(items, batchSize);
  }

  /** `for (const icon of batch)`: each fulfilled outcome with a value pushes
      its declaration and its icon name; the others are skipped. */
  method PushFetched(fileContent0: seq<string>, iconArray0: seq<string>, settled: seq<Option<Fetched>>,
                     ghost done: seq<IconEntry>, ghost batch: seq<IconEntry>, files: FileFetch)
    returns (fileContent: seq<string>, iconArray: seq<string>)
    requires settled == SettleAll(batch, files)
    requires fileContent0 == Declarations(Kept(done, files))
    requires iconArray0 == IconNames(Kept(done, files))
    ensures fileContent == Declarations(Kept(done + batch, files))
    ensures iconArray == IconNames(Kept(done + batch, files))
  {
    fileContent, iconArray := fileContent0, iconArray0;
    ghost var kept := Kept(done, files);
    ghost var seen := done;
    var j := 0;
    assert done + batch[..0] == done;
    while j < |settled|
      invariant 0 <= j <= |settled|
      invariant seen == done + batch[..j]
      invariant kept == Kept(seen, files)
      invariant fileContent == Declarations(kept)
      invariant iconArray == IconNames(kept)
    {
      var icon := settled[j];
      assert icon == Settle(batch[j], files);
      KeptStep(seen, batch[j], files);
      if icon.Some? {
        AppendStep(kept, icon.value);
        fileContent := fileContent + [Declaration(icon.value)];
        iconArray := iconArray + [IconName(icon.value.name)];
        kept := kept + [icon.value];
      }
      SeenStep(done, batch, j);
      seen := seen + [batch[j]];
      j := j + 1;
    }
    assert batch[..j] == batch;
  }

  lemma SeenStep(done: seq<IconEntry>, batch: seq<IconEntry>, j: nat)
    requires j < |batch|
    ensures done + batch[..j + 1] == (done + batch[..j]) + [batch[j]]
  {
    TakeOneMore(batch, j);
  }

  /** One more item settles: it is kept exactly when its fetch worked. */
  lemma KeptStep(done: seq<IconEntry>, item: IconEntry, files: FileFetch)
    ensures Kept(done + [item], files)
      == Kept(done, files) + (if files(item.url).Some? then [Settle(item, files).value] else [])
  {
    assert (done + [item])[..|done|] == done;
  }

  /** One more kept icon adds one declaration and one registry entry. */
  lemma AppendStep(kept: seq<Fetched>, icon: Fetched)
    ensures Declarations(kept + [icon]) == Declarations(kept) + [Declaration(icon)]
    ensures IconNames(kept + [icon]) == IconNames(kept) + [IconName(icon.name)]
  {
    assert (kept + [icon])[..|kept|] == kept;
  }

  lemma {:induction false} KeptAndFailed(items: seq<IconEntry>, files: FileFetch)
    ensures |Kept(items, files)| + CountFailed(items, files) == |items|
    decreases |items|
  {
    if items != [] {
      KeptAndFailed(items[..|items| - 1], files);
    }
  }

  /** Every kept icon comes from an item whose fetch produced its text, and
      every such item is kept. */
  lemma {:induction false} KeptMembers(items: seq<IconEntry>, files: FileFetch)
    ensures forall f <- Kept(items, files) ::
      exists k :: 0 <= k < |items| && items[k].name == f.name && files(items[k].url) == Some(f.data)
    ensures forall k | 0 <= k < |items| && files(items[k].url).Some? ::
      Fetched(items[k].name, files(items[k].url).value) in Kept(items, files)
    decreases |items|
  {
    if items != [] {
      var init := items[..|items| - 1];
      KeptMembers(init, files);
      forall f <- Kept(items, files)
        ensures exists k :: 0 <= k < |items| && items[k].name == f.name && files(items[k].url) == Some(f.data)
      {
        if f in Kept(init, files) {
          var k :| 0 <= k < |init| && init[k].name == f.name && files(init[k].url) == Some(f.data);
          assert items[k] == init[k];
        } else {
          assert items[|items| - 1].name == f.name;
        }
      }
      forall k | 0 <= k < |items| && files(items[k].url).Some?
        ensures Fetched(items[k].name, files(items[k].url).value) in Kept(items, files)
      {
        if k < |init| {
          assert items[k] == init[k];
        }
      }
    }
  }

  /** The kept icons follow the order of `items`: when `items` is sorted by
      name, so are the kept icons, and with them the declarations and the
      registry entries. */
  lemma {:induction false} KeptSorted(items: seq<IconEntry>, files: FileFetch)
    requires SortedByName(items)
    ensures var kept := Kept(items, files);
      forall i, j | 0 <= i < j < |kept| :: !StrLess(kept[j].name, kept[i].name)
    decreases |items|
  {
    if items != [] {
      var init, last := items[..|items| - 1], items[|items| - 1];
      KeptSorted(init, files);
      KeptMembers(init, files);
      var kept, before := Kept(items, files), Kept(init, files);
      assert items == init + [last];
      KeptStep(init, last, files);
      forall i, j | 0 <= i < j < |kept| ensures !StrLess(kept[j].name, kept[i].name) {
        if j < |before| {
          assert kept[i] == before[i] && kept[j] == before[j];
        } else {
          var f := kept[i];
          assert f == before[i];
          assert f in before;
          var k :| 0 <= k < |init| && init[k].name == f.name && files(init[k].url) == Some(f.data);
          assert NameLeq(items[k], items[|items| - 1]);
        }
      }
    }
  }

  /** The i-th declaration and the i-th registry entry are for the same
      icon: both carry `Icon<name>` of the i-th kept fetch. */
  lemma {:induction false} DeclarationsMatchRegistry(icons: seq<Fetched>, k: nat)
    requires k < |icons|
    ensures Declarations(icons)[k] == "export const " + IconNames(icons)[k] + " = (color: string) =>\n  `"
      + CleanupSvg(icons[k].data) + "`;\n"
    decreases |icons|
  {
    if k < |icons| - 1 {
      DeclarationsMatchRegistry(icons[..|icons| - 1], k);
    }
  }

  /** The generated declaration spans exactly two line breaks, one after
      the arrow and one after the closing backtick, whatever the icon's
      markup: `cleanupSvg` leaves none in it. */
  lemma DeclarationLineBreaks(icon: Fetched)
    requires '\n' !in icon.name
    ensures Count(Declaration(icon), '\n') == 2
  {
    var name, svg := IconName(icon.name), CleanupSvg(icon.data);
    CleanupSvgIsOneLine(icon.data);
    assert '\n' !in name by {
      assert name == "Icon" + icon.name;
    }
    CountAbsent(name, '\n');
    CountAbsent(svg, '\n');
    TemplateLineBreaks();
    CountFive(DeclarationHead, name, DeclarationArrow, svg, DeclarationTail, '\n');
  }

  /** The fixed text of a declaration: no break in the head, one in the
      arrow and one in the tail. */
  lemma TemplateLineBreaks()
    ensures Count(DeclarationHead, '\n') == 0
    ensures Count(DeclarationArrow, '\n') == 1
    ensures Count(DeclarationTail, '\n') == 1
  {
    CountAbsent(DeclarationHead, '\n');
    var before, after := " = (color: string) =>", "  `";
    assert DeclarationArrow == before + ("\n" + after);
    CountAbsent(before, '\n');
    CountAbsent(after, '\n');
    CountAppend("\n", after, '\n');
    CountAppend(before, "\n" + after, '\n');
    assert DeclarationTail == "`;" + "\n";
    CountAbsent("`;", '\n');
    CountAppend("`;", "\n", '\n');
  }

  lemma CountFive(a: string, b: string, c: string, d: string, e: string, x: char)
    ensures Count(a + b + c + d + e, x) == Count(a, x) + Count(b, x) + Count(c, x) + Count(d, x) + Count(e, x)
  {
    CountAppend(a, b, x);
    CountAppend(a + b, c, x);
    CountAppend(a + b + c, d, x);
    CountAppend(a + b + c + d, e, x);
  }

  function Count(s: string, c: char): nat {
    if s == [] then 0 else Count(s[..|s| - 1], c) + (if s[|s| - 1] == c then 1 else 0)
  }

  lemma {:induction false} CountAppend(a: string, b: string, c: char)
    ensures Count(a + b, c) == Count(a, c) + Count(b, c)
    decreases |b|
  {
    if b == [] {
      assert a + b == a;
    } else {
      assert (a + b)[..|a + b| - 1] == a + b[..|b| - 1];
      CountAppend(a, b[..|b| - 1], c);
    }
  }

  lemma {:induction false} CountAbsent(s: string, c: char)
    requires c !in s
    ensures Count(s, c) == 0
    decreases |s|
  {
    if s != [] {
      assert forall x <- s[..|s| - 1] :: x in s;
      CountAbsent(s[..|s| - 1], c);
    }
  }

  /** When no icon name contains a comma, the joined registry entries hold
      exactly one comma between consecutive names: the registry lists one
      entry per kept icon. */
  lemma {:induction false} RegistryEntryCount(names: seq<string>)
    requires names != []
    requires forall n <- names :: Count(n, ',') == 0
    ensures Count(Join(names, EntrySeparator), ',') == |names| - 1
    decreases |names|
  {
    if |names| > 1 {
      var init := names[..|names| - 1];
      RegistryEntryCount(init);
      CountAppend(Join(init, EntrySeparator), EntrySeparator, ',');
      CountAppend(Join(init, EntrySeparator) + EntrySeparator, names[|names| - 1], ',');
      CountAppend([','], "\r\n  ", ',');
      CountAbsent("\r\n  ", ',');
      assert [','][..0] == [];
    }
  }
}
