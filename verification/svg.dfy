/** `cleanupSvg` of the fetch-icons scripts: three global regular-expression
    replacements applied in order,
      1. `/<\/?svg.*?>/g`      -> ""                 (drop the <svg ...> and </svg> tags)
      2. `/fill=["'].+?["']/g` -> `fill="${color}"`  (make the fill colour a placeholder)
      3. `/\n/g`               -> ""                 (one line)
    Each replacement is modelled as the left-to-right scan that
    `String.prototype.replace` performs with a global regular expression: at
    each position it tries to match; on a match it emits the replacement and
    resumes after the match, otherwise it copies one character. Every match is
    at least one character long. In JavaScript `.` matches anything except the
    line terminators \n, \r, U+2028 and U+2029, and `*?`, `+?` are lazy. */
module Svg {
  import opened Wrappers

  predicate IsLineTerminator(c: char) {
    c == '\n' || c == '\r' || c == '\U{2028}' || c == '\U{2029}'
  }

  predicate IsQuote(c: char) {
    c == '"' || c == '\''
  }

  predicate StartsWith(s: string, prefix: string) {
    |prefix| <= |s| && s[..|prefix|] == prefix
  }

  /** `s` contains `pattern` at some position. */
  predicate Contains(s: string, pattern: string)
    decreases |s|
  {
    StartsWith(s, pattern) || (s != [] && Contains(s[1..], pattern))
  }

  /** The lazy tail `.*?X` where X is a character class `close`: the length of
      the shortest prefix of `t` that ends in a `close` character and has no
      line terminator before it, or None when a line terminator or the end of
      the text comes first. */
  function LazyTail(t: string, close: set<char>): (r: Option<nat>)
    requires forall c <- close :: !IsLineTerminator(c)
    ensures r.Some? ==> 0 < r.value <= |t| && t[r.value - 1] in close
    ensures r.Some? ==> forall k | 0 <= k < r.value - 1 :: t[k] !in close && !IsLineTerminator(t[k])
    ensures r.None? ==> forall k | 0 <= k < |t| && t[k] in close :: exists j :: 0 <= j < k && IsLineTerminator(t[j])
  {
    if t == [] then None
    else if t[0] in close then Some(1)
    else if IsLineTerminator(t[0]) then None
    else
      match LazyTail(t[1..], close)
      case None => None
      case Some(n) => Some(n + 1)
  }

  /** Length of the match of `<\/?svg.*?>` at the start of `s`, if any: it
      ends at the first `>` after the head, provided no line terminator comes
      before that `>`. */
  function TagMatch(s: string): (r: Option<nat>)
    ensures !StartsWith(s, "<svg") && !StartsWith(s, "</svg") ==> r.None?
    ensures r.Some? ==> (StartsWith(s, "<svg") || StartsWith(s, "</svg")) && 4 < r.value <= |s| && s[r.value - 1] == '>'
    ensures r.Some? ==> forall k | 4 <= k < r.value - 1 :: s[k] != '>' && !IsLineTerminator(s[k])
    ensures r.None? && (StartsWith(s, "<svg") || StartsWith(s, "</svg")) ==>
      forall k | 4 <= k < |s| && s[k] == '>' :: exists j :: 4 <= j < k && IsLineTerminator(s[j])
  {
    var head := if StartsWith(s, "</svg") then 5 else if StartsWith(s, "<svg") then 4 else 0;
    if head == 0 then None
    else
      LazyTailAt(s, head, {'>'});
      assert head == 5 ==> s[4] == "</svg"[4];
      match LazyTail(s[head..], {'>'})
      case None => None
      case Some(n) => Some(head + n)
  }

  /** The lazy tail of `s` from index `head`, in terms of the indices of `s`. */
  lemma LazyTailAt(s: string, head: nat, close: set<char>)
    requires head <= |s|
    requires forall c <- close :: !IsLineTerminator(c)
    ensures var r := LazyTail(s[head..], close);
      && (r.Some? ==> head + r.value <= |s| && s[head + r.value - 1] in close)
      && (r.Some? ==> forall k | head <= k < head + r.value - 1 :: s[k] !in close && !IsLineTerminator(s[k]))
      && (r.None? ==> forall k | head <= k < |s| && s[k] in close :: exists j :: head <= j < k && IsLineTerminator(s[j]))
  {
    var t := s[head..];
    var r := LazyTail(t, close);
    if r.Some? {
      forall k | head <= k < head + r.value - 1 ensures s[k] !in close && !IsLineTerminator(s[k]) {
        assert s[k] == t[k - head];
      }
    } else {
      forall k | head <= k < |s| && s[k] in close ensures exists j :: head <= j < k && IsLineTerminator(s[j]) {
        assert t[k - head] == s[k];
        var j :| 0 <= j < k - head && IsLineTerminator(t[j]);
        assert s[head + j] == t[j];
      }
    }
  }

  /** Length of the match of `fill=["'].+?["']` at the start of `s`, if any:
      an opening quote of either kind, at least one character that is not a
      line terminator (possibly itself a quote), then lazily up to the first
      quote of either kind. */
  function FillMatch(s: string): (r: Option<nat>)
    ensures !FillHead(s) ==> r.None?
    ensures r.Some? ==> FillHead(s) && 7 < r.value <= |s| && IsQuote(s[r.value - 1])
    ensures r.Some? ==> forall k | 7 <= k < r.value - 1 :: !IsQuote(s[k]) && !IsLineTerminator(s[k])
    ensures r.None? && FillHead(s) ==>
      forall k | 7 <= k < |s| && IsQuote(s[k]) :: exists j :: 7 <= j < k && IsLineTerminator(s[j])
  {
    if !FillHead(s) then None
    else
      LazyTailAt(s, 7, {'"', '\''});
      match LazyTail(s[7..], {'"', '\''})
      case None => None
      case Some(n) => Some(7 + n)
  }

  /** `fill=`, an opening quote of either kind and a first value character
      that is not a line terminator. */
  predicate FillHead(s: string) {
    7 <= |s| && StartsWith(s, "fill=") && IsQuote(s[5]) && !IsLineTerminator(s[6])
  }

  const FillPlaceholder: string := "fill=\"${color}\""

  /** `.replace(/<\/?svg.*?>/g, "")` */
  function StripSvgTags(s: string): string
    decreases |s|
  {
    if s == [] then []
    else
      match TagMatch(s)
      case Some(n) => StripSvgTags(s[n..])
      case None => [s[0]] + StripSvgTags(s[1..])
  }

  /** `.replace(/fill=["'].+?["']/g, 'fill="${color}"')`; `${` is not a
      replacement pattern, so the placeholder is inserted literally. */
  function ReplaceFills(s: string): string
    decreases |s|
  {
    if s == [] then []
    else
      match FillMatch(s)
      case Some(n) => FillPlaceholder + ReplaceFills(s[n..])
      case None => [s[0]] + ReplaceFills(s[1..])
  }

  /** `.replace(/\n/g, "")`: drops every \n and keeps everything else. */
  function RemoveNewlines(s: string): (r: string)
    ensures '\n' !in r
    ensures forall c <- r :: c in s
  {
    if s == [] then []
    else if s[0] == '\n' then RemoveNewlines(s[1..])
    else [s[0]] + RemoveNewlines(s[1..])
  }

  /** Every character other than `\n` is kept, as often as it occurs. */
  lemma {:induction false} RemoveNewlinesContents(s: string)
    ensures multiset(RemoveNewlines(s)) == multiset(s)['\n' := 0]
    decreases |s|
  {
    if s != [] {
      RemoveNewlinesContents(s[1..]);
      assert s == [s[0]] + s[1..];
    }
  }

  /** Removing the line breaks works piece by piece, so the characters that
      are kept stay in their order. */
  lemma {:induction false} RemoveNewlinesAppend(a: string, b: string)
    ensures RemoveNewlines(a + b) == RemoveNewlines(a) + RemoveNewlines(b)
    decreases |a|
  {
    if a == [] {
      assert a + b == b;
    } else {
      assert (a + b)[1..] == a[1..] + b;
      RemoveNewlinesAppend(a[1..], b);
    }
  }

  function CleanupSvg(data: string): string {
    RemoveNewlines(ReplaceFills(StripSvgTags(data)))
  }

  /** The cleaned markup is a single line. */
  lemma CleanupSvgIsOneLine(data: string)
    ensures '\n' !in CleanupSvg(data)
  {
  }

  lemma {:induction false} RemoveNewlinesKeepsOtherText(s: string)
    requires '\n' !in s
    ensures RemoveNewlines(s) == s
    decreases |s|
  {
    if s != [] {
      assert s[0] in s;
      assert forall c <- s[1..] :: c in s;
      RemoveNewlinesKeepsOtherText(s[1..]);
      assert s == [s[0]] + s[1..];
    }
  }

  lemma {:induction false} StripSvgTagsKeepsOtherText(s: string)
    requires !Contains(s, "<svg") && !Contains(s, "</svg")
    ensures StripSvgTags(s) == s
    decreases |s|
  {
    if s != [] {
      assert TagMatch(s).None?;
      StripSvgTagsKeepsOtherText(s[1..]);
      assert s == [s[0]] + s[1..];
    }
  }

  lemma {:induction false} ReplaceFillsKeepsOtherText(s: string)
    requires !Contains(s, "fill=")
    ensures ReplaceFills(s) == s
    decreases |s|
  {
    if s != [] {
      assert FillMatch(s).None?;
      ReplaceFillsKeepsOtherText(s[1..]);
      assert s == [s[0]] + s[1..];
    }
  }

  /** Markup without an svg tag, a fill attribute or a line break comes back unchanged. */
  lemma CleanupSvgKeepsPlainText(s: string)
    requires !Contains(s, "<svg") && !Contains(s, "</svg") && !Contains(s, "fill=")
    requires '\n' !in s
    ensures CleanupSvg(s) == s
  {
    StripSvgTagsKeepsOtherText(s);
    ReplaceFillsKeepsOtherText(s);
    RemoveNewlinesKeepsOtherText(s);
  }

  /** The lazy tail stops at the first `close` character when no line
      terminator comes before it. */
  lemma {:induction false} LazyTailStopsAtFirstClose(t: string, close: set<char>, k: nat)
    requires forall c <- close :: !IsLineTerminator(c)
    requires k < |t| && t[k] in close
    requires forall j | 0 <= j < k :: t[j] !in close && !IsLineTerminator(t[j])
    ensures LazyTail(t, close) == Some(k + 1)
    decreases k
  {
    if k > 0 {
      LazyTailStopsAtFirstClose(t[1..], close, k - 1);
    }
  }

  /** An opening tag `<svg` + attributes + `>` on one line is removed. */
  lemma OpeningTagRemoved(attributes: string, rest: string)
    requires forall c <- attributes :: c != '>' && !IsLineTerminator(c)
    ensures StripSvgTags("<svg" + attributes + ">" + rest) == StripSvgTags(rest)
  {
    var s := "<svg" + attributes + ">" + rest;
    assert s[..4] == "<svg";
    assert !StartsWith(s, "</svg") by { assert s[1] == 's'; }
    var t := s[4..];
    assert t == attributes + ">" + rest;
    forall j | 0 <= j < |attributes| ensures t[j] != '>' && !IsLineTerminator(t[j]) {
      assert t[j] == attributes[j];
      assert attributes[j] in attributes;
    }
    LazyTailStopsAtFirstClose(t, {'>'}, |attributes|);
    assert s[4 + |attributes| + 1..] == rest;
  }

  /** A closing tag `</svg` + text + `>` on one line is removed. */
  lemma ClosingTagRemoved(attributes: string, rest: string)
    requires forall c <- attributes :: c != '>' && !IsLineTerminator(c)
    ensures StripSvgTags("</svg" + attributes + ">" + rest) == StripSvgTags(rest)
  {
    var s := "</svg" + attributes + ">" + rest;
    assert s[..5] == "</svg";
    var t := s[5..];
    assert t == attributes + ">" + rest;
    forall j | 0 <= j < |attributes| ensures t[j] != '>' && !IsLineTerminator(t[j]) {
      assert t[j] == attributes[j];
      assert attributes[j] in attributes;
    }
    LazyTailStopsAtFirstClose(t, {'>'}, |attributes|);
    assert s[5 + |attributes| + 1..] == rest;
  }

  /** The lazy tail fails when a line terminator comes before any `close` character. */
  lemma {:induction false} LazyTailBlocked(t: string, close: set<char>, k: nat)
    requires forall c <- close :: !IsLineTerminator(c)
    requires k < |t| && IsLineTerminator(t[k])
    requires forall j | 0 <= j < k :: t[j] !in close
    ensures LazyTail(t, close) == None
    decreases k
  {
    if k > 0 && !IsLineTerminator(t[0]) {
      LazyTailBlocked(t[1..], close, k - 1);
    }
  }

  /** An opening tag broken by a line terminator before its `>` is not
      matched: its `<` is copied and the scan moves on. */
  lemma TagSpanningLinesKept(attributes: string, terminator: char, rest: string)
    requires forall c <- attributes :: c != '>'
    requires IsLineTerminator(terminator)
    ensures var s := "<svg" + attributes + [terminator] + rest;
      StripSvgTags(s) == "<" + StripSvgTags(s[1..])
  {
    var s := "<svg" + attributes + [terminator] + rest;
    assert s[..4] == "<svg";
    assert !StartsWith(s, "</svg") by { assert s[1] == 's'; }
    var t := s[4..];
    assert t == attributes + [terminator] + rest;
    forall j | 0 <= j < |attributes| ensures t[j] !in {'>'} {
      assert t[j] == attributes[j];
      assert attributes[j] in attributes;
    }
    LazyTailBlocked(t, {'>'}, |attributes|);
    assert TagMatch(s) == None;
  }

  /** A fill attribute whose value is one line is replaced by the placeholder,
      whatever the colour: `fill="#FF0000"` leaves no literal colour behind.
      The value needs at least one character, may start with any character
      but a line terminator, and ends at the first quote of either kind. */
  lemma FillReplaced(open: char, value: string, closeQuote: char, rest: string)
    requires IsQuote(open) && IsQuote(closeQuote)
    requires value != []
    requires forall c <- value :: !IsLineTerminator(c)
    requires forall c <- value[1..] :: !IsQuote(c)
    ensures ReplaceFills("fill=" + [open] + value + [closeQuote] + rest)
         == FillPlaceholder + ReplaceFills(rest)
  {
    var s := "fill=" + [open] + value + [closeQuote] + rest;
    assert s[..5] == "fill=";
    assert s[5] == open;
    assert s[6] == value[0];
    assert value[0] in value;
    var t := s[7..];
    assert t == value[1..] + [closeQuote] + rest;
    forall j | 0 <= j < |value| - 1 ensures t[j] !in {'"', '\''} && !IsLineTerminator(t[j]) {
      assert t[j] == value[1..][j];
      assert value[1..][j] in value[1..];
      assert value[j + 1] in value;
    }
    LazyTailStopsAtFirstClose(t, {'"', '\''}, |value| - 1);
    assert s[7 + |value|..] == rest;
  }

  /** A fill value broken by a line terminator before its closing quote is
      not matched: its `f` is copied and the scan moves on. */
  lemma FillSpanningLinesKept(open: char, value: string, terminator: char, rest: string)
    requires IsQuote(open)
    requires forall c <- value :: !IsQuote(c)
    requires IsLineTerminator(terminator)
    ensures var s := "fill=" + [open] + value + [terminator] + rest;
      ReplaceFills(s) == "f" + ReplaceFills(s[1..])
  {
    var s := "fill=" + [open] + value + [terminator] + rest;
    assert s[..5] == "fill=";
    if !IsLineTerminator(s[6]) {
      var t := s[7..];
      assert t == value[1..] + [terminator] + rest;
      forall j | 0 <= j < |value| - 1 ensures t[j] !in {'"', '\''} {
        assert t[j] == value[j + 1];
        assert value[j + 1] in value;
      }
      LazyTailBlocked(t, {'"', '\''}, |value| - 1);
    }
    assert FillMatch(s) == None;
  }

  /** A prefix in which no fill attribute starts is copied unchanged before
      the first fill attribute. `fill=` cannot overlap itself, so no match
      can start inside `prefix` and end inside the attribute. */
  lemma {:induction false} ReplaceFillsCopiesPrefix(prefix: string, rest: string)
    requires !Contains(prefix, "fill=")
    requires StartsWith(rest, "fill=")
    ensures ReplaceFills(prefix + rest) == prefix + ReplaceFills(rest)
    decreases |prefix|
  {
    if prefix != [] {
      var s := prefix + rest;
      assert !Contains(prefix[1..], "fill=");
      assert !StartsWith(s, "fill=") by {
        if |prefix| >= 5 {
          assert s[..5] == prefix[..5];
        } else {
          assert s[4] == rest[4 - |prefix|];
          assert rest[..5] == "fill=";
        }
      }
      assert FillMatch(s) == None;
      assert s[1..] == prefix[1..] + rest;
      ReplaceFillsCopiesPrefix(prefix[1..], rest);
      assert ReplaceFills(s) == [s[0]] + ReplaceFills(s[1..]);
      assert prefix == [prefix[0]] + prefix[1..];
    } else {
      assert prefix + rest == rest;
    }
  }

  /** One fill attribute in markup without svg tags: the attribute is
      replaced by the placeholder, the line breaks are dropped, and nothing
      else changes, so the literal colour is gone. */
  lemma OneFillReplaced(prefix: string, colour: string, suffix: string)
    requires colour != [] && forall c <- colour :: !IsQuote(c) && !IsLineTerminator(c)
    requires !Contains(prefix, "fill=") && !Contains(suffix, "fill=")
    requires var s := prefix + (FillAttribute(colour) + suffix); !Contains(s, "<svg") && !Contains(s, "</svg")
    ensures CleanupSvg(prefix + (FillAttribute(colour) + suffix))
         == RemoveNewlines(prefix) + (FillPlaceholder + RemoveNewlines(suffix))
  {
    var s := prefix + (FillAttribute(colour) + suffix);
    StripSvgTagsKeepsOtherText(s);
    ReplaceOneFill(prefix, colour, suffix);
    RemoveNewlinesAppend(prefix, FillPlaceholder + suffix);
    RemoveNewlinesAppend(FillPlaceholder, suffix);
    PlaceholderOneLine();
    RemoveNewlinesKeepsOtherText(FillPlaceholder);
  }

  /** A downloaded icon file: an `<svg ...>` element, whose one-line opening
      tag may carry attributes of its own, around markup with one fill
      attribute. Both tags go, the fill becomes the placeholder and the line
      breaks are dropped. */
  lemma WrappedFillReplaced(attributes: string, prefix: string, colour: string, suffix: string)
    requires forall c <- attributes :: c != '>' && !IsLineTerminator(c)
    requires colour != [] && forall c <- colour :: !IsQuote(c) && !IsLineTerminator(c)
    requires !Contains(prefix, "fill=") && !Contains(suffix, "fill=")
    requires var body := prefix + (FillAttribute(colour) + suffix); !Contains(body, "<svg") && !Contains(body, "</svg")
    ensures CleanupSvg("<svg" + attributes + ">" + (prefix + (FillAttribute(colour) + suffix)) + "</svg>")
         == RemoveNewlines(prefix) + (FillPlaceholder + RemoveNewlines(suffix))
  {
    var body := prefix + (FillAttribute(colour) + suffix);
    var file := "<svg" + attributes + ">" + body + "</svg>";
    assert file == "<svg" + attributes + ">" + (body + "</svg>");
    OpeningTagRemoved(attributes, body + "</svg>");
    StripSvgTagsCopiesPrefix(body, "</svg>");
    ClosingTagRemoved("", "");
    assert "</svg" + "" + ">" + "" == "</svg>";
    assert body + [] == body;
    StripSvgTagsKeepsOtherText(body);
    OneFillReplaced(prefix, colour, suffix);
  }

  /** Text in which no svg tag starts is copied unchanged before a `<`: no
      tag can start inside it and run into what follows, because no
      character of `<svg` or `</svg` after the first is a `<`. */
  lemma {:induction false} StripSvgTagsCopiesPrefix(prefix: string, rest: string)
    requires !Contains(prefix, "<svg") && !Contains(prefix, "</svg")
    requires rest != [] && rest[0] == '<'
    ensures StripSvgTags(prefix + rest) == prefix + StripSvgTags(rest)
    decreases |prefix|
  {
    if prefix != [] {
      var s := prefix + rest;
      NoTagAtStart(prefix, rest);
      assert s[1..] == prefix[1..] + rest;
      StripSvgTagsCopiesPrefix(prefix[1..], rest);
      assert prefix == [prefix[0]] + prefix[1..];
    } else {
      assert prefix + rest == rest;
    }
  }

  lemma NoTagAtStart(prefix: string, rest: string)
    requires prefix != [] && !StartsWith(prefix, "<svg") && !StartsWith(prefix, "</svg")
    requires rest != [] && rest[0] == '<'
    ensures !StartsWith(prefix + rest, "<svg") && !StartsWith(prefix + rest, "</svg")
  {
    var s := prefix + rest;
    if |prefix| >= 5 {
      assert s[..4] == prefix[..4];
      assert s[..5] == prefix[..5];
    } else {
      assert s[|prefix|] == '<';
      if |prefix| == 4 {
        assert s[..4] == prefix[..4];
      }
    }
  }

  lemma PlaceholderOneLine()
    ensures '\n' !in FillPlaceholder
  {
  }

  lemma ReplaceOneFill(prefix: string, colour: string, suffix: string)
    requires colour != [] && forall c <- colour :: !IsQuote(c) && !IsLineTerminator(c)
    requires !Contains(prefix, "fill=") && !Contains(suffix, "fill=")
    ensures ReplaceFills(prefix + (FillAttribute(colour) + suffix)) == prefix + (FillPlaceholder + suffix)
  {
    AttributeStartsWithFill(colour, suffix);
    ReplaceFillsCopiesPrefix(prefix, FillAttribute(colour) + suffix);
    FillWithColourReplaced(colour, suffix);
    ReplaceFillsKeepsOtherText(suffix);
  }

  lemma AttributeStartsWithFill(colour: string, suffix: string)
    ensures StartsWith(FillAttribute(colour) + suffix, "fill=")
  {
    assert (FillAttribute(colour) + suffix)[..5] == FillAttribute(colour)[..5];
  }

  /** `fill="<colour>"` */
  function FillAttribute(colour: string): string {
    "fill=" + ['"'] + colour + ['"']
  }

  lemma FillWithColourReplaced(colour: string, suffix: string)
    requires colour != [] && forall c <- colour :: !IsQuote(c) && !IsLineTerminator(c)
    ensures ReplaceFills(FillAttribute(colour) + suffix) == FillPlaceholder + ReplaceFills(suffix)
  {
    assert colour[0] in colour;
    assert forall c <- colour[1..] :: c in colour;
    FillReplaced('"', colour, '"', suffix);
  }
}
