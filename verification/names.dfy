/** Icon-name normalisation: `capitalize` and `normalizeName` of the fetch-icons
    scripts. A Figma layer name such as "arrow-left" is split on every `_` and
    `-`, the first character of every segment is upper-cased and the segments
    are joined again, giving "ArrowLeft". Upper-casing is restricted to ASCII. */
module Names {

  predicate IsSeparator(c: char) {
    c == '_' || c == '-'
  }

  /** `toUpperCase` on one ASCII character; every other character is kept. */
  function Upper(c: char): (u: char)
    ensures IsSeparator(u) <==> IsSeparator(c)
    ensures 'a' <= c <= 'z' ==> 'A' <= u <= 'Z' && u as int == c as int - 32
    ensures !('a' <= c <= 'z') ==> u == c
  {
    if 'a' <= c <= 'z' then (c as int - 32) as char else c
  }

  lemma UpperIdempotent(c: char)
    ensures Upper(Upper(c)) == Upper(c)
  {
  }

  /** `capitalize`: the first character upper-cased, the rest kept; "" stays "". */
  function Capitalize(s: string): (r: string)
    ensures |r| == |s|
    ensures s != [] ==> r[0] == Upper(s[0]) && r[1..] == s[1..]
  {
    if s == [] then [] else [Upper(s[0])] + s[1..]
  }

  /** `name.split(/[_-]/)`: the segments between separators, empty ones
      included, so a string with k separators has k + 1 segments. */
  function Split(s: string): (parts: seq<string>)
    ensures |parts| == CountSeparators(s) + 1
    ensures forall p <- parts :: forall c <- p :: !IsSeparator(c)
  {
    if s == [] then [""]
    else if IsSeparator(s[0]) then [""] + Split(s[1..])
    else
      var rest := Split(s[1..]);
      assert rest[0] in rest;
      assert forall p <- rest[1..] :: p in rest;
      [[s[0]] + rest[0]] + rest[1..]
  }

  /** The segments are exactly the text between the separators: putting the
      separators back between them gives the name again. */
  lemma {:induction false} SplitRejoin(s: string)
    ensures Rejoin(Split(s), Separators(s)) == s
    decreases |s|
  {
    if s != [] {
      var rest := Split(s[1..]);
      SplitRejoin(s[1..]);
      if IsSeparator(s[0]) {
        assert Separators(s) == [s[0]] + Separators(s[1..]);
        assert Split(s)[1..] == rest;
      } else {
        assert Separators(s) == Separators(s[1..]);
        RejoinCons(s[0], rest, Separators(s[1..]));
      }
      assert s == [s[0]] + s[1..];
    }
  }

  /** The separators of `s`, in order. */
  function Separators(s: string): (seps: string)
    ensures |seps| == CountSeparators(s)
    ensures forall c <- seps :: IsSeparator(c)
  {
    if s == [] then [] else (if IsSeparator(s[0]) then [s[0]] else []) + Separators(s[1..])
  }

  /** The segments `parts` joined again with `seps[k]` between segment k and
      segment k + 1. */
  function Rejoin(parts: seq<string>, seps: string): string
    requires |parts| == |seps| + 1
    decreases |seps|
  {
    if seps == [] then parts[0] else parts[0] + [seps[0]] + Rejoin(parts[1..], seps[1..])
  }

  /** Putting a character in front of the first segment puts it in front of
      the rejoined text. */
  lemma RejoinCons(c: char, parts: seq<string>, seps: string)
    requires |parts| == |seps| + 1
    ensures Rejoin([[c] + parts[0]] + parts[1..], seps) == [c] + Rejoin(parts, seps)
  {
    var moved := [[c] + parts[0]] + parts[1..];
    assert moved[1..] == parts[1..];
  }

  /** `.map((x) => capitalize(x)).join("")` */
  function JoinCapitalized(parts: seq<string>): string {
    if parts == [] then [] else Capitalize(parts[0]) + JoinCapitalized(parts[1..])
  }

  function NormalizeName(name: string): string {
    JoinCapitalized(Split(name))
  }

  /** Reference definition, one character at a time: separators are dropped
      and a character is upper-cased exactly when it starts a segment, that
      is when it is the first character or follows a separator. */
  function Pascal(s: string, atSegmentStart: bool): (r: string)
    ensures forall c <- r :: !IsSeparator(c)
    ensures atSegmentStart && r != [] ==> Upper(r[0]) == r[0]
  {
    UpperIdempotent(if s == [] then 'a' else s[0]);
    if s == [] then []
    else if IsSeparator(s[0]) then Pascal(s[1..], true)
    else [if atSegmentStart then Upper(s[0]) else s[0]] + Pascal(s[1..], false)
  }

  lemma {:induction false} SplitPascal(s: string, atSegmentStart: bool)
    ensures var parts := Split(s);
      Pascal(s, atSegmentStart)
      == (if atSegmentStart then Capitalize(parts[0]) else parts[0]) + JoinCapitalized(parts[1..])
    decreases |s|
  {
    if s == [] {
    } else if IsSeparator(s[0]) {
      var rest := Split(s[1..]);
      SplitPascal(s[1..], true);
      assert Split(s)[1..] == rest;
      assert JoinCapitalized(rest) == Capitalize(rest[0]) + JoinCapitalized(rest[1..]);
    } else {
      var rest := Split(s[1..]);
      SplitPascal(s[1..], false);
      assert Split(s)[0] == [s[0]] + rest[0];
      assert Split(s)[1..] == rest[1..];
    }
  }

  /** normalizeName agrees with the character-by-character reference. */
  lemma NormalizeNameIsPascal(name: string)
    ensures NormalizeName(name) == Pascal(name, true)
  {
    var parts := Split(name);
    SplitPascal(name, true);
    assert JoinCapitalized(parts) == Capitalize(parts[0]) + JoinCapitalized(parts[1..]);
  }

  /** The normalised name contains neither `_` nor `-`. */
  lemma NormalizeNameHasNoSeparator(name: string)
    ensures forall c <- NormalizeName(name) :: !IsSeparator(c)
  {
    NormalizeNameIsPascal(name);
  }

  /** The normalised name is the input with every separator removed: its
      length is the number of non-separator characters. */
  lemma {:induction false} PascalLength(s: string, atSegmentStart: bool)
    ensures |Pascal(s, atSegmentStart)| == |s| - CountSeparators(s)
    decreases |s|
  {
    if s != [] {
      PascalLength(s[1..], IsSeparator(s[0]));
    }
  }

  function CountSeparators(s: string): nat {
    if s == [] then 0 else (if IsSeparator(s[0]) then 1 else 0) + CountSeparators(s[1..])
  }

  lemma {:induction false} PascalOfSeparatorFree(s: string)
    requires forall c <- s :: !IsSeparator(c)
    ensures Pascal(s, false) == s
    decreases |s|
  {
    if s != [] {
      assert s[0] in s;
      assert forall c <- s[1..] :: c in s;
      PascalOfSeparatorFree(s[1..]);
    }
  }

  /** Normalising a normalised name changes nothing. */
  lemma NormalizeNameIdempotent(name: string)
    ensures NormalizeName(NormalizeName(name)) == NormalizeName(name)
  {
    var r := NormalizeName(name);
    NormalizeNameIsPascal(name);
    NormalizeNameIsPascal(r);
    if r != [] {
      assert forall c <- r[1..] :: c in r;
      PascalOfSeparatorFree(r[1..]);
      assert r == [r[0]] + r[1..];
    }
  }

  /** A separator ends one segment and starts the next. */
  lemma {:induction false} PascalAcrossSeparator(a: string, sep: char, b: string, atSegmentStart: bool)
    requires forall c <- a :: !IsSeparator(c)
    requires IsSeparator(sep)
    ensures Pascal(a + [sep] + b, atSegmentStart) == Pascal(a, atSegmentStart) + Pascal(b, true)
    decreases |a|
  {
    if a == [] {
      assert a + [sep] + b == [sep] + b;
      assert ([sep] + b)[1..] == b;
    } else {
      assert a[0] in a;
      assert forall c <- a[1..] :: c in a;
      assert (a + [sep] + b)[1..] == a[1..] + [sep] + b;
      PascalAcrossSeparator(a[1..], sep, b, false);
    }
  }

  lemma PascalOfWord(w: string)
    requires w != []
    requires forall c <- w :: !IsSeparator(c)
    ensures Pascal(w, true) == Capitalize(w)
  {
    assert w[0] in w;
    assert forall c <- w[1..] :: c in w;
    PascalOfSeparatorFree(w[1..]);
  }

  /** Two examples: "arrow-left" gives "ArrowLeft" and "arrow_right" gives
      "ArrowRight". */
  lemma NormalizeArrowLeft()
    ensures NormalizeName("arrow-left") == "ArrowLeft"
  {
    TwoWords("arrow", '-', "left");
    assert "arrow" + ['-'] + "left" == "arrow-left";
    assert Capitalize("arrow") + Capitalize("left") == "ArrowLeft";
  }

  lemma NormalizeArrowRight()
    ensures NormalizeName("arrow_right") == "ArrowRight"
  {
    TwoWords("arrow", '_', "right");
    assert "arrow" + ['_'] + "right" == "arrow_right";
    assert Capitalize("arrow") + Capitalize("right") == "ArrowRight";
  }

  lemma TwoWords(a: string, sep: char, b: string)
    requires a != [] && b != []
    requires forall c <- a :: !IsSeparator(c)
    requires forall c <- b :: !IsSeparator(c)
    requires IsSeparator(sep)
    ensures NormalizeName(a + [sep] + b) == Capitalize(a) + Capitalize(b)
  {
    NormalizeNameIsPascal(a + [sep] + b);
    PascalAcrossSeparator(a, sep, b, true);
    PascalOfWord(a);
    PascalOfWord(b);
  }
}
