/** `iconsData.sort((a, b) => a.name.localeCompare(b.name))`: the resolved
    icons ordered by name. `Array.prototype.sort` is stable, so icons with the
    same name keep their order. The collation is modelled as ordinal order on
    the characters (Unicode scalar values) of the names. */
module Sorting {

  /** One element of `iconsData`: the icon's download URL and its name. */
  datatype IconEntry = IconEntry(url: string, name: string)

  /** Ordinal string order: `a` comes first when it is a proper prefix of `b`
      or has the smaller character at the first place they differ. */
  predicate StrLess(a: string, b: string) {
    if a == [] then b != []
    else if b == [] then false
    else if a[0] != b[0] then a[0] < b[0]
    else StrLess(a[1..], b[1..])
  }

  lemma {:induction false} StrLessIrreflexive(a: string)
    ensures !StrLess(a, a)
    decreases |a|
  {
    if a != [] {
      StrLessIrreflexive(a[1..]);
    }
  }

  lemma {:induction false} StrLessTransitive(a: string, b: string, c: string)
    requires StrLess(a, b) && StrLess(b, c)
    ensures StrLess(a, c)
    decreases |a|
  {
    if a != [] && a[0] == b[0] && b[0] == c[0] {
      StrLessTransitive(a[1..], b[1..], c[1..]);
    }
  }

  lemma {:induction false} StrLessAsymmetric(a: string, b: string)
    requires StrLess(a, b)
    ensures !StrLess(b, a)
    decreases |a|
  {
    if a != [] && a[0] == b[0] {
      StrLessAsymmetric(a[1..], b[1..]);
    }
  }

  /** Any two different names are ordered one way or the other. */
  lemma {:induction false} StrLessTotal(a: string, b: string)
    ensures a == b || StrLess(a, b) || StrLess(b, a)
    decreases |a|
  {
    if a != [] && b != [] && a[0] == b[0] {
      StrLessTotal(a[1..], b[1..]);
      if a[1..] == b[1..] {
        assert a == [a[0]] + a[1..] && b == [b[0]] + b[1..];
      }
    }
  }

  /** `a` may come before `b`: not strictly after it. */
  predicate NameLeq(a: IconEntry, b: IconEntry) {
    !StrLess(b.name, a.name)
  }

  lemma NameLeqTransitive(a: IconEntry, b: IconEntry, c: IconEntry)
    requires NameLeq(a, b) && NameLeq(b, c)
    ensures NameLeq(a, c)
  {
    StrLessTotal(a.name, b.name);
    StrLessTotal(b.name, c.name);
    if a.name != b.name && b.name != c.name {
      StrLessTransitive(a.name, b.name, c.name);
      StrLessAsymmetric(a.name, c.name);
    }
  }

  ghost predicate SortedByName(xs: seq<IconEntry>) {
    forall i, j | 0 <= i < j < |xs| :: NameLeq(xs[i], xs[j])
  }

  /** Insertion from the right: `e` goes after every element it does not
      precede strictly, so it lands after entries with an equal name. */
  function Insert(xs: seq<IconEntry>, e: IconEntry): (r: seq<IconEntry>)
    ensures |r| == |xs| + 1
  {
    if xs == [] then [e]
    else if StrLess(e.name, xs[|xs| - 1].name) then Insert(xs[..|xs| - 1], e) + [xs[|xs| - 1]]
    else xs + [e]
  }

  /** The order the sort leaves `iconsData` in. */
  function SortByName(xs: seq<IconEntry>): (r: seq<IconEntry>)
    ensures |r| == |xs|
  {
    if xs == [] then [] else Insert(SortByName(xs[..|xs| - 1]), xs[|xs| - 1])
  }

  lemma {:induction false} InsertPermutes(xs: seq<IconEntry>, e: IconEntry)
    ensures multiset(Insert(xs, e)) == multiset(xs) + multiset{e}
    decreases |xs|
  {
    if xs != [] && StrLess(e.name, xs[|xs| - 1].name) {
      InsertPermutes(xs[..|xs| - 1], e);
      assert xs == xs[..|xs| - 1] + [xs[|xs| - 1]];
    }
  }

  /** The sort only reorders: every entry is kept, none is added. */
  lemma {:induction false} SortPermutes(xs: seq<IconEntry>)
    ensures multiset(SortByName(xs)) == multiset(xs)
    decreases |xs|
  {
    if xs != [] {
      SortPermutes(xs[..|xs| - 1]);
      InsertPermutes(SortByName(xs[..|xs| - 1]), xs[|xs| - 1]);
      assert xs == xs[..|xs| - 1] + [xs[|xs| - 1]];
    }
  }

  lemma {:induction false} InsertSorted(xs: seq<IconEntry>, e: IconEntry)
    requires SortedByName(xs)
    ensures SortedByName(Insert(xs, e))
    decreases |xs|
  {
    if xs != [] {
      var init, last := xs[..|xs| - 1], xs[|xs| - 1];
      if StrLess(e.name, last.name) {
        InsertSorted(init, e);
        var r := Insert(init, e) + [last];
        InsertMembers(init, e);
        forall i, j | 0 <= i < j < |r| ensures NameLeq(r[i], r[j]) {
          if j == |r| - 1 {
            if r[i] == e {
              StrLessAsymmetric(e.name, last.name);
            } else {
              assert r[i] in init;
              var k :| 0 <= k < |init| && init[k] == r[i];
              assert NameLeq(xs[k], xs[|xs| - 1]);
            }
          }
        }
      } else {
        var r := xs + [e];
        forall i, j | 0 <= i < j < |r| ensures NameLeq(r[i], r[j]) {
          if j == |r| - 1 {
            if i < |xs| - 1 {
              assert NameLeq(xs[i], last);
              NameLeqTransitive(xs[i], last, e);
            }
          }
        }
      }
    }
  }

  lemma {:induction false} InsertMembers(xs: seq<IconEntry>, e: IconEntry)
    ensures forall x <- Insert(xs, e) :: x == e || x in xs
    decreases |xs|
  {
    if xs != [] && StrLess(e.name, xs[|xs| - 1].name) {
      InsertMembers(xs[..|xs| - 1], e);
    }
  }

  /** After the sort no entry's name comes after the name of an entry that
      follows it. */
  lemma {:induction false} SortSorted(xs: seq<IconEntry>)
    ensures SortedByName(SortByName(xs))
    decreases |xs|
  {
    if xs != [] {
      SortSorted(xs[..|xs| - 1]);
      InsertSorted(SortByName(xs[..|xs| - 1]), xs[|xs| - 1]);
    }
  }

  /** The entries of `xs` that carry the name `n`, in order. */
  function WithName(xs: seq<IconEntry>, n: string): seq<IconEntry> {
    if xs == [] then []
    else WithName(xs[..|xs| - 1], n) + (if xs[|xs| - 1].name == n then [xs[|xs| - 1]] else [])
  }

  lemma {:induction false} WithNameAppend(xs: seq<IconEntry>, ys: seq<IconEntry>, n: string)
    ensures WithName(xs + ys, n) == WithName(xs, n) + WithName(ys, n)
    decreases |ys|
  {
    if ys == [] {
      assert xs + ys == xs;
    } else {
      assert (xs + ys)[..|xs + ys| - 1] == xs + ys[..|ys| - 1];
      WithNameAppend(xs, ys[..|ys| - 1], n);
    }
  }

  lemma {:induction false} InsertStable(xs: seq<IconEntry>, e: IconEntry, n: string)
    ensures WithName(Insert(xs, e), n) == WithName(xs, n) + WithName([e], n)
    decreases |xs|
  {
    if xs == [] {
      assert [e][..0] == [];
    } else {
      var init, last := xs[..|xs| - 1], xs[|xs| - 1];
      assert [e][..0] == [];
      StrLessIrreflexive(e.name);
      if StrLess(e.name, last.name) {
        InsertStable(init, e, n);
        WithNameAppend(Insert(init, e), [last], n);
        assert [last][..0] == [];
      } else {
        WithNameAppend(xs, [e], n);
      }
    }
  }

  /** The sort is stable: entries with the same name keep their relative order. */
  lemma {:induction false} SortStable(xs: seq<IconEntry>, n: string)
    ensures WithName(SortByName(xs), n) == WithName(xs, n)
    decreases |xs|
  {
    if xs != [] {
      var init, last := xs[..|xs| - 1], xs[|xs| - 1];
      SortStable(init, n);
      InsertStable(SortByName(init), last, n);
      assert [last][..0] == [];
    }
  }

  /** No two entries of `m` are equal or share a name. */
  ghost predicate UniqueNames(m: multiset<IconEntry>) {
    && (forall e | e in m :: m[e] == 1)
    && (forall e1, e2 | e1 in m && e2 in m && e1.name == e2.name :: e1 == e2)
  }

  /** Two lists sorted by name with the same entries, no two of which share
      a name, are the same list. */
  lemma {:induction false} SortedUnique(a: seq<IconEntry>, b: seq<IconEntry>)
    requires SortedByName(a) && SortedByName(b)
    requires multiset(a) == multiset(b) && UniqueNames(multiset(a))
    ensures a == b
    decreases |a|
  {
    if a != [] {
      SameFirst(a, b);
      UniqueTail(a);
      SameTails(a, b);
      SortedUnique(a[1..], b[1..]);
      assert a == [a[0]] + a[1..] && b == [b[0]] + b[1..];
    }
  }

  /** Such lists start with the same entry: the entry with the least name. */
  lemma SameFirst(a: seq<IconEntry>, b: seq<IconEntry>)
    requires a != []
    requires SortedByName(a) && SortedByName(b)
    requires multiset(a) == multiset(b) && UniqueNames(multiset(a))
    ensures b != [] && a[0] == b[0]
  {
    assert |b| == |multiset(b)| == |a|;
    assert b[0] in multiset(a);
    var i :| 0 <= i < |a| && a[i] == b[0];
    assert a[0] in multiset(b);
    var j :| 0 <= j < |b| && b[j] == a[0];
    if i != 0 {
      assert NameLeq(a[0], a[i]);
      if j != 0 {
        assert NameLeq(b[0], b[j]);
        StrLessTotal(a[0].name, b[0].name);
      }
    }
  }

  /** With the same first entry, the rests hold the same entries and are sorted. */
  lemma SameTails(a: seq<IconEntry>, b: seq<IconEntry>)
    requires a != [] && b != [] && a[0] == b[0]
    requires SortedByName(a) && SortedByName(b) && multiset(a) == multiset(b)
    ensures multiset(a[1..]) == multiset(b[1..])
    ensures SortedByName(a[1..]) && SortedByName(b[1..])
  {
    DropFirst(a);
    DropFirst(b);
  }

  lemma DropFirst(a: seq<IconEntry>)
    requires a != []
    ensures multiset(a[1..]) == multiset(a) - multiset{a[0]}
  {
    assert a == [a[0]] + a[1..];
    assert multiset(a) == multiset{a[0]} + multiset(a[1..]);
  }

  lemma UniqueTail(a: seq<IconEntry>)
    requires a != [] && UniqueNames(multiset(a))
    ensures UniqueNames(multiset(a[1..]))
  {
    assert a == [a[0]] + a[1..];
    var m := multiset(a[1..]);
    assert forall e | e in m :: e in multiset(a) && m[e] <= multiset(a)[e];
  }

  /** When no two icons share a name, the sorted `iconsData` does not depend
      on the order in which the replies listed them. */
  lemma SortUnique(xs: seq<IconEntry>, ys: seq<IconEntry>)
    requires multiset(xs) == multiset(ys) && UniqueNames(multiset(xs))
    ensures SortByName(xs) == SortByName(ys)
  {
    SortPermutes(xs);
    SortPermutes(ys);
    SortSorted(xs);
    SortSorted(ys);
    SortedUnique(SortByName(xs), SortByName(ys));
  }

  /** With a shared name the reply order does show through: two icons named
      alike keep whichever order they arrived in. */
  lemma SharedNameKeepsReplyOrder()
    ensures var first, second := IconEntry("a.svg", "Home"), IconEntry("b.svg", "Home");
      && SortByName([first, second]) == [first, second]
      && SortByName([second, first]) == [second, first]
  {
    StrLessIrreflexive("Home");
    var first, second := IconEntry("a.svg", "Home"), IconEntry("b.svg", "Home");
    assert [first, second][..1] == [first];
    assert [second, first][..1] == [second];
  }
}
