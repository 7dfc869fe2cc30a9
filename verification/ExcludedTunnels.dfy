// Comparing two lists of excluded tunnel ids regardless of order, repetition and stray spaces.
module ExcludedTunnels {
  import opened Text

  /** The ids a list names. */
  ghost function Ids(list: seq<string>): set<string> {
    set s | s in list && TrimSpace(s) != "" :: TrimSpace(s)
  }

  predicate Distinct(list: seq<string>) {
    forall i, j :: 0 <= i < j < |list| ==> list[i] != list[j]
  }

  method Normalize(list: seq<string>) returns (out: seq<string>)
    ensures Distinct(out)
    ensures forall s :: s in out <==> s in Ids(list)
  {
    out := [];
    var seen: set<string> := {};
    for i := 0 to |list|
      invariant Distinct(out) && seen == Ids(list[..i])
      invariant forall s :: s in out <==> s in seen
    {
      assert list[..i + 1] == list[..i] + [list[i]];
      var id := TrimSpace(list[i]);
      if id == "" {
        continue;
      }
      if id in seen {
        continue;
      }
      seen := seen + {id};
      out := out + [id];
    }
    assert list[..|list|] == list;
  }

  lemma {:induction false} DistinctMultiset(list: seq<string>, x: string)
    requires Distinct(list)
    ensures multiset(list)[x] == if x in list then 1 else 0
  {
    if list == [] {
    } else {
      DistinctMultiset(list[1..], x);
      assert list == [list[0]] + list[1..];
    }
  }

  lemma SameIdsSameMultiset(a: seq<string>, b: seq<string>)
    requires Distinct(a) && Distinct(b)
    requires forall s :: s in a <==> s in b
    ensures multiset(a) == multiset(b)
  {
    forall x ensures multiset(a)[x] == multiset(b)[x] {
      DistinctMultiset(a, x);
      DistinctMultiset(b, x);
    }
  }

  lemma SortKeepsIds(a: seq<string>, x: string)
    ensures x in a <==> x in Sort(a)
  {
    assert x in a <==> x in multiset(a);
    assert x in Sort(a) <==> x in multiset(Sort(a));
  }

  /** Two distinct lists sort to the same list exactly when they hold the same ids. */
  lemma SortedEqual(a: seq<string>, b: seq<string>)
    requires Distinct(a) && Distinct(b)
    ensures Sort(a) == Sort(b) <==> forall s :: s in a <==> s in b
  {
    if Sort(a) == Sort(b) {
      forall s ensures s in a <==> s in b {
        SortKeepsIds(a, s);
        SortKeepsIds(b, s);
      }
    } else if forall s :: s in a <==> s in b {
      SameIdsSameMultiset(a, b);
      SortedArrangementUnique(Sort(a), Sort(b));
    }
  }

  method EqualExcluded(a: seq<string>, b: seq<string>) returns (equal: bool)
    ensures equal <==> Ids(a) == Ids(b)
  {
    var an := Normalize(a);
    var bn := Normalize(b);
    SortedEqual(an, bn);
    if |an| != |bn| {
      assert |Sort(an)| != |Sort(bn)|;
      return false;
    }
    an := Sort(an);
    bn := Sort(bn);
    equal := an == bn;
  }
}
