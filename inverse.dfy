/**
 * The regrouping: several face groups may be kept for the same element, so
 * name_mapping (group name -> tally) is turned into name_mapping_2
 * (element -> the names of the groups that kept it).
 */
module Inverse {
  import opened Dicts
  import opened Obj
  import opened Votes
  import opened Majority

  /** name_mapping_2, a defaultdict(list): element -> group names. */
  type InverseMapping = Dict<Elem, seq<Name>>

  /** One item of name_mapping once filtered: a group name and the elements kept for it. */
  datatype Item = Item(name: Name, kept: seq<Elem>)

  /** `name_mapping_2[inst].append(name)` */
  function Append(inv: InverseMapping, e: Elem, n: Name): InverseMapping {
    Put(inv, e, Get(inv, e, []) + [n])
  }

  /** n appended for each of the elements es, in order. */
  function AppendAll(inv: InverseMapping, n: Name, es: seq<Elem>): InverseMapping {
    if es == [] then inv else Append(AppendAll(inv, n, es[..|es| - 1]), es[|es| - 1], n)
  }

  /** name_mapping_2 built from the items in order, starting from an empty defaultdict. */
  function Regroup(items: seq<Item>): InverseMapping {
    if items == [] then Empty()
    else
      var last := items[|items| - 1];
      AppendAll(Regroup(items[..|items| - 1]), last.name, last.kept)
  }

  /** The elements kept for the i-th group name of name_mapping. */
  function KeptAt(nm: NameMapping, i: nat): seq<Elem>
    requires i < |nm.keys|
  {
    Kept(Get(nm, nm.keys[i], Empty()))
  }

  /** The first i items of name_mapping.items(), each with its kept elements. */
  function KeptItems(nm: NameMapping, i: nat): seq<Item>
    requires i <= |nm.keys|
  {
    if i == 0 then [] else KeptItems(nm, i - 1) + [Item(nm.keys[i - 1], KeptAt(nm, i - 1))]
  }

  /** name_mapping_2 after the whole loop over name_mapping.items(). */
  function Invert(nm: NameMapping): InverseMapping {
    Regroup(KeptItems(nm, |nm.keys|))
  }

  // ---------------------------------------------------------------------
  // The reference: which items list which element

  /** The names of the items, in order, whose kept elements include e. */
  function Listing(items: seq<Item>, e: Elem): seq<Name> {
    if items == [] then []
    else
      var last := items[|items| - 1];
      Listing(items[..|items| - 1], e) + (if e in last.kept then [last.name] else [])
  }

  /** A name is listed for e exactly when some item with that name keeps e. */
  lemma {:induction false} ListingMembers(items: seq<Item>, e: Elem)
    ensures forall n :: n in Listing(items, e) <==>
      exists k :: 0 <= k < |items| && items[k].name == n && e in items[k].kept
  {
    if items != [] {
      var p := items[..|items| - 1];
      ListingMembers(p, e);
      assert forall k :: 0 <= k < |p| ==> p[k] == items[k];
    }
  }

  /** No two items share a name. */
  predicate NamesDistinct(items: seq<Item>) {
    forall k, l :: 0 <= k < l < |items| ==> items[k].name != items[l].name
  }

  /** With distinct names, no name is listed twice. */
  lemma {:induction false} ListingDistinct(items: seq<Item>, e: Elem)
    requires NamesDistinct(items)
    ensures Distinct(Listing(items, e))
  {
    if items != [] {
      var p, last := items[..|items| - 1], items[|items| - 1];
      assert NamesDistinct(p);
      ListingDistinct(p, e);
      if e in last.kept {
        ListingMembers(p, e);
        assert last.name !in Listing(p, e);
        DistinctSnoc(Listing(p, e), last.name);
      } else {
        assert Listing(items, e) == Listing(p, e) + [];
      }
    }
  }

  // ---------------------------------------------------------------------
  // The regrouping loop against the reference

  lemma AppendAllStep(inv: InverseMapping, n: Name, es: seq<Elem>, j: nat)
    requires j < |es|
    ensures AppendAll(inv, n, es[..j + 1]) == Append(AppendAll(inv, n, es[..j]), es[j], n)
  {
    assert es[..j + 1][..j] == es[..j];
  }

  lemma {:induction false} AppendAllValid(inv: InverseMapping, n: Name, es: seq<Elem>)
    requires Valid(inv)
    ensures Valid(AppendAll(inv, n, es))
  {
    if es != [] {
      AppendAllValid(inv, n, es[..|es| - 1]);
    }
  }

  /** Appending n for distinct elements adds n once to the list of each of them. */
  lemma {:induction false} AppendAllEffect(inv: InverseMapping, n: Name, es: seq<Elem>, e: Elem)
    requires Distinct(es)
    ensures Get(AppendAll(inv, n, es), e, []) == Get(inv, e, []) + (if e in es then [n] else [])
    ensures e in AppendAll(inv, n, es).vals <==> e in inv.vals || e in es
  {
    if es != [] {
      var p, x := es[..|es| - 1], es[|es| - 1];
      assert es == p + [x];
      AppendAllEffect(inv, n, p, e);
      if e == x {
        assert x !in p;
      } else {
        assert e in es <==> e in p;
      }
    } else {
      assert Get(inv, e, []) + [] == Get(inv, e, []);
    }
  }

  lemma {:induction false} RegroupValid(items: seq<Item>)
    ensures Valid(Regroup(items))
  {
    if items != [] {
      var last := items[|items| - 1];
      RegroupValid(items[..|items| - 1]);
      AppendAllValid(Regroup(items[..|items| - 1]), last.name, last.kept);
    }
  }

  /** When every kept list is distinct, the list of e is Listing(items, e). */
  lemma {:induction false} RegroupAt(items: seq<Item>, e: Elem)
    requires forall k :: 0 <= k < |items| ==> Distinct(items[k].kept)
    ensures Get(Regroup(items), e, []) == Listing(items, e)
    ensures e in Regroup(items).vals <==> Listing(items, e) != []
  {
    if items != [] {
      var p, last := items[..|items| - 1], items[|items| - 1];
      assert forall k :: 0 <= k < |p| ==> p[k] == items[k];
      RegroupAt(p, e);
      AppendAllEffect(Regroup(p), last.name, last.kept, e);
    }
  }

  lemma RegroupStep(items: seq<Item>, it: Item)
    ensures Regroup(items + [it]) == AppendAll(Regroup(items), it.name, it.kept)
  {
    assert (items + [it])[..|items|] == items;
  }

  // ---------------------------------------------------------------------
  // name_mapping's items

  /** Group name n has a tally in nm and e is among its kept elements. */
  predicate Keeps(nm: NameMapping, n: Name, e: Elem) {
    n in nm.vals && e in Kept(nm.vals[n])
  }

  /** The k-th item is name_mapping's k-th key with its own kept elements. */
  lemma {:induction false} KeptItemsAt(nm: NameMapping, i: nat)
    requires i <= |nm.keys|
    ensures |KeptItems(nm, i)| == i
    ensures forall k :: 0 <= k < i ==> KeptItems(nm, i)[k] == Item(nm.keys[k], KeptAt(nm, k))
  {
    if i > 0 {
      KeptItemsAt(nm, i - 1);
    }
  }

  lemma KeptAtKeeps(nm: NameMapping, i: nat, e: Elem)
    requires i < |nm.keys|
    ensures e in KeptAt(nm, i) <==> Keeps(nm, nm.keys[i], e)
  {
    if nm.keys[i] !in nm.vals {
      assert KeptAt(nm, i) == Above([], Empty(), 0) == [];
    }
  }

  /** A tally has distinct keys, so the kept list of every item is distinct. */
  lemma KeptAtDistinct(nm: NameMapping)
    requires WellFormed(nm)
    ensures forall i :: 0 <= i < |nm.keys| ==> Distinct(KeptAt(nm, i))
  {
    forall i | 0 <= i < |nm.keys|
      ensures Distinct(KeptAt(nm, i))
    {
      assert nm.keys[i] in nm.keys;
      KeptMembers(nm.vals[nm.keys[i]]);
    }
  }

  /** A group name is an item's name that keeps e exactly when that group keeps e. */
  lemma ItemKeeps(nm: NameMapping, e: Elem, n: Name)
    requires Valid(nm)
    ensures var items := KeptItems(nm, |nm.keys|);
      (exists k :: 0 <= k < |items| && items[k].name == n && e in items[k].kept) <==> Keeps(nm, n, e)
  {
    var items := KeptItems(nm, |nm.keys|);
    KeptItemsAt(nm, |nm.keys|);
    if Keeps(nm, n, e) {
      var k :| 0 <= k < |nm.keys| && nm.keys[k] == n;
      KeptAtKeeps(nm, k, e);
      assert items[k].name == n && e in items[k].kept;
    }
    forall k | 0 <= k < |items| && items[k].name == n && e in items[k].kept
      ensures Keeps(nm, n, e)
    {
      KeptAtKeeps(nm, k, e);
    }
  }

  /** name_mapping's items, filtered, satisfy what RegroupAt and ListingDistinct need. */
  lemma ItemsOf(nm: NameMapping)
    requires WellFormed(nm)
    ensures var items := KeptItems(nm, |nm.keys|);
      NamesDistinct(items) && forall k :: 0 <= k < |items| ==> Distinct(items[k].kept)
  {
    KeptItemsAt(nm, |nm.keys|);
    KeptAtDistinct(nm);
  }

  /**
   * The inversion law: the list of element e holds group name n exactly
   * when n keeps e, holds it once, and lists the names in the order of
   * name_mapping; e is a key exactly when some group keeps it.
   */
  lemma InversionLaw(nm: NameMapping)
    requires WellFormed(nm)
    ensures Valid(Invert(nm))
    ensures forall e :: e in Invert(nm).vals <==> exists n :: Keeps(nm, n, e)
    ensures forall e, n :: n in Get(Invert(nm), e, []) <==> Keeps(nm, n, e)
    ensures forall e :: Distinct(Get(Invert(nm), e, []))
    ensures forall e :: Get(Invert(nm), e, []) == Listing(KeptItems(nm, |nm.keys|), e)
  {
    var items := KeptItems(nm, |nm.keys|);
    RegroupValid(items);
    ItemsOf(nm);
    forall e
      ensures Get(Invert(nm), e, []) == Listing(items, e)
      ensures e in Invert(nm).vals <==> Listing(items, e) != []
      ensures Distinct(Get(Invert(nm), e, []))
      ensures forall n :: n in Listing(items, e) <==> Keeps(nm, n, e)
    {
      RegroupAt(items, e);
      ListingDistinct(items, e);
      ListingMembers(items, e);
      forall n
        ensures n in Listing(items, e) <==> Keeps(nm, n, e)
      {
        ItemKeeps(nm, e, n);
      }
    }
    forall e | e in Invert(nm).vals
      ensures exists n :: Keeps(nm, n, e)
    {
      var n := Listing(items, e)[0];
      assert n in Listing(items, e);
    }
    forall e, n | Keeps(nm, n, e)
      ensures e in Invert(nm).vals
    {
      assert n in Listing(items, e);
    }
  }

  // ---------------------------------------------------------------------
  // The key order of name_mapping_2

  /** The kept lists of the items, one after the other. */
  function Flat(items: seq<Item>): seq<Elem> {
    if items == [] then [] else Flat(items[..|items| - 1]) + items[|items| - 1].kept
  }

  /** The elements of s in the order of their first occurrence, each once. */
  function Firsts(s: seq<Elem>): seq<Elem> {
    if s == [] then []
    else
      var p := Firsts(s[..|s| - 1]);
      if s[|s| - 1] in p then p else p + [s[|s| - 1]]
  }

  /** Firsts lists every element of s, and nothing else. */
  lemma {:induction false} FirstsMembers(s: seq<Elem>)
    ensures forall x :: x in Firsts(s) <==> x in s
  {
    if s != [] {
      var p := s[..|s| - 1];
      FirstsMembers(p);
      assert s == p + [s[|s| - 1]];
    }
  }

  /** A new element becomes the last key; an old one keeps its place. */
  lemma AppendKeys(inv: InverseMapping, e: Elem, n: Name)
    ensures Append(inv, e, n).keys == if e in inv.vals then inv.keys else inv.keys + [e]
  {
  }

  /** One append keeps the keys the first occurrences of the elements seen so far. */
  lemma AppendKeysStep(inv: InverseMapping, e: Elem, n: Name, s: seq<Elem>)
    requires Valid(inv) && inv.keys == Firsts(s)
    ensures Append(inv, e, n).keys == Firsts(s + [e])
  {
    assert e in inv.vals <==> e in inv.keys;
    AppendKeys(inv, e, n);
    assert (s + [e])[..|s|] == s;
  }

  /** Appending for es adds the new elements of es as keys in the order they first occur. */
  lemma {:induction false} AppendAllKeys(inv: InverseMapping, n: Name, es: seq<Elem>, t: seq<Elem>)
    requires Valid(inv) && inv.keys == Firsts(t)
    ensures AppendAll(inv, n, es).keys == Firsts(t + es)
  {
    if es == [] {
      assert t + es == t;
    } else {
      var p, x := es[..|es| - 1], es[|es| - 1];
      AppendAllKeys(inv, n, p, t);
      AppendAllValid(inv, n, p);
      AppendKeysStep(AppendAll(inv, n, p), x, n, t + p);
      assert t + es == (t + p) + [x];
    }
  }

  /** The keys of the regrouping are the kept elements in order of first appearance. */
  lemma {:induction false} RegroupKeys(items: seq<Item>)
    ensures Regroup(items).keys == Firsts(Flat(items))
  {
    if items != [] {
      var p, last := items[..|items| - 1], items[|items| - 1];
      RegroupKeys(p);
      RegroupValid(p);
      AppendAllKeys(Regroup(p), last.name, last.kept, Flat(p));
    }
  }

  /**
   * name_mapping_2's keys, in order (the order enumerate gives them), are
   * the kept elements of name_mapping's groups, group after group, each
   * element at its first appearance.
   */
  lemma InvertKeyOrder(nm: NameMapping)
    ensures Invert(nm).keys == Firsts(Flat(KeptItems(nm, |nm.keys|)))
    ensures forall e :: e in Invert(nm).keys <==> e in Flat(KeptItems(nm, |nm.keys|))
  {
    RegroupKeys(KeptItems(nm, |nm.keys|));
    FirstsMembers(Flat(KeptItems(nm, |nm.keys|)));
  }

  /** `for inst in [...]: name_mapping_2[inst].append(name)` for one group's kept elements. */
  method AppendName(mapping: InverseMapping, name: Name, kept: seq<Elem>) returns (inv: InverseMapping)
    ensures inv == AppendAll(mapping, name, kept)
  {
    inv := mapping;
    var j := 0;
    while j < |kept|
      invariant 0 <= j <= |kept|
      invariant inv == AppendAll(mapping, name, kept[..j])
    {
      AppendAllStep(mapping, name, kept, j);
      ghost var before := inv;
      var names := Get(inv, kept[j], []);
      inv := Put(inv, kept[j], names + [name]);
      assert inv == Append(before, kept[j], name);
      j := j + 1;
    }
    assert kept[..|kept|] == kept;
  }

  /** The loop over name_mapping.items(), with M = max(...) and the kept comprehension per group. */
  method InvertMapping(nm: NameMapping) returns (inv: InverseMapping)
    ensures inv == Invert(nm)
  {
    inv := Empty();
    var i := 0;
    while i < |nm.keys|
      invariant 0 <= i <= |nm.keys|
      invariant inv == Regroup(KeptItems(nm, i))
    {
      var name := nm.keys[i];
      var insts := Get(nm, name, Empty());
      var m := MaxCount(insts);
      var kept := Above(insts.keys, insts, m / 2);
      assert Item(name, kept) == Item(nm.keys[i], KeptAt(nm, i));
      RegroupStep(KeptItems(nm, i), Item(name, kept));
      inv := AppendName(inv, name, kept);
      i := i + 1;
    }
  }
}
