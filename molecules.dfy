/**
 * The `Molecule` record of the CML handler: a mutable object that the
 * handler fills while the molecule element is open, then hands to its parent
 * or to the finished list. `Model` is its value (see Chemistry) and `Repr`
 * the molecule together with every sub-molecule below it.
 */
module Molecules {
  import opened Common
  import opened Strings
  import opened Chemistry

  class Molecule {
    var name: Option<string>
    var atoms: AtomMap
    var submolecules: seq<Molecule>

    ghost var Model: MoleculeValue
    ghost var Repr: set<Molecule>

    /** The sub-molecules form a tree: each owns its own disjoint footprint. */
    ghost predicate Valid()
      reads this, Repr
      ensures Valid() ==> this in Repr
      decreases Repr, 1
    {
      && Model.name == name
      && Model.atoms == atoms
      && Tree(this, submolecules, Model.subs, Repr)
    }

    /** `new Molecule()`: no name, no atoms, no sub-molecules. */
    constructor ()
      ensures Valid() && fresh(this)
      ensures Repr == {this}
      ensures Model == EmptyMolecule
    {
      name := None;
      atoms := map[];
      submolecules := [];
      Model := EmptyMolecule;
      Repr := {this};
    }

    /** `setName`. */
    method SetName(title: string)
      requires Valid()
      modifies this
      ensures Valid() && Repr == old(Repr) && submolecules == old(submolecules)
      ensures Model == old(Model).(name := Some(title))
    {
      name := Some(title);
      Model := Model.(name := Some(title));
    }

    /** `addElement(element, count)`. */
    method AddElementCount(element: string, count: Count)
      requires Valid()
      modifies this
      ensures Valid() && Repr == old(Repr) && submolecules == old(submolecules)
      ensures Model == old(Model).(atoms := AddCount(old(Model).atoms, element, count))
    {
      if element !in atoms {
        atoms := atoms[element := count];
      } else {
        atoms := atoms[element := atoms[element] + count];
      }
      Model := Model.(atoms := atoms);
    }

    /** `addElement(element)`: one more atom of `element`. */
    method AddElement(element: string)
      requires Valid()
      modifies this
      ensures Valid() && Repr == old(Repr) && submolecules == old(submolecules)
      ensures Model == old(Model).(atoms := AddCount(old(Model).atoms, element, 1))
    {
      AddElementCount(element, 1);
    }

    /** `addMolecule`: a finished molecule, not shared with this one, becomes the last sub-molecule. */
    method AddMolecule(molecule: Molecule)
      requires Valid() && molecule.Valid()
      requires Repr !! molecule.Repr
      modifies this
      ensures Valid()
      ensures Repr == old(Repr) + molecule.Repr
      ensures submolecules == old(submolecules) + [molecule]
      ensures Model == old(Model).(subs := old(Model).subs + [molecule.Model])
    {
      TreeAppend(this, submolecules, Model.subs, Repr, molecule);
      submolecules := submolecules + [molecule];
      Model := Model.(subs := Model.subs + [molecule.Model]);
      Repr := Repr + molecule.Repr;
    }

    /** `getAllElements`: one entry per atom, own atoms first, then each sub-molecule's. */
    method GetAllElements() returns (elements: seq<string>)
      requires Valid()
      ensures multiset(elements) == AtomBag(Model)
      decreases Repr
    {
      elements := ExpandAtoms(atoms);
      var k := 0;
      while k < |submolecules|
        invariant 0 <= k <= |submolecules|
        invariant multiset(elements) == SubsAtomBag(Model, k)
      {
        var child := submolecules[k];
        assert child.Valid() && child.Model == Model.subs[k];
        var more := child.GetAllElements();
        elements := elements + more;
        k := k + 1;
      }
    }

    /**
     * `getElementMap`: a copy of the own atoms into which every entry of
     * every sub-molecule's roll-up is added; the own `atoms` stay as they are.
     */
    method GetElementMap() returns (full: AtomMap)
      requires Valid()
      ensures full == ElementMap(Model)
      decreases Repr
    {
      full := atoms;
      var k := 0;
      while k < |submolecules|
        invariant 0 <= k <= |submolecules|
        invariant full == SubsElementMap(Model, k)
      {
        var child := submolecules[k];
        assert child.Valid() && child.Model == Model.subs[k];
        var sub := child.GetElementMap();
        var merged := AddEntries(full, sub);
        assert merged == Merge(full, ElementMap(Model.subs[k]));
        full := merged;
        k := k + 1;
      }
    }

    /** `getFormula`: the rolled-up symbols in ascending order, each with its count when above one. */
    method GetFormula() returns (formula: string)
      requires Valid()
      ensures formula == Formula(ElementMap(Model))
    {
      var full := GetElementMap();
      var keys := SortKeys(full);
      FormulaOfSortedKeys(full, keys);
      formula := Render(keys, full);
    }

    /** `getName`: the name, or the formula when no name was set. */
    method GetName() returns (result: string)
      requires Valid()
      ensures result == Name(Model)
    {
      if name.Some? {
        result := name.value;
      } else {
        result := GetFormula();
      }
    }

    /** `isOrganic`: carbon is among the rolled-up elements, that is, some atom of the tree is carbon. */
    method IsOrganic() returns (organic: bool)
      requires Valid()
      ensures organic <==> "C" in ElementMap(Model)
      ensures organic <==> "C" in AtomBag(Model)
    {
      var full := GetElementMap();
      organic := "C" in full;
      OrganicMeansCarbonAtom(Model);
    }

    /** `getAtomicCategorization`: the size category of the total number of atoms. */
    method GetAtomicCategorization() returns (category: string)
      requires Valid()
      ensures category == Categorization(Total(ElementMap(Model)))
    {
      var all := GetAllElements();
      AtomCountIsTotal(Model);
      category := Categorization(|all|);
    }
  }

  /**
   * `self` heads a tree whose direct sub-molecules are `subs`, with values
   * `models` and footprint `repr`: each sub-molecule is a valid tree inside
   * `repr` that does not contain `self`, and no two of them share a molecule.
   */
  ghost predicate Tree(self: Molecule, subs: seq<Molecule>, models: seq<MoleculeValue>, repr: set<Molecule>)
    reads repr
    decreases repr, 0
  {
    && self in repr
    && |models| == |subs|
    && (forall i :: 0 <= i < |subs| ==>
          && subs[i] in repr
          && subs[i].Repr <= repr
          && self !in subs[i].Repr
          && subs[i].Valid()
          && models[i] == subs[i].Model)
    && (forall i, j :: 0 <= i < j < |subs| ==> subs[i].Repr !! subs[j].Repr)
    && repr == {self} + Footprint(subs)
  }

  /** A separate valid molecule can join the tree as its last sub-molecule. */
  lemma TreeAppend(self: Molecule, subs: seq<Molecule>, models: seq<MoleculeValue>, repr: set<Molecule>, child: Molecule)
    requires Tree(self, subs, models, repr) && child.Valid() && repr !! child.Repr
    ensures Tree(self, subs + [child], models + [child.Model], repr + child.Repr)
  {
    var all := subs + [child];
    assert all[..|subs|] == subs;
    assert child in child.Repr by {
      assert Tree(child, child.submolecules, child.Model.subs, child.Repr);
    }
    forall i | 0 <= i < |subs| ensures subs[i] in subs[i].Repr {
      assert Tree(subs[i], subs[i].submolecules, subs[i].Model.subs, subs[i].Repr);
    }
  }

  /** The molecules of a list together with everything below them. */
  ghost function Footprint(s: seq<Molecule>): set<Molecule>
    reads s
  {
    if s == [] then {} else Footprint(s[..|s| - 1]) + s[|s| - 1].Repr
  }

  /** One entry per atom of `m` (the inner loops of `getAllElements`). */
  method ExpandAtoms(m: AtomMap) returns (elements: seq<string>)
    ensures multiset(elements) == MapBag(m)
  {
    elements := [];
    var pending := m.Keys;
    while pending != {}
      invariant pending <= m.Keys
      invariant forall e :: multiset(elements)[e] == (if e in m && e !in pending then m[e] else 0)
      decreases pending
    {
      var e :| e in pending;
      var i: nat := 0;
      while i < m[e]
        invariant i <= m[e]
        invariant forall x :: (multiset(elements)[x] ==
          if x == e then i else if x in m && x !in pending then m[x] else 0)
      {
        elements := elements + [e];
        i := i + 1;
      }
      pending := pending - {e};
    }
  }

  /** Adds every entry of `sub` to `full` with `addElement(key, value)` (the inner loop of `getElementMap`). */
  method AddEntries(full: AtomMap, sub: AtomMap) returns (result: AtomMap)
    ensures result == Merge(full, sub)
  {
    result := full;
    var pending := sub.Keys;
    while pending != {}
      invariant pending <= sub.Keys
      invariant result.Keys == full.Keys + (sub.Keys - pending)
      invariant forall e :: (CountOf(result, e) ==
        CountOf(full, e) + if e in sub && e !in pending then sub[e] else 0)
      decreases pending
    {
      var e :| e in pending;
      result := AddCount(result, e, sub[e]);
      pending := pending - {e};
    }
    MergeCounts(full, sub);
    MapsAgree(result, Merge(full, sub));
  }

  /** Two atom maps with the same keys and the same counts are equal. */
  lemma MapsAgree(a: AtomMap, b: AtomMap)
    requires a.Keys == b.Keys
    requires forall e :: CountOf(a, e) == CountOf(b, e)
    ensures a == b
  {
    forall e | e in a ensures a[e] == b[e] {
      assert CountOf(a, e) == CountOf(b, e);
    }
  }

  /** Lists the keys of an atom map in ascending `compareTo` order (`sorted` on the entry stream). */
  method SortKeys(m: AtomMap) returns (keys: seq<string>)
    ensures StrictlySorted(keys) && KeySet(keys) == m.Keys
  {
    keys := [];
    var pending := m.Keys;
    while pending != {}
      invariant pending <= m.Keys
      invariant StrictlySorted(keys)
      invariant KeySet(keys) == m.Keys - pending
      decreases pending
    {
      var e :| e in pending;
      assert e in keys ==> e in KeySet(keys);
      keys := Insert(keys, e);
      pending := pending - {e};
    }
  }
}
