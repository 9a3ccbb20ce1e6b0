/**
 * The value of a molecule record and the roll-up queries on it: the
 * element-to-count map over a molecule and all its sub-molecules, the flat
 * list of its atoms (as a multiset, since only its size and contents are
 * used), the formula, the name, and the size category.
 */
module Chemistry {
  import opened Common
  import opened Strings

  /** An atom count; every entry of an atom map holds at least one atom. */
  type Count = n: int | n >= 1 witness 1

  /** Element symbol to number of atoms (`Map<String, Integer> atoms`). */
  type AtomMap = map<string, Count>

  /** A molecule: optional name, its own atoms, and its direct sub-molecules in document order. */
  datatype MoleculeValue = MoleculeValue(name: Option<string>, atoms: AtomMap, subs: seq<MoleculeValue>)

  /** What `new Molecule()` holds. */
  const EmptyMolecule: MoleculeValue := MoleculeValue(None, map[], [])

  /** The number of atoms of element `e` in `m`, 0 when `e` is absent. */
  function CountOf(m: AtomMap, e: string): nat {
    if e in m then m[e] else 0
  }

  /**
   * `addElement(e, n)`: a new key starts at `n`, an existing one grows by
   * `n`, and every other key keeps its count.
   */
  function AddCount(m: AtomMap, e: string, n: Count): (r: AtomMap)
    ensures r.Keys == m.Keys + {e}
    ensures e !in m ==> r[e] == n
    ensures e in m ==> r[e] == m[e] + n
    ensures forall k :: k in m && k != e ==> r[k] == m[k]
  {
    if e in m then m[e := m[e] + n] else m[e := n]
  }

  /** Key-by-key sum of two atom maps. */
  function Merge(m1: AtomMap, m2: AtomMap): AtomMap
  {
    map k | k in m1.Keys + m2.Keys :: CountOf(m1, k) + CountOf(m2, k)
  }

  /** The merged map has the keys of both, each counted as the sum of its two counts. */
  lemma MergeCounts(m1: AtomMap, m2: AtomMap)
    ensures Merge(m1, m2).Keys == m1.Keys + m2.Keys
    ensures forall k :: CountOf(Merge(m1, m2), k) == CountOf(m1, k) + CountOf(m2, k)
  {
  }

  /** The rolled-up atom map (`getElementMap`): own atoms plus every sub-molecule's roll-up. */
  function ElementMap(v: MoleculeValue): AtomMap
    decreases v, 1
  {
    SubsElementMap(v, |v.subs|)
  }

  /** The own atoms plus the roll-ups of the first `k` sub-molecules. */
  function SubsElementMap(v: MoleculeValue, k: nat): AtomMap
    requires k <= |v.subs|
    decreases v, 0, k
  {
    if k == 0 then v.atoms
    else Merge(SubsElementMap(v, k - 1), ElementMap(v.subs[k - 1]))
  }

  /** The atom map as a multiset of element symbols: each symbol as often as its count. */
  ghost function MapBag(m: AtomMap): (b: multiset<string>)
    ensures forall e :: b[e] == CountOf(m, e)
    decreases |m|
  {
    if m == map[] then multiset{}
    else
      var k :| k in m;
      assert |m - {k}| < |m| by { assert (m - {k}).Keys == m.Keys - {k}; }
      MapBag(m - {k})[k := m[k]]
  }

  /** Every atom of the molecule and of all its sub-molecules (`getAllElements`, order aside). */
  ghost function AtomBag(v: MoleculeValue): multiset<string>
    decreases v, 1
  {
    SubsAtomBag(v, |v.subs|)
  }

  /** The own atoms plus every atom of the first `k` sub-molecules. */
  ghost function SubsAtomBag(v: MoleculeValue, k: nat): multiset<string>
    requires k <= |v.subs|
    decreases v, 0, k
  {
    if k == 0 then MapBag(v.atoms)
    else SubsAtomBag(v, k - 1) + AtomBag(v.subs[k - 1])
  }

  /** The flat atom list and the rolled-up map agree symbol by symbol. */
  lemma {:induction false} AtomBagMatchesElementMap(v: MoleculeValue)
    ensures forall e :: AtomBag(v)[e] == CountOf(ElementMap(v), e)
    decreases v, 1
  {
    SubsAtomBagMatches(v, |v.subs|);
  }

  lemma {:induction false} SubsAtomBagMatches(v: MoleculeValue, k: nat)
    requires k <= |v.subs|
    ensures forall e :: SubsAtomBag(v, k)[e] == CountOf(SubsElementMap(v, k), e)
    decreases v, 0, k
  {
    if k > 0 {
      SubsAtomBagMatches(v, k - 1);
      AtomBagMatchesElementMap(v.subs[k - 1]);
      MergeCounts(SubsElementMap(v, k - 1), ElementMap(v.subs[k - 1]));
    }
  }

  /** Some key of a non-empty atom map. */
  ghost function Pick(m: AtomMap): (k: string)
    requires m != map[]
    ensures k in m
  {
    var k :| k in m; k
  }

  /** The sum of all counts of an atom map. */
  ghost function Total(m: AtomMap): nat
    decreases |m|
  {
    if m == map[] then 0
    else
      var k := Pick(m);
      assert |m - {k}| < |m| by { assert (m - {k}).Keys == m.Keys - {k}; }
      m[k] + Total(m - {k})
  }

  /** A multiset that agrees with an atom map symbol by symbol has the map's total as its size. */
  lemma {:induction false} BagSizeIsTotal(m: AtomMap, b: multiset<string>)
    requires forall e :: b[e] == CountOf(m, e)
    ensures |b| == Total(m)
    decreases |m|
  {
    if m == map[] {
      assert forall e :: b[e] == 0;
      assert b == multiset{};
    } else {
      var k := Pick(m);
      assert |m - {k}| < |m| by { assert (m - {k}).Keys == m.Keys - {k}; }
      var rest := b[k := 0];
      assert forall e :: rest[e] == CountOf(m - {k}, e);
      BagSizeIsTotal(m - {k}, rest);
      assert Total(m) == m[k] + Total(m - {k});
    }
  }

  /** The number of atoms of a molecule (`getAllElements().size()`) is the sum of its rolled-up counts. */
  lemma AtomCountIsTotal(v: MoleculeValue)
    ensures |AtomBag(v)| == Total(ElementMap(v))
  {
    AtomBagMatchesElementMap(v);
    BagSizeIsTotal(ElementMap(v), AtomBag(v));
  }

  /** `isOrganic` looks only at the rolled-up keys: carbon there means a carbon atom somewhere in the tree. */
  lemma OrganicMeansCarbonAtom(v: MoleculeValue)
    ensures "C" in ElementMap(v) <==> "C" in AtomBag(v)
  {
    AtomBagMatchesElementMap(v);
    assert AtomBag(v)["C"] == CountOf(ElementMap(v), "C");
  }

  /** A molecule CO2 with a sub-molecule H2O rolls up to C1 H2 O3. */
  lemma RollUpExample()
    ensures ElementMap(MoleculeValue(None, map["C" := 1, "O" := 2],
                                     [MoleculeValue(None, map["H" := 2, "O" := 1], [])]))
            == map["C" := 1, "O" := 3, "H" := 2]
  {
    var sub := MoleculeValue(None, map["H" := 2, "O" := 1], []);
    var v := MoleculeValue(None, map["C" := 1, "O" := 2], [sub]);
    assert ElementMap(sub) == map["H" := 2, "O" := 1] by {
      assert ElementMap(sub) == SubsElementMap(sub, 0);
    }
    assert ElementMap(v) == Merge(map["C" := 1, "O" := 2], ElementMap(sub)) by {
      assert ElementMap(v) == SubsElementMap(v, 1);
      assert SubsElementMap(v, 0) == v.atoms;
    }
    MergeExample();
  }

  lemma MergeExample()
    ensures Merge(map["C" := 1, "O" := 2], map["H" := 2, "O" := 1]) == map["C" := 1, "O" := 3, "H" := 2]
  {
    var r := Merge(map["C" := 1, "O" := 2], map["H" := 2, "O" := 1]);
    assert r.Keys == {"C", "O", "H"};
    assert r["C"] == 1 && r["O"] == 3 && r["H"] == 2;
  }

  // ----- formula -----

  /** Strictly ascending in `compareTo` order (hence without repetitions). */
  predicate StrictlySorted(ks: seq<string>) {
    forall i, j :: 0 <= i < j < |ks| ==> LexLess(ks[i], ks[j])
  }

  /** The keys listed in `ks`. */
  function KeySet(ks: seq<string>): set<string> {
    set x | x in ks
  }

  /** Inserts a new key into a strictly sorted list of keys. */
  function Insert(ks: seq<string>, k: string): (r: seq<string>)
    requires StrictlySorted(ks) && k !in ks
    ensures StrictlySorted(r)
    ensures KeySet(r) == KeySet(ks) + {k}
    ensures |r| == |ks| + 1
  {
    if ks == [] then [k]
    else if LexLess(k, ks[0]) then
      assert forall j :: 0 < j < |ks| ==> LexLess(k, ks[j]) by {
        forall j | 0 < j < |ks| ensures LexLess(k, ks[j]) {
          LexLessTransitive(k, ks[0], ks[j]);
        }
      }
      [k] + ks
    else
      LexLessTotal(k, ks[0]);
      var tail := Insert(ks[1..], k);
      var r := [ks[0]] + tail;
      assert forall j :: 0 <= j < |tail| ==> LexLess(ks[0], tail[j]) by {
        forall j | 0 <= j < |tail| ensures LexLess(ks[0], tail[j]) {
          assert tail[j] in KeySet(tail);
          if tail[j] != k {
            assert tail[j] in KeySet(ks[1..]);
            var i :| 0 <= i < |ks[1..]| && ks[1..][i] == tail[j];
            assert LexLess(ks[0], ks[i + 1]);
          }
        }
      }
      assert ks == [ks[0]] + ks[1..];
      r
  }

  /** The keys of a set in ascending order. */
  ghost function SortedKeys(s: set<string>): (r: seq<string>)
    ensures StrictlySorted(r) && KeySet(r) == s
    decreases |s|
  {
    if s == {} then []
    else
      var k :| k in s;
      var rest := SortedKeys(s - {k});
      assert k in rest ==> k in KeySet(rest);
      Insert(rest, k)
  }

  lemma KeySetHead(a: seq<string>)
    ensures a != [] ==> a[0] in KeySet(a)
  {
  }

  /** In a strictly sorted list, the head is below every later element. */
  lemma HeadIsLeast(a: seq<string>, x: string)
    requires StrictlySorted(a) && a != [] && x in a
    ensures x == a[0] || LexLess(a[0], x)
  {
    var i :| 0 <= i < |a| && a[i] == x;
  }

  /** A strictly sorted list is determined by its elements. */
  lemma {:induction false} SortedUnique(a: seq<string>, b: seq<string>)
    requires StrictlySorted(a) && StrictlySorted(b)
    requires KeySet(a) == KeySet(b)
    ensures a == b
  {
    KeySetHead(a);
    KeySetHead(b);
    if a != [] {
      assert a[0] in KeySet(b) && b[0] in KeySet(a);
      assert a[0] == b[0] by {
        HeadIsLeast(a, b[0]);
        HeadIsLeast(b, a[0]);
        if a[0] != b[0] {
          LexLessAsymmetric(a[0], b[0]);
        }
      }
      assert KeySet(a[1..]) == KeySet(b[1..]) by {
        forall x ensures x in a[1..] <==> x in b[1..] {
          LexLessIrreflexive(a[0]);
          if x in a[1..] {
            var i :| 0 <= i < |a[1..]| && a[1..][i] == x;
            assert LexLess(a[0], a[i + 1]);
            assert x in KeySet(a);
          }
          if x in b[1..] {
            var i :| 0 <= i < |b[1..]| && b[1..][i] == x;
            assert LexLess(b[0], b[i + 1]);
            assert x in KeySet(b);
          }
        }
      }
      SortedUnique(a[1..], b[1..]);
      assert a == [a[0]] + a[1..] && b == [b[0]] + b[1..];
    }
  }

  /** One formula term: the symbol, then the count only when it exceeds one. */
  function Term(symbol: string, count: Count): string {
    symbol + (if count > 1 then Decimal(count) else "")
  }

  /** The terms of the listed keys, concatenated (`joining("")`). */
  function Render(ks: seq<string>, m: AtomMap): string
    requires forall i :: 0 <= i < |ks| ==> ks[i] in m
  {
    if ks == [] then "" else Term(ks[0], m[ks[0]]) + Render(ks[1..], m)
  }

  /** `getFormula` on a rolled-up map: its terms in ascending symbol order. */
  ghost function Formula(m: AtomMap): string {
    var ks := SortedKeys(m.Keys);
    assert forall i :: 0 <= i < |ks| ==> ks[i] in KeySet(ks);
    Render(ks, m)
  }

  /** Any ascending listing of the keys gives the formula. */
  lemma FormulaOfSortedKeys(m: AtomMap, ks: seq<string>)
    requires StrictlySorted(ks) && KeySet(ks) == m.Keys
    ensures forall i :: 0 <= i < |ks| ==> ks[i] in m
    ensures Formula(m) == Render(ks, m)
  {
    assert forall i :: 0 <= i < |ks| ==> ks[i] in KeySet(ks);
    SortedUnique(ks, SortedKeys(m.Keys));
  }

  /** The formula of the rolled-up example: symbols sorted, counts of one left out. */
  lemma FormulaExample()
    ensures Formula(map["C" := 1, "O" := 3, "H" := 2]) == "CH2O3"
  {
    var m: AtomMap := map["C" := 1, "O" := 3, "H" := 2];
    var ks := ["C", "H", "O"];
    ExampleKeysSorted();
    assert KeySet(ks) == m.Keys;
    FormulaOfSortedKeys(m, ks);
    ExampleRender(m);
  }

  lemma ExampleKeysSorted()
    ensures StrictlySorted(["C", "H", "O"])
  {
    assert LexLess("C", "H") && LexLess("H", "O") && LexLess("C", "O");
  }

  lemma ExampleRender(m: AtomMap)
    requires m == map["C" := 1, "O" := 3, "H" := 2]
    ensures Render(["C", "H", "O"], m) == "CH2O3"
  {
    assert Term("C", 1) == "C";
    assert Term("H", 2) == "H2" by { assert Decimal(2) == "2"; }
    assert Term("O", 3) == "O3" by { assert Decimal(3) == "3"; }
    var ks := ["C", "H", "O"];
    assert ks[1..] == ["H", "O"] && ks[1..][1..] == ["O"] && ks[1..][1..][1..] == [];
    assert Render(["O"], m) == "O3";
    assert Render(["H", "O"], m) == "H2O3";
  }

  /** `getName`: the name set from the formula title, else the formula. */
  ghost function Name(v: MoleculeValue): string {
    match v.name
    case Some(n) => n
    case None => Formula(ElementMap(v))
  }

  /** `getAtomicCategorization` for a total of `n` atoms. */
  function Categorization(n: nat): (r: string)
    ensures r == "" <==> n == 0
  {
    if n == 1 then "monatomic"
    else if n == 2 then "diatomic"
    else if n == 3 then "triatomic"
    else if n > 3 then "polyatomic"
    else ""
  }

  /** Two totals share a category exactly when they are equal or both above three. */
  lemma CategorizationSeparates(n: nat, m: nat)
    ensures Categorization(n) == Categorization(m) <==> n == m || (n > 3 && m > 3)
  {
  }

  /** The number of molecule records in a tree: the molecule and all molecules below it. */
  function Records(v: MoleculeValue): nat
    decreases v, 1
  {
    1 + SubsRecords(v, |v.subs|)
  }

  /** The records below the first `k` sub-molecules. */
  function SubsRecords(v: MoleculeValue, k: nat): nat
    requires k <= |v.subs|
    decreases v, 0, k
  {
    if k == 0 then 0 else SubsRecords(v, k - 1) + Records(v.subs[k - 1])
  }

  /** The records of a list of trees. */
  function ForestRecords(vs: seq<MoleculeValue>): nat {
    if vs == [] then 0 else ForestRecords(vs[..|vs| - 1]) + Records(vs[|vs| - 1])
  }

  /** Appending a tree to a list adds its records. */
  lemma ForestRecordsAppend(vs: seq<MoleculeValue>, v: MoleculeValue)
    ensures ForestRecords(vs + [v]) == ForestRecords(vs) + Records(v)
  {
    assert (vs + [v])[..|vs|] == vs;
  }

  /** Attaching `child` as the last sub-molecule of `parent` adds exactly the child's records. */
  lemma AdoptAddsRecords(parent: MoleculeValue, child: MoleculeValue)
    ensures Records(parent.(subs := parent.subs + [child])) == Records(parent) + Records(child)
  {
    var adopted := parent.(subs := parent.subs + [child]);
    SubsRecordsPrefix(parent, adopted, |parent.subs|);
  }

  /** The number of records depends only on the sub-molecules, not on the name or the atoms. */
  lemma RecordsIgnoreContents(v: MoleculeValue, w: MoleculeValue)
    requires v.subs == w.subs
    ensures Records(v) == Records(w)
  {
    SubsRecordsPrefix(v, w, |v.subs|);
  }

  lemma {:induction false} SubsRecordsPrefix(v: MoleculeValue, w: MoleculeValue, k: nat)
    requires k <= |v.subs| <= |w.subs| && v.subs == w.subs[..|v.subs|]
    ensures SubsRecords(v, k) == SubsRecords(w, k)
  {
    if k > 0 {
      SubsRecordsPrefix(v, w, k - 1);
    }
  }
}
