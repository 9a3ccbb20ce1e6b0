/**
 * `CMLHandler`: the content handler that assembles molecule records from
 * the element events of a CML document. A `molecule` element opens a new
 * record on the record stack; closing it hands the record to the record
 * below it on the stack, or to the finished list when no record is left
 * open. Formula titles and atoms are attached to the innermost open record.
 */
module CmlHandler {
  import opened Common
  import opened Strings
  import opened Paths
  import opened Chemistry
  import opened Molecules
  import opened Selection

  /** The element that marks a record. */
  const Marker: string := "molecule"
  const FormulaPath: string := "molecule.formula"
  const AtomPath: string := "molecule.atomArray.atom"

  /**
   * `atts.getValue(key)` where the value is only passed on: an absent
   * attribute is read as the empty string.
   */
  function Attribute(attributes: map<string, string>, key: string): string {
    if key in attributes then attributes[key] else ""
  }

  /** The three report rankings of `endDocument`. */
  datatype Measure =
    | Atoms          // `getAllElements().size()`
    | SubMolecules   // `getSubMolecules().size()`
    | Elements       // `getElementMap().size()`

  /** The size a ranking compares molecules by. */
  ghost function Size(v: MoleculeValue, measure: Measure): int {
    match measure
    case Atoms => |AtomBag(v)|
    case SubMolecules => |v.subs|
    case Elements => |ElementMap(v)|
  }

  /** The sizes of a list of molecules, in order. */
  ghost function Sizes(vs: seq<MoleculeValue>, measure: Measure): (r: seq<int>)
    ensures |r| == |vs|
  {
    if vs == [] then [] else Sizes(vs[..|vs| - 1], measure) + [Size(vs[|vs| - 1], measure)]
  }

  lemma {:induction false} SizesAt(vs: seq<MoleculeValue>, measure: Measure, k: nat)
    requires k < |vs|
    ensures Sizes(vs, measure)[k] == Size(vs[k], measure)
  {
    if k < |vs| - 1 {
      SizesAt(vs[..|vs| - 1], measure, k);
    }
  }

  /** The name `endDocument` reports for a ranking: the first greatest molecule's name, or "" for none. */
  ghost function Winner(vs: seq<MoleculeValue>, measure: Measure): string {
    if vs == [] then "" else Name(vs[FirstMax(Sizes(vs, measure))])
  }

  /**
   * The reported name belongs to the molecule that is at least as large as
   * every other and strictly larger than every earlier one.
   */
  lemma WinnerIsFirstGreatest(vs: seq<MoleculeValue>, measure: Measure, i: nat)
    requires i < |vs|
    requires forall j :: 0 <= j < |vs| ==> Size(vs[j], measure) <= Size(vs[i], measure)
    requires forall j :: 0 <= j < i ==> Size(vs[j], measure) < Size(vs[i], measure)
    ensures Winner(vs, measure) == Name(vs[i])
  {
    forall j | 0 <= j < |vs|
      ensures Sizes(vs, measure)[j] == Size(vs[j], measure)
    {
      SizesAt(vs, measure, j);
    }
    FirstMaxUnique(Sizes(vs, measure), i);
  }

  /**
   * One ranking of `endDocument`: the name of the first of the finished
   * molecules `done` with the greatest size, or "" when there is none.
   */
  method MostBy(done: seq<Molecule>, ghost rs: seq<set<Molecule>>, ghost vs: seq<MoleculeValue>, measure: Measure)
    returns (name: string)
    requires Tied(done, rs, vs)
    ensures name == Winner(vs, measure)
  {
    if done == [] {
      return "";
    }
    ghost var sizes := Sizes(vs, measure);
    var top := SizeAt(done, rs, vs, 0, measure);
    var best := 0;
    var k := 1;
    while k < |done|
      invariant 1 <= k <= |done| && Tied(done, rs, vs)
      invariant best == FirstMax(sizes[..k]) && top == sizes[best]
    {
      var size := SizeAt(done, rs, vs, k, measure);
      FirstMaxStep(sizes, k);
      if size > top {
        best, top := k, size;
      }
      k := k + 1;
    }
    assert sizes[..k] == sizes;
    name := NameAt(done, rs, vs, best);
  }

  /**
   * `getRelativePath` on the route of the open-element stack: scans it from
   * the top for the innermost marker and joins from there, or joins the whole
   * route when there is none.
   */
  method GetRelativePath(route: seq<string>) returns (path: string)
    ensures path == RelativePath(route, Marker)
  {
    var i := |route|;
    while i > 0
      invariant 0 <= i <= |route|
      invariant forall j :: i <= j < |route| ==> route[j] != Marker
    {
      if route[i - 1] == Marker {
        return Join(route[i - 1..]);
      }
      i := i - 1;
    }
    path := Join(route);
  }

  /** The size of the `k`-th finished molecule. */
  method SizeAt(done: seq<Molecule>, ghost rs: seq<set<Molecule>>, ghost vs: seq<MoleculeValue>, k: nat, measure: Measure)
    returns (size: int)
    requires Tied(done, rs, vs) && k < |done|
    ensures Tied(done, rs, vs)
    ensures size == Sizes(vs, measure)[k]
  {
    size := SizeOf(done[k], measure);
    SizesAt(vs, measure, k);
  }

  /** The name of the `k`-th finished molecule. */
  method NameAt(done: seq<Molecule>, ghost rs: seq<set<Molecule>>, ghost vs: seq<MoleculeValue>, k: nat)
    returns (name: string)
    requires Tied(done, rs, vs) && k < |done|
    ensures name == Name(vs[k])
  {
    name := done[k].GetName();
  }

  /** Computes the size of one molecule as the report does, through the molecule's own queries. */
  method SizeOf(m: Molecule, measure: Measure) returns (size: int)
    requires m.Valid()
    ensures size == Size(m.Model, measure)
  {
    match measure
    case Atoms =>
      var all := m.GetAllElements();
      size := |all|;
    case SubMolecules =>
      size := |m.submolecules|;
    case Elements =>
      var full := m.GetElementMap();
      size := |full|;
  }

  class Handler {
    /** The open-element stack (`xmlLocator`). */
    const locator: Locator
    /** The finished top-level molecules, in closing order. */
    var molecules: seq<Molecule>
    /** The open molecules (`currentMolecules`); the innermost is the last entry. */
    var current: seq<Molecule>

    /** The footprints and values of the open and the finished molecules, and how many were created. */
    ghost var ledger: Ledger

    /** The record invariant, plus one open molecule per `molecule` element on the element stack. */
    ghost predicate Valid()
      reads this, locator, current, molecules, Within(ledger.openR), Within(ledger.doneR)
    {
      && Records()
      && |current| == Occurrences(locator.position, Marker)
    }

    /**
     * Every open and every finished molecule is a valid tree with the value
     * recorded for it; no two of them share a molecule; and every molecule
     * created so far is counted exactly once among them.
     */
    ghost predicate Records()
      reads this, current, molecules, Within(ledger.openR), Within(ledger.doneR)
    {
      Consistent(current, molecules, ledger)
    }

    constructor ()
      ensures Valid() && fresh(locator)
      ensures locator.position == [] && current == [] && molecules == []
      ensures ledger.openV == [] && ledger.doneV == [] && ledger.created == 0
    {
      locator := new Locator();
      molecules := [];
      current := [];
      ledger := Ledger([], [], [], [], 0);
    }

    /**
     * `startElement`: enters the element, then acts on the relative path.
     * A `molecule` opens a new empty molecule; a formula names the innermost
     * molecule after its non-empty `title` (a formula without a `title`
     * throws on `null`); an atom adds one atom of its `elementType` to the
     * innermost molecule. Naming or filling a molecule when none is open is
     * `peek` on an empty stack.
     */
    method StartElement(name: string, attributes: map<string, string>) returns (outcome: Outcome)
      requires Valid()
      modifies this, locator, current
      ensures Valid()
      ensures locator.position == old(locator.position) + [name]
      ensures molecules == old(molecules) && ledger.doneV == old(ledger.doneV)
      ensures (outcome, ledger.openV) == OnStart(RelativePath(locator.position, Marker), attributes, old(ledger.openV))
      ensures RelativePath(locator.position, Marker) == Marker ==>
                && current[..|old(current)|] == old(current)
                && |current| == |old(current)| + 1 && fresh(current[|old(current)|])
                && ledger.created == old(ledger.created) + 1
      ensures RelativePath(locator.position, Marker) != Marker ==> current == old(current) && ledger.created == old(ledger.created)
      ensures DotFree(locator.position) ==> outcome != Fail(EmptyStack)
    {
      var path := Enter(name);
      outcome := Act(path, attributes);
    }

    /** The `switch` of `startElement` on the relative path `path`. */
    method Act(path: string, attributes: map<string, string>) returns (outcome: Outcome)
      requires Records()
      modifies this, current
      ensures Records()
      ensures molecules == old(molecules) && ledger.doneV == old(ledger.doneV)
      ensures (outcome, ledger.openV) == OnStart(path, attributes, old(ledger.openV))
      ensures path == Marker ==>
                && current[..|old(current)|] == old(current)
                && |current| == |old(current)| + 1 && fresh(current[|old(current)|])
                && ledger.created == old(ledger.created) + 1
      ensures path != Marker ==> current == old(current) && ledger.created == old(ledger.created)
    {
      if path == Marker {
        OpenNew();
        outcome := Pass;
      } else if path == FormulaPath {
        if "title" !in attributes {
          outcome := Fail(NullPointer);
        } else if attributes["title"] != "" {
          outcome := EditInnermost(Rename(attributes["title"]));
        } else {
          outcome := Pass;
        }
      } else if path == AtomPath {
        outcome := EditInnermost(AddAtom(Attribute(attributes, "elementType")));
      } else {
        outcome := Pass;
      }
    }

    /**
     * `xmlLocator.push(name)` and `getRelativePath()`. The records stay as
     * they are; a new `molecule` element is one ahead of the open molecules
     * until the `switch` opens its record.
     */
    method Enter(name: string) returns (path: string)
      requires Valid()
      modifies locator
      ensures Records()
      ensures locator.position == old(locator.position) + [name]
      ensures path == RelativePath(locator.position, Marker)
      ensures |current| + (if path == Marker then 1 else 0) == Occurrences(locator.position, Marker)
      ensures |ledger.openV| == |current|
      ensures (path == FormulaPath || path == AtomPath) && DotFree(locator.position) ==> current != []
    {
      path := Descend(name);
      OccurrencesPush(old(locator.position), name, Marker);
      RelativePathIsMarker(locator.position, Marker);
      if path == FormulaPath || path == AtomPath {
        MarkerPathOpensRecord(locator.position);
      }
    }

    /** `xmlLocator.push(name)`, which leaves the records alone, then `getRelativePath`. */
    method Descend(name: string) returns (path: string)
      requires Valid()
      modifies locator
      ensures Records() && |ledger.openV| == |current|
      ensures locator.position == old(locator.position) + [name]
      ensures |current| == Occurrences(old(locator.position), Marker)
      ensures path == RelativePath(locator.position, Marker)
    {
      locator.Push(name);
      path := GetRelativePath(locator.position);
    }

    /** `currentMolecules.push(new Molecule())`. */
    method OpenNew()
      requires Records()
      modifies this
      ensures Records()
      ensures molecules == old(molecules) && ledger.doneV == old(ledger.doneV)
      ensures |current| == |old(current)| + 1 && current[..|old(current)|] == old(current)
      ensures fresh(current[|old(current)|])
      ensures ledger.openV == old(ledger.openV) + [EmptyMolecule]
      ensures ledger.created == old(ledger.created) + 1
    {
      var m := new Molecule();
      OpenRecord(m);
    }

    /** `currentMolecules.push(m)` for a new molecule `m`. */
    method OpenRecord(m: Molecule)
      requires Records()
      requires m.Valid() && m.Repr == {m} && m.Model == EmptyMolecule
      requires m !in Within(ledger.openR) && m !in Within(ledger.doneR)
      modifies this
      ensures Records()
      ensures molecules == old(molecules) && ledger.doneV == old(ledger.doneV)
      ensures current == old(current) + [m]
      ensures ledger.openV == old(ledger.openV) + [EmptyMolecule]
      ensures ledger.created == old(ledger.created) + 1
    {
      ForestRecordsAppend(ledger.openV, EmptyMolecule);
      forall k | 0 <= k < |ledger.openR + ledger.doneR| ensures (ledger.openR + ledger.doneR)[k] !! {m} {
        if k < |ledger.openR| {
          WithinHolds(ledger.openR, k);
        } else {
          WithinHolds(ledger.doneR, k - |ledger.openR|);
        }
      }
      SeparateInsert(ledger.openR, ledger.doneR, {m});
      TiedAppend(current, ledger.openR, ledger.openV, m);
      ForestRecordsAppend(ledger.openV, EmptyMolecule);
      Install(current + [m], molecules, Ledger(ledger.openR + [{m}], ledger.doneR, ledger.openV + [EmptyMolecule], ledger.doneV, ledger.created + 1));
    }

    /**
     * `currentMolecules.peek()` followed by `setName` or `addElement`: the
     * innermost open molecule changes in place; with none open, `peek`
     * fails.
     */
    method EditInnermost(edit: Edit) returns (outcome: Outcome)
      requires Records()
      modifies this, current
      ensures Records()
      ensures current == old(current) && molecules == old(molecules)
      ensures ledger.doneV == old(ledger.doneV) && ledger.created == old(ledger.created)
      ensures old(current) == [] ==> outcome == Fail(EmptyStack) && ledger.openV == old(ledger.openV)
      ensures old(current) != [] ==> outcome == Pass && ledger.openV == Rewrite(old(ledger.openV), Edited(Last(old(ledger.openV)), edit))
    {
      if current == [] {
        return Fail(EmptyStack);
      }
      var n := |current| - 1;
      var top := current[n];
      Isolated(n);
      TiedPrefix(current, ledger.openR, ledger.openV, n);
      assert top.Valid() && top.Repr == ledger.openR[n] && top.Model == ledger.openV[n];
      Apply(top, edit, current[..n], ledger.openR[..n], ledger.openV[..n], molecules, ledger.doneR, ledger.doneV);
      Reattach(current, molecules, ledger, top);
      Install(current, molecules, ledger.(openV := Rewrite(ledger.openV, top.Model)));
      outcome := Pass;
    }

    /** Replaces the record stack, the finished list and their ghost records at once. */
    method Install(cur: seq<Molecule>, done: seq<Molecule>, ghost book: Ledger)
      requires Consistent(cur, done, book)
      modifies this
      ensures Records()
      ensures current == cur && molecules == done && ledger == book
    {
      current, molecules, ledger := cur, done, book;
    }

    /**
     * `endElement`: closing a `molecule` element takes the innermost open
     * molecule off the stack and hands it to the molecule below it, or to
     * the finished list when no other is open; then the element is left,
     * which fails on an empty element stack.
     */
    method EndElement() returns (outcome: Outcome)
      requires Valid()
      modifies this, locator, current
      ensures Valid()
      ensures ledger.created == old(ledger.created)
      ensures old(locator.position) == [] ==> outcome == Fail(EmptyStack) && locator.position == []
      ensures old(locator.position) != [] ==>
                outcome == Pass && locator.position == old(locator.position)[..|old(locator.position)| - 1]
      ensures var closing := old(locator.position) != [] && Last(old(locator.position)) == Marker;
        && (closing ==> old(current) != [])
        && (current, molecules) == Settle(closing, old(current), old(molecules))
        && (ledger.openV, ledger.doneV) == OnEnd(closing, old(ledger.openV), old(ledger.doneV))
    {
      ghost var route := locator.position;
      var closing := Close();
      outcome := Ascend(route);
      if route != [] {
        LeaveCount(route);
      }
    }

    /** The `if` of `endElement`: a `molecule` path closes the innermost open molecule. */
    method Close() returns (closing: bool)
      requires Valid()
      modifies this, current
      ensures Records() && locator.position == old(locator.position)
      ensures closing <==> locator.position != [] && Last(locator.position) == Marker
      ensures |current| + (if closing then 1 else 0) == Occurrences(locator.position, Marker)
      ensures ledger.created == old(ledger.created)
      ensures closing ==> old(current) != []
      ensures (current, molecules) == Settle(closing, old(current), old(molecules))
      ensures (ledger.openV, ledger.doneV) == OnEnd(closing, old(ledger.openV), old(ledger.doneV))
    {
      var route := locator.position;
      var path := GetRelativePath(route);
      RelativePathIsMarker(route, Marker);
      closing := path == Marker;
      if closing {
        LeaveCount(route);
        CloseRecord();
      }
    }

    /** `endDocument`: the three reported names, by atoms, by sub-molecules and by distinct elements. */
    method EndDocument() returns (mostAtoms: string, mostSubMolecules: string, mostElements: string)
      requires Records()
      ensures mostAtoms == Winner(ledger.doneV, Atoms)
      ensures mostSubMolecules == Winner(ledger.doneV, SubMolecules)
      ensures mostElements == Winner(ledger.doneV, Elements)
    {
      var done := molecules;
      ghost var book := ledger;
      assert Tied(done, book.doneR, book.doneV);
      mostAtoms := MostBy(done, book.doneR, book.doneV, Atoms);
      mostSubMolecules := MostBy(done, book.doneR, book.doneV, SubMolecules);
      mostElements := MostBy(done, book.doneR, book.doneV, Elements);
    }

    /** `xmlLocator.pop()`, which leaves the records alone. */
    method Ascend(ghost route: seq<string>) returns (outcome: Outcome)
      requires Records() && locator.position == route
      modifies locator
      ensures Records()
      ensures outcome == (if route == [] then Fail(EmptyStack) else Pass)
      ensures outcome.Pass? ==> locator.position == route[..|route| - 1]
      ensures outcome.Fail? ==> locator.position == route
    {
      outcome := locator.Pop();
    }

    /**
     * `currentMolecules.pop()`, then `molecules.add` when the stack is left
     * empty and `currentMolecules.peek().addMolecule` otherwise.
     */
    method CloseRecord()
      requires Records() && current != []
      modifies this, current
      ensures Records()
      ensures |current| == |old(current)| - 1
      ensures locator.position == old(locator.position)
      ensures ledger.created == old(ledger.created)
      ensures (current, molecules) == Settle(true, old(current), old(molecules))
      ensures (ledger.openV, ledger.doneV) == OnEnd(true, old(ledger.openV), old(ledger.doneV))
    {
      if |current| == 1 {
        Finish();
      } else {
        Nest();
      }
    }

    /** The only open molecule joins the finished list. */
    method Finish()
      requires Records() && |current| == 1
      modifies this
      ensures Records()
      ensures ledger.created == old(ledger.created)
      ensures (current, molecules) == Settle(true, old(current), old(molecules))
      ensures (ledger.openV, ledger.doneV) == OnEnd(true, old(ledger.openV), old(ledger.doneV))
    {
      var m := current[0];
      assert current == [m];
      ghost var r, v := ledger.openR[0], ledger.openV[0];
      assert m.Repr == r && m.Valid() && m.Model == v;
      TiedAppend(molecules, ledger.doneR, ledger.doneV, m);
      assert ledger.openR + ledger.doneR == ([] + [r]) + ledger.doneR;
      SeparateMove([], r, ledger.doneR);
      ForestRecordsAppend(ledger.doneV, v);
      ForestRecordsAppend([], v);
      assert ledger.openV == [] + [v];
      Install([], molecules + [m], Ledger([], ledger.doneR + [r], [], ledger.doneV + [v], ledger.created));
    }

    /** The innermost open molecule becomes the last sub-molecule of the one below it. */
    method Nest()
      requires Records() && |current| >= 2
      modifies this, current[|current| - 2]
      ensures Records()
      ensures ledger.created == old(ledger.created)
      ensures (current, molecules) == Settle(true, old(current), old(molecules))
      ensures (ledger.openV, ledger.doneV) == OnEnd(true, old(ledger.openV), old(ledger.doneV))
    {
      var n, cur, done := |current|, current, molecules;
      var parent, m := cur[n - 2], cur[n - 1];
      ghost var book := ledger;
      ghost var rest, p, r := book.openR[..n - 2], book.openR[n - 2], book.openR[n - 1];
      ghost var vs, pv, mv := book.openV[..n - 2], book.openV[n - 2], book.openV[n - 1];
      Isolated(n - 2);
      TiedPrefix(cur, book.openR, book.openV, n - 2);
      assert parent.Valid() && parent.Repr == p && parent.Model == pv;
      assert m.Valid() && m.Repr == r && m.Model == mv;
      LastTwo(cur);
      LastTwo(book.openR);
      LastTwo(book.openV);
      ghost var after := Ledger(rest + [p + r], book.doneR, vs + [Adopt(pv, mv)], book.doneV, book.created);
      SeparateMerge(rest, p, r, book.doneR);
      CloseCounts(vs, pv, mv);
      assert Separate(after.openR + after.doneR);
      assert after.created == ForestRecords(after.openV) + ForestRecords(after.doneV);
      assert Settle(true, cur, done) == (cur[..n - 1], done);
      assert OnEnd(true, book.openV, book.doneV) == (after.openV, after.doneV);
      Attach(parent, m, cur[..n - 2], rest, vs, done, book.doneR, book.doneV);
      Install(cur[..n - 1], done, after);
    }

    /**
     * The open molecule at `k` lies outside the footprints of every other
     * record, open or finished.
     */
    lemma Isolated(k: nat)
      requires Records() && k < |current|
      ensures current[k] in ledger.openR[k]
      ensures current[k] !in current[..k] && current[k] !in Within(ledger.openR[..k])
      ensures current[k] !in molecules && current[k] !in Within(ledger.doneR)
      ensures forall i :: k < i < |current| ==> current[k] !in ledger.openR[i] && ledger.openR[k] !! ledger.openR[i]
    {
      var top := current[k];
      TiedOwn(current, ledger.openR, ledger.openV);
      TiedOwn(molecules, ledger.doneR, ledger.doneV);
      SeparateParts(ledger.openR, ledger.doneR);
      forall i | 0 <= i < k ensures top !in ledger.openR[i] && current[i] != top {
        assert ledger.openR[i] !! ledger.openR[k] && current[i] in ledger.openR[i];
      }
      forall i | 0 <= i < |ledger.doneR| ensures top !in ledger.doneR[i] && molecules[i] != top {
        assert ledger.openR[k] !! ledger.doneR[i] && molecules[i] in ledger.doneR[i];
      }
      WithinOutside(ledger.openR[..k], top);
      WithinOutside(ledger.doneR, top);
    }
  }

  /**
   * The records stay consistent when the innermost open molecule has
   * changed in place without changing its footprint or its sub-molecules,
   * once its new value replaces the last open value.
   */
  lemma Reattach(open: seq<Molecule>, done: seq<Molecule>, book: Ledger, top: Molecule)
    requires open != [] && top == Last(open)
    requires var n := |open| - 1;
      && |book.openR| == |book.openV| == |open|
      && Tied(open[..n], book.openR[..n], book.openV[..n])
      && top.Valid() && top.Repr == book.openR[n] && top.Model.subs == book.openV[n].subs
    requires Tied(done, book.doneR, book.doneV) && Separate(book.openR + book.doneR)
    requires book.created == ForestRecords(book.openV) + ForestRecords(book.doneV)
    ensures Consistent(open, done, book.(openV := Rewrite(book.openV, top.Model)))
  {
    var n := |open| - 1;
    RecordsRewrite(book.openV, top.Model);
    TiedAppend(open[..n], book.openR[..n], book.openV[..n], top);
    LastOne(open);
    LastOne(book.openR);
  }

  /**
   * The open molecules `open` and the finished ones `done` are valid trees
   * with the recorded footprints and values; no two of them share a
   * molecule; and `created` molecules are counted exactly once among them.
   */
  ghost predicate Consistent(open: seq<Molecule>, done: seq<Molecule>, book: Ledger)
    reads open, done, Within(book.openR), Within(book.doneR)
  {
    && Tied(open, book.openR, book.openV)
    && Tied(done, book.doneR, book.doneV)
    && Separate(book.openR + book.doneR)
    && book.created == ForestRecords(book.openV) + ForestRecords(book.doneV)
  }

  /**
   * The ghost account of the records: the footprints and values of the open
   * and the finished molecules, and how many molecules were created.
   */
  datatype Ledger = Ledger(openR: seq<set<Molecule>>, doneR: seq<set<Molecule>>,
                           openV: seq<MoleculeValue>, doneV: seq<MoleculeValue>, created: nat)

  /**
   * What `startElement` does to the values of the open molecules, and
   * whether it fails, once the relative path is known.
   */
  function OnStart(path: string, attributes: map<string, string>, open: seq<MoleculeValue>): (Outcome, seq<MoleculeValue>) {
    if path == Marker then (Pass, open + [EmptyMolecule])
    else if path == FormulaPath then
      if "title" !in attributes then (Fail(NullPointer), open)
      else if attributes["title"] == "" then (Pass, open)
      else EditLast(open, Rename(attributes["title"]))
    else if path == AtomPath then EditLast(open, AddAtom(Attribute(attributes, "elementType")))
    else (Pass, open)
  }

  /** `peek()` and an edit: the innermost value changes, or the stack is empty. */
  function EditLast(open: seq<MoleculeValue>, edit: Edit): (Outcome, seq<MoleculeValue>) {
    if open == [] then (Fail(EmptyStack), open) else (Pass, Rewrite(open, Edited(Last(open), edit)))
  }

  /**
   * What `endElement` does to the values of the open and the finished
   * molecules: closing a `molecule` element hands the innermost value to
   * the one below it, or to the finished list when it was the only one.
   */
  function OnEnd(closing: bool, open: seq<MoleculeValue>, done: seq<MoleculeValue>): (seq<MoleculeValue>, seq<MoleculeValue>) {
    if !closing || open == [] then (open, done)
    else if |open| == 1 then ([], done + open)
    else (open[..|open| - 2] + [Adopt(open[|open| - 2], Last(open))], done)
  }

  /**
   * The same for the molecule objects: the innermost leaves the stack, and
   * joins the finished list when it was the only one (otherwise it now
   * hangs below the one under it).
   */
  function Settle<T>(closing: bool, open: seq<T>, done: seq<T>): (seq<T>, seq<T>) {
    if !closing || open == [] then (open, done)
    else if |open| == 1 then ([], done + open)
    else (open[..|open| - 1], done)
  }

  /** `addMolecule` on values: `child` becomes the last sub-molecule of `parent`. */
  function Adopt(parent: MoleculeValue, child: MoleculeValue): MoleculeValue {
    parent.(subs := parent.subs + [child])
  }

  /**
   * `startElement` fails when it must `peek` at an empty stack (an atom, or
   * a formula with a non-empty title, outside every molecule) and when a
   * formula has no `title` to test; a failure leaves the open values as
   * they were.
   */
  lemma StartFails(path: string, attributes: map<string, string>, open: seq<MoleculeValue>)
    ensures OnStart(path, attributes, open).0 == Fail(EmptyStack) <==>
      open == [] && (path == AtomPath || (path == FormulaPath && Attribute(attributes, "title") != ""))
    ensures OnStart(path, attributes, open).0 == Fail(NullPointer) <==> path == FormulaPath && "title" !in attributes
    ensures OnStart(path, attributes, open).0 in {Pass, Fail(EmptyStack), Fail(NullPointer)}
    ensures OnStart(path, attributes, open).0.Fail? ==> OnStart(path, attributes, open).1 == open
  {
  }

  /**
   * Only a `molecule` adds an open value, and with it one record; every
   * other path keeps the open values but the innermost, and that one keeps
   * its sub-molecules.
   */
  lemma {:induction false} StartRecords(path: string, attributes: map<string, string>, open: seq<MoleculeValue>)
    ensures var open' := OnStart(path, attributes, open).1;
      ForestRecords(open') == ForestRecords(open) + (if path == Marker then 1 else 0)
    ensures var open' := OnStart(path, attributes, open).1;
      path != Marker ==> |open'| == |open| && (open != [] ==>
        open'[..|open| - 1] == open[..|open| - 1] && Last(open').subs == Last(open).subs)
  {
    var open' := OnStart(path, attributes, open).1;
    if path == Marker {
      ForestRecordsAppend(open, EmptyMolecule);
    } else if open != [] && open' != open {
      RecordsRewrite(open, Last(open'));
    }
  }

  /**
   * A rename sets the name and keeps the atoms; an added atom raises the
   * count of its element by one and keeps the name and every other count.
   */
  lemma EditEffect(v: MoleculeValue, edit: Edit)
    ensures edit.Rename? ==> Edited(v, edit).name == Some(edit.title) && Edited(v, edit).atoms == v.atoms
    ensures edit.AddAtom? ==> Edited(v, edit).name == v.name
    ensures edit.AddAtom? ==> Edited(v, edit).atoms.Keys == v.atoms.Keys + {edit.element}
    ensures edit.AddAtom? ==>
      forall e :: CountOf(Edited(v, edit).atoms, e) == CountOf(v.atoms, e) + (if e == edit.element then 1 else 0)
  {
  }

  /**
   * Closing an element loses no molecule: the open and the finished trees
   * together hold as many records before as after.
   */
  lemma EndKeepsRecords(closing: bool, open: seq<MoleculeValue>, done: seq<MoleculeValue>)
    ensures var (open', done') := OnEnd(closing, open, done);
      ForestRecords(open') + ForestRecords(done') == ForestRecords(open) + ForestRecords(done)
  {
    if closing && open != [] {
      if |open| == 1 {
        ForestRecordsAppend(done, open[0]);
        ForestRecordsAppend([], open[0]);
        assert open == [] + [open[0]];
      } else {
        var n := |open|;
        CloseCounts(open[..n - 2], open[n - 2], Last(open));
        assert open == open[..n - 2] + [open[n - 2], Last(open)];
      }
    }
  }

  /** Folding the last two open values into one keeps the number of records. */
  lemma CloseCounts(vs: seq<MoleculeValue>, pv: MoleculeValue, mv: MoleculeValue)
    ensures ForestRecords(vs + [Adopt(pv, mv)]) == ForestRecords(vs + [pv, mv])
  {
    assert vs + [pv, mv] == (vs + [pv]) + [mv];
    ForestRecordsAppend(vs + [pv], mv);
    ForestRecordsAppend(vs, pv);
    ForestRecordsAppend(vs, Adopt(pv, mv));
    AdoptAddsRecords(pv, mv);
  }

  /** Leaving the top element removes one `molecule` from the stack exactly when the top is one. */
  lemma LeaveCount(route: seq<string>)
    requires route != []
    ensures Occurrences(route[..|route| - 1], Marker) + (if Last(route) == Marker then 1 else 0)
            == Occurrences(route, Marker)
  {
    assert route[..|route| - 1] + [Last(route)] == route;
    OccurrencesPush(route[..|route| - 1], Last(route), Marker);
  }

  /**
   * `parent.addMolecule(m)` for a `parent` outside two other lists of
   * records; those lists stay as they were.
   */
  method Attach(parent: Molecule, m: Molecule,
                ghost ms: seq<Molecule>, ghost rs: seq<set<Molecule>>, ghost vs: seq<MoleculeValue>,
                ghost ns: seq<Molecule>, ghost qs: seq<set<Molecule>>, ghost ws: seq<MoleculeValue>)
    requires parent.Valid() && m.Valid() && parent.Repr !! m.Repr
    requires Tied(ms, rs, vs) && Tied(ns, qs, ws)
    requires parent !in ms && parent !in Within(rs) && parent !in ns && parent !in Within(qs)
    modifies parent
    ensures parent.Valid() && parent.Repr == old(parent.Repr) + m.Repr
    ensures parent.Model == Adopt(old(parent.Model), m.Model)
    ensures Tied(ms + [parent], rs + [parent.Repr], vs + [parent.Model]) && Tied(ns, qs, ws)
  {
    parent.AddMolecule(m);
    TiedAppend(ms, rs, vs, parent);
  }

  /** The two ways `startElement` changes the innermost open molecule. */
  datatype Edit =
    | Rename(title: string)       // `setName(title)`
    | AddAtom(element: string)    // `addElement(element)`

  /** The value of a molecule after an edit. */
  function Edited(v: MoleculeValue, edit: Edit): (r: MoleculeValue)
    ensures r.subs == v.subs
  {
    match edit
    case Rename(title) => v.(name := Some(title))
    case AddAtom(element) => v.(atoms := AddCount(v.atoms, element, 1))
  }

  /**
   * Applies an edit to `top`, which lies outside the molecules and the
   * footprints of two other lists of records; those lists stay as they were.
   */
  method Apply(top: Molecule, edit: Edit,
               ghost ms: seq<Molecule>, ghost rs: seq<set<Molecule>>, ghost vs: seq<MoleculeValue>,
               ghost ns: seq<Molecule>, ghost qs: seq<set<Molecule>>, ghost ws: seq<MoleculeValue>)
    requires top.Valid() && Tied(ms, rs, vs) && Tied(ns, qs, ws)
    requires top !in ms && top !in Within(rs) && top !in ns && top !in Within(qs)
    modifies top
    ensures top.Valid() && top.Repr == old(top.Repr)
    ensures top.Model == Edited(old(top.Model), edit)
    ensures Tied(ms, rs, vs) && Tied(ns, qs, ws)
  {
    match edit
    case Rename(title) => top.SetName(title);
    case AddAtom(element) => top.AddElement(element);
  }

  /** Each molecule of `ms` is a valid tree with footprint `rs[i]` and value `vs[i]`. */
  ghost predicate Tied(ms: seq<Molecule>, rs: seq<set<Molecule>>, vs: seq<MoleculeValue>)
    reads ms, Within(rs)
  {
    && |ms| == |rs| == |vs|
    && forall i :: 0 <= i < |ms| ==> ms[i].Repr == rs[i] && ms[i].Valid() && ms[i].Model == vs[i]
  }

  /** Every molecule of the given footprints. */
  ghost function Within(rs: seq<set<Molecule>>): set<Molecule> {
    set k, o | 0 <= k < |rs| && o in rs[k] :: o
  }

  lemma WithinHolds(rs: seq<set<Molecule>>, k: nat)
    requires k < |rs|
    ensures rs[k] <= Within(rs)
  {
  }

  lemma WithinOutside(rs: seq<set<Molecule>>, x: Molecule)
    requires forall k :: 0 <= k < |rs| ==> x !in rs[k]
    ensures x !in Within(rs)
  {
  }

  lemma TiedOwn(ms: seq<Molecule>, rs: seq<set<Molecule>>, vs: seq<MoleculeValue>)
    requires Tied(ms, rs, vs)
    ensures forall i :: 0 <= i < |ms| ==> ms[i] in rs[i]
  {
  }

  lemma TiedAppend(ms: seq<Molecule>, rs: seq<set<Molecule>>, vs: seq<MoleculeValue>, m: Molecule)
    requires Tied(ms, rs, vs) && m.Valid()
    ensures Tied(ms + [m], rs + [m.Repr], vs + [m.Model])
  {
    var ms', rs' := ms + [m], rs + [m.Repr];
    forall i | 0 <= i < |ms'| ensures ms'[i].Repr == rs'[i] {
    }
  }

  lemma TiedPrefix(ms: seq<Molecule>, rs: seq<set<Molecule>>, vs: seq<MoleculeValue>, k: nat)
    requires Tied(ms, rs, vs) && k <= |ms|
    ensures Tied(ms[..k], rs[..k], vs[..k])
  {
  }

  /** No two of the footprints share an object. */
  ghost predicate Separate(rs: seq<set<Molecule>>) {
    forall i, j :: 0 <= i < j < |rs| ==> Apart(rs, i, j)
  }

  ghost predicate Apart(rs: seq<set<Molecule>>, i: nat, j: nat)
    requires i < |rs| && j < |rs|
  {
    rs[i] !! rs[j]
  }

  /** Separation of two lists joined: each is separate, and each footprint of one is apart from each of the other. */
  lemma SeparateParts(a: seq<set<Molecule>>, b: seq<set<Molecule>>)
    requires Separate(a + b)
    ensures forall i, j :: 0 <= i < j < |a| ==> a[i] !! a[j]
    ensures forall i, j :: 0 <= i < j < |b| ==> b[i] !! b[j]
    ensures forall i, j :: 0 <= i < |a| && 0 <= j < |b| ==> a[i] !! b[j]
  {
    var c := a + b;
    forall i, j | 0 <= i < j < |a| ensures a[i] !! a[j] {
      assert c[i] == a[i] && c[j] == a[j] && Apart(c, i, j);
    }
    forall i, j | 0 <= i < j < |b| ensures b[i] !! b[j] {
      assert c[|a| + i] == b[i] && c[|a| + j] == b[j] && Apart(c, |a| + i, |a| + j);
    }
    forall i, j | 0 <= i < |a| && 0 <= j < |b| ensures a[i] !! b[j] {
      assert c[i] == a[i] && c[|a| + j] == b[j] && Apart(c, i, |a| + j);
    }
  }

  /** A footprint apart from all others can join the first list. */
  lemma SeparateInsert(a: seq<set<Molecule>>, b: seq<set<Molecule>>, r: set<Molecule>)
    requires Separate(a + b)
    requires forall k :: 0 <= k < |a + b| ==> (a + b)[k] !! r
    ensures Separate((a + [r]) + b)
  {
    var c, ab := (a + [r]) + b, a + b;
    forall i, j | 0 <= i < j < |c| ensures Apart(c, i, j) {
      var i', j' := if i <= |a| then i else i - 1, if j <= |a| then j else j - 1;
      if i == |a| {
        assert c[i] == r && c[j] == ab[j'] && ab[j'] !! r;
      } else if j == |a| {
        assert c[j] == r && c[i] == ab[i'] && ab[i'] !! r;
      } else {
        assert c[i] == ab[i'] && c[j] == ab[j'] && Apart(ab, i', j');
      }
    }
  }

  /** The last footprint of the first list moves to the end of the second. */
  lemma SeparateMove(a: seq<set<Molecule>>, r: set<Molecule>, b: seq<set<Molecule>>)
    requires Separate((a + [r]) + b)
    ensures Separate(a + (b + [r]))
  {
    var c, d := (a + [r]) + b, a + (b + [r]);
    forall i, j | 0 <= i < j < |d| ensures Apart(d, i, j) {
      var i', j' := Moved(i, |a|, |d|), Moved(j, |a|, |d|);
      assert d[i] == c[i'] && d[j] == c[j'];
      assert i' < j' ==> Apart(c, i', j');
      assert j' < i' ==> Apart(c, j', i');
    }
  }

  /** Where an entry of `a + (b + [r])` sat in `(a + [r]) + b`. */
  function Moved(i: nat, pivot: nat, size: nat): nat {
    if i < pivot then i else if i == size - 1 then pivot else i + 1
  }

  /** The last two footprints of the first list merge into one. */
  lemma SeparateMerge(a: seq<set<Molecule>>, p: set<Molecule>, r: set<Molecule>, b: seq<set<Molecule>>)
    requires Separate((a + [p, r]) + b)
    ensures Separate((a + [p + r]) + b)
  {
    var c, d := (a + [p, r]) + b, (a + [p + r]) + b;
    assert c[|a|] == p && c[|a| + 1] == r && d[|a|] == p + r;
    forall i, j | 0 <= i < j < |d| ensures Apart(d, i, j) {
      if j == |a| {
        assert d[i] == c[i] && Apart(c, i, |a|) && Apart(c, i, |a| + 1);
      } else if i == |a| {
        assert d[j] == c[j + 1] && Apart(c, |a|, j + 1) && Apart(c, |a| + 1, j + 1);
      } else {
        var i', j' := if i < |a| then i else i + 1, if j < |a| then j else j + 1;
        assert d[i] == c[i'] && d[j] == c[j'] && Apart(c, i', j');
      }
    }
  }

  /**
   * When every element has been left, no molecule is open any more: each
   * molecule created is accounted for among the finished ones.
   */
  lemma BalancedEnd(h: Handler)
    requires h.Valid() && h.locator.position == []
    ensures h.current == [] && h.ledger.openV == []
    ensures |h.molecules| == |h.ledger.doneV|
    ensures h.ledger.created == ForestRecords(h.ledger.doneV)
  {
  }

  /**
   * A document with two top-level molecules, the second holding one nested
   * molecule, yields two finished molecules; the first has no sub-molecule
   * and the second has one, and every element was left again.
   */
  method NestedDocument() returns (h: Handler)
    ensures h.Valid() && h.locator.position == [] && h.current == []
    ensures |h.molecules| == 2
    ensures |h.molecules[0].submolecules| == 0 && |h.molecules[1].submolecules| == 1
  {
    h := new Handler();
    LoneMolecule(h);
    NestedMolecule(h);
    assert h.ledger.doneV == [EmptyMolecule, Adopt(EmptyMolecule, EmptyMolecule)];
    SubMoleculesOfValue(h.molecules[0]);
    SubMoleculesOfValue(h.molecules[1]);
  }

  /** A top-level empty `molecule` element: one more finished empty molecule. */
  method LoneMolecule(h: Handler)
    requires h.Valid() && h.current == []
    modifies h, h.locator
    ensures h.Valid() && h.current == [] && h.locator.position == old(h.locator.position)
    ensures h.ledger.doneV == old(h.ledger.doneV) + [EmptyMolecule]
  {
    ghost var route := h.locator.position;
    OpenMolecule(h);
    CloseMolecule(h);
    assert (route + [Marker])[..|route|] == route;
  }

  /**
   * A top-level `molecule` element holding one empty `molecule` element:
   * one more finished molecule, with one empty sub-molecule.
   */
  method NestedMolecule(h: Handler)
    requires h.Valid() && h.current == []
    modifies h, h.locator
    ensures h.Valid() && h.current == [] && h.locator.position == old(h.locator.position)
    ensures h.ledger.doneV == old(h.ledger.doneV) + [Adopt(EmptyMolecule, EmptyMolecule)]
  {
    ghost var route := h.locator.position;
    OpenMolecule(h);
    InnerMolecule(h);
    CloseMolecule(h);
    assert (route + [Marker])[..|route|] == route;
  }

  /** An empty `molecule` element inside an open one becomes its last sub-molecule. */
  method InnerMolecule(h: Handler)
    requires h.Valid() && h.current != []
    modifies h, h.locator, h.current
    ensures h.Valid() && h.current == old(h.current) && h.molecules == old(h.molecules)
    ensures h.locator.position == old(h.locator.position)
    ensures h.ledger.doneV == old(h.ledger.doneV)
    ensures h.ledger.openV == Rewrite(old(h.ledger.openV), Adopt(Last(old(h.ledger.openV)), EmptyMolecule))
  {
    ghost var route := h.locator.position;
    OpenMolecule(h);
    CloseMolecule(h);
    assert (route + [Marker])[..|route|] == route;
  }

  /** The start of a `molecule` element opens one more empty molecule. */
  method OpenMolecule(h: Handler)
    requires h.Valid()
    modifies h, h.locator, h.current
    ensures h.Valid()
    ensures h.locator.position == old(h.locator.position) + [Marker]
    ensures h.molecules == old(h.molecules) && h.ledger.doneV == old(h.ledger.doneV)
    ensures h.ledger.openV == old(h.ledger.openV) + [EmptyMolecule]
    ensures h.current[..|old(h.current)|] == old(h.current) && |h.current| == |old(h.current)| + 1
    ensures fresh(h.current[|old(h.current)|])
  {
    var outcome := h.StartElement(Marker, map[]);
    RelativePathIsMarker(h.locator.position, Marker);
  }

  /** The end of the innermost `molecule` element closes the innermost molecule. */
  method CloseMolecule(h: Handler)
    requires h.Valid() && h.locator.position != [] && Last(h.locator.position) == Marker
    modifies h, h.locator, h.current
    ensures h.Valid()
    ensures h.locator.position == old(h.locator.position)[..|old(h.locator.position)| - 1]
    ensures (h.current, h.molecules) == Settle(true, old(h.current), old(h.molecules))
    ensures (h.ledger.openV, h.ledger.doneV) == OnEnd(true, old(h.ledger.openV), old(h.ledger.doneV))
  {
    var outcome := h.EndElement();
  }

  /** A valid molecule has one sub-molecule per sub-molecule of its value. */
  lemma SubMoleculesOfValue(m: Molecule)
    requires m.Valid()
    ensures |m.submolecules| == |m.Model.subs|
  {
  }

  /** A non-empty list, seen from its last entry. */
  lemma LastOne<T>(s: seq<T>)
    requires s != []
    ensures s == s[..|s| - 1] + [s[|s| - 1]]
  {
  }

  /** A list of two or more entries, seen from its last two. */
  lemma LastTwo<T>(s: seq<T>)
    requires |s| >= 2
    ensures s == s[..|s| - 2] + [s[|s| - 2], s[|s| - 1]]
    ensures s[..|s| - 1] == s[..|s| - 2] + [s[|s| - 2]]
  {
  }

  /** The last entry of a non-empty list. */
  function Last<T>(s: seq<T>): T
    requires s != []
  {
    s[|s| - 1]
  }

  /** Replacing the last tree by one with the same sub-molecules keeps the number of records. */
  lemma RecordsRewrite(vs: seq<MoleculeValue>, v: MoleculeValue)
    requires vs != [] && v.subs == Last(vs).subs
    ensures ForestRecords(Rewrite(vs, v)) == ForestRecords(vs)
  {
    RecordsIgnoreContents(Last(vs), v);
    ForestRecordsAppend(vs[..|vs| - 1], v);
    ForestRecordsAppend(vs[..|vs| - 1], Last(vs));
    assert vs == vs[..|vs| - 1] + [Last(vs)];
  }

  /** `s` with its last entry replaced by `x`; the empty list stays empty. */
  function Rewrite<T>(s: seq<T>, x: T): (r: seq<T>)
    ensures s != [] ==> r == s[..|s| - 1] + [x]
    ensures s == [] ==> r == []
  {
    if s == [] then [] else s[..|s| - 1] + [x]
  }

  /**
   * On a path built from dot-free names, a relative path that starts with
   * `molecule.` means a `molecule` element is open.
   */
  lemma MarkerPathOpensRecord(route: seq<string>)
    requires RelativePath(route, Marker) in {FormulaPath, AtomPath}
    ensures DotFree(route) ==> Occurrences(route, Marker) > 0
  {
    if DotFree(route) {
      if RelativePath(route, Marker) == FormulaPath {
        assert FormulaPath == Marker + "." + "formula";
        MarkerPathMeansMarkerOpen(route, Marker, "formula");
      } else {
        assert AtomPath == Marker + "." + "atomArray.atom";
        MarkerPathMeansMarkerOpen(route, Marker, "atomArray.atom");
      }
    }
  }
}
