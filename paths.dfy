/**
 * The nesting position of a streaming parse: the stack of open element
 * names (`XMLLocator`, identical in both handlers), its dotted path, and the
 * path relative to the innermost record marker.
 */
module Paths {
  import opened Common

  /** `String.join(".", parts)`. */
  function Join(parts: seq<string>): string
  {
    if |parts| == 0 then ""
    else if |parts| == 1 then parts[0]
    else Join(parts[..|parts| - 1]) + "." + parts[|parts| - 1]
  }

  /** Position of the last `.` in `s`, if any. */
  function LastDot(s: string): (r: Option<nat>)
    ensures r.Some? ==> r.value < |s| && s[r.value] == '.' &&
                        forall j :: r.value < j < |s| ==> s[j] != '.'
    ensures r.None? ==> '.' !in s
  {
    if s == [] then None
    else if s[|s| - 1] == '.' then Some(|s| - 1)
    else LastDot(s[..|s| - 1])
  }

  lemma {:induction false} LastDotAt(s: string, i: nat)
    requires i < |s| && s[i] == '.'
    requires forall j :: i < j < |s| ==> s[j] != '.'
    ensures LastDot(s) == Some(i)
  {
    if i < |s| - 1 {
      LastDotAt(s[..|s| - 1], i);
    }
  }

  /** Cuts a dotted path back into its names. */
  function Split(s: string): seq<string>
    decreases |s|
  {
    match LastDot(s)
    case None => [s]
    case Some(i) => Split(s[..i]) + [s[i + 1..]]
  }

  predicate DotFree(parts: seq<string>) {
    forall i :: 0 <= i < |parts| ==> '.' !in parts[i]
  }

  /** A path of element names without dots can be read back into the names: `Join` loses nothing. */
  lemma {:induction false} SplitJoin(parts: seq<string>)
    requires |parts| >= 1 && DotFree(parts)
    ensures Split(Join(parts)) == parts
  {
    if |parts| > 1 {
      var p, x := parts[..|parts| - 1], parts[|parts| - 1];
      var s := Join(parts);
      assert s == Join(p) + "." + x;
      assert forall j :: |Join(p)| < j < |s| ==> s[j] == x[j - |Join(p)| - 1];
      LastDotAt(s, |Join(p)|);
      assert s[..|Join(p)|] == Join(p) && s[|Join(p)| + 1..] == x;
      SplitJoin(p);
      assert parts == p + [x];
    }
  }

  /** Two or more names always join into a path that contains a dot. */
  lemma JoinHasDot(parts: seq<string>)
    requires |parts| >= 2
    ensures '.' in Join(parts)
  {
    var p := parts[..|parts| - 1];
    assert Join(parts) == Join(p) + "." + parts[|parts| - 1];
    assert Join(parts)[|Join(p)|] == '.';
  }

  /** Pushing a name extends the path by a dot and that name. */
  lemma JoinPush(parts: seq<string>, name: string)
    requires parts != []
    ensures Join(parts + [name]) == Join(parts) + "." + name
  {
    assert (parts + [name])[..|parts|] == parts;
  }

  /** The path of a stack is the path of its lower part, a dot, and the path of its upper part. */
  lemma {:induction false} JoinSplit(parts: seq<string>, k: nat)
    requires 1 <= k < |parts|
    ensures Join(parts) == Join(parts[..k]) + "." + Join(parts[k..])
  {
    var n := |parts|;
    assert parts[..n - 1][..k] == parts[..k];
    if k < n - 1 {
      JoinSplit(parts[..n - 1], k);
      var upper := parts[k..];
      assert upper[..|upper| - 1] == parts[..n - 1][k..];
    }
  }

  /** The index of the innermost (last) occurrence of `marker` on the stack. */
  function Innermost(route: seq<string>, marker: string): (r: Option<nat>)
    ensures r.Some? ==> r.value < |route| && route[r.value] == marker &&
                        forall j :: r.value < j < |route| ==> route[j] != marker
    ensures r.None? ==> marker !in route
  {
    if route == [] then None
    else if route[|route| - 1] == marker then Some(|route| - 1)
    else Innermost(route[..|route| - 1], marker)
  }

  /**
   * The path relative to the record: the names from the innermost `marker`
   * down to the top of the stack, or the whole path when no marker is open.
   */
  function RelativePath(route: seq<string>, marker: string): (r: string)
    ensures marker !in route ==> r == Join(route)
    ensures marker in route ==> |marker| <= |r| && r[..|marker|] == marker
    ensures |r| <= |Join(route)| && Join(route)[|Join(route)| - |r|..] == r
  {
    match Innermost(route, marker)
    case Some(i) =>
      JoinStartsWithFirst(route[i..]);
      if i > 0 then JoinSplit(route, i); Join(route[i..]) else Join(route[i..])
    case None => Join(route)
  }

  /** The path of a non-empty stack starts with the name at its bottom. */
  lemma {:induction false} JoinStartsWithFirst(parts: seq<string>)
    requires parts != []
    ensures |parts[0]| <= |Join(parts)| && Join(parts)[..|parts[0]|] == parts[0]
  {
    if |parts| > 1 {
      var p := parts[..|parts| - 1];
      JoinStartsWithFirst(p);
      assert Join(parts) == Join(p) + "." + parts[|parts| - 1];
    }
  }

  /**
   * The relative path is the bare marker exactly when the element on top of
   * the stack is the marker itself.
   */
  lemma RelativePathIsMarker(route: seq<string>, marker: string)
    requires marker != [] && '.' !in marker
    ensures RelativePath(route, marker) == marker <==>
            (route != [] && route[|route| - 1] == marker)
  {
    match Innermost(route, marker)
    case Some(i) =>
      if i < |route| - 1 {
        JoinHasDot(route[i..]);
      }
    case None =>
      if |route| >= 2 {
        JoinHasDot(route);
      }
  }

  /**
   * When the path is built from dot-free names, a relative path that starts
   * with the marker and goes on (`marker.x.y`) proves that a marker is open.
   */
  lemma {:induction false} MarkerPathMeansMarkerOpen(route: seq<string>, marker: string, rest: string)
    requires DotFree(route) && '.' !in marker
    requires RelativePath(route, marker) == marker + "." + rest
    ensures marker in route
  {
    if marker !in route {
      assert Innermost(route, marker).None?;
      var s := Join(route);
      assert route != [];
      SplitJoin(route);
      FirstDotAt(s, |marker|);
      assert s[..|marker|] == marker;
      FirstNameOfPath(route);
    }
  }

  /** Position of the first `.` in a string that has one. */
  function FirstDot(s: string): (i: nat)
    requires '.' in s
    ensures i < |s| && s[i] == '.' && '.' !in s[..i]
  {
    if s[0] == '.' then 0 else 1 + FirstDot(s[1..])
  }

  lemma {:induction false} FirstDotAt(s: string, i: nat)
    requires i < |s| && s[i] == '.' && '.' !in s[..i]
    ensures '.' in s && FirstDot(s) == i
  {
    assert s[i] in s;
    if i > 0 {
      assert s[1..][..i - 1] == s[..i][1..];
      FirstDotAt(s[1..], i - 1);
    }
  }

  /** A path made of dot-free names starts with its first name, up to the first dot. */
  lemma {:induction false} FirstNameOfPath(route: seq<string>)
    requires route != [] && DotFree(route)
    ensures '.' in Join(route) ==> Join(route)[..FirstDot(Join(route))] == route[0]
    ensures '.' !in Join(route) ==> Join(route) == route[0]
  {
    if |route| >= 2 {
      var p := route[..|route| - 1];
      JoinPush(p, route[|route| - 1]);
      assert route == p + [route[|route| - 1]];
      FirstNameOfPath(p);
      var s := Join(route);
      assert s[..|Join(p)|] == Join(p);
      if '.' in Join(p) {
        var k := FirstDot(Join(p));
        assert s[..k] == Join(p)[..k];
      }
      assert s[|Join(p)|] == '.';
    }
  }

  /** How many times `marker` is on the stack; none exactly when it is absent. */
  function Occurrences(route: seq<string>, marker: string): (n: nat)
    ensures n <= |route|
    ensures n > 0 <==> marker in route
  {
    if route == [] then 0
    else Occurrences(route[..|route| - 1], marker) + (if route[|route| - 1] == marker then 1 else 0)
  }

  /** Pushing a name adds one occurrence exactly when it is the marker. */
  lemma OccurrencesPush(route: seq<string>, name: string, marker: string)
    ensures Occurrences(route + [name], marker) ==
            Occurrences(route, marker) + (if name == marker then 1 else 0)
  {
    assert (route + [name])[..|route|] == route;
  }

  /** The example of a nested record: the innermost marker anchors the relative path. */
  lemma InnermostMarkerWins()
    ensures RelativePath(["molecules", "molecule", "molecule", "formula"], "molecule") == "molecule.formula"
    ensures RelativePath(["molecules", "list", "formula"], "molecule") == "molecules.list.formula"
  {
    var r := ["molecules", "molecule", "molecule", "formula"];
    assert r[..3] == ["molecules", "molecule", "molecule"];
    assert r[2..] == ["molecule", "formula"];
    assert ["molecule", "formula"][..1] == ["molecule"];
    var q := ["molecules", "list", "formula"];
    assert q[..2] == ["molecules", "list"] && q[..2][..1] == ["molecules"];
    assert q[..1] == ["molecules"];
    assert Join(q[..2]) == "molecules.list";
  }

  /** The open-element stack of one parse (`XMLLocator`). */
  class Locator {
    /** The open element names, root first; the top of the stack is the last entry. */
    var position: seq<string>

    constructor ()
      ensures position == []
    {
      position := [];
    }

    /** Enters an element. */
    method Push(element: string)
      modifies this
      ensures position == old(position) + [element]
    {
      position := position + [element];
    }

    /** Leaves the current element; `Stack.pop` on an empty stack throws. */
    method Pop() returns (outcome: Outcome)
      modifies this
      ensures outcome == (if old(position) == [] then Fail(EmptyStack) else Pass)
      ensures outcome.Pass? ==> position == old(position)[..|old(position)| - 1]
      ensures outcome.Fail? ==> position == old(position)
    {
      if position == [] {
        return Fail(EmptyStack);
      }
      position := position[..|position| - 1];
      outcome := Pass;
    }

    /** The innermost open element (`getElement`), None where `peek` would throw. */
    function Element(): (e: Option<string>)
      reads this
      ensures e.Some? <==> position != []
      ensures e.Some? ==> e.value == position[|position| - 1]
    {
      if position == [] then None else Some(position[|position| - 1])
    }

    /** The nesting depth (`getLevel`): zero exactly when there is no innermost element. */
    function Level(): (n: nat)
      reads this
      ensures n == 0 <==> Element().None?
    {
      |position|
    }

    /** The dotted path of the open elements, root first (`getPath`). */
    function Path(): string
      reads this
    {
      Join(position)
    }
  }

  /** The path of a stack of dot-free names cuts back into the stack. */
  lemma PathReadsBack(locator: Locator)
    requires locator.position != [] && DotFree(locator.position)
    ensures Split(locator.Path()) == locator.position
  {
    SplitJoin(locator.position);
  }

  /** Entering and then leaving an element puts the stack back as it was. */
  method PushThenPop(locator: Locator, element: string)
    modifies locator
    ensures locator.position == old(locator.position)
  {
    locator.Push(element);
    var outcome := locator.Pop();
    assert (old(locator.position) + [element])[..|old(locator.position)|] == old(locator.position);
  }
}
