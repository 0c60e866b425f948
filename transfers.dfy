/** The transfer count computed inside `handleNodeClick` (src/graph.js:514-541).

    Each stop on a route carries the list of lines serving it.  The walk starts
    on one line, and whenever the next stop is not served by the current line it
    counts a change and picks a new line by looking one stop further ahead. */
module Transfers {
  import opened Wrappers

  /** `lines.includes(l)`: an undefined current line is served by no stop. */
  predicate Serves(lines: seq<string>, l: Option<string>)
  {
    l.Some? && l.value in lines
  }

  /** `xs.find(x => ys.includes(x))`: the first line of `xs` that `ys` also holds. */
  function FirstShared(xs: seq<string>, ys: seq<string>): (r: Option<string>)
    ensures r.Some? <==> exists i :: 0 <= i < |xs| && xs[i] in ys
    ensures r.Some? ==> r.value in xs && r.value in ys
    ensures r.Some? && |xs| > 0 && xs[0] in ys ==> r.value == xs[0]
    ensures r.Some? ==> exists i :: 0 <= i < |xs| && xs[i] == r.value && forall k :: 0 <= k < i ==> xs[k] !in ys
  {
    if xs == [] then None
    else if xs[0] in ys then Some(xs[0])
    else FirstShared(xs[1..], ys)
  }

  /** How the line before the loop is chosen (src/graph.js:514-517).  `Throws`
      is the `TypeError` raised when the route has a single stop served by two
      or more lines: `lineList[1]` is then undefined and `find` calls into it. */
  datatype Start = Throws | StartsOn(line: Option<string>)

  function InitialLine(ll: seq<seq<string>>): (r: Start)
    ensures r.Throws? <==> |ll| == 1 && |ll[0]| >= 2
    ensures |ll| > 0 && |ll[0]| == 1 ==> r == StartsOn(Some(ll[0][0]))
    ensures r.StartsOn? && r.line.Some? ==> |ll| > 0 && r.line.value in ll[0]
    ensures r.StartsOn? && r.line.Some? && |ll[0]| != 1 ==> |ll| > 1 && r.line.value in ll[1]
    ensures |ll| > 1 && |ll[0]| > 1 && (exists l :: l in ll[0] && l in ll[1]) ==> r.StartsOn? && r.line.Some?
    ensures |ll| > 1 && |ll[0]| > 1 ==> r == StartsOn(FirstShared(ll[0], ll[1]))
    ensures |ll| == 0 || |ll[0]| == 0 ==> r == StartsOn(None)
  {
    if |ll| == 0 then StartsOn(None)
    else if |ll[0]| == 1 then StartsOn(Some(ll[0][0]))
    else if |ll[0]| == 0 then StartsOn(None)
    else if |ll| == 1 then Throws
    else StartsOn(FirstShared(ll[0], ll[1]))
  }

  /** The line taken on a change before stop `i + 1` (src/graph.js:530): the
      first line of stop i+1 that stop i+2 also serves, else stop i+1's first
      line.  An empty-string line is falsy in JavaScript, so a shared "" falls
      through to the first line too. */
  function NewLine(ll: seq<seq<string>>, i: nat): (r: Option<string>)
    requires i + 1 < |ll|
    ensures r.Some? ==> r.value in ll[i + 1]
    ensures r.None? <==> ll[i + 1] == []
    ensures i + 2 < |ll| && r.Some? && r.value != ll[i + 1][0] ==> r.value in ll[i + 2]
    ensures i + 2 < |ll| && FirstShared(ll[i + 1], ll[i + 2]).Some? && FirstShared(ll[i + 1], ll[i + 2]).value != ""
      ==> r == FirstShared(ll[i + 1], ll[i + 2])
    ensures ll[i + 1] != [] && !(i + 2 < |ll| && FirstShared(ll[i + 1], ll[i + 2]).Some?
                                 && FirstShared(ll[i + 1], ll[i + 2]).value != "")
      ==> r == Some(ll[i + 1][0])
  {
    var shared := if i + 2 < |ll| then FirstShared(ll[i + 1], ll[i + 2]) else None;
    if shared.Some? && shared.value != "" then shared
    else if |ll[i + 1]| > 0 then Some(ll[i + 1][0])
    else None
  }

  /** The changes counted by the iterations `i`, `i + 1`, ... of the loop at
      src/graph.js:519-541 when the current line is `cur`: one exactly when the
      next stop lacks the current line. */
  function ChangesFrom(ll: seq<seq<string>>, i: nat, cur: Option<string>): nat
    decreases |ll| - i
  {
    if i + 1 >= |ll| then 0
    else if Serves(ll[i + 1], cur) then ChangesFrom(ll, i + 1, cur)
    else 1 + ChangesFrom(ll, i + 1, NewLine(ll, i))
  }

  /** `numberOfChanges` for a route whose stops have the line lists `ll`, or
      `None` when the initial choice throws. */
  function NumberOfChanges(ll: seq<seq<string>>): Option<nat>
  {
    match InitialLine(ll)
    case Throws => None
    case StartsOn(l) => Some(ChangesFrom(ll, 0, l))
  }

  /** The loop of src/graph.js:514-541 without its display writes. */
  method CountTransfers(lineList: seq<seq<string>>) returns (r: Option<nat>)
    ensures r == NumberOfChanges(lineList)
  {
    var previousLine: Option<string> := None;
    if |lineList| > 0 {
      if |lineList[0]| == 1 {
        previousLine := Some(lineList[0][0]);
      } else if |lineList[0]| == 0 {
        previousLine := None;
      } else if |lineList| == 1 {
        return None;
      } else {
        previousLine := FirstShared(lineList[0], lineList[1]);
      }
    }
    ghost var initial := previousLine;
    assert InitialLine(lineList) == StartsOn(initial);
    var numberOfChanges := 0;
    var i := 0;
    while i < |lineList|
      invariant 0 <= i <= |lineList|
      invariant numberOfChanges + ChangesFrom(lineList, i, previousLine) == ChangesFrom(lineList, 0, initial)
    {
      if i < |lineList| - 1 {
        var nextStopLines := lineList[i + 1];
        if !Serves(nextStopLines, previousLine) {
          var found := if i + 2 < |lineList| then FirstShared(nextStopLines, lineList[i + 2]) else None;
          var newLine := if found.Some? && found.value != "" then found
                         else if |nextStopLines| > 0 then Some(nextStopLines[0]) else None;
          previousLine := newLine;
          numberOfChanges := numberOfChanges + 1;
        }
      }
      i := i + 1;
    }
    r := Some(numberOfChanges);
  }

  // ---------------------------------------------------------------------------
  // What the count promises

  /** At most one change per hop. */
  lemma {:induction false} ChangesBounded(ll: seq<seq<string>>, i: nat, cur: Option<string>)
    ensures ChangesFrom(ll, i, cur) <= if i + 1 < |ll| then |ll| - 1 - i else 0
    decreases |ll| - i
  {
    if i + 1 < |ll| {
      if Serves(ll[i + 1], cur) {
        ChangesBounded(ll, i + 1, cur);
      } else {
        ChangesBounded(ll, i + 1, NewLine(ll, i));
      }
    }
  }

  /** No change is counted exactly when every later stop serves the current line. */
  lemma {:induction false} NoChangesIff(ll: seq<seq<string>>, i: nat, cur: Option<string>)
    ensures ChangesFrom(ll, i, cur) == 0 <==> forall j :: i < j < |ll| ==> Serves(ll[j], cur)
    decreases |ll| - i
  {
    if i + 1 < |ll| {
      if Serves(ll[i + 1], cur) {
        NoChangesIff(ll, i + 1, cur);
      } else {
        assert !Serves(ll[i + 1], cur);
      }
    }
  }

  /** A route of n stops has at most n - 1 changes. */
  lemma ChangesAtMostHops(ll: seq<seq<string>>)
    requires NumberOfChanges(ll).Some?
    ensures NumberOfChanges(ll).value <= if |ll| > 0 then |ll| - 1 else 0
  {
    ChangesBounded(ll, 0, InitialLine(ll).line);
  }

  /** The count is 0 exactly when the initial line serves every later stop. */
  lemma NoChangesWhenOneLineServesAll(ll: seq<seq<string>>)
    requires InitialLine(ll).StartsOn?
    ensures NumberOfChanges(ll) == Some(0) <==> forall j :: 0 < j < |ll| ==> Serves(ll[j], InitialLine(ll).line)
  {
    NoChangesIff(ll, 0, InitialLine(ll).line);
  }

  /** The initial choice throws only for a one-stop route whose stop has two or
      more lines. */
  lemma ThrowsOnlyOnSingleStop(ll: seq<seq<string>>)
    ensures NumberOfChanges(ll).None? <==> |ll| == 1 && |ll[0]| >= 2
  {
  }

  /** Stops served by [1], [1, 2], [2]: stop 0 has a single line, stop 2 lacks
      line 1, so one change is counted even though the middle stop serves both. */
  lemma OneChangeThroughSharedStop()
    ensures NumberOfChanges([["1"], ["1", "2"], ["2"]]) == Some(1)
  {
    var ll := [["1"], ["1", "2"], ["2"]];
    assert InitialLine(ll) == StartsOn(Some("1"));
    assert Serves(ll[1], Some("1"));
    assert !Serves(ll[2], Some("1"));
  }
}
