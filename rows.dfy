/**
 * One shelf of the table (BinPacker2D/RowVariant.cs).
 *
 * `RowState` is the value of a row's fields; the functions below give the
 * effect of each operation on it, and the class `RowVariant` updates its
 * fields in place with methods proved against those functions.
 */
module Rows {
  import opened Wrappers
  import opened Positions
  import opened Elements

  datatype RowState = RowState(
    smallestElementDimension: real,
    spacing: real,
    packedElements: seq<RowElement>,
    inputElements: seq<RowElement>,
    topSplits: seq<Position>,
    space: Position)

  /** The smaller dimension of the element, ties going to the width (the test is strict). */
  function SmallestDimension(e: RowElement): (d: real)
    ensures d <= e.width && d <= e.height
    ensures d == e.width || d == e.height
  {
    if e.height < e.width then e.height else e.width
  }

  /**
   * The new-row constructor: the row's height is that of the first input
   * element in the chosen orientation, the split threshold comes from the
   * last input element, and the first element is placed at the origin.
   */
  function NewRow(space: Position, spacing: real, elementsInput: seq<RowElement>, isRotated: bool): RowState
    requires |elementsInput| > 0
  {
    var first := elementsInput[0];
    var rowHeight := if isRotated then first.width else first.height;
    var s := RowState(SmallestDimension(elementsInput[|elementsInput| - 1]), spacing, [], elementsInput, [],
                      Position(rowHeight, space.width, space.posX, space.posY));
    Inserted(s, if isRotated then GetRotatedCopy(first) else first)
  }

  /** `GetNewSpace`: keep the strip above the element when it is tall enough, and move the space right. */
  function WithNewSpace(s: RowState, element: RowElement): RowState
  {
    var space := s.space;
    var splits :=
      if element.height + s.spacing + s.smallestElementDimension < space.height
      then s.topSplits + [Position(space.height - element.height - s.spacing, space.width,
                                   space.posX, space.posY + element.height + s.spacing)]
      else s.topSplits;
    s.(topSplits := splits,
       space := Position(element.height, space.width - element.width - s.spacing,
                         space.posX + element.width + s.spacing, space.posY))
  }

  /** `Insert`: append a copy placed at the origin of the current space, then shrink the space. */
  function Inserted(s: RowState, element: RowElement): RowState
  {
    WithNewSpace(s.(packedElements := s.packedElements + [PlacedCopy(element, s.space.posX, s.space.posY)]), element)
  }

  /** The clone constructor: a copy of the row's state with the rotated copy of `element` inserted. */
  function ClonedWithRotated(s: RowState, element: RowElement): RowState
  {
    Inserted(s, GetRotatedCopy(element))
  }

  /** Take the most recently pushed split as the current space. */
  function Popped(s: RowState): (r: RowState)
    requires |s.topSplits| > 0
  {
    s.(space := s.topSplits[|s.topSplits| - 1], topSplits := s.topSplits[..|s.topSplits| - 1])
  }

  /** The ordering key the next element must carry. */
  function NextSortIndex(s: RowState): int
  {
    if |s.packedElements| == 0 then 0 else s.packedElements[|s.packedElements| - 1].sortIndex + 1
  }

  /** `List.Find`: the first element of `l` whose ordering key is `k`. */
  function FindBySortIndex(l: seq<RowElement>, k: int): (r: Option<RowElement>)
    ensures r.Some? ==> r.value.sortIndex == k
  {
    if |l| == 0 then None
    else if l[0].sortIndex == k then Some(l[0])
    else FindBySortIndex(l[1..], k)
  }

  /** Find reports nothing exactly when no element carries the key, and otherwise the first one that does. */
  lemma {:induction false} FindBySortIndexFirst(l: seq<RowElement>, k: int)
    ensures FindBySortIndex(l, k).None? <==> forall i :: 0 <= i < |l| ==> l[i].sortIndex != k
    ensures FindBySortIndex(l, k).Some? ==>
              exists i :: 0 <= i < |l| && l[i] == FindBySortIndex(l, k).value && l[i].sortIndex == k &&
                          forall j :: 0 <= j < i ==> l[j].sortIndex != k
  {
    if |l| > 0 && l[0].sortIndex != k {
      FindBySortIndexFirst(l[1..], k);
      assert forall i :: 1 <= i < |l| ==> l[i] == l[1..][i - 1];
      if FindBySortIndex(l, k).Some? {
        var i :| 0 <= i < |l| - 1 && l[1..][i] == FindBySortIndex(l, k).value && l[1..][i].sortIndex == k &&
                 forall j :: 0 <= j < i ==> l[1..][j].sortIndex != k;
        assert l[i + 1] == FindBySortIndex(l, k).value;
      }
    }
  }

  /** On a list whose keys are its positions, Find at `k` is the element at position `k`. */
  lemma {:induction false} FindInNumbered(l: seq<RowElement>, k: int, offset: int)
    requires forall i :: 0 <= i < |l| ==> l[i].sortIndex == offset + i
    ensures FindBySortIndex(l, k) == if offset <= k < offset + |l| then Some(l[k - offset]) else None
  {
    if |l| > 0 && l[0].sortIndex != k {
      assert forall i :: 0 <= i < |l| - 1 ==> l[1..][i].sortIndex == offset + 1 + i;
      FindInNumbered(l[1..], k, offset + 1);
    }
  }

  /** `GetNextElement`: the input element following the last packed one, if any. */
  function NextElement(s: RowState): Option<RowElement>
  {
    FindBySortIndex(s.inputElements, NextSortIndex(s))
  }

  /** How many input elements carry an ordering key of at least `k`. */
  function CountFrom(l: seq<RowElement>, k: int): nat
  {
    if |l| == 0 then 0 else (if l[0].sortIndex >= k then 1 else 0) + CountFrom(l[1..], k)
  }

  lemma {:induction false} CountFromStep(l: seq<RowElement>, k: int)
    requires FindBySortIndex(l, k).Some?
    ensures CountFrom(l, k + 1) < CountFrom(l, k)
  {
    if l[0].sortIndex != k {
      CountFromStep(l[1..], k);
    } else {
      CountFromMonotone(l[1..], k);
    }
  }

  lemma {:induction false} CountFromMonotone(l: seq<RowElement>, k: int)
    ensures CountFrom(l, k + 1) <= CountFrom(l, k)
  {
    if |l| > 0 {
      CountFromMonotone(l[1..], k);
    }
  }

  /** The elements still to place: the termination measure of the row's insertion loop. */
  function Rem(s: RowState): nat
  {
    CountFrom(s.inputElements, NextSortIndex(s))
  }

  /** Inserting the next element (either way round) uses up one of the remaining elements. */
  lemma InsertedShrinks(s: RowState, e: RowElement, x: RowElement)
    requires NextElement(s) == Some(e)
    requires x.sortIndex == e.sortIndex
    ensures Rem(Inserted(s, x)) < Rem(s)
  {
    var k := NextSortIndex(s);
    assert NextSortIndex(Inserted(s, x)) == k + 1;
    CountFromStep(s.inputElements, k);
  }

  /** What one call of `InsertNextElement` leaves behind: the row's final state and the clones it queued. */
  datatype Expansion = Expansion(final: RowState, spawned: seq<RowState>)

  /** The outcome of one call of `InsertNextElement` up to its recursive call. */
  datatype Step = Stop | Continue(next: RowState, advance: bool, clone: Option<RowState>)

  /**
   * One call of `InsertNextElement` without its recursive call: look up the
   * next element; when advancing, pop the most recent split (or stop when
   * none is left); then insert the element the way it fits, making a rotated
   * clone when it fits both ways and is not a square, or go on by advancing
   * when it does not fit at all.  The recursion's measure goes down.
   */
  function StepOf(s: RowState, advance: bool): (r: Step)
    ensures r.Continue? ==>
              || Rem(r.next) < Rem(s)
              || (Rem(r.next) == Rem(s) && |r.next.topSplits| < |s.topSplits|)
              || (Rem(r.next) == Rem(s) && |r.next.topSplits| == |s.topSplits| && !advance && r.advance)
  {
    match NextElement(s)
    case None => Stop
    case Some(e) =>
      if advance && |s.topSplits| == 0 then Stop
      else
        var s1 := if advance then Popped(s) else s;
        var fit := CheckFitting(e, s1.space);
        var clone := if fit.canFitBoth && !IsSquare(e) then Some(ClonedWithRotated(s1, e)) else None;
        if fit.canFitVertical || fit.canFitHorizontal then
          var x := if fit.canFitVertical then e else GetRotatedCopy(e);
          InsertedShrinks(s1, e, x);
          Continue(Inserted(s1, x), false, clone)
        else
          Continue(s1, true, clone)
  }

  /** The clone a step makes, as a list of zero or one row states. */
  function Clones(st: Step): (r: seq<RowState>)
    ensures |r| <= 1
  {
    if st.Continue? && st.clone.Some? then [st.clone.value] else []
  }

  /** One unfolding of StepOf once the next element is known and a space is at hand. */
  lemma StepOfUnfold(s: RowState, advance: bool, e: RowElement)
    requires NextElement(s) == Some(e)
    requires !advance || |s.topSplits| > 0
    ensures var s1 := if advance then Popped(s) else s;
            var fit := CheckFitting(e, s1.space);
            var fits := fit.canFitVertical || fit.canFitHorizontal;
            StepOf(s, advance) ==
              Continue(if fits then Inserted(s1, if fit.canFitVertical then e else GetRotatedCopy(e)) else s1,
                       !fits,
                       if fit.canFitBoth && !IsSquare(e) then Some(ClonedWithRotated(s1, e)) else None)
  {
  }

  /** `InsertNextElement` with its recursion: the row's final state and every clone queued, in order. */
  function Expand(s: RowState, advance: bool): Expansion
    decreases Rem(s), |s.topSplits|, if advance then 0 else 1
  {
    match StepOf(s, advance)
    case Stop => Expansion(s, [])
    case Continue(next, nextAdvance, _) => AfterSpawning(Clones(StepOf(s, advance)), Expand(next, nextAdvance))
  }

  /** The clones queued so far, followed by what the rest of the expansion leaves behind. */
  function AfterSpawning(spawned: seq<RowState>, x: Expansion): Expansion
  {
    Expansion(x.final, spawned + x.spawned)
  }

  lemma AfterSpawningTwice(a: seq<RowState>, b: seq<RowState>, x: Expansion)
    ensures AfterSpawning(a, AfterSpawning(b, x)) == AfterSpawning(a + b, x)
  {
    assert a + (b + x.spawned) == (a + b) + x.spawned;
  }

  /** The states of a list of rows. */
  function States(rows: seq<RowVariant>): (r: seq<RowState>)
    reads rows
    ensures |r| == |rows| && forall i :: 0 <= i < |rows| ==> r[i] == rows[i].State()
  {
    if |rows| == 0 then [] else [rows[0].State()] + States(rows[1..])
  }

  lemma StatesAppend(a: seq<RowVariant>, b: seq<RowVariant>)
    ensures States(a + b) == States(a) + States(b)
  {
  }

  /** Indexing a suffix is indexing the list past its start. */
  lemma DropIndex<T>(t: seq<T>, n: nat)
    requires n <= |t|
    ensures forall j :: 0 <= j < |t| - n ==> t[n..][j] == t[n + j]
  {
  }

  /** A list that starts with `a + b` starts with `a`, and after `a` comes `b` followed by the rest. */
  lemma PrefixSplit<T>(t: seq<T>, a: seq<T>, b: seq<T>)
    requires |t| >= |a + b| && t[..|a + b|] == a + b
    ensures t[..|a|] == a
    ensures t[|a|..] == b + t[|a + b|..]
  {
    assert forall i :: 0 <= i < |a| ==> t[i] == t[..|a + b|][i] == a[i];
    assert forall i :: 0 <= i < |b| ==> t[|a|..][i] == t[..|a + b|][|a| + i] == b[i];
  }

  predicate Distinct(rows: seq<RowVariant>)
  {
    forall i, j :: 0 <= i < j < |rows| ==> rows[i] != rows[j]
  }

  /** Two lists of rows share none. */
  predicate Apart(a: seq<RowVariant>, b: seq<RowVariant>)
  {
    forall i, j :: 0 <= i < |a| && 0 <= j < |b| ==> a[i] != b[j]
  }

  /** Appending at most one row that is not in a list of distinct rows keeps them distinct, on either side. */
  lemma DistinctAppend(a: seq<RowVariant>, b: seq<RowVariant>)
    requires |a| <= 1 && Distinct(b)
    requires forall i, j :: 0 <= i < |a| && 0 <= j < |b| ==> a[i] != b[j]
    ensures Distinct(a + b) && Distinct(b + a)
  {
  }

  class RowVariant {
    var smallestElementDimension: real
    var spacing: real
    var packedElements: seq<RowElement>
    var inputElements: seq<RowElement>
    var topSplits: seq<Position>
    var space: Position

    function State(): RowState
      reads this
    {
      RowState(smallestElementDimension, spacing, packedElements, inputElements, topSplits, space)
    }

    /** RowVariant.cs:63-79 */
    constructor (space: Position, spacing: real, elementsInput: seq<RowElement>, isRotated: bool)
      requires |elementsInput| > 0
      ensures State() == NewRow(space, spacing, elementsInput, isRotated)
    {
      var first := elementsInput[0];
      var last := elementsInput[|elementsInput| - 1];
      var rowHeight := if isRotated then first.width else first.height;
      smallestElementDimension := if last.height < last.width then last.height else last.width;
      this.spacing := spacing;
      this.space := Position(rowHeight, space.width, space.posX, space.posY);
      inputElements := elementsInput;
      packedElements := [];
      topSplits := [];
      new;
      if !isRotated {
        Insert(first);
      } else {
        Insert(GetRotatedCopy(first));
      }
    }

    /** RowVariant.cs:45-54: the lists are copied, so the clone and the original evolve independently. */
    constructor Clone(rowVariantToCopy: RowVariant, element: RowElement)
      ensures State() == ClonedWithRotated(rowVariantToCopy.State(), element)
    {
      smallestElementDimension := rowVariantToCopy.smallestElementDimension;
      spacing := rowVariantToCopy.spacing;
      inputElements := rowVariantToCopy.inputElements;
      packedElements := rowVariantToCopy.packedElements;
      topSplits := rowVariantToCopy.topSplits;
      space := rowVariantToCopy.space;
      new;
      Insert(GetRotatedCopy(element));
    }

    method Insert(element: RowElement)
      modifies this
      ensures State() == Inserted(old(State()), element)
    {
      var elementCopy := PlacedCopy(element, space.posX, space.posY);
      packedElements := packedElements + [elementCopy];
      GetNewSpace(element);
    }

    method GetNewSpace(element: RowElement)
      modifies this
      ensures State() == WithNewSpace(old(State()), element)
    {
      if element.height + spacing + smallestElementDimension < space.height {
        var topPosition := Position(space.height - element.height - spacing, space.width,
                                    space.posX, space.posY + element.height + spacing);
        topSplits := topSplits + [topPosition];
      }
      space := space.(height := element.height);
      space := space.(posX := space.posX + element.width + spacing);
      space := space.(width := space.width - element.width - spacing);
    }

    function GetNextElement(): Option<RowElement>
      reads this
    {
      NextElement(State())
    }

    /**
     * `InsertNextElement` up to its recursive call: look up the next element;
     * when advancing, take the most recently left split as the space (or stop
     * when none is left); then insert the element the way it fits, creating a
     * rotated clone when it fits both ways and is not a square.  `stop` says
     * the row is finished; otherwise the recursion goes on with `nextLine`.
     */
    method InsertionStep(insertIntoNextLine: bool) returns (stop: bool, nextLine: bool, clones: seq<RowVariant>)
      modifies this
      ensures stop == StepOf(old(State()), insertIntoNextLine).Stop?
      ensures stop ==> State() == old(State()) && clones == []
      ensures !stop ==> State() == StepOf(old(State()), insertIntoNextLine).next &&
                        nextLine == StepOf(old(State()), insertIntoNextLine).advance
      ensures !stop ==> States(clones) == Clones(StepOf(old(State()), insertIntoNextLine))
      ensures |clones| <= 1 && forall i :: 0 <= i < |clones| ==> fresh(clones[i])
    {
      ghost var s0 := State();
      var element := GetNextElement();
      if element.None? {
        return true, insertIntoNextLine, [];
      }
      if insertIntoNextLine {
        if |topSplits| > 0 {
          space := topSplits[|topSplits| - 1];
          topSplits := topSplits[..|topSplits| - 1];
        } else {
          return true, insertIntoNextLine, [];
        }
      }
      stop := false;
      var e := element.value;
      ghost var s1 := State();
      assert s1 == if insertIntoNextLine then Popped(s0) else s0;
      StepOfUnfold(s0, insertIntoNextLine, e);
      var fit := CheckFitting(e, space);
      clones := [];
      if fit.canFitBoth {
        if !IsSquare(e) {
          var variant2 := new RowVariant.Clone(this, e);
          clones := [variant2];
        }
        Insert(e);
      } else if fit.canFitVertical {
        Insert(e);
      } else if fit.canFitHorizontal {
        Insert(GetRotatedCopy(e));
      }
      nextLine := !fit.canFitVertical && !fit.canFitHorizontal;
    }

    /**
     * Insert elements into the row until it is finished: each call handles
     * one element (or one advance to a split) and recurses, as the source
     * does.  Clones are appended to `variantsToCheck` in the order they are
     * made; the row is appended to `finishedVariants` once no element or no
     * split is left.
     */
    method InsertNextElement(variantsToCheck: seq<RowVariant>, finishedVariants: seq<RowVariant>, insertIntoNextLine: bool)
      returns (toCheck: seq<RowVariant>, finished: seq<RowVariant>)
      modifies this
      ensures State() == Expand(old(State()), insertIntoNextLine).final
      ensures finished == finishedVariants + [this]
      ensures |toCheck| >= |variantsToCheck| && toCheck[..|variantsToCheck|] == variantsToCheck
      ensures forall i :: |variantsToCheck| <= i < |toCheck| ==> fresh(toCheck[i])
      ensures Distinct(toCheck[|variantsToCheck|..])
      ensures States(toCheck[|variantsToCheck|..]) == Expand(old(State()), insertIntoNextLine).spawned
      decreases Rem(State()), |topSplits|, if insertIntoNextLine then 0 else 1
    {
      ghost var s0 := State();
      var stop, nextLine, clones := InsertionStep(insertIntoNextLine);
      if stop {
        toCheck, finished := variantsToCheck, finishedVariants + [this];
        assert toCheck[|variantsToCheck|..] == [];
        return;
      }
      ghost var cloneStates := States(clones);
      assert Expand(s0, insertIntoNextLine) == AfterSpawning(cloneStates, Expand(State(), nextLine));
      label call:
      toCheck, finished := InsertNextElement(variantsToCheck + clones, finishedVariants, nextLine);
      ghost var n := |variantsToCheck + clones|;
      PrefixSplit(toCheck, variantsToCheck, clones);
      ghost var later := toCheck[n..];
      DropIndex(toCheck, n);
      assert States(clones) == cloneStates;
      StatesAppend(clones, later);
      forall i, j | 0 <= i < |clones| && 0 <= j < |later| ensures clones[i] != later[j] {
        assert fresh(toCheck[n + j]);
        assert old@call(allocated(clones[i]));
      }
      DistinctAppend(clones, later);
    }

    /** RowVariant.cs:200-205: drop the head of the queue (this row), then insert from the current space. */
    method InsertElement(variantsToCheck: seq<RowVariant>, finishedVariants: seq<RowVariant>)
      returns (toCheck: seq<RowVariant>, finished: seq<RowVariant>)
      requires |variantsToCheck| > 0
      modifies this
      ensures State() == Expand(old(State()), false).final
      ensures finished == finishedVariants + [this]
      ensures |toCheck| >= |variantsToCheck| - 1 && toCheck[..|variantsToCheck| - 1] == variantsToCheck[1..]
      ensures forall i :: |variantsToCheck| - 1 <= i < |toCheck| ==> fresh(toCheck[i])
      ensures Distinct(toCheck[|variantsToCheck| - 1..])
      ensures Apart(toCheck[|variantsToCheck| - 1..], variantsToCheck) && Apart(toCheck[|variantsToCheck| - 1..], finishedVariants)
      ensures States(toCheck[|variantsToCheck| - 1..]) == Expand(old(State()), false).spawned
    {
      toCheck, finished := InsertNextElement(variantsToCheck[1..], finishedVariants, false);
    }
  }
}
