/**
 * What `PackElements` does to its input before packing
 * (BinPacker2D/Packer.cs:67-135): lay every element upright, order the
 * elements by width (widest first, ties in input order), number them, and
 * shrink the table by its margins.
 */
module Preprocess {
  import opened Positions
  import opened Elements

  // ---------------------------------------------------------------------
  // Laying elements upright

  /** An element lying on its side is turned upright and flagged as rotated. */
  function Normalised(e: RowElement): RowElement
  {
    if e.height < e.width then e.(width := e.height, height := e.width, isRotated := true) else e
  }

  /**
   * Afterwards the height is at least the width; an element is changed
   * exactly when its height was below its width, and then only its
   * dimensions swap and it is flagged rotated.
   */
  lemma NormalisedUpright(e: RowElement)
    ensures Normalised(e).height >= Normalised(e).width
    ensures Normalised(e) != e <==> e.height < e.width && (e.width != e.height || !e.isRotated)
    ensures e.height < e.width ==>
              Normalised(e).width == e.height && Normalised(e).height == e.width && Normalised(e).isRotated
    ensures Normalised(e).index == e.index && Normalised(e).sortIndex == e.sortIndex
    ensures Normalised(e).posX == e.posX && Normalised(e).posY == e.posY
    ensures Normalised(e) == e || Normalised(e) == GetRotatedCopy(e).(isRotated := true)
  {
  }

  /** Laying an element upright twice changes nothing more. */
  lemma NormalisedIdempotent(e: RowElement)
    ensures Normalised(Normalised(e)) == Normalised(e)
  {
  }

  /** An element and its rotated copy are laid upright with the same dimensions. */
  lemma NormalisedForgetsOrientation(e: RowElement)
    ensures Normalised(GetRotatedCopy(e)).width == Normalised(e).width
    ensures Normalised(GetRotatedCopy(e)).height == Normalised(e).height
  {
  }

  function NormaliseAll(l: seq<RowElement>): (r: seq<RowElement>)
    ensures |r| == |l| && forall i :: 0 <= i < |l| ==> r[i] == Normalised(l[i])
  {
    if |l| == 0 then [] else NormaliseAll(l[..|l| - 1]) + [Normalised(l[|l| - 1])]
  }

  /** Packer.cs:67-74: the loop laying every element upright. */
  method NormaliseElements(inputElements: seq<RowElement>) returns (r: seq<RowElement>)
    ensures r == NormaliseAll(inputElements)
    ensures forall i :: 0 <= i < |r| ==> r[i].height >= r[i].width
  {
    r := [];
    for i := 0 to |inputElements|
      invariant r == NormaliseAll(inputElements[..i])
    {
      var e := inputElements[i];
      if e.height < e.width {
        e := e.(width := e.height, height := e.width, isRotated := true);
      }
      assert inputElements[..i + 1][..i] == inputElements[..i];
      r := r + [e];
    }
    assert inputElements[..|inputElements|] == inputElements;
  }

  // ---------------------------------------------------------------------
  // Ordering by width, widest first, ties in input order

  /** Put `x` in front of the first element not wider than it. */
  function InsertByWidth(x: RowElement, s: seq<RowElement>): (r: seq<RowElement>)
    ensures |r| == |s| + 1
  {
    if |s| == 0 then [x]
    else if s[0].width <= x.width then [x] + s
    else [s[0]] + InsertByWidth(x, s[1..])
  }

  /** `OrderByDescending(x => x.width)`: a stable sort, widest first. */
  function SortByWidthDescending(l: seq<RowElement>): (r: seq<RowElement>)
    ensures |r| == |l|
  {
    if |l| == 0 then [] else InsertByWidth(l[0], SortByWidthDescending(l[1..]))
  }

  predicate WidthsDescending(s: seq<RowElement>)
  {
    forall i, j :: 0 <= i < j < |s| ==> s[i].width >= s[j].width
  }

  /** The elements of `s` with width `w`, in order. */
  function WithWidth(s: seq<RowElement>, w: real): seq<RowElement>
  {
    if |s| == 0 then [] else (if s[0].width == w then [s[0]] else []) + WithWidth(s[1..], w)
  }

  lemma ConsDescending(h: RowElement, rest: seq<RowElement>)
    requires WidthsDescending(rest)
    requires forall k :: 0 <= k < |rest| ==> h.width >= rest[k].width
    ensures WidthsDescending([h] + rest)
  {
    var r := [h] + rest;
    forall i, j | 0 <= i < j < |r| ensures r[i].width >= r[j].width {
      if i == 0 {
        assert r[j] == rest[j - 1];
      } else {
        assert r[i] == rest[i - 1] && r[j] == rest[j - 1];
      }
    }
  }

  lemma {:induction false} InsertByWidthSorted(x: RowElement, s: seq<RowElement>)
    requires WidthsDescending(s)
    ensures WidthsDescending(InsertByWidth(x, s))
    ensures multiset(InsertByWidth(x, s)) == multiset(s) + multiset{x}
  {
    if |s| == 0 {
    } else if s[0].width <= x.width {
      ConsDescending(x, s);
    } else {
      InsertByWidthSorted(x, s[1..]);
      var rest := InsertByWidth(x, s[1..]);
      forall k | 0 <= k < |rest| ensures s[0].width >= rest[k].width {
        assert rest[k] in multiset(s[1..]) + multiset{x};
        if rest[k] != x {
          assert rest[k] in s[1..];
        }
      }
      ConsDescending(s[0], rest);
      assert s == [s[0]] + s[1..];
    }
  }

  lemma {:induction false} InsertByWidthStable(x: RowElement, s: seq<RowElement>, w: real)
    ensures WithWidth(InsertByWidth(x, s), w) == (if x.width == w then [x] else []) + WithWidth(s, w)
  {
    if |s| > 0 {
      if s[0].width <= x.width {
        assert ([x] + s)[1..] == s;
      } else {
        InsertByWidthStable(x, s[1..], w);
        assert ([s[0]] + InsertByWidth(x, s[1..]))[1..] == InsertByWidth(x, s[1..]);
      }
    }
  }

  /** The sort orders by width, widest first, and keeps every element. */
  lemma {:induction false} SortSortedPermutation(l: seq<RowElement>)
    ensures WidthsDescending(SortByWidthDescending(l))
    ensures multiset(SortByWidthDescending(l)) == multiset(l)
  {
    if |l| > 0 {
      SortSortedPermutation(l[1..]);
      InsertByWidthSorted(l[0], SortByWidthDescending(l[1..]));
      assert l == [l[0]] + l[1..];
    }
  }

  /** The sort is stable: the elements of each width keep their input order. */
  lemma {:induction false} SortStable(l: seq<RowElement>, w: real)
    ensures WithWidth(SortByWidthDescending(l), w) == WithWidth(l, w)
  {
    if |l| > 0 {
      SortStable(l[1..], w);
      InsertByWidthStable(l[0], SortByWidthDescending(l[1..]), w);
    }
  }

  /**
   * The sort looks at widths only: two elements of the same size need not end
   * up next to each other when an element of the same width but another
   * height came between them in the input.
   */
  lemma SameSizeNotAdjacent()
    ensures var a := RowElement(0, 0, 0.0, 0.0, 1.0, 2.0, false);
            var b := RowElement(1, 0, 0.0, 0.0, 1.0, 3.0, false);
            var c := RowElement(2, 0, 0.0, 0.0, 1.0, 2.0, false);
            SortByWidthDescending([a, b, c]) == [a, b, c]
  {
    var a := RowElement(0, 0, 0.0, 0.0, 1.0, 2.0, false);
    var b := RowElement(1, 0, 0.0, 0.0, 1.0, 3.0, false);
    var c := RowElement(2, 0, 0.0, 0.0, 1.0, 2.0, false);
    assert [a, b, c][1..] == [b, c];
    assert [b, c][1..] == [c];
    assert [c][1..] == [];
    assert SortByWidthDescending([c]) == [c];
    assert SortByWidthDescending([b, c]) == InsertByWidth(b, [c]) == [b, c];
  }

  // ---------------------------------------------------------------------
  // Numbering

  /** Each element's ordering key set to its position. */
  function Renumbered(l: seq<RowElement>): (r: seq<RowElement>)
    ensures |r| == |l|
  {
    seq(|l|, i requires 0 <= i < |l| => l[i].(sortIndex := i))
  }

  /**
   * After numbering the keys are 0..|l|-1 and nothing else changed;
   * numbering twice, or numbering a suffix of a numbered list, is numbering
   * the original once.
   */
  lemma RenumberedNumbered(l: seq<RowElement>)
    ensures Numbered(Renumbered(l))
    ensures forall i :: 0 <= i < |l| ==> Renumbered(l)[i] == l[i].(sortIndex := i)
    ensures Renumbered(Renumbered(l)) == Renumbered(l)
    ensures Numbered(l) <==> Renumbered(l) == l
  {
    if Numbered(l) {
      assert forall i :: 0 <= i < |l| ==> Renumbered(l)[i] == l[i];
    }
  }

  lemma RenumberedSuffix(l: seq<RowElement>, k: nat)
    requires k <= |l|
    ensures Renumbered(Renumbered(l)[k..]) == Renumbered(l[k..])
  {
  }

  /** Packer.cs:85-89 and 278-282: the loop numbering the elements in list order. */
  method NumberElements(l: seq<RowElement>) returns (r: seq<RowElement>)
    ensures r == Renumbered(l)
  {
    r := l;
    var sortIndexCounter := 0;
    while sortIndexCounter < |r|
      invariant 0 <= sortIndexCounter <= |r| == |l|
      invariant r[..sortIndexCounter] == Renumbered(l)[..sortIndexCounter]
      invariant r[sortIndexCounter..] == l[sortIndexCounter..]
    {
      r := r[sortIndexCounter := r[sortIndexCounter].(sortIndex := sortIndexCounter)];
      sortIndexCounter := sortIndexCounter + 1;
    }
    assert r == r[..|r|];
  }

  // ---------------------------------------------------------------------
  // The table

  /** Packer.cs:115-135: the table shrunk by its margins, origin at (left, bottom). */
  function AdjustedTable(tableHeight: real, tableWidth: real,
                         leftTableMargin: real, rightTableMargin: real,
                         topTableMargin: real, bottomTableMargin: real): (t: Position)
    ensures t.posX == leftTableMargin && t.posY == bottomTableMargin
    ensures t.posX + t.width == tableWidth - rightTableMargin
    ensures t.posY + t.height == tableHeight - topTableMargin
  {
    Position(tableHeight - (topTableMargin + bottomTableMargin), tableWidth - (leftTableMargin + rightTableMargin),
             leftTableMargin, bottomTableMargin)
  }

  /** The element list packing starts from: upright, widest first, numbered. */
  function Prepared(inputElements: seq<RowElement>): (r: seq<RowElement>)
    ensures |r| == |inputElements|
  {
    Renumbered(SortByWidthDescending(NormaliseAll(inputElements)))
  }
}
