/**
 * The dashboard page: while the list query is loading it shows a loading
 * line; otherwise it shows the header and either the empty-state text (for a
 * list of length zero) or a grid with one card per study set whose title is
 * truthy. An absent list is not of length zero, so it gives a grid, empty.
 */
module Dashboard {
  import opened StudySetsApi

  const LoadingText: string := "Loading..."
  const EmptyStateText: string := "No study sets found"

  /** What the page shows, as far as the decision goes. */
  datatype View = Loading | NoStudySets | Grid(cards: seq<string>)

  /** A title is truthy when it is present and not the empty string. */
  predicate HasTruthyTitle(studySet: StudySet)
    ensures HasTruthyTitle(studySet) <==> studySet.title.Some? && |studySet.title.value| >= 1
  {
    studySet.title.Some? && studySet.title.value != ""
  }

  /**
   * What one element contributes to the grid: `studySet.title && <card>`, so a
   * card with the title when the title is truthy and nothing otherwise.
   */
  function Card(studySet: StudySet): (cards: seq<string>)
    ensures |cards| <= 1
    ensures |cards| == 1 <==> HasTruthyTitle(studySet)
    ensures forall t | t in cards :: Some(t) == studySet.title && t != ""
  {
    if HasTruthyTitle(studySet) then [studySet.title.value] else []
  }

  /** The grid's children: the cards of all elements, in list order. */
  function Cards(sets: seq<StudySet>): (cards: seq<string>)
    ensures |cards| <= |sets|
    ensures forall k | 0 <= k < |cards| :: cards[k] != ""
  {
    if sets == [] then [] else Card(sets[0]) + Cards(sets[1..])
  }

  /** The page for a given loading flag and query data. */
  function Render(isLoading: bool, data: Option<seq<StudySet>>): (view: View)
    ensures isLoading ==> view == Loading
    ensures !isLoading ==> (view == NoStudySets <==> data == Some([]))
    ensures !isLoading && data.None? ==> view == Grid([])
    ensures view.Grid? && data.Some? ==> |view.cards| <= |data.value|
  {
    if isLoading then Loading
    else if data.Some? && |data.value| == 0 then NoStudySets
    else
      match data
      case None => Grid([])
      case Some(sets) => Grid(Cards(sets))
  }

  // ---------------------------------------------------------------------------
  // The title filter

  /** The cards of two lists put together are the cards of each, one after the other. */
  lemma {:induction false} CardsAppend(a: seq<StudySet>, b: seq<StudySet>)
    ensures Cards(a + b) == Cards(a) + Cards(b)
    decreases |a|
  {
    if a == [] {
      assert a + b == b;
    } else {
      assert (a + b)[0] == a[0] && (a + b)[1..] == a[1..] + b;
      CardsAppend(a[1..], b);
      calc {
        Cards(a + b);
        Card(a[0]) + Cards(a[1..] + b);
        Card(a[0]) + (Cards(a[1..]) + Cards(b));
        (Card(a[0]) + Cards(a[1..])) + Cards(b);
      }
    }
  }

  /** The cards of a list with one more element in front. */
  lemma CardsCons(first: StudySet, rest: seq<StudySet>)
    ensures Cards([first] + rest) == Card(first) + Cards(rest)
  {
    var sets := [first] + rest;
    assert sets[0] == first && sets[1..] == rest;
  }

  /** Element i's card sits between the cards of the elements before and after it. */
  lemma CardsAt(sets: seq<StudySet>, i: int)
    requires 0 <= i < |sets|
    ensures Cards(sets) == Cards(sets[..i]) + Card(sets[i]) + Cards(sets[i + 1..])
  {
    var before, after := sets[..i], sets[i + 1..];
    assert sets == before + ([sets[i]] + after);
    CardsAppend(before, [sets[i]] + after);
    CardsCons(sets[i], after);
    var x, y, z := Cards(before), Card(sets[i]), Cards(after);
    assert x + (y + z) == x + y + z;
  }

  /** A title appears on a card exactly when some element carries it and it is truthy. */
  lemma {:induction false} CardsMembership(sets: seq<StudySet>, t: string)
    ensures t in Cards(sets) <==>
      exists i | 0 <= i < |sets| :: sets[i].title == Some(t) && t != ""
    decreases |sets|
  {
    if sets != [] {
      CardsMembership(sets[1..], t);
      if t in Cards(sets[1..]) {
        var i :| 0 <= i < |sets[1..]| && sets[1..][i].title == Some(t) && t != "";
        assert sets[i + 1].title == Some(t);
      }
      if exists i | 0 <= i < |sets| :: sets[i].title == Some(t) && t != "" {
        var i :| 0 <= i < |sets| && sets[i].title == Some(t) && t != "";
        if i > 0 {
          assert sets[1..][i - 1] == sets[i];
        }
      }
    }
  }

  /** Every element gets a card exactly when every title is truthy. */
  lemma {:induction false} CardsOnePerElement(sets: seq<StudySet>)
    ensures |Cards(sets)| == |sets| <==> forall i | 0 <= i < |sets| :: HasTruthyTitle(sets[i])
    decreases |sets|
  {
    if sets != [] {
      CardsOnePerElement(sets[1..]);
      if forall i | 0 <= i < |sets[1..]| :: HasTruthyTitle(sets[1..][i]) {
        forall i | 0 <= i < |sets| ensures HasTruthyTitle(sets[i]) || i == 0 {
          if i > 0 {
            assert sets[i] == sets[1..][i - 1];
          }
        }
      }
      if forall i | 0 <= i < |sets| :: HasTruthyTitle(sets[i]) {
        forall i | 0 <= i < |sets[1..]| ensures HasTruthyTitle(sets[1..][i]) {
          assert sets[1..][i] == sets[i + 1];
        }
      }
    }
  }

  /** No element gets a card exactly when no title is truthy. */
  lemma {:induction false} CardsNone(sets: seq<StudySet>)
    ensures Cards(sets) == [] <==> forall i | 0 <= i < |sets| :: !HasTruthyTitle(sets[i])
    decreases |sets|
  {
    if sets != [] {
      CardsNone(sets[1..]);
      if forall i | 0 <= i < |sets[1..]| :: !HasTruthyTitle(sets[1..][i]) {
        forall i | 1 <= i < |sets| ensures !HasTruthyTitle(sets[i]) {
          assert sets[i] == sets[1..][i - 1];
        }
      }
    }
  }

  // ---------------------------------------------------------------------------
  // The page

  /** While loading, the page is the loading line whatever the data. */
  lemma RenderWhileLoading(data: Option<seq<StudySet>>)
    ensures Render(true, data) == Loading
  {
  }

  /** A list of length zero gives the empty-state text and no cards. */
  lemma RenderEmptyList()
    ensures Render(false, Some([])) == NoStudySets
  {
  }

  /** A non-empty list gives a grid of exactly the truthy titles, in list order. */
  lemma RenderNonEmptyList(sets: seq<StudySet>)
    requires |sets| > 0
    ensures Render(false, Some(sets)) == Grid(Cards(sets))
    ensures forall t :: t in Render(false, Some(sets)).cards <==>
      exists i | 0 <= i < |sets| :: sets[i].title == Some(t) && t != ""
  {
    forall t ensures t in Cards(sets) <==>
      exists i | 0 <= i < |sets| :: sets[i].title == Some(t) && t != ""
    {
      CardsMembership(sets, t);
    }
  }

  /** A non-empty list whose titles are all falsy gives an empty grid, not the empty-state text. */
  lemma RenderAllTitlesFalsy(sets: seq<StudySet>)
    requires |sets| > 0
    requires forall i | 0 <= i < |sets| :: !HasTruthyTitle(sets[i])
    ensures Render(false, Some(sets)) == Grid([])
  {
    CardsNone(sets);
  }

  /**
   * After a failed request the fetch function yields no data, and the page
   * shows an empty grid rather than the empty-state text.
   */
  lemma RenderAfterFailedFetch()
    ensures Render(false, QueryFnResult(RequestFailed)) == Grid([])
    ensures Render(false, QueryFnResult(RequestFailed)) != NoStudySets
  {
  }

  /** The example list [Math, "", Art] gives the two cards Math and Art. */
  lemma RenderExample(sets: seq<StudySet>)
    requires sets == [StudySet(1, Some("Math")), StudySet(2, Some("")), StudySet(3, Some("Art"))]
    ensures Render(false, Some(sets)) == Grid(["Math", "Art"])
  {
    var rest := sets[1..];
    assert rest[1..] == [sets[2]] && rest[1..][1..] == [];
    assert Cards(rest[1..][1..]) == [];
    assert Cards(rest[1..]) == ["Art"];
    assert Cards(rest) == ["Art"];
    assert Card(sets[0]) == ["Math"];
  }

  // ---------------------------------------------------------------------------
  // The page header

  /** The header's one piece of state: whether the create dialog is open. */
  class DashboardHeader {
    var open: bool

    /** The dialog starts closed. */
    constructor ()
      ensures !open
    {
      open := false;
    }

    /** The "Create study set" button opens the dialog. */
    method ClickCreate()
      modifies this
      ensures open
    {
      open := true;
    }

    /** The setter handed to the dialog, which decides when to close it. */
    method SetOpen(value: bool)
      modifies this
      ensures open == value
    {
      open := value;
    }
  }
}
