/**
 * Row selection in the list views: `selected.indexOf(id)`, the single-selection
 * toggle of `handleClick`, the filter-based variant of the admin user list, and
 * the expanded-row toggle of the review list.
 */
module Selection {
  import opened Optional

  /** `s.indexOf(x)`: the first position holding x, or -1. */
  function IndexOf(s: seq<int>, x: int): (i: int)
    ensures -1 <= i < |s|
    ensures i == -1 <==> x !in s
    ensures 0 <= i ==> s[i] == x && x !in s[..i]
  {
    if |s| == 0 then -1
    else if s[0] == x then 0
    else
      var j := IndexOf(s[1..], x);
      assert s == [s[0]] + s[1..];
      if j == -1 then -1
      else
        assert s[..j + 1] == [s[0]] + s[1..][..j];
        j + 1
  }

  /** `isSelected(id)`: `selected.indexOf(id) !== -1`. */
  function IsSelected(selected: seq<int>, id: int): (r: bool)
    ensures r <==> id in selected
  {
    IndexOf(selected, id) != -1
  }

  /** `handleClick(id)`: select only id, or clear the selection when id was selected. */
  function Toggle(selected: seq<int>, id: int): (r: seq<int>)
    ensures id !in selected ==> r == [id]
    ensures id in selected ==> r == []
  {
    if IndexOf(selected, id) == -1 then [id] else []
  }

  /** A click flips whether the clicked row is selected, and leaves at most one row selected. */
  lemma ToggleFlips(selected: seq<int>, id: int)
    ensures IsSelected(Toggle(selected, id), id) <==> !IsSelected(selected, id)
    ensures |Toggle(selected, id)| <= 1
  {
  }

  /** Clicking a row while another is selected moves the selection to the clicked row. */
  lemma ToggleMovesSelection(other: int, id: int)
    requires other != id
    ensures Toggle([other], id) == [id]
    ensures forall x :: IsSelected(Toggle([other], id), x) <==> x == id
  {
  }

  /** Clicking the same row twice from no selection returns to no selection. */
  lemma ToggleTwice(id: int)
    ensures Toggle(Toggle([], id), id) == []
  {
  }

  /** `selected.filter((selectedId) => selectedId !== id)` */
  function Without(s: seq<int>, x: int): (r: seq<int>)
    ensures forall y :: y in r <==> y in s && y != x
    ensures |r| <= |s|
  {
    if |s| == 0 then []
    else
      assert s == [s[0]] + s[1..];
      (if s[0] != x then [s[0]] else []) + Without(s[1..], x)
  }

  /** The admin user list's `handleClick`: select only id, or filter id out of the selection. */
  function FilterToggle(selected: seq<int>, id: int): (r: seq<int>)
    ensures id !in selected ==> r == [id]
    ensures id in selected ==> forall y :: y in r <==> y in selected && y != id
    ensures |r| <= (if |selected| > 1 then |selected| else 1)
  {
    if IndexOf(selected, id) == -1 then [id] else Without(selected, id)
  }

  /**
   * On every selection the admin list can reach (at most one id) the filter-based
   * toggle and the plain toggle agree.
   */
  lemma FilterToggleAgrees(selected: seq<int>, id: int)
    requires |selected| <= 1
    ensures FilterToggle(selected, id) == Toggle(selected, id)
    ensures |FilterToggle(selected, id)| <= 1
  {
    if id in selected {
      var r := Without(selected, id);
      assert selected == [id];
      assert r == [] by {
        assert forall y :: y !in r;
      }
    }
  }

  /** The review list's `handleClick`: collapse the expanded row, or expand the clicked one. */
  function ToggleExpanded(expanded: Option<int>, id: int): (r: Option<int>)
    ensures r == Some(id) <==> expanded != Some(id)
    ensures r.Some? ==> r == Some(id)
  {
    if expanded == Some(id) then None else Some(id)
  }

  /** Clicking the same row twice restores the expansion, unless another row was expanded. */
  lemma ToggleExpandedTwice(expanded: Option<int>, id: int)
    ensures expanded == None || expanded == Some(id) ==> ToggleExpanded(ToggleExpanded(expanded, id), id) == expanded
    ensures expanded != None && expanded != Some(id) ==> ToggleExpanded(ToggleExpanded(expanded, id), id) == None
  {
  }
}
