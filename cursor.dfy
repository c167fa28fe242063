/** The list cursor of the terminal menus and the counter (shared.rs and
    download.rs). `Events` holds the menu items and the selected position;
    `next` and `previous` move the selection with wrap-around and `choose`
    returns the selected item. Both files define the same `Events`: the one
    in shared.rs starts with position 0 selected, the one in download.rs with
    nothing selected. */
module Cursor {
  import opened Common

  /** What moving the cursor does: select a position, or stop the program
      because `len() - 1` underflows on an empty list (the panic of a build
      with overflow checks). */
  datatype Move = Moved(selection: nat) | Underflow

  /** The position `next` selects (shared.rs:90-102, download.rs:52-64). */
  function NextIndex(selected: Option<nat>, len: nat): (m: Move)
    ensures selected.None? ==> m == Moved(0)
    ensures m.Underflow? <==> selected.Some? && len == 0
    ensures m.Moved? && len > 0 ==> m.selection < len
  {
    match selected
    case None => Moved(0)
    case Some(i) =>
      if len == 0 then Underflow
      else if i >= len - 1 then Moved(0)
      else Moved(i + 1)
  }

  /** The position `previous` selects (shared.rs:103-115, download.rs:65-77). */
  function PreviousIndex(selected: Option<nat>, len: nat): (m: Move)
    ensures selected.None? ==> m == Moved(0)
    ensures m.Underflow? <==> selected == Some(0) && len == 0
    ensures m.Moved? && len > 0 && (selected.None? || selected.value < len) ==> m.selection < len
  {
    match selected
    case None => Moved(0)
    case Some(i) =>
      if i == 0 then (if len == 0 then Underflow else Moved(len - 1))
      else Moved(i - 1)
  }

  /** On a non-empty list, `next` moves to the following position and from
      the last position wraps to the first. */
  lemma NextWraps(i: nat, len: nat)
    requires i < len
    ensures NextIndex(Some(i), len) == Moved(if i == len - 1 then 0 else i + 1)
  {
  }

  /** On a non-empty list, `previous` moves to the preceding position and
      from the first position wraps to the last. */
  lemma PreviousWraps(i: nat, len: nat)
    requires i < len
    ensures PreviousIndex(Some(i), len) == Moved(if i == 0 then len - 1 else i - 1)
  {
  }

  /** Within the list, `previous` undoes `next` and `next` undoes `previous`. */
  lemma NextPreviousInverse(i: nat, len: nat)
    requires i < len
    ensures PreviousIndex(Some(NextIndex(Some(i), len).selection), len) == Moved(i)
    ensures NextIndex(Some(PreviousIndex(Some(i), len).selection), len) == Moved(i)
  {
  }

  /** `next` pressed n times from position i, stopping at an underflow. */
  function NextTimes(i: nat, len: nat, n: nat): Move
    decreases n
  {
    if n == 0 then Moved(i)
    else match NextIndex(Some(i), len)
      case Underflow => Underflow
      case Moved(j) => NextTimes(j, len, n - 1)
  }

  /** Up to len presses from position i go round the list, wrapping past the
      last position once. */
  lemma {:induction false} NextTimesFrom(i: nat, len: nat, n: nat)
    requires i < len && n <= len
    ensures NextTimes(i, len, n) == Moved(if i + n < len then i + n else i + n - len)
    decreases n
  {
    if n > 0 {
      if i == len - 1 {
        assert NextIndex(Some(i), len) == Moved(0);
        NextTimesFrom(0, len, n - 1);
      } else {
        assert NextIndex(Some(i), len) == Moved(i + 1);
        NextTimesFrom(i + 1, len, n - 1);
      }
    }
  }

  /** Pressing `next` len times on a list of len items comes back to where it
      started. */
  lemma NextCycle(i: nat, len: nat)
    requires i < len
    ensures NextTimes(i, len, len) == Moved(i)
  {
    NextTimesFrom(i, len, len);
  }

  /** What `choose` returns: nothing selected, the selected item, or a panic
      because the selected position is outside the list. */
  datatype Chosen<T> = Nothing | Item(value: T) | OutOfBounds

  /** `Events` (shared.rs:77-123, download.rs:39-85). */
  class Events<T> {
    const items: seq<T>
    var selected: Option<nat>

    /** The selection is within the list, or nothing is selected. */
    ghost predicate Valid()
      reads this
    {
      selected.Some? ==> selected.value < |items|
    }

    /** `Events::new` in shared.rs (lines 83-88): position 0 selected. */
    constructor New(items: seq<T>)
      ensures this.items == items && selected == Some(0)
      ensures |items| > 0 ==> Valid()
    {
      this.items := items;
      selected := Some(0);
    }

    /** `Events::new` in download.rs (lines 45-50): nothing selected. */
    constructor Unselected(items: seq<T>)
      ensures this.items == items && selected == None
      ensures Valid()
    {
      this.items := items;
      selected := None;
    }

    /** `next`. On an empty list with a selection, `len() - 1` underflows;
        `Underflow` is the panic a build with overflow checks raises there,
        and the selection is not changed. */
    method Next() returns (m: Move)
      modifies this
      ensures m == NextIndex(old(selected), |items|)
      ensures m.Moved? ==> selected == Some(m.selection)
      ensures m.Underflow? ==> selected == old(selected)
      ensures old(Valid()) && |items| > 0 ==> Valid()
    {
      match selected {
        case Some(i) =>
          if |items| == 0 {
            return Underflow;
          }
          if i >= |items| - 1 {
            selected := Some(0);
          } else {
            selected := Some(i + 1);
          }
        case None =>
          selected := Some(0);
      }
      m := Moved(selected.value);
    }

    /** `previous`. At position 0 of an empty list, `len() - 1` underflows;
        `Underflow` is the panic a build with overflow checks raises there,
        and the selection is not changed. */
    method Previous() returns (m: Move)
      modifies this
      ensures m == PreviousIndex(old(selected), |items|)
      ensures m.Moved? ==> selected == Some(m.selection)
      ensures m.Underflow? ==> selected == old(selected)
      ensures old(Valid()) && |items| > 0 ==> Valid()
    {
      match selected {
        case Some(i) =>
          if i == 0 {
            if |items| == 0 {
              return Underflow;
            }
            selected := Some(|items| - 1);
          } else {
            selected := Some(i - 1);
          }
        case None =>
          selected := Some(0);
      }
      m := Moved(selected.value);
    }

    /** `choose`: the selected item, or nothing when nothing is selected. */
    method Choose() returns (c: Chosen<T>)
      ensures selected.None? ==> c == Nothing
      ensures selected.Some? && selected.value < |items| ==> c == Item(items[selected.value])
      ensures selected.Some? && selected.value >= |items| ==> c == OutOfBounds
    {
      match selected {
        case None => c := Nothing;
        case Some(i) =>
          if i < |items| {
            c := Item(items[i]);
          } else {
            c := OutOfBounds;
          }
      }
    }
  }

  /** The download menu chooses nothing until the cursor is first moved, and
      the first move selects the first archive. */
  method DownloadMenuFirstMove<T>(items: seq<T>) returns (before: Chosen<T>, after: Chosen<T>)
    requires |items| > 0
    ensures before == Nothing && after == Item(items[0])
  {
    var events := new Events.Unselected(items);
    before := events.Choose();
    var m := events.Next();
    after := events.Choose();
  }

  /** ArchiveItem (shared.rs:40-53): one archive of a vault's inventory. */
  datatype ArchiveItem = ArchiveItem(archiveId: string, archiveDescription: string, creationDate: string, size: int, sha256TreeHash: string)

  /** Whether an archive with this id is among the selected ones. */
  predicate HasId(selected: seq<ArchiveItem>, id: string)
  {
    exists k :: 0 <= k < |selected| && selected[k].archiveId == id
  }

  /** The space key in select_multiple_archives (shared.rs:473-491): an
      archive already selected (by id) is removed with every entry of that
      id, and otherwise it is appended. */
  function ToggleSelection(selected: seq<ArchiveItem>, value: ArchiveItem): (r: seq<ArchiveItem>)
    ensures HasId(r, value.archiveId) <==> !HasId(selected, value.archiveId)
    ensures forall x: ArchiveItem :: x.archiveId != value.archiveId ==> (x in r <==> x in selected)
    ensures !HasId(selected, value.archiveId) ==> r == selected + [value]
    ensures HasId(selected, value.archiveId) ==>
      r == Filter(selected, (x: ArchiveItem) => value.archiveId != x.archiveId)
  {
    if HasId(selected, value.archiveId) then
      var r := Filter(selected, (x: ArchiveItem) => value.archiveId != x.archiveId);
      assert forall k :: 0 <= k < |r| ==> r[k].archiveId != value.archiveId by {
        forall k | 0 <= k < |r|
          ensures r[k].archiveId != value.archiveId
        {
          assert r[k] in r;
        }
      }
      r
    else
      var r := selected + [value];
      assert r[|selected|] == value;
      r
  }

  /** No two selected archives share an id. */
  ghost predicate UniqueIds(selected: seq<ArchiveItem>)
  {
    forall i, j :: 0 <= i < j < |selected| ==> selected[i].archiveId != selected[j].archiveId
  }

  /** Toggling keeps the selected ids distinct. */
  lemma ToggleKeepsUnique(selected: seq<ArchiveItem>, value: ArchiveItem)
    requires UniqueIds(selected)
    ensures UniqueIds(ToggleSelection(selected, value))
  {
    if HasId(selected, value.archiveId) {
      FilterKeepsUnique(selected, value.archiveId);
    }
  }

  lemma {:induction false} FilterKeepsUnique(selected: seq<ArchiveItem>, id: string)
    requires UniqueIds(selected)
    ensures UniqueIds(Filter(selected, (x: ArchiveItem) => id != x.archiveId))
  {
    if selected != [] {
      var rest := Filter(selected[1..], (x: ArchiveItem) => id != x.archiveId);
      FilterKeepsUnique(selected[1..], id);
      if id != selected[0].archiveId {
        var r := [selected[0]] + rest;
        forall j | 0 < j < |r|
          ensures r[0].archiveId != r[j].archiveId
        {
          assert r[j] in rest;
          assert r[j] in selected[1..];
          var k :| 0 <= k < |selected[1..]| && selected[1..][k] == r[j];
          assert selected[k + 1] == r[j];
        }
      }
    }
  }

  /** Selecting an archive and then toggling it again restores the
      selection. */
  lemma ToggleTwiceRestores(selected: seq<ArchiveItem>, value: ArchiveItem)
    requires !HasId(selected, value.archiveId)
    ensures ToggleSelection(ToggleSelection(selected, value), value) == selected
  {
    var p := (x: ArchiveItem) => value.archiveId != x.archiveId;
    FilterConcat(selected, [value], p);
    forall x | x in selected
      ensures p(x)
    {
      var k :| 0 <= k < |selected| && selected[k] == x;
    }
    FilterKeepsAll(selected, p);
    assert Filter([value], p) == [];
  }

  /** InfiniteIndeces (shared.rs:521-533): a counter that hands out 1, 2,
      3, ... */
  class InfiniteIndeces {
    var value: nat

    constructor()
      ensures value == 0
    {
      value := 0;
    }

    /** `next`: one more than the previous call returned. */
    method Next() returns (r: nat)
      modifies this
      ensures value == old(value) + 1 && r == value
    {
      value := value + 1;
      r := value;
    }
  }

  /** The unit test at shared.rs:534-548: the first eleven calls return
      1 through 11. */
  method FirstElevenIndeces() returns (got: seq<nat>)
    ensures got == [1, 2, 3, 4, 5, 6, 7, 8, 9, 10, 11]
  {
    var counter := new InfiniteIndeces();
    got := [];
    for n := 0 to 11
      invariant counter.value == n && |got| == n
      invariant forall k :: 0 <= k < n ==> got[k] == k + 1
    {
      var i := counter.Next();
      got := got + [i];
    }
  }
}
