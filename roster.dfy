/** The moderator's player roster: an ordered table of player records, one
    column per characteristic, and the meaning of each operation the
    moderator can apply to it, stated on values. */
module Roster {
  import opened Text

  /** The table's column headers, in order: name, profession, sex / age,
      health, hobby, baggage, phobia, fact. */
  const Columns: seq<string> :=
    ["Имя", "Профессия", "Пол / Возраст", "Здоровье", "Хобби", "Багаж", "Фобия", "Факт"]

  /** One row of the table; the fields follow the order of `Columns`. */
  datatype Record = Record(
    name: string,
    profession: string,
    genderAge: string,
    health: string,
    hobby: string,
    baggage: string,
    phobia: string,
    fact: string)

  /** What an operation reports back to the moderator. */
  datatype Outcome = Ok | EmptyName | Duplicate | EmptySelection

  /** The outcome of an operation together with the roster it leaves. */
  datatype Step = Step(outcome: Outcome, roster: seq<Record>)

  /** The cells of a record, in column order. */
  function Cells(r: Record): (cells: seq<string>)
    ensures |cells| == |Columns|
    ensures cells[0] == r.name
  {
    [r.name, r.profession, r.genderAge, r.health, r.hobby, r.baggage, r.phobia, r.fact]
  }

  /** The record whose cells, in column order, are `cells`. */
  function FromCells(cells: seq<string>): (r: Record)
    requires |cells| == |Columns|
    ensures Cells(r) == cells
  {
    Record(cells[0], cells[1], cells[2], cells[3], cells[4], cells[5], cells[6], cells[7])
  }

  lemma CellsRoundTrip(r: Record)
    ensures FromCells(Cells(r)) == r
  {
  }

  /** The row added for a new player: the name, then an empty string for
      every other column. */
  function NewPlayer(name: string): (r: Record)
    ensures r.name == name
    ensures forall c :: 1 <= c < |Columns| ==> Cells(r)[c] == ""
  {
    FromCells([name] + seq(|Columns| - 1, _ => ""))
  }

  /** The name column of the table. */
  function Names(roster: seq<Record>): (names: seq<string>)
    ensures |names| == |roster|
    ensures forall i :: 0 <= i < |roster| ==> names[i] == roster[i].name
  {
    seq(|roster|, i requires 0 <= i < |roster| => roster[i].name)
  }

  /** No two rows carry the same name (compared exactly, case included). */
  predicate DistinctNames(roster: seq<Record>) {
    forall i, j :: 0 <= i < j < |roster| ==> roster[i].name != roster[j].name
  }

  // ---------------------------------------------------------------- add

  /** Adding a player from the text typed into the form. The name is the
      input with surrounding whitespace removed; an empty name and a name
      already in the table are refused and leave the table as it was;
      otherwise a fresh row is appended at the end. */
  function AddStep(roster: seq<Record>, input: string): (r: Step)
    ensures r.outcome == EmptyName <==> AllSpace(input)
    ensures r.outcome == Duplicate <==> !AllSpace(input) && Trim(input) in Names(roster)
    ensures r.outcome in {Ok, EmptyName, Duplicate}
    ensures r.outcome != Ok ==> r.roster == roster
    ensures r.outcome == Ok ==>
      |r.roster| == |roster| + 1 && r.roster[..|roster|] == roster &&
      r.roster[|roster|] == NewPlayer(Trim(input))
  {
    var name := Trim(input);
    if name == [] then
      Step(EmptyName, roster)
    else if name in Names(roster) then
      Step(Duplicate, roster)
    else
      var added := roster + [NewPlayer(name)];
      assert added[..|roster|] == roster;
      Step(Ok, added)
  }

  /** Adding keeps names distinct: an accepted name is not yet in the table. */
  lemma AddKeepsDistinct(roster: seq<Record>, input: string)
    requires DistinctNames(roster)
    ensures DistinctNames(AddStep(roster, input).roster)
  {
    var r := AddStep(roster, input);
    if r.outcome == Ok {
      var name := Trim(input);
      forall i, j | 0 <= i < j < |r.roster| ensures r.roster[i].name != r.roster[j].name {
        assert r.roster[i] == roster[i];
        if j == |roster| {
          assert r.roster[j].name == name;
          assert Names(roster)[i] == roster[i].name;
        } else {
          assert r.roster[j] == roster[j];
        }
      }
    }
  }

  /** An accepted add stores the name typed with its surrounding whitespace
      removed: a name padded with spaces is found again as the bare name. */
  lemma AddStoresTrimmedName(roster: seq<Record>, a: string, name: string, b: string)
    requires AllSpace(a) && AllSpace(b) && Stripped(name) && name != []
    requires name !in Names(roster)
    ensures AddStep(roster, a + name + b) == Step(Ok, roster + [NewPlayer(name)])
  {
    TrimOfPadded(a, name, b);
  }

  /** A name of three spaces is refused as empty, whatever the table holds. */
  lemma AddRefusesSpaces(roster: seq<Record>)
    ensures AddStep(roster, "   ") == Step(EmptyName, roster)
  {
    assert AllSpace("   ") by {
      assert forall i :: 0 <= i < 3 ==> "   "[i] == ' ';
    }
  }

  /** Once a name is in the table, every padded spelling of it is refused. */
  lemma AddRefusesPaddedDuplicate(roster: seq<Record>, k: nat, a: string, b: string)
    requires k < |roster| && roster[k].name != [] && Stripped(roster[k].name)
    requires AllSpace(a) && AllSpace(b)
    ensures AddStep(roster, a + roster[k].name + b) == Step(Duplicate, roster)
  {
    var name := roster[k].name;
    TrimOfPadded(a, name, b);
    assert Names(roster)[k] == name;
  }

  // --------------------------------------------------------------- edit

  /** Taking over the table the grid editor returns: it replaces the stored
      table only when it differs from it, which leaves the edited table in
      place in every case. Names are not re-checked. */
  function EditStep(roster: seq<Record>, edited: seq<Record>): (r: Step)
    ensures r == Step(Ok, edited)
  {
    if edited != roster then Step(Ok, edited) else Step(Ok, roster)
  }

  /** The grid edit can give two rows the same name: distinct names are not
      an invariant of the table once the editor has been used. */
  lemma EditCanDuplicateNames()
    ensures DistinctNames([NewPlayer("A"), NewPlayer("B")])
    ensures !DistinctNames(EditStep([NewPlayer("A"), NewPlayer("B")], [NewPlayer("A"), NewPlayer("A")]).roster)
  {
    var edited := EditStep([NewPlayer("A"), NewPlayer("B")], [NewPlayer("A"), NewPlayer("A")]).roster;
    assert edited[0].name == edited[1].name;
  }

  // ------------------------------------------------------------- delete

  /** The row indices whose delete checkbox is ticked, among the `n` rows
      listed. */
  function Selected(n: nat, ticked: set<nat>): set<nat> {
    set i | i in ticked && i < n
  }

  /** Strictly increasing: no index listed twice and listed in order. */
  predicate Increasing(s: seq<nat>) {
    forall a, b :: 0 <= a < b < |s| ==> s[a] < s[b]
  }

  /** The indices below `n` that are not in `del`, in increasing order. */
  function Kept(n: nat, del: set<nat>): (ks: seq<nat>)
    ensures Increasing(ks)
    ensures forall k :: 0 <= k < |ks| ==> ks[k] < n
    ensures forall i: nat :: i in ks <==> i < n && i !in del
  {
    if n == 0 then []
    else
      var prev := Kept(n - 1, del);
      if n - 1 in del then prev else prev + [n - 1]
  }

  /** The table with every row whose index is in `del` dropped at once and
      the remaining rows renumbered from 0 (a positional `drop` followed by
      `reset_index`). */
  function Drop<T>(s: seq<T>, del: set<nat>): seq<T> {
    if s == [] then []
    else
      var last := |s| - 1;
      Drop(s[..last], del) + (if last in del then [] else [s[last]])
  }

  /** Dropping keeps the rows at the kept indices, in their old order: the
      k-th surviving row is the row at the k-th index not selected. */
  lemma {:induction false} DropAt<T>(s: seq<T>, del: set<nat>)
    ensures |Drop(s, del)| == |Kept(|s|, del)|
    ensures forall k :: 0 <= k < |Drop(s, del)| ==> Drop(s, del)[k] == s[Kept(|s|, del)[k]]
  {
    if s != [] {
      var last := |s| - 1;
      var prefix := s[..last];
      DropAt(prefix, del);
      var d, ks := Drop(prefix, del), Kept(last, del);
      assert Drop(s, del) == d + (if last in del then [] else [s[last]]);
      assert Kept(|s|, del) == ks + (if last in del then [] else [last]);
      forall k | 0 <= k < |Drop(s, del)|
        ensures Drop(s, del)[k] == s[Kept(|s|, del)[k]]
      {
        if k < |d| {
          assert Drop(s, del)[k] == d[k] == prefix[ks[k]];
          assert Kept(|s|, del)[k] == ks[k];
        }
      }
    }
  }

  /** Dropping removes exactly as many rows as indices of the table were
      selected. */
  lemma {:induction false} DropLength<T>(s: seq<T>, del: set<nat>)
    ensures |Drop(s, del)| == |s| - |Selected(|s|, del)|
  {
    if s != [] {
      var last := |s| - 1;
      DropLength(s[..last], del);
      SelectedStep(last, del);
    }
  }

  /** Listing one more row adds its index to the selection when ticked. */
  lemma SelectedStep(n: nat, del: set<nat>)
    ensures Selected(n + 1, del) == Selected(n, del) + (if n in del then {n} else {})
    ensures n !in Selected(n, del)
  {
  }

  /** The set of elements of a sequence. */
  function Elements(s: seq<nat>): set<nat> {
    set i | i in s
  }

  /** An increasing index list has as many elements as the set it lists. */
  lemma {:induction false} IncreasingCard(s: seq<nat>)
    requires Increasing(s)
    ensures |Elements(s)| == |s|
  {
    if s != [] {
      var last := |s| - 1;
      var prefix := s[..last];
      assert Increasing(prefix);
      IncreasingCard(prefix);
      assert Elements(s) == Elements(prefix) + {s[last]};
      assert s[last] !in Elements(prefix);
    }
  }

  /** Deleting the ticked rows. With no row ticked the moderator is warned
      and the table stays as it was; otherwise every ticked row goes, all
      indices taken from the same table before anything is removed, and
      the others stay in their order. */
  function DeleteStep(roster: seq<Record>, ticked: set<nat>): (r: Step)
    ensures r.outcome == EmptySelection <==> Selected(|roster|, ticked) == {}
    ensures r.outcome == EmptySelection ==> r.roster == roster
    ensures r.outcome in {Ok, EmptySelection}
    ensures r.outcome == Ok ==> |r.roster| == |roster| - |Selected(|roster|, ticked)|
  {
    if Selected(|roster|, ticked) == {} then
      Step(EmptySelection, roster)
    else
      DropLength(roster, ticked);
      Step(Ok, Drop(roster, ticked))
  }

  /** The rows a deletion leaves are the rows whose index was not ticked,
      in their old order: the k-th remaining row is the row at the k-th
      unticked index. */
  lemma DeleteKeepsOrder(roster: seq<Record>, ticked: set<nat>)
    requires Selected(|roster|, ticked) != {}
    ensures var r, ks := DeleteStep(roster, ticked).roster, Kept(|roster|, ticked);
      |r| == |ks| && forall k :: 0 <= k < |ks| ==> r[k] == roster[ks[k]]
  {
    DropAt(roster, ticked);
  }

  /** Deleting keeps names distinct. */
  lemma DeleteKeepsDistinct(roster: seq<Record>, ticked: set<nat>)
    requires DistinctNames(roster)
    ensures DistinctNames(DeleteStep(roster, ticked).roster)
  {
    if Selected(|roster|, ticked) != {} {
      DropKeepsDistinct(roster, ticked);
    }
  }

  /** Dropping only looks at the indices of rows that exist. */
  lemma {:induction false} DropSameSelection<T>(s: seq<T>, d1: set<nat>, d2: set<nat>)
    requires forall i :: 0 <= i < |s| ==> (i in d1 <==> i in d2)
    ensures Drop(s, d1) == Drop(s, d2)
  {
    if s != [] {
      DropSameSelection(s[..|s| - 1], d1, d2);
    }
  }

  /** Deleting rows never makes two remaining names equal. */
  lemma DropKeepsDistinct(roster: seq<Record>, del: set<nat>)
    requires DistinctNames(roster)
    ensures DistinctNames(Drop(roster, del))
  {
    DropAt(roster, del);
  }

  /** Dropping from a table with one more row at the end. */
  lemma DropSnoc<T>(s: seq<T>, x: T, del: set<nat>)
    ensures Drop(s + [x], del) == Drop(s, del) + (if |s| in del then [] else [x])
  {
    assert (s + [x])[..|s|] == s;
  }

  /** Dropping from a two-row table, row by row. */
  lemma DropOfTwo<T>(a: T, b: T, del: set<nat>)
    ensures Drop([a, b], del) == (if 0 in del then [] else [a]) + (if 1 in del then [] else [b])
  {
    assert [a][..0] == [];
    DropSnoc([a], b, del);
    assert [a] + [b] == [a, b];
  }

  /** Dropping from a three-row table, row by row. */
  lemma DropOfThree<T>(a: T, b: T, c: T, del: set<nat>)
    ensures Drop([a, b, c], del) ==
      (if 0 in del then [] else [a]) + (if 1 in del then [] else [b]) + (if 2 in del then [] else [c])
  {
    DropOfTwo(a, b, del);
    DropSnoc([a, b], c, del);
    assert [a, b] + [c] == [a, b, c];
  }

  /** Dropping from a four-row table, row by row. */
  lemma DropOfFour<T>(a: T, b: T, c: T, d: T, del: set<nat>)
    ensures Drop([a, b, c, d], del) ==
      (if 0 in del then [] else [a]) + (if 1 in del then [] else [b]) +
      (if 2 in del then [] else [c]) + (if 3 in del then [] else [d])
  {
    DropOfThree(a, b, c, del);
    DropSnoc([a, b, c], d, del);
    assert [a, b, c] + [d] == [a, b, c, d];
  }

  /** The example of a three-row table with its first and last rows ticked:
      only the middle row is left. */
  lemma DeleteFirstAndLast(s: seq<Record>)
    requires |s| == 3
    ensures DeleteStep(s, {0, 2}) == Step(Ok, [s[1]])
  {
    assert 0 in Selected(|s|, {0, 2});
    assert s == [s[0], s[1], s[2]];
    DropOfThree(s[0], s[1], s[2], {0, 2});
  }

  /** Deleting in one batch is not deleting the same indices one at a time:
      in one batch, indices 0 and 2 of four rows take the first and the
      third row ... */
  lemma BatchDeletesBySnapshot(s: seq<Record>)
    requires |s| == 4
    ensures DeleteStep(s, {0, 2}).roster == [s[1], s[3]]
  {
    assert 0 in Selected(|s|, {0, 2});
    assert s == [s[0], s[1], s[2], s[3]];
    DropOfFour(s[0], s[1], s[2], s[3], {0, 2});
  }

  /** ... while one at a time, after the first row goes the others have
      moved up by one place, so index 2 then takes what was the fourth row. */
  lemma SequentialDeletesShift(s: seq<Record>)
    requires |s| == 4
    ensures DeleteStep(DeleteStep(s, {0}).roster, {2}).roster == [s[1], s[2]]
  {
    assert 0 in Selected(|s|, {0});
    assert s == [s[0], s[1], s[2], s[3]];
    DropOfFour(s[0], s[1], s[2], s[3], {0});
    var t := DeleteStep(s, {0}).roster;
    assert t == [s[1], s[2], s[3]];
    assert 2 in Selected(|t|, {2});
    DropOfThree(s[1], s[2], s[3], {2});
  }

  /** The loop that lists the indices of the ticked rows, walking the name
      column from the first row to the last. */
  method CollectSelected(roster: seq<Record>, ticked: set<nat>) returns (toDelete: seq<nat>)
    ensures Increasing(toDelete)
    ensures forall i :: i in toDelete <==> i in Selected(|roster|, ticked)
    ensures |toDelete| == |Selected(|roster|, ticked)|
  {
    toDelete := [];
    var idx := 0;
    while idx < |roster|
      invariant idx <= |roster|
      invariant Increasing(toDelete)
      invariant forall k :: 0 <= k < |toDelete| ==> toDelete[k] < idx
      invariant forall i :: i in toDelete <==> i < idx && i in ticked
    {
      if idx in ticked {
        toDelete := toDelete + [idx];
      }
      idx := idx + 1;
    }
    IncreasingCard(toDelete);
    assert Elements(toDelete) == Selected(|roster|, ticked);
  }
}
