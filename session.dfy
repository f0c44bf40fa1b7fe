/** One viewer's session of the dashboard: the role the viewer holds and the
    roster kept in the session state, which every moderator action
    reassigns. */
module Dashboard {
  import opened Roster
  import opened RoleGate

  class Session {
    /** What the role gate granted on the last page run. */
    var access: Access
    /** The player table held in the session state. */
    var roster: seq<Record>

    /** A new session: the gate is resolved and the table starts empty, with
        the eight columns and no rows. */
    constructor (role: string, password: string)
      ensures access == ResolveRole(role, password)
      ensures roster == []
    {
      access := ResolveRole(role, password);
      roster := [];
    }

    /** Choosing a role again on a later page run; the table is kept. */
    method SelectRole(role: string, password: string)
      modifies this`access
      ensures access == ResolveRole(role, password)
      ensures roster == old(roster)
    {
      access := ResolveRole(role, password);
    }

    /** The add-player form, submitted with `input` typed as the name. */
    method AddPlayer(input: string) returns (outcome: Outcome)
      requires access == HostAccess
      modifies this`roster
      ensures Step(outcome, roster) == AddStep(old(roster), input)
      ensures DistinctNames(old(roster)) ==> DistinctNames(roster)
    {
      var name := Text.Trim(input);
      if name == [] {
        outcome := EmptyName;
      } else if name in Names(roster) {
        outcome := Duplicate;
      } else {
        if DistinctNames(roster) {
          AddKeepsDistinct(roster, input);
        }
        roster := roster + [NewPlayer(name)];
        outcome := Ok;
      }
    }

    /** The grid editor returned `edited`: it becomes the table when it
        differs from the stored one. Nothing in it is checked. */
    method ApplyEdit(edited: seq<Record>) returns (changed: bool)
      requires access == HostAccess
      modifies this`roster
      ensures changed <==> edited != old(roster)
      ensures Step(Ok, roster) == EditStep(old(roster), edited)
    {
      changed := edited != roster;
      if changed {
        roster := edited;
      }
    }

    /** The delete button, pressed while the checkboxes of the rows with
        index in `ticked` are on. The ticked indices are listed from the
        table as it stands, then all those rows are dropped at once;
        `removed` is the count reported back. */
    method DeleteSelected(ticked: set<nat>) returns (outcome: Outcome, removed: nat)
      requires access == HostAccess
      modifies this`roster
      ensures Step(outcome, roster) == DeleteStep(old(roster), ticked)
      ensures removed == |Selected(|old(roster)|, ticked)| == |old(roster)| - |roster|
      ensures outcome == Ok ==> removed > 0
      ensures DistinctNames(old(roster)) ==> DistinctNames(roster)
    {
      var toDelete := CollectSelected(roster, ticked);
      if |toDelete| > 0 {
        DropSameSelection(roster, Elements(toDelete), ticked);
        if DistinctNames(roster) {
          DeleteKeepsDistinct(roster, ticked);
        }
        roster := Drop(roster, Elements(toDelete));
        outcome, removed := Ok, |toDelete|;
      } else {
        outcome, removed := EmptySelection, 0;
      }
    }

    /** The clear-table button: the table is emptied, whatever it held. */
    method ClearAll() returns (outcome: Outcome)
      requires access == HostAccess
      modifies this`roster
      ensures roster == [] && outcome == Ok
    {
      roster := [];
      outcome := Ok;
    }
  }
}
