/** `saveAttendance`, `deleteAttendance` and `deleteAllHistory` as store
    transformations. The `confirm` dialogs become boolean parameters. */
module Attendance {
  import opened Results
  import opened Text
  import opened Order
  import opened Database

  /** Why a save wrote nothing (an `alert`, or the declined overwrite). */
  datatype SaveError = MissingDate | NoPlayersSelected | UpdateCancelled

  /** `date.split('T')[0]`: the date input up to its first `'T'`. */
  function DateKey(date: string): (key: string)
    ensures 'T' !in key
    ensures key <= date
    ensures |key| < |date| ==> date[|key|] == 'T'
    ensures 'T' !in date ==> key == date
  {
    SplitPieces(date, 'T');
    Split(date, 'T')[0]
  }

  /** `data.players || []` for the record under `key`, or `[]` when there is
      no record. */
  function ExistingPlayers(attendance: map<string, StoredRecord>, key: string): seq<string> {
    if key in attendance then attendance[key].players.GetOr([]) else []
  }

  /** `[...new Set([...existing, ...selected])].sort()`: every name of either
      list exactly once, in ascending code-unit order. */
  function MergePlayers(existing: seq<string>, selected: seq<string>): (r: seq<string>)
    ensures StrictlySorted(r)
    ensures forall x :: x in r <==> x in existing || x in selected
  {
    var d := Dedup(existing + selected);
    SortDistinct(d);
    SortMembers(d);
    Sort(d)
  }

  /** The merge result is the only strictly ascending list of exactly those
      names. */
  lemma MergeCanonical(existing: seq<string>, selected: seq<string>, r: seq<string>)
    requires StrictlySorted(r)
    requires forall x :: x in r <==> x in existing || x in selected
    ensures r == MergePlayers(existing, selected)
  {
    var m := MergePlayers(existing, selected);
    StrictlySortedIsSortedDistinct(r);
    StrictlySortedIsSortedDistinct(m);
    DistinctSameMembers(r, m);
    SortedUnique(r, m);
  }

  /** Merging the same selection again adds nothing. */
  lemma MergeIdempotent(existing: seq<string>, selected: seq<string>)
    ensures MergePlayers(MergePlayers(existing, selected), selected) == MergePlayers(existing, selected)
  {
    var m := MergePlayers(existing, selected);
    MergeCanonical(m, selected, m);
  }

  /** Saving Bob for a date on which Alice is recorded gives both, sorted. */
  lemma MergeExample()
    ensures MergePlayers(["Alice"], ["Bob"]) == ["Alice", "Bob"]
  {
    assert forall x :: x in ["Alice", "Bob"] <==> x in ["Alice"] || x in ["Bob"];
    assert Less("Alice", "Bob");
    MergeCanonical(["Alice"], ["Bob"], ["Alice", "Bob"]);
  }

  /** The record the save writes for `key`. */
  function MergedRecord(st: Store, key: string, selected: seq<string>): StoredRecord {
    StoredRecord(Some(key), Some(MergePlayers(ExistingPlayers(st.attendance, key), selected)))
  }

  /** The store effect of `saveAttendance(date)` with the checked players
      `selected` and the user's answer `overwrite` to the confirmation asked
      when a record for the date key already exists. */
  function SaveAttendance(st: Store, date: string, selected: seq<string>, overwrite: bool): (r: Result<Store, SaveError>)
    ensures date == [] ==> r == Err(MissingDate)
    ensures date != [] && selected == [] ==> r == Err(NoPlayersSelected)
    ensures r.Ok? <==> date != [] && selected != [] && (DateKey(date) !in st.attendance || overwrite)
    ensures date != [] && selected != [] && DateKey(date) in st.attendance && !overwrite ==> r == Err(UpdateCancelled)
    ensures r.Err? && r.error == UpdateCancelled ==> DateKey(date) in st.attendance && !overwrite
    ensures r.Ok? ==>
      var key := DateKey(date);
      var after := r.value.attendance;
      && r.value.players == st.players
      && after.Keys == st.attendance.Keys + {key}
      && (forall k :: k in st.attendance && k != key ==> after[k] == st.attendance[k])
      && after[key].date == Some(key)
      && after[key].players.Some?
      && StrictlySorted(after[key].players.value)
      && (forall x :: x in after[key].players.value <==> x in ExistingPlayers(st.attendance, key) || x in selected)
  {
    if date == [] then Err(MissingDate)
    else if selected == [] then Err(NoPlayersSelected)
    else
      var key := DateKey(date);
      if key in st.attendance && !overwrite then Err(UpdateCancelled)
      else Ok(st.(attendance := st.attendance[key := MergedRecord(st, key, selected)]))
  }

  /** Every record is filed under its own date and holds a strictly
      ascending player list, as `SaveAttendance` writes them. */
  predicate WellFormed(attendance: map<string, StoredRecord>) {
    forall k :: k in attendance ==>
      && attendance[k].date == Some(k)
      && attendance[k].players.Some?
      && StrictlySorted(attendance[k].players.value)
  }

  lemma SaveKeepsWellFormed(st: Store, date: string, selected: seq<string>, overwrite: bool)
    requires WellFormed(st.attendance)
    requires SaveAttendance(st, date, selected, overwrite).Ok?
    ensures WellFormed(SaveAttendance(st, date, selected, overwrite).value.attendance)
  {
  }

  /** Saving never forgets a name already recorded for that date. */
  lemma SaveKeepsRecordedPlayers(st: Store, date: string, selected: seq<string>, overwrite: bool, name: string)
    requires SaveAttendance(st, date, selected, overwrite).Ok?
    requires DateKey(date) in st.attendance
    requires st.attendance[DateKey(date)].players.Some?
    requires name in st.attendance[DateKey(date)].players.value
    ensures name in SaveAttendance(st, date, selected, overwrite).value.attendance[DateKey(date)].players.value
  {
  }

  /** Repeating a save that went through leaves the store as it is: with
      overwrite allowed the same record is written again, otherwise nothing
      is written. */
  lemma SaveIdempotent(st: Store, date: string, selected: seq<string>, overwrite: bool, again: bool)
    requires SaveAttendance(st, date, selected, overwrite).Ok?
    ensures var st1 := SaveAttendance(st, date, selected, overwrite).value;
            SaveAttendance(st1, date, selected, again)
              == if again then Ok(st1) else Err(UpdateCancelled)
  {
    var key := DateKey(date);
    var st1 := SaveAttendance(st, date, selected, overwrite).value;
    var existing := ExistingPlayers(st.attendance, key);
    MergeIdempotent(existing, selected);
    assert ExistingPlayers(st1.attendance, key) == MergePlayers(existing, selected);
    assert st1.attendance[key := MergedRecord(st1, key, selected)] == st1.attendance;
  }

  /** The store effect of `deleteAttendance(key)` once the user has answered
      the confirmation with `confirmed`. Removing an absent key is a no-op. */
  function DeleteAttendance(st: Store, key: string, confirmed: bool): (r: Store)
    ensures r.players == st.players
    ensures confirmed ==> key !in r.attendance && r.attendance.Keys == st.attendance.Keys - {key}
    ensures forall k :: k in r.attendance ==> k in st.attendance && r.attendance[k] == st.attendance[k]
    ensures !confirmed ==> r == st
  {
    if confirmed then st.(attendance := st.attendance - {key}) else st
  }

  /** The store effect of `deleteAllHistory` once confirmed. */
  function DeleteAllHistory(st: Store, confirmed: bool): (r: Store)
    ensures r.players == st.players
    ensures confirmed ==> |r.attendance| == 0
    ensures !confirmed ==> r == st
  {
    if confirmed then st.(attendance := map[]) else st
  }

  lemma DeleteKeepsWellFormed(st: Store, key: string, confirmed: bool)
    requires WellFormed(st.attendance)
    ensures WellFormed(DeleteAttendance(st, key, confirmed).attendance)
    ensures WellFormed(DeleteAllHistory(st, confirmed).attendance)
  {
  }
}
