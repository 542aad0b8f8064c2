/** `addPlayer`: trim, reject empty input, normalise, reject case-insensitive
    duplicates, append. */
module Roster {
  import opened Results
  import opened Text
  import opened Names
  import opened Database

  /** Why an add was refused (each is an `alert` in script.js). */
  datatype AddError = EmptyName | DuplicatePlayer

  /** `a.toLowerCase() === b.toLowerCase()`. */
  predicate SameIgnoringCase(a: string, b: string) {
    LowerString(a) == LowerString(b)
  }

  /** Some roster entry equals `name` up to letter case. */
  predicate HasPlayerLike(roster: seq<string>, name: string) {
    exists p :: p in roster && SameIgnoringCase(p, name)
  }

  /** No two roster entries are equal up to letter case. */
  predicate NoCaseDuplicates(roster: seq<string>) {
    forall i, j :: 0 <= i < j < |roster| ==> !SameIgnoringCase(roster[i], roster[j])
  }

  /** The normalised form of a trimmed, non-empty name is itself trimmed and
      non-empty, and equal to the name ignoring case. */
  lemma NormalizedNameFacts(name: string)
    requires name != [] && IsTrimmed(name)
    ensures Normalize(name) != [] && IsTrimmed(Normalize(name))
    ensures SameIgnoringCase(Normalize(name), name)
  {
    NormalizeKeepsLowerCase(name);
  }

  /** Names equal ignoring case clash with the same roster entries. */
  lemma LikeRespectsCase(roster: seq<string>, a: string, b: string)
    requires SameIgnoringCase(a, b)
    ensures HasPlayerLike(roster, a) <==> HasPlayerLike(roster, b)
  {
  }

  /** The store effect of `addPlayer` on raw input `input`. A rejection leaves
      the store as it was. */
  function AddPlayer(st: Store, input: string): (r: Result<Store, AddError>)
    ensures r.Ok? <==> Trim(input) != [] && !HasPlayerLike(st.players, Trim(input))
    ensures r.Err? ==> (r.error == EmptyName <==> Trim(input) == [])
    ensures r.Ok? ==>
      && r.value.attendance == st.attendance
      && |r.value.players| == |st.players| + 1
      && r.value.players[..|st.players|] == st.players
    ensures r.Ok? ==>
      var added := r.value.players[|st.players|];
      && added != [] && IsTrimmed(added)
      && added == TitleCaseChars(Trim(input))
      && SameIgnoringCase(added, Trim(input))
  {
    var name := Trim(input);
    if name == [] then Err(EmptyName)
    else
      var normalized := Normalize(name);
      NormalizedNameFacts(name);
      LikeRespectsCase(st.players, normalized, name);
      if HasPlayerLike(st.players, normalized) then Err(DuplicatePlayer)
      else
        var players := st.players + [normalized];
        assert players[..|st.players|] == st.players && players[|st.players|] == normalized;
        Ok(st.(players := players))
  }

  /** A roster free of case-insensitive duplicates stays free of them. */
  lemma AddKeepsNoCaseDuplicates(st: Store, input: string)
    requires NoCaseDuplicates(st.players)
    requires AddPlayer(st, input).Ok?
    ensures NoCaseDuplicates(AddPlayer(st, input).value.players)
  {
    var ps := AddPlayer(st, input).value.players;
    var n := |st.players|;
    assert ps == st.players + [ps[n]];
    forall i, j | 0 <= i < j < |ps|
      ensures !SameIgnoringCase(ps[i], ps[j])
    {
      if j == n {
        assert ps[i] in st.players;
      }
    }
  }

  /** Adding a name and then any spelling of it that differs only in case
      (or in surrounding whitespace) is refused the second time. */
  lemma AddSameNameTwice(st: Store, first: string, second: string)
    requires Trim(first) != [] && !HasPlayerLike(st.players, Trim(first))
    requires Trim(second) != []
    requires SameIgnoringCase(Trim(first), Trim(second))
    ensures AddPlayer(AddPlayer(st, first).value, second) == Err(DuplicatePlayer)
  {
    var ps := AddPlayer(st, first).value.players;
    assert ps[|st.players|] in ps;
  }
}
