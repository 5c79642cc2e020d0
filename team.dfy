/** Project teams: parsing the comma-separated team field, and the
    case-insensitive username lookups used for team membership and
    registration. */
module Team {
  import opened Records
  import opened Text

  /** Position of the first occurrence of `x` in `s`. */
  function FirstIndex<T(==)>(s: seq<T>, x: T): (k: nat)
    requires x in s
    ensures k < |s| && s[k] == x && x !in s[..k]
  {
    if s[0] == x then 0
    else
      var k := 1 + FirstIndex(s[1..], x);
      assert s[..k] == [s[0]] + s[1..][..k - 1];
      k
  }

  /** The first occurrence is the only position holding `x` with no `x` before it. */
  lemma FirstIndexUnique<T>(s: seq<T>, x: T, k: nat)
    requires k < |s| && s[k] == x && x !in s[..k]
    ensures FirstIndex(s, x) == k
  {
    var k0 := FirstIndex(s, x);
  }

  /** Appending an element never moves the first occurrence of one already present. */
  lemma FirstIndexAppend<T>(s: seq<T>, x: T)
    ensures forall y :: y in s ==> FirstIndex(s + [x], y) == FirstIndex(s, y)
  {
    forall y | y in s
      ensures FirstIndex(s + [x], y) == FirstIndex(s, y)
    {
      var k := FirstIndex(s, y);
      assert (s + [x])[..k] == s[..k];
      FirstIndexUnique(s + [x], y, k);
    }
  }

  /** `Array.from(new Set(list))`: the distinct elements of `s` in the order
      of their first occurrences. */
  function Dedup<T(==, !new)>(s: seq<T>): (r: seq<T>)
    ensures Distinct(r)
    ensures forall x :: x in r <==> x in s
    ensures forall i, j :: 0 <= i < j < |r| ==> FirstIndex(s, r[i]) < FirstIndex(s, r[j])
  {
    if s == [] then []
    else
      var init, x := s[..|s| - 1], s[|s| - 1];
      assert s == init + [x];
      var p := Dedup(init);
      FirstIndexAppend(init, x);
      if x in p then p
      else
        assert FirstIndex(s, x) == |s| - 1 by {
          assert x !in s[..|s| - 1];
        }
        p + [x]
  }

  /** A list without repetitions is left as it is. */
  lemma {:induction false} DedupDistinct<T(!new)>(s: seq<T>)
    requires Distinct(s)
    ensures Dedup(s) == s
  {
    if s != [] {
      var init := s[..|s| - 1];
      DedupDistinct(init);
      assert s[|s| - 1] !in init;
      assert init + [s[|s| - 1]] == s;
    }
  }

  /** `parts.map(s => s.trim())`. */
  function TrimAll(parts: seq<string>): (r: seq<string>)
    ensures |r| == |parts|
    ensures forall k :: 0 <= k < |parts| ==> r[k] == Trim(parts[k])
    ensures forall k :: 0 <= k < |parts| ==> IsTrimmed(r[k])
  {
    if parts == [] then []
    else
      TrimSpec(parts[0]);
      [Trim(parts[0])] + TrimAll(parts[1..])
  }

  /** `names.filter(Boolean)`: the non-empty names, in order. */
  function NonEmpty(names: seq<string>): (r: seq<string>)
    ensures |r| <= |names|
    ensures forall x :: x in r <==> x in names && x != []
  {
    if names == [] then []
    else if names[0] == [] then NonEmpty(names[1..])
    else [names[0]] + NonEmpty(names[1..])
  }

  /** Dropping the empty names keeps every other name as often as it occurs. */
  lemma {:induction false} NonEmptyCounts(names: seq<string>)
    ensures forall x :: multiset(NonEmpty(names))[x] == (if x == [] then 0 else multiset(names)[x])
  {
    if names != [] {
      NonEmptyCounts(names[1..]);
      assert names == [names[0]] + names[1..];
    }
  }

  /** Dropping the empty names keeps the order of the others: of two non-empty
      names, one comes first after filtering exactly when it came first before. */
  lemma {:induction false} NonEmptyOrder(names: seq<string>, x: string, y: string)
    requires x in names && y in names && x != [] && y != []
    ensures x in NonEmpty(names) && y in NonEmpty(names)
    ensures FirstIndex(NonEmpty(names), x) < FirstIndex(NonEmpty(names), y) <==>
            FirstIndex(names, x) < FirstIndex(names, y)
  {
    var r := NonEmpty(names);
    if names[0] == [] {
      assert x in names[1..] && y in names[1..];
      NonEmptyOrder(names[1..], x, y);
    } else if x != names[0] && y != names[0] {
      assert x in names[1..] && y in names[1..];
      assert r[1..] == NonEmpty(names[1..]);
      NonEmptyOrder(names[1..], x, y);
    }
  }

  /** Every name of a parsed team is trimmed, non-empty and free of commas. */
  predicate WellFormedName(name: string) {
    name != [] && IsTrimmed(name) && ',' !in name
  }

  /** `parseTeamUsernames(raw)`: split on commas, trim, drop empty entries,
      drop repeats (exact, case-sensitive comparison) keeping the first. */
  function ParseTeamUsernames(raw: string): (team: seq<string>)
  {
    Dedup(NonEmpty(TrimAll(Split(raw, ','))))
  }

  /** A parsed team has no repeated name, holds exactly the non-empty trimmed
      comma-separated pieces of the input, each of its names is well formed,
      and its names come in the order of their first occurrences in the input. */
  lemma {:induction false} ParseTeamUsernamesSpec(raw: string)
    ensures Distinct(ParseTeamUsernames(raw))
    ensures forall name :: name in ParseTeamUsernames(raw) <==>
      name != [] && name in TrimAll(Split(raw, ','))
    ensures forall k :: 0 <= k < |ParseTeamUsernames(raw)| ==> WellFormedName(ParseTeamUsernames(raw)[k])
    ensures forall i, j :: 0 <= i < j < |ParseTeamUsernames(raw)| ==>
      FirstIndex(TrimAll(Split(raw, ',')), ParseTeamUsernames(raw)[i]) <
      FirstIndex(TrimAll(Split(raw, ',')), ParseTeamUsernames(raw)[j])
  {
    var parts := Split(raw, ',');
    var pieces := TrimAll(parts);
    var team := ParseTeamUsernames(raw);
    forall i, j | 0 <= i < j < |team|
      ensures FirstIndex(pieces, team[i]) < FirstIndex(pieces, team[j])
    {
      NonEmptyOrder(pieces, team[i], team[j]);
    }
    forall k | 0 <= k < |team|
      ensures WellFormedName(team[k])
    {
      assert team[k] in pieces;
      var i :| 0 <= i < |pieces| && pieces[i] == team[k];
      TrimKeepsOut(parts[i], ',');
    }
  }

  /** Parsing the comma-join of a list of distinct well-formed names gives the
      list back. */
  lemma {:induction false} ParseTeamRoundTrip(names: seq<string>)
    requires Distinct(names)
    requires forall k :: 0 <= k < |names| ==> WellFormedName(names[k])
    ensures ParseTeamUsernames(Join(names, ',')) == names
  {
    if names == [] {
      assert Split([], ',') == [[]];
      assert TrimAll([[]]) == [[]];
    } else {
      SplitJoin(names, ',');
      forall k | 0 <= k < |names| ensures Trim(names[k]) == names[k] {
        TrimSpec(names[k]);
      }
      assert TrimAll(names) == names;
      NonEmptyKeeps(names);
      DedupDistinct(names);
    }
  }

  lemma {:induction false} NonEmptyKeeps(names: seq<string>)
    requires forall k :: 0 <= k < |names| ==> names[k] != []
    ensures NonEmpty(names) == names
  {
    if names != [] {
      NonEmptyKeeps(names[1..]);
    }
  }

  /** `team.some(u => u.toLowerCase() === username.toLowerCase())`. */
  predicate InTeamList(team: seq<string>, username: string) {
    exists k :: 0 <= k < |team| && EqualsIgnoreCase(team[k], username)
  }

  /** `isUserInTeam(project, username)`. */
  predicate IsUserInTeam(project: Project, username: string) {
    InTeamList(project.teamUsernames, username)
  }

  /** Team membership does not depend on the case of the username. */
  lemma InTeamIgnoresCase(team: seq<string>, a: string, b: string)
    requires EqualsIgnoreCase(a, b)
    ensures InTeamList(team, a) <==> InTeamList(team, b)
  {
  }

  /** `userByUsername(db, username)`: the first user whose username equals
      `username` up to case. */
  function UserByUsername(users: seq<User>, username: string): (r: Option<User>)
    ensures r.Some? ==> r.value in users && EqualsIgnoreCase(r.value.username, username)
    ensures r.None? <==> forall u :: u in users ==> !EqualsIgnoreCase(u.username, username)
  {
    match UsernameIndex(users, username)
    case None => None
    case Some(k) => Some(users[k])
  }

  function UsernameIndex(users: seq<User>, username: string): (r: Option<nat>)
    ensures r.Some? ==> r.value < |users| && EqualsIgnoreCase(users[r.value].username, username)
    ensures r.None? <==> forall u :: u in users ==> !EqualsIgnoreCase(u.username, username)
  {
    FindIndex(users, (u: User) => EqualsIgnoreCase(u.username, username))
  }

  /** Registering a user never changes who an already-known username resolves to. */
  lemma UserByUsernameAppend(users: seq<User>, u: User, username: string)
    requires UserByUsername(users, username).Some?
    ensures UserByUsername(users + [u], username) == UserByUsername(users, username)
  {
    FindIndexAppend(users, u, (v: User) => EqualsIgnoreCase(v.username, username));
  }
}
