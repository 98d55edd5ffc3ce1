/** The logic of the Team page (src/pages/Team.tsx): the department list,
    the member filter, each member's distinct skills and the certification
    progress bar. */
module Team {

  import opened Optional
  import opened Types
  import opened Seqs
  import Text
  import JsMath
  import Data

  /** `user.department || 'Uncategorized'`. */
  function DepartmentLabel(u: User): string
  {
    if u.department.Some? && u.department.value != "" then u.department.value else "Uncategorized"
  }

  /** `departments`: each member's department label once, in order of first
      appearance. */
  function Departments(users: seq<User>): (r: seq<string>)
    ensures NoDups(r)
    ensures forall d :: d in r <==> exists u :: u in users && DepartmentLabel(u) == d
    ensures "Uncategorized" in r <==>
              exists u :: u in users && (u.department.None? || u.department.value in {"", "Uncategorized"})
  {
    var column := Map(DepartmentLabel, users);
    forall d ensures d in column <==> exists u :: u in users && DepartmentLabel(u) == d {
      InMap(DepartmentLabel, users, d);
    }
    Dedup(column)
  }

  /** The lower-cased term occurs in the member's lower-cased name, email
      or role. */
  predicate MatchesSearch(u: User, term: string)
  {
    var t := Text.Lower(term);
    || Text.Includes(Text.Lower(u.name), t)
    || Text.Includes(Text.Lower(u.email), t)
    || Text.Includes(Text.Lower(u.role), t)
  }

  /** `matchesDepartment`: 'all' accepts everyone, "Uncategorized" also
      accepts members without a (non-empty) department, any other value
      needs an exact match. */
  predicate MatchesDepartment(u: User, filter: string)
    ensures filter == "all" ==> MatchesDepartment(u, filter)
    ensures MatchesDepartment(u, filter) && filter != "all" && filter != "Uncategorized" ==> u.department == Some(filter)
  {
    || filter == "all"
    || u.department == Some(filter)
    || (filter == "Uncategorized" && (u.department.None? || u.department.value == ""))
  }

  /** A department filter other than 'all' accepts exactly the members
      whose department label it names, so picking a label from the
      drop-down shows that label's members. */
  lemma DepartmentFilterSelectsLabel(u: User, filter: string)
    requires filter != "all" && filter != ""
    ensures MatchesDepartment(u, filter) <==> DepartmentLabel(u) == filter
  {
  }

  /** `filteredUsers`. */
  function FilteredUsers(users: seq<User>, term: string, department: string): (r: seq<User>)
    ensures IsSubseq(r, users)
    ensures forall u :: u in r <==> u in users && MatchesSearch(u, term) && MatchesDepartment(u, department)
    ensures forall u :: multiset(r)[u] ==
              if MatchesSearch(u, term) && MatchesDepartment(u, department) then multiset(users)[u] else 0
  {
    var keep := (u: User) => MatchesSearch(u, term) && MatchesDepartment(u, department);
    FilterIsSubseq(keep, users);
    forall u ensures multiset(Filter(keep, users))[u] == if keep(u) then multiset(users)[u] else 0 {
      FilterCount(keep, users, u);
    }
    Filter(keep, users)
  }

  /** An empty search with filter 'all' keeps the whole team in order. */
  lemma NoFilterKeepsTeam(users: seq<User>)
    ensures FilteredUsers(users, "", "all") == users
  {
    forall u | u in users ensures MatchesSearch(u, "") && MatchesDepartment(u, "all") {
      Text.IncludesEmpty(Text.Lower(u.name));
    }
    FilterAll((u: User) => MatchesSearch(u, "") && MatchesDepartment(u, "all"), users);
  }

  /** The skills of `certs` in certificate order, repetitions included. */
  function AllSkills(certs: seq<Certificate>): seq<string>
  {
    if certs == [] then [] else AllSkills(certs[..|certs| - 1]) + certs[|certs| - 1].skills
  }

  lemma {:induction false} InAllSkills(certs: seq<Certificate>, s: string)
    ensures s in AllSkills(certs) <==> exists c :: c in certs && s in c.skills
  {
    if certs != [] {
      var n := |certs| - 1;
      InAllSkills(certs[..n], s);
      assert certs == certs[..n] + [certs[n]];
      if s in AllSkills(certs[..n]) {
        var c :| c in certs[..n] && s in c.skills;
        assert c in certs;
      }
    }
  }

  /** The certificates `getUserSkills` reads: those of the first member
      with the id, none for an unknown id. */
  function CertificatesOf(users: seq<User>, userId: string): (certs: seq<Certificate>)
    ensures (forall u :: u in users ==> u.id != userId) ==> certs == []
    ensures certs != [] ==> exists u :: u in users && u.id == userId && u.certificates == certs
  {
    match Data.FindUser(users, userId)
    case Some(u) => u.certificates
    case None => []
  }

  /** One more element of `xs` after the ones already added. */
  lemma PrefixSnoc(added: seq<string>, xs: seq<string>, j: nat)
    requires j < |xs|
    ensures added + xs[..j + 1] == (added + xs[..j]) + [xs[j]]
  {
    assert xs[..j + 1] == xs[..j] + [xs[j]];
    ConcatAssoc(added, xs[..j], [xs[j]]);
  }

  /** The body of `cert.skills.forEach(skill => skills.add(skill))`: adds
      `xs` one by one to the Set whose insertion order is `ordered`. */
  method AddAll(ordered: seq<string>, seen: set<string>, xs: seq<string>, ghost added: seq<string>)
    returns (ordered': seq<string>, seen': set<string>)
    requires ordered == Dedup(added) && forall s :: s in seen <==> s in ordered
    ensures ordered' == Dedup(added + xs) && forall s :: s in seen' <==> s in ordered'
  {
    ordered', seen' := ordered, seen;
    var j := 0;
    assert added + xs[..0] == added;
    while j < |xs|
      invariant 0 <= j <= |xs|
      invariant ordered' == Dedup(added + xs[..j])
      invariant forall s :: s in seen' <==> s in ordered'
    {
      PrefixSnoc(added, xs, j);
      DedupSnoc(added + xs[..j], xs[j]);
      if xs[j] !in seen' {
        seen' := seen' + {xs[j]};
        ordered' := ordered' + [xs[j]];
      }
      j := j + 1;
    }
    assert xs[..j] == xs;
  }

  /** `getUserSkills`: adds every skill of every certificate of the member
      to a Set, then lists the Set in insertion order. */
  method UserSkills(users: seq<User>, userId: string) returns (skills: seq<string>)
    ensures skills == Dedup(AllSkills(CertificatesOf(users, userId)))
    ensures NoDups(skills)
    ensures forall s :: s in skills <==> exists c :: c in CertificatesOf(users, userId) && s in c.skills
    ensures Data.FindUser(users, userId).None? ==> skills == []
  {
    var certs := CertificatesOf(users, userId);
    var seen: set<string> := {};
    skills := [];
    var i := 0;
    while i < |certs|
      invariant 0 <= i <= |certs|
      invariant skills == Dedup(AllSkills(certs[..i]))
      invariant forall s :: s in seen <==> s in skills
    {
      skills, seen := AddAll(skills, seen, certs[i].skills, AllSkills(certs[..i]));
      assert certs[..i + 1][..i] == certs[..i];
      i := i + 1;
    }
    assert certs[..i] == certs;
    forall s ensures s in skills <==> exists c :: c in certs && s in c.skills {
      InAllSkills(certs, s);
    }
  }

  function CertificateCount(u: User): nat
  {
    |u.certificates|
  }

  /** `Math.max(...users.map(u => u.certificates.length))`; None stands for
      the -Infinity of an empty team. */
  function MaxCertCount(users: seq<User>): (m: Option<nat>)
    ensures m.None? <==> users == []
    ensures m.Some? ==> forall u :: u in users ==> CertificateCount(u) <= m.value
    ensures m.Some? ==> exists u :: u in users && CertificateCount(u) == m.value
  {
    if users == [] then None
    else
      var rest := MaxCertCount(users[1..]);
      assert users == [users[0]] + users[1..];
      if rest.None? || CertificateCount(users[0]) >= rest.value then Some(CertificateCount(users[0]))
      else rest
  }

  /** `getProgressPercentage`: the member's certificate count as a rounded
      percentage of the largest count in the team; 0 when that is not
      positive. An unknown member counts 0 certificates. */
  function ProgressPercentage(users: seq<User>, userId: string): (pct: nat)
    ensures pct <= 100
    ensures (MaxCertCount(users).None? || MaxCertCount(users).value == 0) ==> pct == 0
    ensures Data.FindUser(users, userId).None? ==> pct == 0
    ensures var max := MaxCertCount(users);
            Data.FindUser(users, userId).Some? && max.Some? && max.value > 0 ==>
              var count := CertificateCount(Data.FindUser(users, userId).value);
              max.value * (2 * pct - 1) <= 200 * count < max.value * (2 * pct + 1)
  {
    var found := Data.FindUser(users, userId);
    var max := MaxCertCount(users);
    if found.Some? && max.Some? && max.value > 0 then
      var count := CertificateCount(found.value);
      JsMath.PercentAtMostHundred(count, max.value);
      JsMath.RoundQuotient(100 * count, max.value)
    else
      // an unknown member counts 0 certificates, and 0 rounds to 0
      0
  }

  /** A member holding the team's largest (positive) number of
      certificates is at 100 percent. */
  lemma TopMemberAtHundred(users: seq<User>, userId: string)
    requires Data.FindUser(users, userId).Some?
    requires var max := MaxCertCount(users);
             max.Some? && max.value > 0 && CertificateCount(Data.FindUser(users, userId).value) == max.value
    ensures ProgressPercentage(users, userId) == 100
  {
    JsMath.PercentOfWhole(MaxCertCount(users).value);
  }
}
