/** The figures of the team overview card
    (src/components/dashboard/TeamOverview.tsx): the total number of
    certificates, the skills coverage and the three members with the most
    certificates. */
module TeamOverview {

  import opened Optional
  import opened Types
  import opened Seqs
  import JsMath

  /** `users.reduce((total, user) => total + user.certificates.length, 0)`. */
  function TotalCertificates(users: seq<User>): (total: nat)
    ensures total == 0 <==> forall u :: u in users ==> u.certificates == []
  {
    if users == [] then 0
    else TotalCertificates(users[..|users| - 1]) + |users[|users| - 1].certificates|
  }

  /** The total of two teams put together is the sum of their totals. */
  lemma {:induction false} TotalCertificatesAppend(a: seq<User>, b: seq<User>)
    ensures TotalCertificates(a + b) == TotalCertificates(a) + TotalCertificates(b)
  {
    if b != [] {
      var n := |b| - 1;
      TotalCertificatesAppend(a, b[..n]);
      assert (a + b)[..|a + b| - 1] == a + b[..n];
    } else {
      assert a + b == a;
    }
  }

  /** Every member's certificates are counted in the total. */
  lemma {:induction false} MemberWithinTotal(users: seq<User>, i: nat)
    requires i < |users|
    ensures |users[i].certificates| <= TotalCertificates(users)
  {
    var n := |users| - 1;
    if i < n {
      MemberWithinTotal(users[..n], i);
    }
  }

  /** The distinct skill names of the matrix, in first-appearance order. */
  function SkillNames(matrix: seq<SkillMatrixItem>): (r: seq<string>)
    ensures NoDups(r)
    ensures forall s :: s in r <==> exists it :: it in matrix && it.skill == s
  {
    var column := Map((it: SkillMatrixItem) => it.skill, matrix);
    forall s ensures s in column <==> exists it :: it in matrix && it.skill == s {
      InMap((it: SkillMatrixItem) => it.skill, matrix, s);
    }
    Dedup(column)
  }

  /** `new Set(skillMatrix.map(item => item.skill)).size`: the number of
      different skill names in the matrix. */
  function CoveredSkills(matrix: seq<SkillMatrixItem>): (n: nat)
    ensures n == |set it | it in matrix :: it.skill|
    ensures n <= |matrix|
  {
    var names := SkillNames(matrix);
    NoDupsCardinality(names);
    assert (set s | s in names) == (set it | it in matrix :: it.skill);
    |names|
  }

  /** `Math.round((coveredSkills / totalSkills) * 100)`; None stands for
      what JavaScript gives when there are no skills at all: NaN when
      nothing is covered either, Infinity otherwise. */
  function CoveragePercentage(covered: nat, total: nat): (pct: Option<nat>)
    ensures pct.None? <==> total == 0
    ensures pct.Some? ==> total * (2 * pct.value - 1) <= 200 * covered < total * (2 * pct.value + 1)
  {
    if total == 0 then None else Some(JsMath.RoundQuotient(100 * covered, total))
  }

  /** Coverage stays within 0..100 while the covered count does not exceed
      the number of skills, and reaches 100 when they are equal. */
  lemma CoverageBounds(covered: nat, total: nat)
    requires 0 < total
    ensures covered <= total ==> CoveragePercentage(covered, total).value <= 100
    ensures covered == total ==> CoveragePercentage(covered, total).value == 100
  {
    if covered <= total {
      JsMath.PercentAtMostHundred(covered, total);
    }
    if covered == total {
      JsMath.PercentOfWhole(total);
    }
  }

  /** `coveragePercentage` over the skill list and the matrix. */
  function SkillsCoverage(skills: seq<Skill>, matrix: seq<SkillMatrixItem>): (pct: Option<nat>)
    ensures pct.None? <==> skills == []
  {
    CoveragePercentage(CoveredSkills(matrix), |skills|)
  }

  /** When every skill named in the matrix is one of the listed skills the
      coverage is a percentage between 0 and 100 (None only for an empty
      skill list), and it is 100 when the matrix names every listed skill. */
  lemma {:induction false} SkillsCoverageBounded(skills: seq<Skill>, matrix: seq<SkillMatrixItem>)
    requires forall it :: it in matrix ==> exists s :: s in skills && s.name == it.skill
    ensures SkillsCoverage(skills, matrix).None? <==> skills == []
    ensures SkillsCoverage(skills, matrix).Some? ==> SkillsCoverage(skills, matrix).value <= 100
  {
    var names := set it | it in matrix :: it.skill;
    var listed := set s | s in skills :: s.name;
    assert names <= listed by {
      forall n | n in names ensures n in listed {
        var it :| it in matrix && it.skill == n;
        var s :| s in skills && s.name == it.skill;
      }
    }
    var column := Map((s: Skill) => s.name, skills);
    var listedNames := Dedup(column);
    NoDupsCardinality(listedNames);
    assert (set n | n in listedNames) == listed by {
      forall n ensures n in listedNames <==> n in listed {
        InMap((s: Skill) => s.name, skills, n);
      }
    }
    SubsetCardinality(names, listed);
    if skills != [] {
      CoverageBounds(CoveredSkills(matrix), |skills|);
    }
  }

  /** The sort key of `(a, b) => b.certificates.length - a.certificates.length`. */
  function NegCount(u: User): int
  {
    -|u.certificates|
  }

  function Min(a: nat, b: nat): nat
  {
    if a <= b then a else b
  }

  /** `skillRanking`: the team sorted by certificate count, highest first,
      cut to its first three members. */
  function SkillRanking(users: seq<User>): (r: seq<User>)
    ensures |r| == Min(3, |users|)
  {
    SortBy(users, NegCount)[..Min(3, |users|)]
  }

  /** The ranking lists members of the team, each at most as often as it
      occurs there. */
  lemma SkillRankingFromTeam(users: seq<User>)
    ensures multiset(SkillRanking(users)) <= multiset(users)
  {
    var s := SortBy(users, NegCount);
    var k := Min(3, |users|);
    assert s == s[..k] + s[k..];
    assert multiset(s) == multiset(s[..k]) + multiset(s[k..]);
  }

  /** Counts never increase down the ranking. */
  lemma SkillRankingDescending(users: seq<User>)
    ensures var r := SkillRanking(users);
            forall i, j :: 0 <= i < j < |r| ==> |r[i].certificates| >= |r[j].certificates|
  {
    var s := SortBy(users, NegCount);
    SortBySorted(users, NegCount);
    assert forall i, j :: 0 <= i < j < |s| ==> NegCount(s[i]) <= NegCount(s[j]);
  }

  /** Nobody left out of the ranking holds more certificates than its last
      member. */
  lemma SkillRankingNoneLeftAbove(users: seq<User>)
    ensures var r := SkillRanking(users);
            users != [] ==>
              forall u :: u in multiset(users) - multiset(r) ==>
                |u.certificates| <= |r[|r| - 1].certificates|
  {
    if users != [] {
      var s := SortBy(users, NegCount);
      SortBySorted(users, NegCount);
      SortedSuffixAbove(s, NegCount, Min(3, |users|));
    }
  }

  /** Among members with the same count the ranking keeps the team order:
      those it lists are the first ones of the team with that count. */
  lemma SkillRankingTies(users: seq<User>, count: int)
    ensures var q := (u: User) => |u.certificates| == count;
            var f := Filter(q, SkillRanking(users));
            var g := Filter(q, users);
            |f| <= |g| && f == g[..|f|]
  {
    var q := (u: User) => |u.certificates| == count;
    var s := SortBy(users, NegCount);
    var k := Min(3, |users|);
    SortByStableFor(users, NegCount, q, -count);
    assert s == s[..k] + s[k..];
    FilterConcat(q, s[..k], s[k..]);
  }
}
