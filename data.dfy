/** The derived data of src/lib/data.ts: each user's certificate list and
    the expiry-alert pipeline. The hard-coded records themselves are inputs
    here; `nowMs` stands for `new Date()` and `toMs` for date parsing. */
module Data {

  import opened Optional
  import opened Types
  import opened Seqs
  import Expiry

  /** `users.find(user => user.id === id)`. */
  function FindUser(users: seq<User>, id: string): (r: Option<User>)
    ensures r.None? <==> forall i :: 0 <= i < |users| ==> users[i].id != id
    ensures r.Some? ==> r.value in users && r.value.id == id
    ensures r.Some? ==> exists i :: 0 <= i < |users| && users[i] == r.value &&
                                    forall j :: 0 <= j < i ==> users[j].id != id
  {
    var p := (u: User) => u.id == id;
    var r := Find(p, users);
    if r.Some? then FindFirst(p, users); r else r
  }

  /** The user found is the first one with the id. */
  lemma FindUserFirst(users: seq<User>, id: string, i: nat)
    requires i < |users| && users[i].id == id
    requires forall j :: 0 <= j < i ==> users[j].id != id
    ensures FindUser(users, id) == Some(users[i])
  {
    var r := FindUser(users, id);
    assert r.Some? by {
      assert users[i].id == id;
    }
    var k :| 0 <= k < |users| && users[k] == r.value && forall j :: 0 <= j < k ==> users[j].id != id;
    assert r.value.id == id;
    assert k == i;
  }

  /** `certificates.filter(cert => cert.userId === userId)`. */
  function UserCertificates(certs: seq<Certificate>, userId: string): (r: seq<Certificate>)
    ensures IsSubseq(r, certs)
    ensures forall c :: c in r ==> c.userId == userId
    ensures forall c :: multiset(r)[c] == if c.userId == userId then multiset(certs)[c] else 0
  {
    var mine := (c: Certificate) => c.userId == userId;
    FilterIsSubseq(mine, certs);
    forall c ensures multiset(Filter(mine, certs))[c] == if mine(c) then multiset(certs)[c] else 0 {
      FilterCount(mine, certs, c);
    }
    Filter(mine, certs)
  }

  /** `cert.expiryDate` is truthy: present and not the empty string. */
  predicate HasExpiry(c: Certificate)
  {
    c.expiryDate.Some? && c.expiryDate.value != ""
  }

  /** `user?.name || 'Unknown User'`: an unknown owner, or one with an
      empty name, shows as "Unknown User". */
  function OwnerName(users: seq<User>, userId: string): (name: string)
    ensures name != ""
    ensures (forall u :: u in users ==> u.id != userId) ==> name == "Unknown User"
    ensures name != "Unknown User" ==> exists u :: u in users && u.id == userId && u.name == name
  {
    match FindUser(users, userId)
    case Some(u) => if u.name != "" then u.name else "Unknown User"
    case None => "Unknown User"
  }

  /** The owner's name is that of the first user with the id, or
      "Unknown User" when that name is empty. */
  lemma OwnerNameOfFirstMatch(users: seq<User>, userId: string, i: nat)
    requires i < |users| && users[i].id == userId
    requires forall j :: 0 <= j < i ==> users[j].id != userId
    ensures OwnerName(users, userId) == if users[i].name != "" then users[i].name else "Unknown User"
  {
    FindUserFirst(users, userId, i);
  }

  /** The alert the pipeline's `map` step builds for one certificate. */
  function ToAlert(c: Certificate, users: seq<User>, nowMs: int, toMs: string -> int): (a: ExpiryAlert)
    requires HasExpiry(c)
    ensures a.id == "alert-" + a.certificateId && a.certificateId == c.id
    ensures a.certificateName == c.name && a.userId == c.userId && Some(a.expiryDate) == c.expiryDate
    ensures a.userName == OwnerName(users, c.userId)
    ensures Expiry.DaysRemaining(c.expiryDate, nowMs, toMs) == Some(a.daysRemaining)
  {
    ExpiryAlert(
      id := "alert-" + c.id,
      certificateId := c.id,
      certificateName := c.name,
      userName := OwnerName(users, c.userId),
      userId := c.userId,
      expiryDate := c.expiryDate.value,
      daysRemaining := Expiry.DaysUntil(toMs(c.expiryDate.value), nowMs))
  }

  function DaysKey(a: ExpiryAlert): int
  {
    a.daysRemaining
  }

  predicate WithinSixMonths(a: ExpiryAlert)
  {
    a.daysRemaining <= 180
  }

  /** `certificates.filter(...).map(...)`: one alert per certificate with
      an expiry date, in certificate order. */
  function AlertsFor(certs: seq<Certificate>, users: seq<User>, nowMs: int, toMs: string -> int): (r: seq<ExpiryAlert>)
    ensures var dated := Filter(HasExpiry, certs);
            |r| == |dated| && forall i :: 0 <= i < |r| ==> HasExpiry(dated[i]) && r[i] == ToAlert(dated[i], users, nowMs, toMs)
  {
    var dated := Filter(HasExpiry, certs);
    assert forall i :: 0 <= i < |dated| ==> dated[i] in dated;
    seq(|dated|, i requires 0 <= i < |dated| => ToAlert(dated[i], users, nowMs, toMs))
  }

  /** There is an alert exactly for each certificate with an expiry date. */
  lemma AlertsForMembers(certs: seq<Certificate>, users: seq<User>, nowMs: int, toMs: string -> int)
    ensures forall a :: a in AlertsFor(certs, users, nowMs, toMs) <==>
              exists c :: c in certs && HasExpiry(c) && a == ToAlert(c, users, nowMs, toMs)
  {
    var dated := Filter(HasExpiry, certs);
    var r := AlertsFor(certs, users, nowMs, toMs);
    forall a | a in r ensures exists c :: c in certs && HasExpiry(c) && a == ToAlert(c, users, nowMs, toMs) {
      var i :| 0 <= i < |r| && r[i] == a;
      assert dated[i] in dated;
    }
    forall c | c in certs && HasExpiry(c) ensures ToAlert(c, users, nowMs, toMs) in AlertsFor(certs, users, nowMs, toMs) {
      CertificateHasAlert(certs, users, nowMs, toMs, c);
    }
  }

  lemma CertificateHasAlert(certs: seq<Certificate>, users: seq<User>, nowMs: int, toMs: string -> int, c: Certificate)
    requires c in certs && HasExpiry(c)
    ensures ToAlert(c, users, nowMs, toMs) in AlertsFor(certs, users, nowMs, toMs)
  {
    var dated := Filter(HasExpiry, certs);
    assert c in dated;
    var i :| 0 <= i < |dated| && dated[i] == c;
    assert AlertsFor(certs, users, nowMs, toMs)[i] == ToAlert(c, users, nowMs, toMs);
  }

  /** `expiryAlerts`: the alerts of at most 180 days, soonest first. */
  function ExpiryAlerts(certs: seq<Certificate>, users: seq<User>, nowMs: int, toMs: string -> int): (r: seq<ExpiryAlert>)
    ensures |r| <= |certs|
    ensures forall a :: a in r ==> a.daysRemaining <= 180
  {
    var kept := Filter(WithinSixMonths, AlertsFor(certs, users, nowMs, toMs));
    SortByMembers(kept, DaysKey);
    SortBy(kept, DaysKey)
  }

  /** Every alert stems from a certificate with an expiry date and has at
      most 180 days left (already expired ones included), and every such
      certificate has its alert. */
  lemma {:induction false} ExpiryAlertsProvenance(certs: seq<Certificate>, users: seq<User>, nowMs: int, toMs: string -> int)
    ensures forall a :: a in ExpiryAlerts(certs, users, nowMs, toMs) <==>
              a.daysRemaining <= 180 &&
              exists c :: c in certs && HasExpiry(c) && a == ToAlert(c, users, nowMs, toMs)
  {
    var kept := Filter(WithinSixMonths, AlertsFor(certs, users, nowMs, toMs));
    var r := SortBy(kept, DaysKey);
    AlertsForMembers(certs, users, nowMs, toMs);
    SortByMembers(kept, DaysKey);
    assert forall a :: a in r <==> a in kept;
  }

  /** The alerts come in non-decreasing order of days; alerts with the same
      day count keep their certificates' order. */
  lemma {:induction false} ExpiryAlertsOrder(certs: seq<Certificate>, users: seq<User>, nowMs: int, toMs: string -> int)
    ensures SortedBy(ExpiryAlerts(certs, users, nowMs, toMs), DaysKey)
    ensures forall d :: d <= 180 ==>
              Filter(KeyIs(DaysKey, d), ExpiryAlerts(certs, users, nowMs, toMs))
              == Filter(KeyIs(DaysKey, d), AlertsFor(certs, users, nowMs, toMs))
  {
    var all := AlertsFor(certs, users, nowMs, toMs);
    var kept := Filter(WithinSixMonths, all);
    SortBySorted(kept, DaysKey);
    forall d | d <= 180
      ensures Filter(KeyIs(DaysKey, d), SortBy(kept, DaysKey)) == Filter(KeyIs(DaysKey, d), all)
    {
      SortByStable(kept, DaysKey, d);
      DaysClassWithinWindow(all, d);
    }
  }

  /** Within one day count of at most 180, the window filter keeps every
      alert. */
  lemma {:induction false} DaysClassWithinWindow(alerts: seq<ExpiryAlert>, d: int)
    requires d <= 180
    ensures Filter(KeyIs(DaysKey, d), Filter(WithinSixMonths, alerts)) == Filter(KeyIs(DaysKey, d), alerts)
  {
    if alerts != [] {
      DaysClassWithinWindow(alerts[1..], d);
      var p := KeyIs(DaysKey, d);
      var w := Filter(WithinSixMonths, alerts[1..]);
      if WithinSixMonths(alerts[0]) {
        assert Filter(WithinSixMonths, alerts) == [alerts[0]] + w;
        assert ([alerts[0]] + w)[1..] == w;
      } else {
        assert p(alerts[0]) == (DaysKey(alerts[0]) == d);
        assert Filter(WithinSixMonths, alerts) == w;
        assert Filter(p, alerts) == Filter(p, alerts[1..]);
      }
    }
  }

  /** An alert's id names its certificate: different certificates ids give
      different alert ids. */
  lemma AlertIdNamesCertificate(a: ExpiryAlert, b: ExpiryAlert)
    requires a.id == "alert-" + a.certificateId && b.id == "alert-" + b.certificateId
    requires a.id == b.id
    ensures a.certificateId == b.certificateId
  {
    assert a.certificateId == a.id[6..];
  }

  /** The alert's day count is the one the certificate pages show. */
  lemma AlertDaysMatchPage(c: Certificate, users: seq<User>, nowMs: int, toMs: string -> int)
    requires HasExpiry(c)
    ensures Expiry.DaysRemaining(c.expiryDate, nowMs, toMs) == Some(ToAlert(c, users, nowMs, toMs).daysRemaining)
  {
  }
}
