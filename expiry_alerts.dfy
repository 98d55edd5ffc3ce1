/** The expiry-alert card (src/components/dashboard/ExpiryAlerts.tsx): the
    split into critical and upcoming alerts, the severity colours, the label
    of a critical alert and the owner's avatar. */
module ExpiryAlertsView {

  import opened Optional
  import opened Types
  import opened Seqs
  import Data
  import Expiry

  predicate IsCritical(a: ExpiryAlert)
  {
    a.daysRemaining <= 30
  }

  predicate IsUpcoming(a: ExpiryAlert)
  {
    a.daysRemaining > 30
  }

  /** `criticalAlerts`. */
  function CriticalAlerts(alerts: seq<ExpiryAlert>): (r: seq<ExpiryAlert>)
    ensures IsSubseq(r, alerts)
    ensures forall a :: a in r <==> a in alerts && a.daysRemaining <= 30
  {
    FilterIsSubseq(IsCritical, alerts);
    Filter(IsCritical, alerts)
  }

  /** `upcomingAlerts`. */
  function UpcomingAlerts(alerts: seq<ExpiryAlert>): (r: seq<ExpiryAlert>)
    ensures IsSubseq(r, alerts)
    ensures forall a :: a in r <==> a in alerts && a.daysRemaining > 30
  {
    FilterIsSubseq(IsUpcoming, alerts);
    Filter(IsUpcoming, alerts)
  }

  /** The two groups share no alert and together hold every alert exactly
      as often as the input does. */
  lemma AlertsPartitioned(alerts: seq<ExpiryAlert>)
    ensures forall a :: !(a in CriticalAlerts(alerts) && a in UpcomingAlerts(alerts))
    ensures multiset(CriticalAlerts(alerts)) + multiset(UpcomingAlerts(alerts)) == multiset(alerts)
  {
    FilterSplit(IsCritical, IsUpcoming, alerts);
  }

  /** On alerts sorted by days, as the pipeline delivers them, the critical
      group followed by the upcoming group is the input itself. */
  lemma SortedAlertsSplitAtThirty(alerts: seq<ExpiryAlert>)
    requires SortedBy(alerts, Data.DaysKey)
    ensures CriticalAlerts(alerts) + UpcomingAlerts(alerts) == alerts
  {
    SortedSplit(alerts);
  }

  lemma {:induction false} SortedSplit(alerts: seq<ExpiryAlert>)
    requires SortedBy(alerts, Data.DaysKey)
    ensures Filter(IsCritical, alerts) + Filter(IsUpcoming, alerts) == alerts
  {
    if alerts != [] {
      var first, rest := alerts[0], alerts[1..];
      if IsCritical(first) {
        SortedTail(alerts);
        SortedSplit(rest);
        var c, u := Filter(IsCritical, rest), Filter(IsUpcoming, rest);
        assert Filter(IsCritical, alerts) == [first] + c;
        assert Filter(IsUpcoming, alerts) == u;
        ConcatAssoc([first], c, u);
        assert alerts == [first] + rest;
      } else {
        AllUpcoming(alerts);
        FilterNone(IsCritical, alerts);
        FilterAll(IsUpcoming, alerts);
      }
    }
  }

  lemma SortedTail(alerts: seq<ExpiryAlert>)
    requires SortedBy(alerts, Data.DaysKey) && alerts != []
    ensures SortedBy(alerts[1..], Data.DaysKey)
  {
    var rest := alerts[1..];
    forall i, j | 0 <= i < j < |rest| ensures Data.DaysKey(rest[i]) <= Data.DaysKey(rest[j]) {
      assert rest[i] == alerts[i + 1] && rest[j] == alerts[j + 1];
    }
  }

  /** When the soonest alert is upcoming, all are. */
  lemma AllUpcoming(alerts: seq<ExpiryAlert>)
    requires SortedBy(alerts, Data.DaysKey)
    requires alerts != [] && IsUpcoming(alerts[0])
    ensures forall a :: a in alerts ==> IsUpcoming(a)
  {
    forall a | a in alerts ensures IsUpcoming(a) {
      var i :| 0 <= i < |alerts| && alerts[i] == a;
      assert i == 0 || Data.DaysKey(alerts[0]) <= Data.DaysKey(alerts[i]);
    }
  }

  /** The colour classes of `getAlertSeverity`. */
  datatype Severity = Severity(color: string, bgColor: string, borderColor: string)

  const DestructiveSeverity := Severity("text-destructive", "bg-destructive/10", "border-destructive/20")
  const AmberSeverity := Severity("text-amber-500", "bg-amber-100/30", "border-amber-100")
  const MutedSeverity := Severity("text-muted-foreground", "bg-secondary/30", "border-secondary/20")

  /** `getAlertSeverity`: destructive up to 30 days (its two first branches
      give the same colours), amber up to 90, muted beyond. */
  function AlertSeverity(days: int): (sev: Severity)
    ensures sev == DestructiveSeverity <==> days <= 30
    ensures sev == AmberSeverity <==> 30 < days <= 90
    ensures sev == MutedSeverity <==> 90 < days
  {
    if days <= 0 then DestructiveSeverity
    else if days <= 30 then DestructiveSeverity
    else if days <= 90 then AmberSeverity
    else MutedSeverity
  }

  /** The alert scale and the certificate status agree in text colour up to
      90 days; beyond, the alert is muted where the status is emerald. */
  lemma SeverityAgreesWithStatusUpToNinety(days: int)
    ensures days <= 90 ==> AlertSeverity(days).color == Expiry.ExpiryStatus(Some(days)).color
    ensures days > 90 ==> (AlertSeverity(days).color == Expiry.MutedText &&
                           Expiry.ExpiryStatus(Some(days)).color == Expiry.EmeraldText)
  {
  }

  /** The label of a critical alert: "Expired" from day 0 down. */
  function CriticalLabel(days: int): (text: string)
    ensures text == "Expired" <==> days <= 0
    ensures days > 0 ==> text == Expiry.ExpiresText(days)
  {
    if days <= 0 then "Expired" else Expiry.ExpiresText(days)
  }

  /** The alert card and the certificate status word a day count alike
      except on day 0, which the card calls "Expired" and the status
      "Expires in 0 days". */
  lemma CriticalLabelDiffersOnlyOnDayZero(days: int)
    ensures CriticalLabel(days) == Expiry.ExpiryStatus(Some(days)).text <==> days != 0
  {
  }

  /** `getUserAvatar`: `users.find(u => u.id === userId)?.avatar || ''`. */
  function UserAvatar(users: seq<User>, userId: string): (url: string)
    ensures url != "" ==> exists u :: u in users && u.id == userId && u.avatar == Some(url)
    ensures (forall i :: 0 <= i < |users| ==> users[i].id != userId) ==> url == ""
  {
    match Data.FindUser(users, userId)
    case Some(u) => if u.avatar.Some? then u.avatar.value else ""
    case None => ""
  }

  /** The avatar is the first matching user's, or "" when that user has
      none. */
  lemma UserAvatarOfFirstMatch(users: seq<User>, userId: string, i: nat)
    requires i < |users| && users[i].id == userId
    requires forall j :: 0 <= j < i ==> users[j].id != userId
    ensures UserAvatar(users, userId) == if users[i].avatar.Some? then users[i].avatar.value else ""
  {
    var p := (u: User) => u.id == userId;
    FindFirst(p, users);
    var k :| 0 <= k < |users| && users[k] == Find(p, users).value && forall j :: 0 <= j < k ==> !p(users[j]);
    assert p(users[k]) && p(users[i]);
  }
}
