/** Expiry classification of a certificate: `getDaysRemaining` and
    `getExpiryStatus`, which src/pages/Certificates.tsx and
    src/components/dashboard/CertificatesList.tsx define identically.
    The current time and the parsing of a date string are parameters:
    `nowMs` and `toMs` give milliseconds since the epoch. */
module Expiry {

  import opened Optional
  import Text
  import JsMath

  /** Milliseconds in a day, `1000 * 60 * 60 * 24`. */
  const MsPerDay: int := 1000 * 60 * 60 * 24

  /** `Math.ceil((expiry - now) / MsPerDay)`: whole days until the expiry
      instant, rounded up; negative once at least a full day has passed. */
  function DaysUntil(expiryMs: int, nowMs: int): (days: int)
    ensures MsPerDay * (days - 1) < expiryMs - nowMs <= MsPerDay * days
  {
    JsMath.CeilQuotient(expiryMs - nowMs, MsPerDay)
  }

  /** `getDaysRemaining`: null for a missing or empty expiry date. */
  function DaysRemaining(expiryDate: Option<string>, nowMs: int, toMs: string -> int): (r: Option<int>)
    ensures r.None? <==> expiryDate.None? || expiryDate.value == ""
    ensures r.Some? ==> r.value == DaysUntil(toMs(expiryDate.value), nowMs)
  {
    if expiryDate.None? || expiryDate.value == "" then None
    else Some(DaysUntil(toMs(expiryDate.value), nowMs))
  }

  /** The day count is negative exactly when the expiry instant lies a full
      day or more in the past; an expiry earlier today still counts 0. */
  lemma {:induction false} NegativeIffADayPast(expiryMs: int, nowMs: int)
    ensures DaysUntil(expiryMs, nowMs) < 0 <==> expiryMs - nowMs <= -MsPerDay
    ensures DaysUntil(expiryMs, nowMs) == 0 <==> -MsPerDay < expiryMs - nowMs <= 0
  {
    var d := DaysUntil(expiryMs, nowMs);
    if d < 0 {
      assert MsPerDay * d <= MsPerDay * -1;
    } else if d > 0 {
      assert MsPerDay * (d - 1) >= 0;
    }
  }

  /** A later expiry never gives fewer days. */
  lemma {:induction false} DaysUntilMonotone(e1: int, e2: int, nowMs: int)
    requires e1 <= e2
    ensures DaysUntil(e1, nowMs) <= DaysUntil(e2, nowMs)
  {
    var d1, d2 := DaysUntil(e1, nowMs), DaysUntil(e2, nowMs);
    assert MsPerDay * (d1 - 1) < MsPerDay * d2;
  }

  const MutedText := "text-muted-foreground"
  const DestructiveText := "text-destructive"
  const AmberText := "text-amber-500"
  const EmeraldText := "text-emerald-500"

  /** The `{ color, text }` pair `getExpiryStatus` returns. */
  datatype Status = Status(color: string, text: string)

  /** The template `Expires in ${n} days`. */
  function ExpiresText(n: nat): string
  {
    "Expires in " + Text.NatToString(n) + " days"
  }

  /** Different day counts give different texts. */
  lemma {:induction false} ExpiresTextInjective(m: nat, n: nat)
    requires ExpiresText(m) == ExpiresText(n)
    ensures m == n
  {
    var a, b := ExpiresText(m), ExpiresText(n);
    assert Text.NatToString(m) == a[11..|a| - 5];
    assert Text.NatToString(n) == b[11..|b| - 5];
    Text.NatToStringInjective(m, n);
  }

  /** `getExpiryStatus`: null is "Never expires"; a negative count is
      "Expired"; every other count is "Expires in N days", coloured by tier
      (0..30 destructive, 31..90 amber, above 90 emerald). */
  function ExpiryStatus(days: Option<int>): (st: Status)
    ensures st.color == MutedText <==> days.None?
    ensures st.color == DestructiveText <==> days.Some? && days.value <= 30
    ensures st.color == AmberText <==> days.Some? && 30 < days.value <= 90
    ensures st.color == EmeraldText <==> days.Some? && 90 < days.value
    ensures st.text == "Never expires" <==> days.None?
    ensures st.text == "Expired" <==> days.Some? && days.value < 0
    ensures days.Some? && days.value >= 0 ==> st.text == ExpiresText(days.value)
  {
    if days.None? then Status(MutedText, "Never expires")
    else if days.value < 0 then Status(DestructiveText, "Expired")
    else if days.value <= 30 then Status(DestructiveText, ExpiresText(days.value))
    else if days.value <= 90 then Status(AmberText, ExpiresText(days.value))
    else Status(EmeraldText, ExpiresText(days.value))
  }
}
