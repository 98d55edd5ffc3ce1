/** The dashboard's certificate list (src/components/dashboard/CertificatesList.tsx):
    a search-only filter and the choice between the warning icon and the
    shield icon. Its level colour and expiry helpers are the definitions in
    modules CertificatesPage and Expiry, of which it holds verbatim copies. */
module CertificatesList {

  import opened Optional
  import opened Types
  import opened Seqs
  import CertificatesPage
  import Expiry

  /** `filteredCertificates`: the certificates whose name, provider or
      some skill contains the term, case-insensitively. */
  function FilteredCertificates(certs: seq<Certificate>, term: string): (r: seq<Certificate>)
    ensures IsSubseq(r, certs)
    ensures forall c :: c in r <==> c in certs && CertificatesPage.MatchesSearch(c, term)
  {
    var keep := (c: Certificate) => CertificatesPage.MatchesSearch(c, term);
    FilterIsSubseq(keep, certs);
    Filter(keep, certs)
  }

  /** The list's filter is the page's filter with both drop-downs on 'all';
      in particular an empty term keeps every certificate. */
  lemma ListIsPageWithoutDropDowns(certs: seq<Certificate>, term: string)
    ensures FilteredCertificates(certs, term) == CertificatesPage.FilteredCertificates(certs, term, "all", "all")
    ensures FilteredCertificates(certs, "") == certs
  {
    FilterAgrees((c: Certificate) => CertificatesPage.MatchesSearch(c, term),
                 (c: Certificate) => CertificatesPage.Keep(c, term, "all", "all"), certs);
    FilterAgrees((c: Certificate) => CertificatesPage.MatchesSearch(c, ""),
                 (c: Certificate) => CertificatesPage.Keep(c, "", "all", "all"), certs);
    CertificatesPage.NoFilterKeepsAll(certs);
  }

  /** `daysRemaining !== null && daysRemaining <= 90` chooses the warning
      triangle over the shield. */
  predicate ShowsWarningIcon(days: Option<int>)
  {
    days.Some? && days.value <= 90
  }

  /** The warning icon appears exactly when the status is coloured
      destructive or amber: expired certificates included, never-expiring
      ones and those more than 90 days out excluded. */
  lemma WarningIconIffUrgentColour(days: Option<int>)
    ensures ShowsWarningIcon(days) <==>
            Expiry.ExpiryStatus(days).color in {Expiry.DestructiveText, Expiry.AmberText}
  {
  }
}
