/** The logic of the Certificates page (src/pages/Certificates.tsx): the
    level badge colour, the provider list of the filter drop-down and the
    search/provider/level filter. The expiry helpers it defines are module
    Expiry. */
module CertificatesPage {

  import opened Types
  import opened Seqs
  import Text

  const BeginnerBadge := "bg-sky-100 text-sky-800"
  const IntermediateBadge := "bg-emerald-100 text-emerald-800"
  const AdvancedBadge := "bg-purple-100 text-purple-800"
  const ExpertBadge := "bg-amber-100 text-amber-800"
  const DefaultBadge := "bg-gray-100 text-gray-800"

  /** `getLevelColor`: a badge class per tier, gray for any other string. */
  function LevelColor(level: string): (color: string)
    ensures color == DefaultBadge <==> ParseLevel(level).None?
  {
    match ParseLevel(level)
    case Some(Beginner) => BeginnerBadge
    case Some(Intermediate) => IntermediateBadge
    case Some(Advanced) => AdvancedBadge
    case Some(Expert) => ExpertBadge
    case None => DefaultBadge
  }

  /** The four tiers get four different classes, none of them gray, and
      every string that names no tier gets gray. */
  lemma LevelColorsDistinct(l1: Level, l2: Level, s: string)
    ensures LevelColor(LevelName(l1)) == LevelColor(LevelName(l2)) <==> l1 == l2
    ensures LevelColor(LevelName(l1)) != DefaultBadge
    ensures ParseLevel(s).None? ==> LevelColor(s) == DefaultBadge
  {
  }

  /** `Array.from(new Set(certificates.map(cert => cert.provider)))`. */
  function Providers(certs: seq<Certificate>): (r: seq<string>)
    ensures NoDups(r)
    ensures forall p :: p in r <==> exists c :: c in certs && c.provider == p
  {
    var column := Map((c: Certificate) => c.provider, certs);
    forall p ensures p in column <==> exists c :: c in certs && c.provider == p {
      InMap((c: Certificate) => c.provider, certs, p);
    }
    Dedup(column)
  }

  /** The providers are listed in the order in which each first appears. */
  lemma ProvidersInFirstOccurrenceOrder(certs: seq<Certificate>)
    ensures var column := Map((c: Certificate) => c.provider, certs);
            forall i, j :: 0 <= i < j < |Providers(certs)| ==>
              IndexOf(column, Providers(certs)[i]) < IndexOf(column, Providers(certs)[j])
  {
    DedupFirstOccurrenceOrder(Map((c: Certificate) => c.provider, certs));
  }

  /** `matchesSearch`: the lower-cased term occurs in the lower-cased name,
      provider or one of the skills. */
  predicate MatchesSearch(c: Certificate, term: string)
  {
    var t := Text.Lower(term);
    || Text.Includes(Text.Lower(c.name), t)
    || Text.Includes(Text.Lower(c.provider), t)
    || exists k | 0 <= k < |c.skills| :: Text.Includes(Text.Lower(c.skills[k]), t)
  }

  /** The search ignores the case of the term. */
  lemma MatchesSearchIgnoresTermCase(c: Certificate, term: string)
    ensures MatchesSearch(c, Text.Lower(term)) == MatchesSearch(c, term)
  {
    Text.LowerIdempotent(term);
  }

  /** The empty term matches every certificate. */
  lemma EmptyTermMatches(c: Certificate)
    ensures MatchesSearch(c, "")
  {
    Text.IncludesEmpty(Text.Lower(c.name));
  }

  /** Search, provider filter and level filter together; 'all' switches a
      filter off. */
  predicate Keep(c: Certificate, term: string, provider: string, level: string)
  {
    && MatchesSearch(c, term)
    && (provider == "all" || c.provider == provider)
    && (level == "all" || LevelName(c.level) == level)
  }

  /** `filteredCertificates`. */
  function FilteredCertificates(certs: seq<Certificate>, term: string, provider: string, level: string): (r: seq<Certificate>)
    ensures IsSubseq(r, certs)
    ensures forall c :: c in r <==> c in certs && Keep(c, term, provider, level)
    ensures forall c :: multiset(r)[c] == if Keep(c, term, provider, level) then multiset(certs)[c] else 0
  {
    var keep := (c: Certificate) => Keep(c, term, provider, level);
    FilterIsSubseq(keep, certs);
    forall c ensures multiset(Filter(keep, certs))[c] == if keep(c) then multiset(certs)[c] else 0 {
      FilterCount(keep, certs, c);
    }
    Filter(keep, certs)
  }

  /** With an empty term and both filters 'all' the page lists every
      certificate in its original order. */
  lemma NoFilterKeepsAll(certs: seq<Certificate>)
    ensures FilteredCertificates(certs, "", "all", "all") == certs
  {
    forall c | c in certs ensures Keep(c, "", "all", "all") {
      EmptyTermMatches(c);
    }
    FilterAll((c: Certificate) => Keep(c, "", "all", "all"), certs);
  }
}
