/** The logic of the skills matrix card
    (src/components/dashboard/SkillsMatrix.tsx): the category list, the
    search/category filter, the ordering by proficiency, the bar colour of
    a skill and the category badges that toggle the filter. */
module SkillsMatrix {

  import opened Types
  import opened Seqs
  import Text

  /** `Array.from(new Set(skills.map(skill => skill.category)))`. */
  function Categories(skills: seq<Skill>): (r: seq<string>)
    ensures NoDups(r)
    ensures forall c :: c in r <==> exists s :: s in skills && s.category == c
  {
    var column := Map((s: Skill) => s.category, skills);
    forall c ensures c in column <==> exists s :: s in skills && s.category == c {
      InMap((s: Skill) => s.category, skills, c);
    }
    Dedup(column)
  }

  /** Categories are listed in the order in which each first appears. */
  lemma CategoriesInFirstOccurrenceOrder(skills: seq<Skill>)
    ensures var column := Map((s: Skill) => s.category, skills);
            forall i, j :: 0 <= i < j < |Categories(skills)| ==>
              IndexOf(column, Categories(skills)[i]) < IndexOf(column, Categories(skills)[j])
  {
    DedupFirstOccurrenceOrder(Map((s: Skill) => s.category, skills));
  }

  /** The lower-cased term occurs in the lower-cased skill name and the
      category is the one selected, unless the selection is 'all'. */
  predicate Keep(item: SkillMatrixItem, term: string, category: string)
  {
    && Text.Includes(Text.Lower(item.skill), Text.Lower(term))
    && (category == "all" || item.category == category)
  }

  /** `filteredSkills`. */
  function FilteredSkills(matrix: seq<SkillMatrixItem>, term: string, category: string): (r: seq<SkillMatrixItem>)
    ensures IsSubseq(r, matrix)
    ensures forall it :: it in r <==> it in matrix && Keep(it, term, category)
    ensures forall it :: multiset(r)[it] == if Keep(it, term, category) then multiset(matrix)[it] else 0
  {
    var keep := (it: SkillMatrixItem) => Keep(it, term, category);
    FilterIsSubseq(keep, matrix);
    forall it ensures multiset(Filter(keep, matrix))[it] == if keep(it) then multiset(matrix)[it] else 0 {
      FilterCount(keep, matrix, it);
    }
    Filter(keep, matrix)
  }

  /** "Clear filters" (empty term, category 'all') shows the whole matrix
      in its original order. */
  lemma ClearedFiltersKeepAll(matrix: seq<SkillMatrixItem>)
    ensures FilteredSkills(matrix, "", "all") == matrix
  {
    forall it | it in matrix ensures Keep(it, "", "all") {
      Text.IncludesEmpty(Text.Lower(it.skill));
    }
    FilterAll((it: SkillMatrixItem) => Keep(it, "", "all"), matrix);
  }

  /** The key of the comparator `(a, b) => b.level - a.level`: sorting
      ascending by the negated level sorts by level, highest first. */
  function NegLevel(it: SkillMatrixItem): int
  {
    -it.level
  }

  /** `sortedSkills`: the stable sort of the filtered rows by level,
      descending. The rows are the filtered rows with the same
      multiplicities, and levels never increase down the list. */
  function SortedSkills(matrix: seq<SkillMatrixItem>, term: string, category: string): (r: seq<SkillMatrixItem>)
    ensures multiset(r) == multiset(FilteredSkills(matrix, term, category))
    ensures forall i, j :: 0 <= i < j < |r| ==> r[i].level >= r[j].level
  {
    var f := FilteredSkills(matrix, term, category);
    SortBySorted(f, NegLevel);
    SortBy(f, NegLevel)
  }

  /** Rows with equal level keep the order they have in the matrix. */
  lemma SortedSkillsStable(matrix: seq<SkillMatrixItem>, term: string, category: string, level: int)
    ensures Filter((it: SkillMatrixItem) => it.level == level, SortedSkills(matrix, term, category))
         == Filter((it: SkillMatrixItem) => it.level == level, FilteredSkills(matrix, term, category))
  {
    SortByStableFor(FilteredSkills(matrix, term, category), NegLevel,
                    (it: SkillMatrixItem) => it.level == level, -level);
  }

  const FallbackColor := "#666"

  /** `getSkillColor`: the colour of the first skill with that name; gray
      when there is none or its colour is the empty string. */
  function SkillColor(skills: seq<Skill>, name: string): (color: string)
    ensures color != ""
    ensures (forall s :: s in skills ==> s.name != name) ==> color == FallbackColor
    ensures color != FallbackColor ==> exists s :: s in skills && s.name == name && s.color == color
  {
    match Find((s: Skill) => s.name == name, skills)
    case Some(s) => if s.color != "" then s.color else FallbackColor
    case None => FallbackColor
  }

  /** The colour comes from the FIRST skill of that name. */
  lemma SkillColorOfFirstMatch(skills: seq<Skill>, name: string, i: nat)
    requires i < |skills| && skills[i].name == name && skills[i].color != ""
    requires forall j :: 0 <= j < i ==> skills[j].name != name
    ensures SkillColor(skills, name) == skills[i].color
  {
    var p := (s: Skill) => s.name == name;
    assert p(skills[i]);
    FindFirst(p, skills);
    var k :| 0 <= k < |skills| && skills[k] == Find(p, skills).value &&
             forall j :: 0 <= j < k ==> !p(skills[j]);
    assert p(skills[k]);
  }

  /** The new filter after a click on a category badge: clicking the
      selected category returns to 'all', any other selects it. */
  function ToggleCategory(current: string, category: string): (next: string)
    ensures current != category ==> next == category
    ensures current == category ==> next == "all"
  {
    if current == category then "all" else category
  }

  /** Two clicks on the same badge restore the filter when it was that
      category or 'all', and leave 'all' otherwise. */
  lemma ToggleCategoryTwice(current: string, category: string)
    ensures ToggleCategory(ToggleCategory(current, category), category)
         == if current == category || current == "all" then current else "all"
  {
  }
}
