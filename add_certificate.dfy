/** The add-certificate dialog
    (src/components/certificates/AddCertificateDialog.tsx): the rules the
    form is validated against, the certificate a valid submission builds,
    the skill toggle, and the dialog's state as the handlers change it. */
module AddCertificate {

  import opened Optional
  import opened Types
  import opened Seqs
  import Text

  /** The form's values. Dates are instants in milliseconds; a date or
      member never picked is None. */
  datatype FormValues = FormValues(
    name: string,
    provider: string,
    issueDate: Option<int>,
    expiryDate: Option<int>,
    level: string,
    userId: Option<string>,
    skills: seq<string>)

  /** The `defaultValues` the form starts from and is reset to. */
  const DefaultValues := FormValues("", "", None, None, "intermediate", None, [])

  /** The rules of `formSchema` a value can break. */
  datatype FormError =
    | NameTooShort      // name: at least 2 characters
    | ProviderTooShort  // provider: at least 2 characters
    | IssueDateMissing  // issueDate: required
    | LevelUnknown      // level: one of the four tiers
    | MemberMissing     // userId: required
    | NoSkills          // skills: at least one

  /** The rules in the order the schema lists them. */
  const Rules := [NameTooShort, ProviderTooShort, IssueDateMissing, LevelUnknown, MemberMissing, NoSkills]

  /** The values break rule `e`. */
  predicate Breaks(v: FormValues, e: FormError)
  {
    match e
    case NameTooShort => |v.name| < 2
    case ProviderTooShort => |v.provider| < 2
    case IssueDateMissing => v.issueDate.None?
    case LevelUnknown => ParseLevel(v.level).None?
    case MemberMissing => v.userId.None?
    case NoSkills => v.skills == []
  }

  /** The list names every rule. */
  lemma RuleListed(e: FormError)
    ensures e in Rules
  {
    match e
    case NameTooShort => assert Rules[0] == e;
    case ProviderTooShort => assert Rules[1] == e;
    case IssueDateMissing => assert Rules[2] == e;
    case LevelUnknown => assert Rules[3] == e;
    case MemberMissing => assert Rules[4] == e;
    case NoSkills => assert Rules[5] == e;
  }

  /** Every rule the values break, in the order of the schema. */
  function Errors(v: FormValues): (errs: seq<FormError>)
    ensures forall e :: e in errs <==> Breaks(v, e)
    ensures IsSubseq(errs, Rules)
  {
    var breaks := (e: FormError) => Breaks(v, e);
    var r := Filter(breaks, Rules);
    forall e: FormError ensures e in r <==> Breaks(v, e) {
      RuleListed(e);
      assert e in r <==> breaks(e);
    }
    FilterIsSubseq(breaks, Rules);
    r
  }

  /** The values pass the schema, so `onSubmit` runs: a name and a
      provider of at least two characters, an issue date, one of the four
      levels, a member and a skill. */
  predicate IsValid(v: FormValues)
  {
    && |v.name| >= 2 && |v.provider| >= 2
    && v.issueDate.Some? && ParseLevel(v.level).Some?
    && v.userId.Some? && v.skills != []
  }

  /** The values pass exactly when they break no rule. */
  lemma ValidMeans(v: FormValues)
    ensures IsValid(v) <==> Errors(v) == []
  {
    var errs := Errors(v);
    if !IsValid(v) {
      var e := if |v.name| < 2 then NameTooShort
               else if |v.provider| < 2 then ProviderTooShort
               else if v.issueDate.None? then IssueDateMissing
               else if ParseLevel(v.level).None? then LevelUnknown
               else if v.userId.None? then MemberMissing
               else NoSkills;
      assert Breaks(v, e);
      assert e in errs;
    } else if errs != [] {
      BreaksInvalid(v, errs[0]);
    }
  }

  /** Breaking any one rule makes the values invalid. */
  lemma BreaksInvalid(v: FormValues, e: FormError)
    requires Breaks(v, e)
    ensures !IsValid(v)
  {
  }

  /** The untouched form cannot be submitted: it lacks a name, a provider,
      an issue date, a member and a skill, while its level is valid. */
  lemma DefaultValuesInvalid()
    ensures forall e :: e in Errors(DefaultValues) <==> e != LevelUnknown
    ensures !IsValid(DefaultValues)
  {
    var errs := Errors(DefaultValues);
    assert ParseLevel("intermediate") == Some(Intermediate);
    forall e ensures e in errs <==> e != LevelUnknown {
      assert e in errs <==> Breaks(DefaultValues, e);
    }
    assert NameTooShort in errs;
  }

  /** `date.toISOString().split('T')[0]`, with the ISO rendering of an
      instant given as `toIso`. */
  function IsoDay(ms: int, toIso: int -> string): (day: string)
    ensures 'T' !in day && day <= toIso(ms)
    ensures |day| < |toIso(ms)| ==> toIso(ms)[|day|] == 'T'
  {
    Text.BeforeFirst(toIso(ms), 'T')
  }

  /** The certificate `onSubmit` hands to `onAddCertificate`; the id comes
      from the clock. */
  function BuildCertificate(v: FormValues, nowMs: nat, toIso: int -> string): (c: Certificate)
    requires IsValid(v)
    ensures c.id == "cert-" + Text.NatToString(nowMs)
    ensures c.name == v.name && c.provider == v.provider && c.skills == v.skills
    ensures LevelName(c.level) == v.level && Some(c.userId) == v.userId
    ensures c.expiryDate.None? <==> v.expiryDate.None?
    ensures c.issueDate == IsoDay(v.issueDate.value, toIso)
    ensures c.expiryDate.Some? ==> c.expiryDate.value == IsoDay(v.expiryDate.value, toIso)
    ensures c.image.None?
  {
    Certificate(
      id := "cert-" + Text.NatToString(nowMs),
      name := v.name,
      provider := v.provider,
      issueDate := IsoDay(v.issueDate.value, toIso),
      expiryDate := if v.expiryDate.Some? then Some(IsoDay(v.expiryDate.value, toIso)) else None,
      skills := v.skills,
      level := ParseLevel(v.level).value,
      userId := v.userId.value,
      image := None)
  }

  /** Certificates built at different milliseconds get different ids. */
  lemma BuiltIdsDistinct(v: FormValues, w: FormValues, t1: nat, t2: nat, toIso: int -> string)
    requires IsValid(v) && IsValid(w) && t1 != t2
    ensures BuildCertificate(v, t1, toIso).id != BuildCertificate(w, t2, toIso).id
  {
    var a := BuildCertificate(v, t1, toIso).id;
    var b := BuildCertificate(w, t2, toIso).id;
    if a == b {
      assert a[5..] == Text.NatToString(t1);
      assert b[5..] == Text.NatToString(t2);
      Text.NatToStringInjective(t1, t2);
    }
  }

  /** The updater of `setSelectedSkills` in `handleSkillSelect`: a skill
      already selected is removed, any other is appended. */
  function ToggleSkill(prev: seq<string>, skill: string): (next: seq<string>)
    ensures skill in next <==> skill !in prev
    ensures forall s :: s != skill ==> (s in next <==> s in prev)
  {
    if skill in prev then Filter((s: string) => s != skill, prev) else prev + [skill]
  }

  /** Toggling a skill that is not selected appends it at the end. */
  lemma ToggleAbsentAppends(prev: seq<string>, skill: string)
    requires skill !in prev
    ensures var r := ToggleSkill(prev, skill);
            |r| == |prev| + 1 && r[..|prev|] == prev && r[|prev|] == skill
  {
  }

  /** Toggling a selected skill removes every occurrence of it and keeps
      the other skills, with their multiplicities, in their order. */
  lemma ToggleSelectedRemoves(prev: seq<string>, skill: string)
    requires skill in prev
    ensures var r := ToggleSkill(prev, skill);
            && skill !in r
            && IsSubseq(r, prev)
            && |r| < |prev|
            && forall s :: s != skill ==> multiset(r)[s] == multiset(prev)[s]
  {
    var p := (s: string) => s != skill;
    FilterIsSubseq(p, prev);
    forall s | s != skill ensures multiset(Filter(p, prev))[s] == multiset(prev)[s] {
      FilterCount(p, prev, s);
    }
    FilterCount(p, prev, skill);
    assert multiset(prev)[skill] > 0;
    assert |multiset(Filter(p, prev))| < |multiset(prev)| by {
      FilterSplit(p, (s: string) => s == skill, prev);
    }
  }

  /** Selecting a skill and deselecting it again restores the selection. */
  lemma ToggleAbsentTwice(prev: seq<string>, skill: string)
    requires skill !in prev
    ensures ToggleSkill(ToggleSkill(prev, skill), skill) == prev
  {
    var p := (s: string) => s != skill;
    FilterConcat(p, prev, [skill]);
    FilterAll(p, prev);
  }

  /** The two places the chosen skills live: the highlighted selection and
      the form's "skills" value that is validated and submitted. */
  datatype SkillState = SkillState(selected: seq<string>, formSkills: seq<string>)

  /** `handleSkillSelect` as written: the form value is written on the add
      branch only. */
  function SkillClick(st: SkillState, skill: string): (next: SkillState)
    ensures next.selected == ToggleSkill(st.selected, skill)
    ensures skill in st.selected ==> next.formSkills == st.formSkills
    ensures skill !in st.selected ==> next.formSkills == next.selected
  {
    var sel := ToggleSkill(st.selected, skill);
    if skill in st.selected then SkillState(sel, st.formSkills) else SkillState(sel, sel)
  }

  /** Selecting and then deselecting one skill from an empty selection
      leaves nothing highlighted, yet the form still holds that skill and
      passes the "at least one skill" rule. */
  lemma StaleFormSkills()
    ensures var st := SkillClick(SkillClick(SkillState([], []), "AWS"), "AWS");
            st.selected == [] && st.formSkills == ["AWS"]
  {
    ToggleAbsentTwice([], "AWS");
  }

  /** Deselecting from an agreeing state always breaks the agreement. */
  lemma DeselectDesynchronises(st: SkillState, skill: string)
    requires st.selected == st.formSkills && skill in st.selected
    ensures SkillClick(st, skill).selected != SkillClick(st, skill).formSkills
  {
    ToggleSelectedRemoves(st.selected, skill);
  }

  /** The click with the form value written on both branches. */
  function SyncedSkillClick(st: SkillState, skill: string): (next: SkillState)
    ensures next.selected == ToggleSkill(st.selected, skill)
    ensures next.formSkills == next.selected
  {
    var sel := ToggleSkill(st.selected, skill);
    SkillState(sel, sel)
  }

  /** Any sequence of synced clicks keeps the submitted skills equal to the
      highlighted ones. */
  lemma {:induction false} SyncedClicksAgree(st: SkillState, clicks: seq<string>)
    requires st.selected == st.formSkills
    ensures var end := SyncedClicks(st, clicks); end.selected == end.formSkills
    decreases |clicks|
  {
    if clicks != [] {
      SyncedClicksAgree(SyncedSkillClick(st, clicks[0]), clicks[1..]);
    }
  }

  /** The state after a run of synced clicks. */
  function SyncedClicks(st: SkillState, clicks: seq<string>): SkillState
    decreases |clicks|
  {
    if clicks == [] then st else SyncedClicks(SyncedSkillClick(st, clicks[0]), clicks[1..])
  }

  /** The dialog's state: whether it is open, the highlighted skills, the
      form values, and every certificate handed to `onAddCertificate`. */
  class Dialog {
    var open: bool
    var selectedSkills: seq<string>
    var form: FormValues
    var added: seq<Certificate>

    function Skills(): SkillState
      reads this
    {
      SkillState(selectedSkills, form.skills)
    }

    /** The highlighted skills are the ones the form will submit. */
    predicate Synced()
      reads this
    {
      selectedSkills == form.skills
    }

    constructor ()
      ensures !open && selectedSkills == [] && form == DefaultValues && added == []
      ensures Synced()
    {
      open := false;
      selectedSkills := [];
      form := DefaultValues;
      added := [];
    }

    /** `onOpenChange` / the Cancel button. */
    method SetOpen(b: bool)
      modifies this
      ensures open == b
      ensures selectedSkills == old(selectedSkills) && form == old(form) && added == old(added)
    {
      open := b;
    }

    /** Typing or picking in the fields other than skills. */
    method EditDetails(name: string, provider: string, issueDate: Option<int>, expiryDate: Option<int>,
                       level: string, userId: Option<string>)
      modifies this
      ensures form == FormValues(name, provider, issueDate, expiryDate, level, userId, old(form.skills))
      ensures open == old(open) && selectedSkills == old(selectedSkills) && added == old(added)
      ensures old(Synced()) ==> Synced()
    {
      form := FormValues(name, provider, issueDate, expiryDate, level, userId, form.skills);
    }

    /** `handleSkillSelect` as written. */
    method HandleSkillSelect(skill: string)
      modifies this
      ensures Skills() == SkillClick(old(Skills()), skill)
      ensures form == old(form).(skills := Skills().formSkills)
      ensures open == old(open) && added == old(added)
    {
      var next := ToggleSkill(selectedSkills, skill);
      if skill !in selectedSkills {
        form := form.(skills := next);
      }
      selectedSkills := next;
    }

    /** `handleSkillSelect` with the form value written on both branches. */
    method HandleSkillSelectSynced(skill: string)
      modifies this
      ensures Skills() == SyncedSkillClick(old(Skills()), skill)
      ensures form == old(form).(skills := Skills().formSkills)
      ensures open == old(open) && added == old(added)
      ensures Synced()
    {
      var next := ToggleSkill(selectedSkills, skill);
      form := form.(skills := next);
      selectedSkills := next;
    }

    /** `form.handleSubmit(onSubmit)`: invalid values change nothing (the
      errors are shown); valid ones add the built certificate, close the
      dialog and reset the form and the selection. */
    method Submit(nowMs: nat, toIso: int -> string) returns (submitted: bool)
      modifies this
      ensures submitted <==> IsValid(old(form))
      ensures submitted ==> && added == old(added) + [BuildCertificate(old(form), nowMs, toIso)]
                            && !open && form == DefaultValues && selectedSkills == []
                            && Synced()
      ensures !submitted ==> && added == old(added) && open == old(open)
                             && form == old(form) && selectedSkills == old(selectedSkills)
    {
      submitted := IsValid(form);
      if submitted {
        added := added + [BuildCertificate(form, nowMs, toIso)];
        open, form, selectedSkills := false, DefaultValues, [];
      }
    }
  }
}
