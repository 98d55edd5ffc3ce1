/** The records of the dashboard (src/lib/types.ts). Strings that stand for
    dates stay strings; fields declared `T | null` or `x?: T` are options. */
module Types {

  import opened Optional

  /** The four proficiency tiers a certificate can have. */
  datatype Level = Beginner | Intermediate | Advanced | Expert

  /** The string literal the TypeScript union uses for each tier. */
  function LevelName(l: Level): string
  {
    match l
    case Beginner => "beginner"
    case Intermediate => "intermediate"
    case Advanced => "advanced"
    case Expert => "expert"
  }

  /** The tier a string names, if any. */
  function ParseLevel(s: string): (r: Option<Level>)
    ensures r.Some? ==> LevelName(r.value) == s
    ensures forall l: Level :: LevelName(l) == s ==> r == Some(l)
  {
    if s == "beginner" then Some(Beginner)
    else if s == "intermediate" then Some(Intermediate)
    else if s == "advanced" then Some(Advanced)
    else if s == "expert" then Some(Expert)
    else None
  }

  datatype Certificate = Certificate(
    id: string,
    name: string,
    provider: string,
    issueDate: string,
    expiryDate: Option<string>,
    skills: seq<string>,
    level: Level,
    userId: string,
    image: Option<string>)

  datatype User = User(
    id: string,
    name: string,
    email: string,
    role: string,
    avatar: Option<string>,
    department: Option<string>,
    certificates: seq<Certificate>)

  datatype Skill = Skill(id: string, name: string, category: string, color: string)

  /** One row of the skill matrix; `level` is documented as a percentage
      in 0..100 but nothing enforces it. */
  datatype SkillMatrixItem = SkillMatrixItem(
    skill: string,
    category: string,
    count: int,
    level: int,
    users: seq<string>)

  /** An alert always carries a day count, never null. */
  datatype ExpiryAlert = ExpiryAlert(
    id: string,
    certificateId: string,
    certificateName: string,
    userName: string,
    userId: string,
    expiryDate: string,
    daysRemaining: int)
}
