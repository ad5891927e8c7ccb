/** The course-record data model: the instructional-type table, the fixed enumerations of terms,
    days, periods and modules, and the shape of a merged subject record. */
module Types {
  import opened Wrappers

  /** The five flags of an instructional type, in table order:
      講義 (lecture), 演習 (seminar), 実習･実験･実技 (practical work), 卒業論文･卒業研究等 (thesis), その他 (other). */
  datatype Flags = Flags(lecture: bool, seminar: bool, practical: bool, thesis: bool, other: bool)

  /** An entry of the instructional-type table: its display text and its flags. */
  datatype InstructionalType = InstructionalType(text: string, flags: Flags)

  /** The number of flags that are set. */
  function FlagCount(f: Flags): nat
  {
    (if f.lecture then 1 else 0) + (if f.seminar then 1 else 0) + (if f.practical then 1 else 0)
    + (if f.thesis then 1 else 0) + (if f.other then 1 else 0)
  }

  /** The closed table of the nine instructional-type codes. */
  const InstructionalTypeMap: map<string, InstructionalType> := map[
    "0" := InstructionalType("その他", Flags(false, false, false, false, true)),
    "1" := InstructionalType("講義", Flags(true, false, false, false, false)),
    "2" := InstructionalType("演習", Flags(false, true, false, false, false)),
    "3" := InstructionalType("実習･実験･実技", Flags(false, false, true, false, false)),
    "4" := InstructionalType("講義及び演習", Flags(true, true, false, false, false)),
    "5" := InstructionalType("講義及び実習･実験･実技", Flags(true, false, true, false, false)),
    "6" := InstructionalType("演習及び実習･実験･実技", Flags(false, true, true, false, false)),
    "7" := InstructionalType("講義、演習及び実習･実験･実技", Flags(true, true, true, false, false)),
    "8" := InstructionalType("卒業論文･卒業研究等", Flags(false, false, false, true, false))
  ]

  /** The codes of the table, in order. */
  const InstructionalTypeCodes: seq<string> := ["0", "1", "2", "3", "4", "5", "6", "7", "8"]

  /** The intended membership guard: a code is valid exactly when the table itself has an entry
      for it. */
  predicate IsInstructionalTypeCode(code: string)
  {
    code in InstructionalTypeMap
  }

  /** The names every JavaScript object inherits from `Object.prototype`. */
  const ObjectPrototypeNames: set<string> := {
    "constructor", "hasOwnProperty", "isPrototypeOf", "propertyIsEnumerable", "toLocaleString",
    "toString", "valueOf", "__proto__", "__defineGetter__", "__defineSetter__",
    "__lookupGetter__", "__lookupSetter__"}

  /** The guard as written, JavaScript's `code in instructionalTypeMap`: the `in` operator also
      sees the names the table object inherits. */
  predicate PassesInGuard(code: string)
  {
    code in InstructionalTypeMap || code in ObjectPrototypeNames
  }

  /** What the lookup as written hands back: a table entry, or an inherited prototype member. */
  datatype TypeLookup = TableEntry(entry: InstructionalType) | InheritedMember(name: string)

  /** The text of the error thrown for a code outside the table. */
  function UnknownCodeMessage(code: string): string
  {
    "Unknown instructional type code: " + code
  }

  /** Looks a code up in the table; a code outside the table is an error. */
  function GetInstructionalType(code: string): (r: Result<InstructionalType, string>)
    ensures r.Success? <==> code in InstructionalTypeCodes
    ensures r.Success? ==> r.value == InstructionalTypeMap[code]
    ensures r.Failure? ==> r.error == UnknownCodeMessage(code)
  {
    if !IsInstructionalTypeCode(code) then Failure(UnknownCodeMessage(code))
    else Success(InstructionalTypeMap[code])
  }

  /** `getInstructionalType` as written: an inherited name passes the guard and its prototype
      member is returned instead of an error. */
  function GetInstructionalTypeAsWritten(code: string): (r: Result<TypeLookup, string>)
    ensures r.Success? <==> code in InstructionalTypeCodes || code in ObjectPrototypeNames
    ensures code in InstructionalTypeMap ==> r == Success(TableEntry(InstructionalTypeMap[code]))
    ensures r.Failure? ==> r.error == UnknownCodeMessage(code)
  {
    if !PassesInGuard(code) then Failure(UnknownCodeMessage(code))
    else if code in InstructionalTypeMap then Success(TableEntry(InstructionalTypeMap[code]))
    else Success(InheritedMember(code))
  }

  /** The input that shows the difference: `"toString"` is no table code, yet the guard as written
      lets it through, while the intended lookup rejects it. */
  lemma InheritedNamePassesGuard()
    ensures "toString" !in InstructionalTypeCodes
    ensures GetInstructionalTypeAsWritten("toString") == Success(InheritedMember("toString"))
    ensures GetInstructionalType("toString") == Failure(UnknownCodeMessage("toString"))
  {
  }

  /** Away from the inherited names the lookup as written and the intended lookup agree. */
  lemma AsWrittenAgreesOffPrototype(code: string)
    requires code !in ObjectPrototypeNames
    ensures GetInstructionalType(code).Success? ==>
      GetInstructionalTypeAsWritten(code) == Success(TableEntry(GetInstructionalType(code).value))
    ensures GetInstructionalType(code).Failure? ==>
      GetInstructionalTypeAsWritten(code) == Failure(GetInstructionalType(code).error)
  {
  }

  /** The keys of the table are exactly the codes "0" to "8". */
  lemma InstructionalTypeCodesAreTheKeys()
    ensures forall code :: code in InstructionalTypeMap <==> code in InstructionalTypeCodes
  {
  }

  /** The nine codes are distinct. */
  lemma InstructionalTypeCodesDistinct()
    ensures |InstructionalTypeCodes| == 9
    ensures forall i, j :: 0 <= i < j < |InstructionalTypeCodes| ==> InstructionalTypeCodes[i] != InstructionalTypeCodes[j]
  {
  }

  /** その他 is set only for code "0", and 卒業論文･卒業研究等 only for code "8". */
  lemma ExclusiveFlags()
    ensures forall code :: code in InstructionalTypeMap ==>
      (InstructionalTypeMap[code].flags.other <==> code == "0")
    ensures forall code :: code in InstructionalTypeMap ==>
      (InstructionalTypeMap[code].flags.thesis <==> code == "8")
  {
  }

  /** Codes "1" to "3" set exactly one flag each, code "4" exactly 講義 and 演習, and code "7"
      exactly 講義, 演習 and 実習･実験･実技. */
  lemma CombinedFlags()
    ensures forall code :: code in ["1", "2", "3"] ==> FlagCount(InstructionalTypeMap[code].flags) == 1
    ensures InstructionalTypeMap["1"].flags.lecture
    ensures InstructionalTypeMap["2"].flags.seminar
    ensures InstructionalTypeMap["3"].flags.practical
    ensures InstructionalTypeMap["4"].flags == Flags(true, true, false, false, false)
    ensures InstructionalTypeMap["7"].flags == Flags(true, true, true, false, false)
  {
  }

  /** Every entry sets at least one flag, and no two codes share a flag set, so the flags
      identify the code. */
  lemma FlagsIdentifyCode(c1: string, c2: string)
    requires c1 in InstructionalTypeMap && c2 in InstructionalTypeMap
    ensures FlagCount(InstructionalTypeMap[c1].flags) >= 1
    ensures InstructionalTypeMap[c1].flags == InstructionalTypeMap[c2].flags ==> c1 == c2
  {
  }

  /** A term: its display text and its code. */
  datatype TermEntry = TermEntry(text: string, code: string)

  /** The two terms. */
  const Terms: seq<TermEntry> := [TermEntry("春学期", "A"), TermEntry("秋学期", "B")]

  type Term = t: TermEntry | t in Terms witness TermEntry("春学期", "A")

  /** There are exactly two terms: 春学期 with code "A" and 秋学期 with code "B". */
  lemma TermsTable()
    ensures |Terms| == 2
    ensures Terms[0] == TermEntry("春学期", "A") && Terms[1] == TermEntry("秋学期", "B")
    ensures forall t: Term :: t.code == "A" || t.code == "B"
  {
  }

  /** The days of the week, with 他 for a class held outside the weekly grid. */
  const DaysOfWeek: seq<string> := ["月", "火", "水", "木", "金", "土", "日", "他"]

  type DayOfWeek = d: string | d in DaysOfWeek witness "月"

  /** The periods of a day. */
  const Periods: seq<int> := [1, 2, 3, 4, 5, 6, 7, 8]

  type Period = p: int | p in Periods witness 1

  /** There are eight distinct days, and the periods are exactly 1 to 8 in order. */
  lemma DaysAndPeriods()
    ensures |DaysOfWeek| == 8
    ensures forall i, j :: 0 <= i < j < |DaysOfWeek| ==> DaysOfWeek[i] != DaysOfWeek[j]
    ensures |Periods| == 8 && forall i :: 0 <= i < |Periods| ==> Periods[i] == i + 1
    ensures forall p: int :: p in Periods <==> 1 <= p <= 8
  {
  }

  /** One slot of a timetable: a day and, unless the slot is unscheduled, a period. */
  datatype TimeTable = TimeTable(day: DayOfWeek, period: Option<Period>)

  /** The eight modules of the academic year. */
  datatype ModuleKey = SpringA | SpringB | SpringC | SummerVacation | FallA | FallB | FallC | SpringVacation
  {
    /** The key the module has in a timetable record. */
    function Name(): string
    {
      match this
      case SpringA => "springA"
      case SpringB => "springB"
      case SpringC => "springC"
      case SummerVacation => "summerVacation"
      case FallA => "fallA"
      case FallB => "fallB"
      case FallC => "fallC"
      case SpringVacation => "springVacation"
    }
  }

  /** The module keys in their fixed order. */
  const ModuleKeys: seq<ModuleKey> := [SpringA, SpringB, SpringC, SummerVacation, FallA, FallB, FallC, SpringVacation]

  const AllModules: set<ModuleKey> := {SpringA, SpringB, SpringC, SummerVacation, FallA, FallB, FallC, SpringVacation}

  /** A module timetable has an entry, possibly empty, for every one of the eight modules. */
  type ModuleTimeTable = m: map<ModuleKey, seq<TimeTable>> | m.Keys == AllModules
    witness map[SpringA := [], SpringB := [], SpringC := [], SummerVacation := [],
                FallA := [], FallB := [], FallC := [], SpringVacation := []]

  /** The eight module keys are distinct, and so are their record keys. */
  lemma ModuleKeysDistinct()
    ensures |ModuleKeys| == 8
    ensures forall i, j :: 0 <= i < j < |ModuleKeys| ==> ModuleKeys[i] != ModuleKeys[j]
    ensures forall i, j :: 0 <= i < j < |ModuleKeys| ==> ModuleKeys[i].Name() != ModuleKeys[j].Name()
  {
  }

  /** The module keys are every module there is, and a timetable has an entry for each. */
  lemma ModuleKeysAreComplete(t: ModuleTimeTable)
    ensures forall k: ModuleKey :: k in ModuleKeys && k in t
  {
    forall k: ModuleKey ensures k in ModuleKeys && k in t {
      match k
      case SpringA =>
      case SpringB =>
      case SpringC =>
      case SummerVacation =>
      case FallA =>
      case FallB =>
      case FallC =>
      case SpringVacation =>
    }
  }

  /** A prerequisite link. */
  datatype Requisite = Requisite(id: string, name: string, hasLower: bool)

  /** An instructional type that is one of the table's nine entries. */
  type TableInstructionalType = t: InstructionalType | t in InstructionalTypeMap.Values
    witness InstructionalTypeMap["0"]

  datatype InstructionalTypeField = InstructionalTypeField(value: Option<TableInstructionalType>, kdbRaw: Option<string>)

  datatype Credits = NormalCredits(amount: real) | NoCredits | UnknownCredits

  datatype CreditsField = CreditsField(value: Option<Credits>, kdbRaw: Option<string>)

  datatype Year = NormalYear(years: seq<int>) | UnknownYear

  datatype YearField = YearField(value: Year, kdbRaw: Option<string>, twinsRaw: Option<string>)

  datatype TwinsTermRaw = TwinsTermRaw(term: string, moduleText: string)

  datatype TermsField = TermsField(
    term: Option<Term>,
    moduleText: Option<string>,
    weekdayAndPeriod: Option<string>,
    moduleTimeTable: Option<ModuleTimeTable>,
    twinsRaw: Option<TwinsTermRaw>)

  datatype InstructorField = InstructorField(value: seq<string>, kdbRaw: Option<string>, twinsRaw: Option<string>)

  datatype AffiliationRaw = AffiliationRaw(name: string, code: string)

  datatype AffiliationField = AffiliationField(name: Option<string>, code: Option<string>, twinsRaw: Option<AffiliationRaw>)

  /** The merged view of one subject. `classroom` is always `null` in the record, so it carries no value here. */
  datatype MergedSubject = MergedSubject(
    code: string,
    name: string,
    syllabusLatestLink: Option<string>,
    instructionalType: InstructionalTypeField,
    credits: CreditsField,
    year: YearField,
    terms: TermsField,
    instructor: InstructorField,
    overview: Option<string>,
    remarks: Option<string>,
    auditor: Option<string>,
    conditionsForAuditors: Option<string>,
    affiliation: AffiliationField,
    requisite: seq<Requisite>)

  /** The keys of a merged subject record, in declaration order. */
  const MergedSubjectKeys: seq<string> := [
    "code", "name", "syllabusLatestLink", "instructionalType", "credits", "year", "terms", "classroom",
    "instructor", "overview", "remarks", "auditor", "conditionsForAuditors", "affiliation", "requisite"]

  /** No key of a merged subject record is listed twice. */
  lemma MergedSubjectKeysDistinct()
    ensures |MergedSubjectKeys| == 15
    ensures forall i, j :: 0 <= i < j < |MergedSubjectKeys| ==> MergedSubjectKeys[i] != MergedSubjectKeys[j]
  {
    forall i, j | 0 <= i < j < |MergedSubjectKeys| ensures MergedSubjectKeys[i] != MergedSubjectKeys[j] {
      var a, b := MergedSubjectKeys[i], MergedSubjectKeys[j];
      assert |a| != |b| || a[0] != b[0];
    }
  }
}
