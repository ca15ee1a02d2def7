/**
 The task record shared by both applications and the validation rules that its
 data-annotation attributes impose ([Required], [MaxLength], [RegularExpression]).
 The two applications declare the record in different namespaces with identical
 class bodies, so it is modelled once.
 */
module TaskItems {

  datatype Option<+T> = None | Some(value: T)

  /** A due date is only stored and returned; its calendar meaning plays no part. */
  datatype DateTime = DateTime(ticks: int)

  /** A reference-typed property of the record may be null, hence `Option<string>`. */
  datatype TaskItem = TaskItem(
    id: int,
    title: Option<string>,
    description: Option<string>,
    dueDate: Option<DateTime>,
    priority: Option<string>,
    status: Option<string>,
    category: Option<string>)

  /** The properties that carry validation attributes. */
  datatype Field = Title | Description | Priority | Status | Category

  const TitleMaxLength: nat := 100
  const DescriptionMaxLength: nat := 500
  const Priorities: set<string> := {"Low", "Medium", "High"}
  const Statuses: set<string> := {"Pending", "In Progress", "Completed"}
  const Categories: set<string> := {"Work", "Personal", "Study"}

  /** The characters that .NET's char.IsWhiteSpace accepts. */
  predicate IsWhiteSpace(c: char) {
    c == ' ' || '\t' <= c <= '\r' || c == '\U{85}' || c == '\U{A0}' || c == '\U{1680}'
    || '\U{2000}' <= c <= '\U{200A}' || c == '\U{2028}' || c == '\U{2029}'
    || c == '\U{202F}' || c == '\U{205F}' || c == '\U{3000}'
  }

  /** Empty or made only of white space. */
  predicate IsBlank(s: string) {
    forall i :: 0 <= i < |s| ==> IsWhiteSpace(s[i])
  }

  /** string.IsNullOrWhiteSpace */
  predicate IsNullOrWhiteSpace(s: Option<string>) {
    s.None? || IsBlank(s.value)
  }

  /** [Required] on a string: not null, and (AllowEmptyStrings being false) not blank. */
  predicate RequiredHolds(s: Option<string>) {
    !IsNullOrWhiteSpace(s)
  }

  /** A character outside the Basic Multilingual Plane is a surrogate pair: two UTF-16 code units. */
  function CodeUnits(c: char): nat {
    if c >= '\U{10000}' then 2 else 1
  }

  /**
   String.Length: the number of UTF-16 code units, which exceeds the number of
   characters by one for each character outside the Basic Multilingual Plane.
   */
  function Utf16Length(s: string): (n: nat)
    ensures |s| <= n <= 2 * |s|
    ensures n == |s| <==> forall i :: 0 <= i < |s| ==> s[i] < '\U{10000}'
    ensures n == 2 * |s| <==> forall i :: 0 <= i < |s| ==> s[i] >= '\U{10000}'
  {
    if s == [] then 0 else CodeUnits(s[0]) + Utf16Length(s[1..])
  }

  /** The code units of a concatenation are those of its parts. */
  lemma {:induction false} Utf16LengthAppend(a: string, b: string)
    ensures Utf16Length(a + b) == Utf16Length(a) + Utf16Length(b)
  {
    if a == [] {
      assert a + b == b;
    } else {
      assert (a + b)[1..] == a[1..] + b;
      Utf16LengthAppend(a[1..], b);
    }
  }

  /** [MaxLength(n)] on a string: null passes, otherwise at most n UTF-16 code units. */
  predicate MaxLengthHolds(s: Option<string>, n: nat) {
    s.None? || Utf16Length(s.value) <= n
  }

  /**
   [RegularExpression("A|B|C")]: null and "" pass; any other string must be matched
   by the pattern as a whole. For these three patterns (alternatives of literal
   words, none a prefix of another) that is membership in the set of alternatives.
   */
  predicate PatternHolds(s: Option<string>, alternatives: set<string>) {
    s.None? || s.value == "" || s.value in alternatives
  }

  /** The attributes of one property, all of which must hold. */
  predicate FieldHolds(t: TaskItem, f: Field) {
    match f
    case Title => RequiredHolds(t.title) && MaxLengthHolds(t.title, TitleMaxLength)
    case Description => MaxLengthHolds(t.description, DescriptionMaxLength)
    case Priority => RequiredHolds(t.priority) && PatternHolds(t.priority, Priorities)
    case Status => RequiredHolds(t.status) && PatternHolds(t.status, Statuses)
    case Category => RequiredHolds(t.category) && PatternHolds(t.category, Categories)
  }

  /** Model-state validity: every attributed property passes; Id and DueDate carry none. */
  predicate IsValid(t: TaskItem) {
    FieldHolds(t, Title) && FieldHolds(t, Description) && FieldHolds(t, Priority)
    && FieldHolds(t, Status) && FieldHolds(t, Category)
  }

  /** Validity is exactly "every attributed property passes". */
  lemma ValidMeansEveryField(t: TaskItem)
    ensures IsValid(t) <==> forall f :: FieldHolds(t, f)
  {
  }

  /** The attributed properties in declaration order. */
  const AllFields: seq<Field> := [Title, Description, Priority, Status, Category]

  lemma AllFieldsListed()
    ensures forall f :: f in AllFields
    ensures forall i, j :: 0 <= i < j < |AllFields| ==> AllFields[i] != AllFields[j]
  {
    forall f ensures f in AllFields {
      match f
      case Title => assert AllFields[0] == f;
      case Description => assert AllFields[1] == f;
      case Priority => assert AllFields[2] == f;
      case Status => assert AllFields[3] == f;
      case Category => assert AllFields[4] == f;
    }
  }

  /** The properties of `fs` whose attributes fail on `t`, in the order of `fs`. */
  function FailingFields(t: TaskItem, fs: seq<Field>): (r: seq<Field>)
    ensures forall f :: f in r <==> f in fs && !FieldHolds(t, f)
    ensures (forall i, j :: 0 <= i < j < |fs| ==> fs[i] != fs[j]) ==>
              forall i, j :: 0 <= i < j < |r| ==> r[i] != r[j]
  {
    if fs == [] then []
    else (if FieldHolds(t, fs[0]) then [] else [fs[0]]) + FailingFields(t, fs[1..])
  }

  /** The model-state errors of a task body: each failing property once, in declaration order. */
  function Violations(t: TaskItem): (r: seq<Field>)
    ensures forall f :: f in r <==> !FieldHolds(t, f)
    ensures r == [] <==> IsValid(t)
    ensures forall i, j :: 0 <= i < j < |r| ==> r[i] != r[j]
  {
    AllFieldsListed();
    ValidMeansEveryField(t);
    var r := FailingFields(t, AllFields);
    assert r != [] ==> r[0] in r;
    r
  }

  /** With [Required] satisfied, the pattern holds exactly for the alternatives. */
  lemma RequiredPattern(s: Option<string>, alternatives: set<string>)
    requires RequiredHolds(s)
    ensures PatternHolds(s, alternatives) <==> s.value in alternatives
  {
  }

  /** None of the enumeration values is blank. */
  lemma AlternativesNotBlank(s: string)
    requires s in Priorities + Statuses + Categories
    ensures !IsBlank(s)
  {
    assert !IsWhiteSpace(s[0]);
  }

  /**
   Validity in closed form: a non-blank title of at most 100 UTF-16 code units,
   an optional description of at most 500, and the three enumerations present
   and drawn from their closed sets.
   */
  lemma ValidIff(t: TaskItem)
    ensures IsValid(t) <==>
      && t.title.Some? && !IsBlank(t.title.value) && Utf16Length(t.title.value) <= TitleMaxLength
      && (t.description.Some? ==> Utf16Length(t.description.value) <= DescriptionMaxLength)
      && t.priority.Some? && t.priority.value in Priorities
      && t.status.Some? && t.status.value in Statuses
      && t.category.Some? && t.category.value in Categories
  {
    if RequiredHolds(t.priority) { RequiredPattern(t.priority, Priorities); }
    if RequiredHolds(t.status) { RequiredPattern(t.status, Statuses); }
    if RequiredHolds(t.category) { RequiredPattern(t.category, Categories); }
    if t.priority.Some? && t.priority.value in Priorities { AlternativesNotBlank(t.priority.value); }
    if t.status.Some? && t.status.value in Statuses { AlternativesNotBlank(t.status.value); }
    if t.category.Some? && t.category.value in Categories { AlternativesNotBlank(t.category.value); }
  }

  /**
   A title of 51 characters, each outside the Basic Multilingual Plane, is 102
   code units long and fails [MaxLength(100)], though it is only 51 characters.
   */
  lemma AstralTitleTooLong(t: TaskItem)
    requires t.title.Some? && |t.title.value| == 51
    requires forall i :: 0 <= i < |t.title.value| ==> t.title.value[i] >= '\U{10000}'
    ensures Utf16Length(t.title.value) == 102
    ensures !IsValid(t) && Title in Violations(t)
  {
  }

  /** Neither Id nor DueDate takes part in validation. */
  lemma ValidIgnoresIdAndDueDate(t: TaskItem, id: int, due: Option<DateTime>)
    ensures IsValid(t) <==> IsValid(t.(id := id, dueDate := due))
  {
  }
}
