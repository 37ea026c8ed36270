/** RubricSerializer of api/serializers.py: the fields a rubric exposes,
    the read-only counter, and the name length check. */
module Serializers {
  import opened Wrappers
  import opened Json
  import opened Models

  const NameMinLength: nat := 2

  datatype NameError = NameTooShort | NameTooLong

  /** `validate_name`: a name of 2 to 100 characters passes unchanged; a
      shorter one is too short, a longer one too long. */
  function ValidateName(value: string): (r: Result<string, NameError>)
    ensures r.Ok? <==> NameMinLength <= |value| <= NameMaxLength
    ensures r.Ok? ==> r.value == value
    ensures |value| < NameMinLength ==> r == Err(NameTooShort)
    ensures |value| > NameMaxLength ==> r == Err(NameTooLong)
  {
    if |value| < NameMinLength then Err(NameTooShort)
    else if |value| > NameMaxLength then Err(NameTooLong)
    else Ok(value)
  }

  /** The serialized form of a rubric: exactly its name and its counter. */
  function Represent(r: RubricRecord): (out: map<string, Json>)
    ensures out.Keys == {"name", "counter"}
    ensures out["name"] == JStr(r.name) && out["counter"] == JInt(r.counter)
  {
    map["name" := JStr(r.name), "counter" := JInt(r.counter)]
  }

  datatype InputError = NameMissing | NameNotText | NameTaken | InvalidName(e: NameError)

  /** The text a CharField makes of an input value: a string as it is, a
      number as its decimal text; anything else (null, a boolean, a list, a
      dict) is refused. */
  function NameText(v: Json): (r: Option<string>)
    ensures v.JStr? ==> r == Some(v.s)
    ensures v.JInt? ==> r == Some(Str(v)) && r.value != ""
    ensures r.None? <==> !v.JStr? && !v.JInt?
  {
    match v
    case JStr(s) => Some(s)
    case JInt(_) => Some(Str(v))
    case _ => None
  }

  /** POST /rubrics/: the name comes from the input as text; as the primary
      key it must not name an existing rubric (the uniqueness check runs
      before ValidateName); the counter is read-only, so whatever the input
      says about it, the new row starts at the column default 0. `existing`
      holds the names already in the table. */
  function CreateRubric(input: map<string, Json>, existing: set<string>): (r: Result<RubricRecord, InputError>)
    ensures r.Ok? <==>
      && "name" in input && NameText(input["name"]).Some?
      && NameText(input["name"]).value !in existing
      && ValidateName(NameText(input["name"]).value).Ok?
    ensures r.Ok? ==> r.value == RubricRecord(NameText(input["name"]).value, 0) && r.value.name !in existing
    ensures "name" !in input ==> r == Err(NameMissing)
    ensures "name" in input && NameText(input["name"]).None? ==> r == Err(NameNotText)
    ensures "name" in input && NameText(input["name"]).Some? && NameText(input["name"]).value in existing ==>
              r == Err(NameTaken)
    ensures "name" in input && NameText(input["name"]).Some? && NameText(input["name"]).value !in existing
            && ValidateName(NameText(input["name"]).value).Err? ==>
              r == Err(InvalidName(ValidateName(NameText(input["name"]).value).error))
  {
    if "name" !in input then Err(NameMissing)
    else match NameText(input["name"])
      case None => Err(NameNotText)
      case Some(s) =>
        if s in existing then Err(NameTaken)
        else match ValidateName(s)
          case Ok(name) => Ok(RubricRecord(name, 0))
          case Err(e) => Err(InvalidName(e))
  }

  /** A client-supplied counter has no effect on what is created. */
  lemma CounterIsReadOnly(input: map<string, Json>, existing: set<string>, c: Json)
    ensures CreateRubric(input["counter" := c], existing) == CreateRubric(input, existing)
  {
    assert "counter" != "name";
    assert "name" in input["counter" := c] <==> "name" in input;
    if "name" in input {
      assert input["counter" := c]["name"] == input["name"];
    }
  }

  /** Rubric identity is its name: once a rubric is created under a name,
      a second creation under the same name is refused. */
  lemma NameIsIdentity(input: map<string, Json>, existing: set<string>)
    requires CreateRubric(input, existing).Ok?
    ensures CreateRubric(input, existing + {CreateRubric(input, existing).value.name}) == Err(NameTaken)
  {
  }

  /** Representing a created rubric gives back its name as text and a zero counter. */
  lemma CreatedRepresentation(input: map<string, Json>, existing: set<string>)
    requires CreateRubric(input, existing).Ok?
    ensures Represent(CreateRubric(input, existing).value) ==
              map["name" := JStr(NameText(input["name"]).value), "counter" := JInt(0)]
    ensures input["name"].JStr? ==> Represent(CreateRubric(input, existing).value)["name"] == input["name"]
  {
  }
}
