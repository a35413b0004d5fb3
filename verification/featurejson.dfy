/** Reading one feature-coverage object out of the model's JSON reply
    (model/FeatureCoverageDeserializer.java). The parsed object is a map from
    field name to node: a missing field is a missing key. Parsing the text
    itself, including which of two duplicate keys survives, is not modelled. */
module FeatureCoverageJson {

  import opened Wrappers
  import opened JavaString
  import opened Issues

  /** A JSON node as far as `asText`, `isNull`, `isNumber` and `asInt` can
      tell. A number keeps its `asInt` value and its own text. */
  datatype JsonNode =
    | JsonNull
    | JsonText(text: string)
    | JsonNumber(asInt: int, numeral: string)
    | JsonBool(truth: bool)
    | JsonContainer

  type JsonObject = map<string, JsonNode>

  /** `JsonNode.asText()`. */
  function AsText(n: JsonNode): string {
    match n
    case JsonNull => "null"
    case JsonText(t) => t
    case JsonNumber(_, numeral) => numeral
    case JsonBool(b) => if b then "true" else "false"
    case JsonContainer => ""
  }

  /** `text` (model/FeatureCoverageDeserializer.java:40-43). */
  function Text(obj: JsonObject, field: string): (r: string)
    ensures field !in obj || obj[field].JsonNull? ==> r == ""
    ensures field in obj && obj[field].JsonText? ==> r == obj[field].text
  {
    if field in obj && !obj[field].JsonNull? then AsText(obj[field]) else ""
  }

  /** `intValue` (model/FeatureCoverageDeserializer.java:45-48). */
  function IntValue(obj: JsonObject, field: string): (r: int)
    ensures field !in obj || !obj[field].JsonNumber? ==> r == 0
    ensures field in obj && obj[field].JsonNumber? ==> r == obj[field].asInt
  {
    if field in obj && obj[field].JsonNumber? then obj[field].asInt else 0
  }

  /** The enum constant's name, which `valueOf` matches exactly. */
  function StatusName(s: FeatureStatus): string {
    match s
    case Present => "PRESENT"
    case Partial => "PARTIAL"
    case Absent => "ABSENT"
  }

  /** `parseStatus` (model/FeatureCoverageDeserializer.java:50-59): null or
      blank is ABSENT; otherwise the trimmed, upper-cased text names the
      status, and a text that names none is ABSENT rather than an error. */
  function ParseStatus(raw: Option<string>): (r: FeatureStatus)
    ensures IsNullOrBlank(raw) ==> r == Absent
    ensures !IsNullOrBlank(raw) ==>
              (r == Absent || ToUpper(Trim(raw.value)) == StatusName(r))
    ensures !IsNullOrBlank(raw) ==>
              forall s :: ToUpper(Trim(raw.value)) == StatusName(s) ==> r == s
  {
    if IsNullOrBlank(raw) then Absent else StatusNamed(ToUpper(Trim(raw.value)))
  }

  /** The status an upper-cased name selects; ABSENT for any other text. */
  function StatusNamed(name: string): (r: FeatureStatus)
    ensures r == Absent || name == StatusName(r)
    ensures forall s :: name == StatusName(s) ==> r == s
  {
    if name == "PRESENT" then Present
    else if name == "PARTIAL" then Partial
    else Absent
  }

  /** Every status reads back from its own name. */
  lemma ParseStatusName(s: FeatureStatus)
    ensures ParseStatus(Some(StatusName(s))) == s
  {
    var t := StatusName(s);
    assert !IsWhitespace(t[0]);
    assert !IsNullOrBlank(Some(t));
    TrimTrimmed(t);
    assert ToUpper(t) == t;
  }

  /** Surrounding spaces and lower case do not stop a name from being read:
      any text whose trimmed, upper-cased form is a status's name gives that
      status. */
  lemma ParseStatusTolerant(raw: string, s: FeatureStatus)
    requires ToUpper(Trim(raw)) == StatusName(s)
    ensures ParseStatus(Some(raw)) == s
  {
    var t := Trim(raw);
    var i, j :| 0 <= i <= j <= |raw| && t == raw[i..j];
    assert |t| == |StatusName(s)| > 0;
    assert ToUpperChar(t[0]) == StatusName(s)[0];
    UpperLetterNotWhitespace(t[0]);
    assert raw[i] == t[0];
    assert !IsNullOrBlank(Some(raw));
  }

  /** A character that upper-cases to a letter is not whitespace. */
  lemma UpperLetterNotWhitespace(c: char)
    requires IsAsciiUpper(ToUpperChar(c))
    ensures !IsWhitespace(c)
  {
  }

  /** `deserialize` (model/FeatureCoverageDeserializer.java:16-38): each
      field read with its default, never failing. */
  function Deserialize(obj: JsonObject): (fc: FeatureCoverage)
    ensures fc.featureName == Text(obj, "featureName")
    ensures fc.status == ParseStatus(Some(Text(obj, "status")))
    ensures fc.coverageScore == IntValue(obj, "coverageScore")
    ensures fc.category == Text(obj, "category")
    ensures fc.evidence == Text(obj, "evidence")
    ensures fc.matchedItems == IntValue(obj, "matchedItems")
    ensures fc.totalItems == IntValue(obj, "totalItems")
  {
    FeatureCoverage(
      Text(obj, "featureName"),
      Text(obj, "category"),
      ParseStatus(Some(Text(obj, "status"))),
      IntValue(obj, "coverageScore"),
      Text(obj, "evidence"),
      IntValue(obj, "matchedItems"),
      IntValue(obj, "totalItems"))
  }

  /** An empty object reads as empty texts, zero counts and ABSENT. */
  lemma DeserializeEmpty()
    ensures Deserialize(map[]) == FeatureCoverage("", "", Absent, 0, "", 0, 0)
  {
  }

  /** The object a well-formed reply holds for `fc`. */
  function Encode(fc: FeatureCoverage): JsonObject {
    map[
      "featureName" := JsonText(fc.featureName),
      "category" := JsonText(fc.category),
      "status" := JsonText(StatusName(fc.status)),
      "coverageScore" := JsonNumber(fc.coverageScore, IntToString(fc.coverageScore)),
      "evidence" := JsonText(fc.evidence),
      "matchedItems" := JsonNumber(fc.matchedItems, IntToString(fc.matchedItems)),
      "totalItems" := JsonNumber(fc.totalItems, IntToString(fc.totalItems))]
  }

  /** Reading back an encoded record gives the record. */
  lemma DeserializeEncode(fc: FeatureCoverage)
    ensures Deserialize(Encode(fc)) == fc
  {
    var obj := Encode(fc);
    assert Text(obj, "featureName") == fc.featureName by { assert obj["featureName"] == JsonText(fc.featureName); }
    assert Text(obj, "category") == fc.category by { assert obj["category"] == JsonText(fc.category); }
    assert Text(obj, "status") == StatusName(fc.status) by { assert obj["status"] == JsonText(StatusName(fc.status)); }
    assert Text(obj, "evidence") == fc.evidence by { assert obj["evidence"] == JsonText(fc.evidence); }
    assert IntValue(obj, "coverageScore") == fc.coverageScore by { assert obj["coverageScore"].asInt == fc.coverageScore; }
    assert IntValue(obj, "matchedItems") == fc.matchedItems by { assert obj["matchedItems"].asInt == fc.matchedItems; }
    assert IntValue(obj, "totalItems") == fc.totalItems by { assert obj["totalItems"].asInt == fc.totalItems; }
    ParseStatusName(fc.status);
  }
}
