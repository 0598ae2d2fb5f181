/**
 * The GELF record (`GelfMessage`), the stored entry (`StoredMessage`), its
 * API projection (`MessageResponse`) and the JSON parser of src/gelf.rs.
 *
 * serde_json is split in two: its text-level decoder stays abstract (a field
 * of `JsonGelfParser`), while the mapping that serde's derived `Deserialize`
 * performs from a decoded JSON object to a `GelfMessage` — every named field
 * optional, every other key flattened into `additionalFields` — is modelled.
 */
module Gelf {
  import opened Wrappers
  import opened Utf8

  /** An `f64`, kept as its IEEE 754 bit pattern; nothing computes with it. */
  datatype F64 = F64(bits: bv64)

  newtype u8 = x: int | 0 <= x < 0x100
  newtype u32 = x: int | 0 <= x < 0x1_0000_0000

  /** The payload of a non-negative JSON integer: a `u64`. */
  type U64 = x: nat | x < 0x1_0000_0000_0000_0000

  /** The payload of a negative JSON integer: an `i64`, only ever negative here. */
  type NegI64 = x: int | -0x8000_0000_0000_0000 <= x < 0 witness -1

  /**
   * The three kinds of number serde_json distinguishes: a non-negative
   * integer, a negative integer, and a float.
   */
  datatype JsonNumber = PosInt(u: U64) | NegInt(i: NegI64) | Float(f: F64)

  /** `serde_json::Value`. */
  datatype JsonValue =
    | Null
    | Bool(b: bool)
    | Number(n: JsonNumber)
    | String(s: string)
    | Array(items: seq<JsonValue>)
    | Object(members: map<string, JsonValue>)

  /**
   * `serde_json::Error`: a syntax error, or a value of the wrong type or
   * range. `key` is the field whose value the error's position points at;
   * serde's own error carries only a message and that position.
   */
  datatype JsonError =
    | Syntax(line: nat, column: nat)
    | InvalidType(key: string)
    | InvalidValue(key: string)

  /**
   * One GELF message. Every named field is optional; `timestamp` keeps the
   * JSON number it was decoded from.
   */
  datatype GelfMessage = GelfMessage(
    version: Option<string>,
    host: Option<string>,
    shortMessage: Option<string>,
    fullMessage: Option<string>,
    timestamp: Option<JsonNumber>,
    level: Option<u8>,
    facility: Option<string>,
    line: Option<u32>,
    file: Option<string>,
    additionalFields: map<string, JsonValue>)

  /** The API and broadcast view of a stored message: the record and its reception time. */
  datatype MessageResponse = MessageResponse(gelfMessage: GelfMessage, receivedAt: F64)

  /** A record as the store keeps it: with its reception time and the raw text it came from. */
  datatype StoredMessage = StoredMessage(gelfMessage: GelfMessage, receivedAt: F64, rawMessage: Str) {

    /** `StoredMessage::to_response`: the raw text is not part of the response. */
    function ToResponse(): MessageResponse {
      MessageResponse(gelfMessage, receivedAt)
    }
  }

  /** `StoredMessage::new`; `now` is the clock reading taken for `received_at`. */
  function NewStoredMessage(gelfMessage: GelfMessage, rawMessage: Str, now: F64): StoredMessage {
    StoredMessage(gelfMessage, now, rawMessage)
  }

  /** The JSON keys that map to named fields of `GelfMessage`. */
  const NamedFields: set<string> :=
    {"version", "host", "short_message", "full_message", "timestamp", "level", "facility", "line", "file"}

  /** `key` is absent, `null`, or a string: what an `Option<String>` field accepts. */
  predicate StringOrAbsent(obj: map<string, JsonValue>, key: string) {
    key !in obj || obj[key].Null? || obj[key].String?
  }

  /** `key` is absent, `null`, or any number: what an `Option<f64>` field accepts. */
  predicate NumberOrAbsent(obj: map<string, JsonValue>, key: string) {
    key !in obj || obj[key].Null? || obj[key].Number?
  }

  /** `key` is absent, `null`, or a non-negative integer below `bound`: what `Option<u8>` and `Option<u32>` accept. */
  predicate UnsignedOrAbsent(obj: map<string, JsonValue>, key: string, bound: nat) {
    key !in obj || obj[key].Null? || (obj[key].Number? && obj[key].n.PosInt? && obj[key].n.u < bound)
  }

  /** Every named field of `obj` holds a value its Rust type accepts. */
  predicate FieldTypesAccepted(obj: map<string, JsonValue>) {
    && StringOrAbsent(obj, "version")
    && StringOrAbsent(obj, "host")
    && StringOrAbsent(obj, "short_message")
    && StringOrAbsent(obj, "full_message")
    && NumberOrAbsent(obj, "timestamp")
    && UnsignedOrAbsent(obj, "level", 0x100)
    && StringOrAbsent(obj, "facility")
    && UnsignedOrAbsent(obj, "line", 0x1_0000_0000)
    && StringOrAbsent(obj, "file")
  }

  /** An `Option<String>` field: absent or `null` is `None`, a string is `Some`. */
  function StringField(obj: map<string, JsonValue>, key: string): (r: Result<Option<string>, JsonError>)
    ensures r.Success? <==> StringOrAbsent(obj, key)
    ensures key !in obj || obj[key].Null? ==> r == Success(None)
    ensures r.Success? && r.value.Some? ==> key in obj && obj[key] == String(r.value.value)
    ensures r.Failure? ==> r.error == InvalidType(key)
  {
    if key !in obj then Success(None)
    else match obj[key]
      case Null => Success(None)
      case String(s) => Success(Some(s))
      case _ => Failure(InvalidType(key))
  }

  /** An `Option<f64>` field: any JSON number is accepted. */
  function NumberField(obj: map<string, JsonValue>, key: string): (r: Result<Option<JsonNumber>, JsonError>)
    ensures r.Success? <==> NumberOrAbsent(obj, key)
    ensures key !in obj || obj[key].Null? ==> r == Success(None)
    ensures r.Success? && r.value.Some? ==> key in obj && obj[key] == Number(r.value.value)
    ensures r.Failure? ==> r.error == InvalidType(key)
  {
    if key !in obj then Success(None)
    else match obj[key]
      case Null => Success(None)
      case Number(n) => Success(Some(n))
      case _ => Failure(InvalidType(key))
  }

  /**
   * An unsigned integer field below `bound`: a non-negative integer in range
   * is accepted, an out-of-range or negative integer is an invalid value, and
   * a fractional number or a non-number is an invalid type.
   */
  function UnsignedField(obj: map<string, JsonValue>, key: string, bound: nat): (r: Result<Option<nat>, JsonError>)
    ensures r.Success? <==> UnsignedOrAbsent(obj, key, bound)
    ensures key !in obj || obj[key].Null? ==> r == Success(None)
    ensures r.Success? && r.value.Some? ==> r.value.value < bound
    ensures key in obj && obj[key].Number? && obj[key].n.PosInt? && obj[key].n.u < bound ==>
      r == Success(Some(obj[key].n.u))
    ensures key in obj && obj[key].Number? && obj[key].n.PosInt? && obj[key].n.u >= bound ==>
      r == Failure(InvalidValue(key))
    ensures key in obj && obj[key].Number? && obj[key].n.NegInt? ==> r == Failure(InvalidValue(key))
    ensures key in obj && obj[key].Number? && obj[key].n.Float? ==> r == Failure(InvalidType(key))
    ensures key in obj && !obj[key].Null? && !obj[key].Number? ==> r == Failure(InvalidType(key))
  {
    if key !in obj then Success(None)
    else match obj[key]
      case Null => Success(None)
      case Number(PosInt(u)) => if u < bound then Success(Some(u)) else Failure(InvalidValue(key))
      case Number(NegInt(_)) => Failure(InvalidValue(key))
      case _ => Failure(InvalidType(key))
  }

  /** The keys of `obj` that are not named fields, with their values. */
  function AdditionalFields(obj: map<string, JsonValue>): map<string, JsonValue> {
    map k | k in obj && k !in NamedFields :: obj[k]
  }

  /**
   * What serde's derived `Deserialize` makes of a decoded JSON value: only an
   * object is accepted; an ill-typed named field is an error (this model
   * reports the first in declaration order); everything else becomes a record.
   */
  function FromJson(v: JsonValue): (r: Result<GelfMessage, JsonError>)
    ensures r.Success? <==> v.Object? && FieldTypesAccepted(v.members)
    ensures r.Failure? && v.Object? ==> !r.error.Syntax? && r.error.key in NamedFields
    ensures r.Failure? && !v.Object? ==> r.error == InvalidType("")
  {
    match v
    case Object(obj) =>
      var version :- StringField(obj, "version");
      var host :- StringField(obj, "host");
      var shortMessage :- StringField(obj, "short_message");
      var fullMessage :- StringField(obj, "full_message");
      var timestamp :- NumberField(obj, "timestamp");
      var level :- UnsignedField(obj, "level", 0x100);
      var facility :- StringField(obj, "facility");
      var line :- UnsignedField(obj, "line", 0x1_0000_0000);
      var file :- StringField(obj, "file");
      Success(GelfMessage(
        version, host, shortMessage, fullMessage, timestamp,
        if level.Some? then Some(level.value as u8) else None,
        facility,
        if line.Some? then Some(line.value as u32) else None,
        file, AdditionalFields(obj)))
    case _ => Failure(InvalidType(""))
  }

  /** Bytes of the preview logged when parsing fails. */
  const ParseErrorPreviewLength: nat := 100

  /** `JsonGelfParser`; `serde` is serde_json's text decoder, left abstract. */
  datatype JsonGelfParser = JsonGelfParser(serde: Str -> Result<JsonValue, JsonError>) {

    /** `serde_json::from_str::<GelfMessage>`. */
    function FromStr(messageStr: Str): Result<GelfMessage, JsonError> {
      match serde(messageStr)
      case Failure(e) => Failure(e)
      case Success(v) => FromJson(v)
    }

    /**
     * `JsonGelfParser::parse`: the decoder's result, unchanged. On failure the
     * text is truncated at a char boundary for the log line; `preview` is
     * that logged text.
     */
    method Parse(messageStr: Str) returns (r: Result<GelfMessage, JsonError>, ghost preview: Option<Str>)
      ensures r == FromStr(messageStr)
      ensures r.Success? ==> preview == None
      ensures r.Failure? ==> preview == Some(SafePreview(messageStr, ParseErrorPreviewLength))
    {
      r := FromStr(messageStr);
      if r.Success? {
        preview := None;
        return;
      }
      var p: Str;
      if |messageStr| <= ParseErrorPreviewLength {
        p := messageStr;
      } else {
        var end: nat := ParseErrorPreviewLength;
        while end > 0 && !IsCharBoundary(messageStr, end)
          invariant end <= ParseErrorPreviewLength
          invariant forall j :: end < j <= ParseErrorPreviewLength ==> !IsCharBoundary(messageStr, j)
        {
          end := end - 1;
        }
        // slicing a `str` off a char boundary would panic
        assert IsCharBoundary(messageStr, end);
        p := messageStr[..end];
      }
      preview := Some(p);
    }
  }

  // ----- Properties of the record projection -----

  /** An empty object decodes to the record with every named field absent. */
  lemma EmptyObjectAccepted()
    ensures FromJson(Object(map[])) ==
      Success(GelfMessage(None, None, None, None, None, None, None, None, None, map[]))
  {
    assert AdditionalFields(map[]) == map[];
  }

  /** Anything but an object is rejected. */
  lemma NonObjectRejected(v: JsonValue)
    requires !v.Object?
    ensures FromJson(v).Failure?
  {
  }

  /** Leaving out any key never turns an accepted object into a rejected one. */
  lemma OmittingKeyKeepsSuccess(obj: map<string, JsonValue>, key: string)
    requires FromJson(Object(obj)).Success?
    ensures FromJson(Object(obj - {key})).Success?
  {
    var o := obj - {key};
    forall k | k in NamedFields
      ensures StringField(o, k).Success? <== StringField(obj, k).Success?
      ensures NumberField(o, k).Success? <== NumberField(obj, k).Success?
    {
    }
    assert UnsignedField(o, "level", 0x100).Success?;
    assert UnsignedField(o, "line", 0x1_0000_0000).Success?;
  }

  /**
   * An accepted object keeps exactly its non-named keys, with their values
   * unchanged, in `additionalFields`.
   */
  lemma UnknownKeysPreserved(obj: map<string, JsonValue>)
    requires FromJson(Object(obj)).Success?
    ensures FromJson(Object(obj)).value.additionalFields.Keys == obj.Keys - NamedFields
    ensures forall k :: k in obj && k !in NamedFields ==>
      FromJson(Object(obj)).value.additionalFields[k] == obj[k]
  {
  }

  /** `field` is what an `Option<String>` field makes of `key`: `None` exactly when absent or `null`, else its string. */
  predicate DecodesString(obj: map<string, JsonValue>, key: string, field: Option<string>) {
    && (field.None? <==> key !in obj || obj[key].Null?)
    && (field.Some? ==> key in obj && obj[key] == String(field.value))
  }

  /** `field` is what an `Option<f64>` field makes of `key`: `None` exactly when absent or `null`, else its number. */
  predicate DecodesNumber(obj: map<string, JsonValue>, key: string, field: Option<JsonNumber>) {
    && (field.None? <==> key !in obj || obj[key].Null?)
    && (field.Some? ==> key in obj && obj[key] == Number(field.value))
  }

  /**
   * In every accepted object, each of the nine named fields of the record is
   * `None` exactly when its key is absent or `null`, and otherwise holds the
   * object's string, number or integer.
   */
  lemma AcceptedFieldsDecoded(obj: map<string, JsonValue>)
    requires FromJson(Object(obj)).Success?
    ensures DecodesString(obj, "version", FromJson(Object(obj)).value.version)
    ensures DecodesString(obj, "host", FromJson(Object(obj)).value.host)
    ensures DecodesString(obj, "short_message", FromJson(Object(obj)).value.shortMessage)
    ensures DecodesString(obj, "full_message", FromJson(Object(obj)).value.fullMessage)
    ensures DecodesNumber(obj, "timestamp", FromJson(Object(obj)).value.timestamp)
    ensures DecodesString(obj, "facility", FromJson(Object(obj)).value.facility)
    ensures DecodesString(obj, "file", FromJson(Object(obj)).value.file)
    ensures var level := FromJson(Object(obj)).value.level;
      && (level.None? <==> "level" !in obj || obj["level"].Null?)
      && (level.Some? ==> "level" in obj && obj["level"].Number? && obj["level"].n.PosInt? &&
                          obj["level"].n.u == level.value as int)
    ensures var line := FromJson(Object(obj)).value.line;
      && (line.None? <==> "line" !in obj || obj["line"].Null?)
      && (line.Some? ==> "line" in obj && obj["line"].Number? && obj["line"].n.PosInt? &&
                         obj["line"].n.u == line.value as int)
  {
  }

  /** A named string field that holds a string is decoded to that string. */
  lemma NamedStringFieldsDecoded(obj: map<string, JsonValue>)
    requires FromJson(Object(obj)).Success?
    ensures "version" in obj && obj["version"].String? ==> FromJson(Object(obj)).value.version == Some(obj["version"].s)
    ensures "host" in obj && obj["host"].String? ==> FromJson(Object(obj)).value.host == Some(obj["host"].s)
    ensures "short_message" in obj && obj["short_message"].String? ==>
      FromJson(Object(obj)).value.shortMessage == Some(obj["short_message"].s)
  {
  }

  /** The record `{"version":"1.1","host":"h","short_message":"m","_custom":"x"}`. */
  lemma CustomFieldExample()
    ensures FromJson(Object(map[
      "version" := String("1.1"), "host" := String("h"),
      "short_message" := String("m"), "_custom" := String("x")])) ==
      Success(GelfMessage(Some("1.1"), Some("h"), Some("m"), None, None, None, None, None, None,
        map["_custom" := String("x")]))
  {
    var obj := map["version" := String("1.1"), "host" := String("h"),
      "short_message" := String("m"), "_custom" := String("x")];
    assert "_custom" !in NamedFields;
    assert AdditionalFields(obj).Keys == {"_custom"};
    assert AdditionalFields(obj) == map["_custom" := String("x")];
    assert StringField(obj, "version") == Success(Some("1.1"));
    assert StringField(obj, "host") == Success(Some("h"));
    assert StringField(obj, "short_message") == Success(Some("m"));
    forall k | k in {"full_message", "facility", "file"}
      ensures StringField(obj, k) == Success(None)
    {
    }
    assert NumberField(obj, "timestamp") == Success(None);
    assert UnsignedField(obj, "level", 0x100) == Success(None);
    assert UnsignedField(obj, "line", 0x1_0000_0000) == Success(None);
  }

  /** No semantic validation: a level outside the usual 0 to 7 is accepted as is. */
  lemma LevelNotValidated(n: nat)
    requires n < 0x100
    ensures FromJson(Object(map["level" := Number(PosInt(n))])).value.level == Some(n as u8)
  {
  }

  /** A level that does not fit a `u8` is rejected. */
  lemma LevelOutOfRangeRejected(n: U64)
    requires n >= 0x100
    ensures FromJson(Object(map["level" := Number(PosInt(n))])) == Failure(InvalidValue("level"))
  {
  }

  // ----- Properties of the stored entry and its projection -----

  /** `StoredMessage::new` keeps the record and the raw text; only the time comes from the clock. */
  lemma NewKeepsInputs(gelfMessage: GelfMessage, rawMessage: Str, now: F64)
    ensures NewStoredMessage(gelfMessage, rawMessage, now).gelfMessage == gelfMessage
    ensures NewStoredMessage(gelfMessage, rawMessage, now).rawMessage == rawMessage
    ensures NewStoredMessage(gelfMessage, rawMessage, now).receivedAt == now
  {
  }

  /**
   * `to_response` copies the record and the time, and does not depend on the
   * raw text: two entries that differ only in it have the same response.
   */
  lemma ResponseDropsRaw(s: StoredMessage, otherRaw: Str)
    ensures s.ToResponse().gelfMessage == s.gelfMessage
    ensures s.ToResponse().receivedAt == s.receivedAt
    ensures s.(rawMessage := otherRaw).ToResponse() == s.ToResponse()
  {
  }

  /**
   * `parse` accepts exactly the texts the decoder reads as an object whose
   * named fields all hold values of their Rust types; a text the decoder
   * reads but `parse` rejects is blamed on a named field, never on syntax.
   */
  lemma ParseAcceptsExactly(parser: JsonGelfParser, messageStr: Str)
    ensures parser.FromStr(messageStr).Success? <==>
      && parser.serde(messageStr).Success?
      && parser.serde(messageStr).value.Object?
      && FieldTypesAccepted(parser.serde(messageStr).value.members)
    ensures parser.serde(messageStr).Success? && parser.serde(messageStr).value.Object? ==>
      (parser.FromStr(messageStr).Failure? ==>
        !parser.FromStr(messageStr).error.Syntax? && parser.FromStr(messageStr).error.key in NamedFields)
  {
  }
}
