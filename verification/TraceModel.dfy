/** Telemetry traces as the verifier reads them: JSON replaced by typed records in which every
    field that may be missing or of the wrong type is optional. */
module TraceModel {
  import opened Outcomes
  import RustText

  const MAX_TRACES := 32
  const MAX_SPANS_PER_TRACE := 4096
  const MAX_TOTAL_SPANS := 8192
  const MAX_TYPED_LINKS_PER_SPAN := 128
  const MAX_TOTAL_TYPED_LINKS := 8192
  const MAX_LINK_ATTRIBUTES_BYTES := 16 * 1024
  const MAX_ATTRIBUTE_JSON_BYTES := 64 * 1024

  datatype Json = Text(text: string) | Object(fields: Attributes) | OtherJson

  type Attributes = map<string, Json>

  /** A field that should be a string holding JSON: the raw text and what the JSON parser makes of it. */
  datatype JsonField = NotText | JsonText(raw: string, parsed: Option<Json>)

  datatype ParentField = MissingParent | NullParent | ParentNotText | ParentText(id: string)

  datatype TypedLink = TypedLink(traceId: Option<string>, spanId: Option<string>, attributes: JsonField)

  datatype Span = Span(
    spanId: Option<string>,
    parentSpanId: ParentField,
    name: Option<string>,
    service: Option<string>,
    kind: Option<string>,
    attributes: JsonField,
    typedLinks: Option<seq<TypedLink>>)

  datatype Trace = Trace(traceId: Option<string>, spans: Option<seq<Span>>)

  // ----- identifiers -----

  predicate HexDigit(c: char) { RustText.AsciiDigit(c) || 'a' <= c <= 'f' || 'A' <= c <= 'F' }

  predicate IsHex(s: string, length: nat) { |s| == length && forall c | c in s :: HexDigit(c) }

  predicate AllZero(s: string) { forall c | c in s :: c == '0' }

  predicate IsTraceId(s: string) { IsHex(s, 32) && !AllZero(s) }

  predicate IsSpanId(s: string) { IsHex(s, 16) && !AllZero(s) }

  // ----- attributes -----

  /** The attribute object of a span, when it is text within bounds that holds a JSON object. */
  function AttributeObject(field: JsonField, limit: nat): Option<Attributes> {
    if field.JsonText? && RustText.ByteLength(field.raw) <= limit && field.parsed.Some? && field.parsed.value.Object?
    then Some(field.parsed.value.fields) else None
  }

  function SpanAttributes(span: Span): Option<Attributes> {
    AttributeObject(span.attributes, MAX_ATTRIBUTE_JSON_BYTES)
  }

  function TextAt(attributes: Attributes, key: string): Option<string> {
    if key in attributes && attributes[key].Text? then Some(attributes[key].text) else None
  }

  /** `attribute_string`. */
  function AttributeString(span: Span, key: string): Option<string> {
    match SpanAttributes(span) case None => None case Some(attributes) => TextAt(attributes, key)
  }

  function NonBlank(value: Option<string>): Option<string> {
    if value.Some? && !RustText.Blank(value.value) then value else None
  }

  /** `required_attribute_string`: a text attribute that is not blank. */
  function RequiredAttribute(span: Span, key: string): Option<string> {
    NonBlank(AttributeString(span, key))
  }
}
