/** Debezium messages to change events (src/millrace/streaming/parser.py), from parsed JSON on.
    JSON text, base64 and the texts json.dumps writes are given functions. */
module Parser {
  import opened Models
  import Bytes
  import opened Json
  import DecimalText
  import DebeziumDecimal
  import opened CdcState
  import opened Schemas

  datatype Metadata = Metadata(topic: string, partition: nat, offset: nat)

  // A Kafka key or value: absent, not JSON, or a JSON document.
  datatype Message = Absent | NotJson | Document(value: Json)

  datatype Tools = Tools(rules: TextRules, base64: string -> Option<seq<Bytes.Byte>>, dumps: Json -> string)

  datatype ReasonCode =
    | UnknownTopic
    | MissingKey
    | InvalidJson
    | InvalidEnvelope
    | UnsupportedOperation
    | MissingSourceLsn
    | InvalidSchema
    | MissingBatchId

  datatype ParseResult =
    | Event(event: CdcEvent)
    | Tombstone(entity: Entity, key: JsonObject)
    | Malformed(reason: ReasonCode)

  function OptionalObject(v: Json): Option<JsonObject> { if v.JObject? then Some(v.fields) else None }

  // _non_negative_int, with ASCII digits
  function NonNegativeInt(v: Json): (r: Option<int>)
    ensures r.Some? ==> r.value >= 0
  {
    match v
    case JInt(n) => if n >= 0 then Some(n) else None
    case JText(s) => if s != "" && DecimalText.AllDigits(s) then Some(DecimalText.NatOf(s)) else None
    case _ => None
  }

  function PositiveInt(v: Json): (r: Option<int>)
    ensures r.Some? ==> r.value >= 1
  {
    var n := NonNegativeInt(v);
    if n.Some? && n.value > 0 then n else None
  }

  // The whole number a field holds, as a JSON number or as a text of digits.
  ghost predicate Says(v: Json, n: int) {
    && n >= 0
    && (v == JInt(n) || (v.JText? && v.text != "" && DecimalText.AllDigits(v.text) && DecimalText.NatOf(v.text) == n))
  }

  lemma WholeNumberRead(v: Json, n: int)
    ensures NonNegativeInt(v) == Some(n) <==> Says(v, n)
    ensures PositiveInt(v) == Some(n) <==> Says(v, n) && n >= 1
  {
  }

  /** A whole number is read alike as a JSON number and as its digits, however many zeros stand
      in front; nothing else is read as one. */
  lemma NumbersAreRead(n: nat, zeros: nat)
    ensures NonNegativeInt(JInt(n)) == Some(n as int)
    ensures NonNegativeInt(JText(DecimalText.Zeros(zeros) + DecimalText.NatText(n))) == Some(n as int)
  {
    DecimalText.NatRoundTrip(n);
    DecimalText.ZerosInFront(zeros, DecimalText.NatText(n));
  }

  lemma OthersAreNotRead(v: Json)
    requires v.JInt? ==> v.number < 0
    requires v.JText? ==> v.text == "" || exists c :: c in v.text && !('0' <= c <= '9')
    ensures NonNegativeInt(v) == None && PositiveInt(v) == None
  {
    if v.JText? && v.text != "" {
      var c :| c in v.text && !('0' <= c <= '9');
      var i :| 0 <= i < |v.text| && v.text[i] == c;
    }
  }

  // `a or b`, where 0 counts as nothing
  function OrElse(a: Option<int>, b: int): int { if a.Some? && a.value != 0 then a.value else b }

  function UnwrapPayload(value: JsonObject): Option<JsonObject> {
    if "schema" !in value && "payload" !in value then Some(value) else OptionalObject(Get(value, "payload"))
  }

  function ParseObject(m: Message): Option<JsonObject> {
    if m.Document? then OptionalObject(m.value) else None
  }

  // _parse_key: the key's object, or None for any of its errors
  function ParseKey(m: Message): Option<JsonObject> {
    var key := ParseObject(m);
    if key.None? then None else UnwrapPayload(key.value)
  }

  function OperationOf(v: Json): Option<Operation> {
    if v == JText("c") then Some(Create)
    else if v == JText("u") then Some(Update)
    else if v == JText("d") then Some(Operation.Delete)
    else if v == JText("r") then Some(Read)
    else None
  }

  // ---- decimal fields ---------------------------------------------------------------------------

  function DecimalScale(field: JsonObject): Option<int> {
    if Get(field, "name") != JText("org.apache.kafka.connect.data.Decimal") then None
    else
      var parameters := OptionalObject(Get(field, "parameters"));
      if parameters.None? then None else NonNegativeInt(Get(parameters.value, "scale"))
  }

  // What one field schema makes of the row: a name and a decoded text, or nothing.
  function DecodedField(tools: Tools, row: JsonObject, field: Json): Option<(string, string)> {
    if !field.JObject? || !Get(field.fields, "field").JText? then None
    else
      var name := Get(field.fields, "field").text;
      var scale := DecimalScale(field.fields);
      if scale.None? || !Get(row, name).JText? then None
      else
        var decoded := DebeziumDecimal.DecodeDecimal(tools.base64(Get(row, name).text), scale.value);
        if decoded.None? then None else Some((name, decoded.value))
  }

  function NormalizeStep(tools: Tools, row: JsonObject, normalized: JsonObject, field: Json): JsonObject {
    var decoded := DecodedField(tools, row, field);
    if decoded.None? then normalized else normalized[decoded.value.0 := JText(decoded.value.1)]
  }

  function NormalizedRow(tools: Tools, row: JsonObject, fields: seq<Json>): JsonObject {
    if fields == [] then row
    else NormalizeStep(tools, row, NormalizedRow(tools, row, fields[..|fields| - 1]), fields[|fields| - 1])
  }

  // _normalize_decimal_row
  method NormalizeDecimalRow(tools: Tools, row: JsonObject, fields: seq<Json>) returns (normalized: JsonObject)
    ensures normalized == NormalizedRow(tools, row, fields)
  {
    normalized := row;
    for i := 0 to |fields|
      invariant normalized == NormalizedRow(tools, row, fields[..i])
    {
      var field := fields[i];
      assert fields[..i + 1][..i] == fields[..i];
      if !field.JObject? { continue; }
      var fieldName := Get(field.fields, "field");
      if !fieldName.JText? { continue; }
      var value := Get(row, fieldName.text);
      var scale := DecimalScale(field.fields);
      if scale.Some? && value.JText? {
        var decoded := DebeziumDecimal.DecodeDecimal(tools.base64(value.text), scale.value);
        if decoded.Some? { normalized := normalized[fieldName.text := JText(decoded.value)]; }
      }
    }
    assert fields[..|fields|] == fields;
  }

  // _named_field_schema
  function NamedFieldSchema(fields: seq<Json>, name: string): Option<JsonObject> {
    if fields == [] then None
    else if fields[0].JObject? && Get(fields[0].fields, "field") == JText(name) then Some(fields[0].fields)
    else NamedFieldSchema(fields[1..], name)
  }

  // The image as it is, or decoded when the schema describes it.
  function NormalizedImage(tools: Tools, schemaFields: seq<Json>, envelope: JsonObject, normalized: JsonObject,
                           name: string): JsonObject {
    var image, schema := OptionalObject(Get(envelope, name)), NamedFieldSchema(schemaFields, name);
    if image.None? || schema.None? || !Get(schema.value, "fields").JList? then normalized
    else normalized[name := JObject(NormalizedRow(tools, image.value, Get(schema.value, "fields").items))]
  }

  function NormalizedFields(tools: Tools, document: JsonObject, envelope: JsonObject): JsonObject {
    var schema := OptionalObject(Get(document, "schema"));
    if schema.None? || !Get(schema.value, "fields").JList? then envelope
    else
      var fields := Get(schema.value, "fields").items;
      NormalizedImage(tools, fields, envelope, NormalizedImage(tools, fields, envelope, envelope, "before"), "after")
  }

  // _normalize_decimal_fields
  method NormalizeDecimalFields(tools: Tools, document: JsonObject,
                            envelope: JsonObject) returns (normalized: JsonObject)
    ensures normalized == NormalizedFields(tools, document, envelope)
  {
    var schema := OptionalObject(Get(document, "schema"));
    if schema.None? { return envelope; }
    var schemaFields := Get(schema.value, "fields");
    if !schemaFields.JList? { return envelope; }
    normalized := envelope;
    var names := ["before", "after"];
    for i := 0 to 2
      invariant i == 0 ==> normalized == envelope
      invariant i == 1 ==> normalized == NormalizedImage(tools, schemaFields.items, envelope, envelope, "before")
      invariant i == 2 ==> normalized == NormalizedFields(tools, document, envelope)
    {
      var image, imageSchema := OptionalObject(Get(envelope, names[i])), NamedFieldSchema(schemaFields.items, names[i]);
      if image.None? || imageSchema.None? { continue; }
      var imageFields := Get(imageSchema.value, "fields");
      if !imageFields.JList? { continue; }
      var row := NormalizeDecimalRow(tools, image.value, imageFields.items);
      normalized := normalized[names[i] := JObject(row)];
    }
  }

  // ---- parse_debezium_event -------------------------------------------------------------------------

  function PayloadText(tools: Tools, operation: Operation, before: Option<JsonObject>,
                       after: Option<JsonObject>): string {
    tools.dumps(JObject(map[
      "operation" := JText(match operation case Create => "c" case Update => "u" case Delete => "d" case Read => "r"),
      "before" := if before.Some? then JObject(before.value) else JNull,
      "after" := if after.Some? then JObject(after.value) else JNull]))
  }

  // The batch of the row, or else of the source block.
  function BatchOf(row: JsonObject, source: JsonObject): (r: Option<int>)
    ensures r.Some? ==> r.value >= 1
  {
    var own := PositiveInt(Get(row, "batch_id"));
    if own.Some? then own else PositiveInt(Get(source, "batch_id"))
  }

  function TransactionOrder(envelope: JsonObject): (n: int)
    ensures n >= 0
  {
    var transaction := OptionalObject(Get(envelope, "transaction"));
    if transaction.None? then 0
    else OrElse(NonNegativeInt(Get(transaction.value, "data_collection_order")),
                OrElse(NonNegativeInt(Get(transaction.value, "total_order")), 0))
  }

  function ParseTombstone(tools: Tools, entity: Entity, key: Option<JsonObject>): ParseResult {
    if key.None? then Malformed(MissingKey)
    else
      var found := FindKey(tools.rules, SpecOf(entity), key.value);
      if found.None? then Malformed(MissingKey) else Tombstone(entity, found.value)
  }

  // From the normalized envelope on.
  function ParseEnvelope(tools: Tools, metadata: Metadata, entity: Entity, spec: EntitySpec, key: Option<JsonObject>,
                         envelope: JsonObject): ParseResult {
    var operation := OperationOf(Get(envelope, "op"));
    if operation.None? then Malformed(UnsupportedOperation)
    else
      var before, after := OptionalObject(Get(envelope, "before")), OptionalObject(Get(envelope, "after"));
      var row := if operation.value.Delete? then before else after;
      if row.None? then Malformed(InvalidEnvelope)
      else
        var source := OptionalObject(Get(envelope, "source"));
        if source.None? then Malformed(InvalidEnvelope)
        else
          var lsn := NonNegativeInt(Get(source.value, "lsn"));
          if lsn.None? then Malformed(MissingSourceLsn)
          else if !ValidRow(tools.rules, spec, row.value) then Malformed(InvalidSchema)
          else
            var rowKey := FindKey(tools.rules, spec, row.value);
            if key.None? then Malformed(MissingKey)
            else
              var messageKey := FindKey(tools.rules, spec, key.value);
              if messageKey.None? then Malformed(MissingKey)
              else if messageKey != rowKey then Malformed(InvalidSchema)
              else
                var batch := BatchOf(row.value, source.value);
                if batch.None? then Malformed(MissingBatchId)
                else Event(CdcEvent(entity, operation.value, messageKey.value, tools.dumps(JObject(messageKey.value)),
                                    before, after, PayloadText(tools, operation.value, before, after),
                                    batch.value, lsn.value, TransactionOrder(envelope),
                                    metadata.topic, metadata.partition, metadata.offset))
  }

  function ParseDebeziumEvent(tools: Tools, metadata: Metadata, key: Message, payload: Message): ParseResult {
    var entity := EntityFromTopic(metadata.topic);
    if entity.None? then Malformed(UnknownTopic)
    else if payload.Absent? then ParseTombstone(tools, entity.value, ParseKey(key))
    else
      var document := ParseObject(payload);
      if document.None? then Malformed(InvalidJson)
      else
        var envelope := UnwrapPayload(document.value);
        if envelope.None? then Malformed(InvalidEnvelope)
        else ParseEnvelope(tools, metadata, entity.value, SpecOf(entity.value), ParseKey(key),
                           NormalizedFields(tools, document.value, envelope.value))
  }
}
