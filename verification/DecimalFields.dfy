/** What the parser's decimal decoding makes of a message: which fields of which image it
    replaces, by what number, and that it leaves everything else alone. */
module DecimalFields {
  import opened Models
  import Bytes
  import opened Json
  import D = Decimals
  import DecimalText
  import DebeziumDecimal
  import CdcState
  import Schemas
  import opened Parser

  // ---- one row ---------------------------------------------------------------------------------

  predicate Named(field: Json, name: string) { field.JObject? && Get(field.fields, "field") == JText(name) }

  // A field schema that says of a field that it is a decimal of this scale.
  ghost predicate Describes(field: Json, name: string, scale: nat) {
    && Named(field, name)
    && Get(field.fields, "name") == JText("org.apache.kafka.connect.data.Decimal")
    && Get(field.fields, "parameters").JObject?
    && Says(Get(Get(field.fields, "parameters").fields, "scale"), scale)
  }

  lemma ScaleSaid(field: Json, name: string)
    ensures forall scale ::
              Describes(field, name, scale) <==> Named(field, name) && DecimalScale(field.fields) == Some(scale as int)
  {
    forall scale: nat
      ensures Describes(field, name, scale) <==> Named(field, name) && DecimalScale(field.fields) == Some(scale as int)
    {
      if field.JObject? && Get(field.fields, "parameters").JObject? {
        WholeNumberRead(Get(Get(field.fields, "parameters").fields, "scale"), scale);
      }
    }
  }

  // The bytes a row holds for a field, if it holds the base64 text of some.
  function BytesOf(tools: Tools, row: JsonObject, name: string): Option<seq<Bytes.Byte>> {
    if !Get(row, name).JText? then None
    else
      var encoded := tools.base64(Get(row, name).text);
      if encoded == Some([]) then None else encoded
  }

  // The scale given by the last of the first `n` field schemas that describe the field as a decimal.
  function ScaleOf(fields: seq<Json>, n: nat, name: string): (scale: Option<nat>)
    requires n <= |fields|
    ensures scale.Some? ==> exists i :: 0 <= i < n && Describes(fields[i], name, scale.value)
                              && forall j, other :: i < j < n ==> !Describes(fields[j], name, other)
    ensures scale.None? ==> forall i, other :: 0 <= i < n ==> !Describes(fields[i], name, other)
  {
    if n == 0 then None
    else
      var field := fields[n - 1];
      ScaleSaid(field, name);
      if field.JObject? && Get(field.fields, "field") == JText(name) && DecimalScale(field.fields).Some?
      then Some(DecimalScale(field.fields).value)
      else ScaleOf(fields, n - 1, name)
  }

  // Replacing the field is called for.
  ghost predicate Decodable(tools: Tools, row: JsonObject, fields: seq<Json>, name: string) {
    ScaleOf(fields, |fields|, name).Some? && BytesOf(tools, row, name).Some?
  }

  // The text denotes unscaled * 10^-scale: exactly if that has at most 28 significant digits,
  // and then, up to 11 bytes, with exactly `scale` digits behind the point.
  ghost predicate DenotesUnscaled(text: string, bytes: seq<Bytes.Byte>, scale: nat) {
    var exact, read := DebeziumDecimal.Exact(Bytes.SignedValue(bytes), scale), DecimalText.ReadFixed(text);
    && read.Some? && (D.NumEq(read.value, exact) <==> D.Significant(exact) <= D.PRECISION)
    && (|bytes| <= 11 ==> read.value == exact && DebeziumDecimal.FractionDigits(text) == scale)
  }

  lemma DecodedDenotes(bytes: seq<Bytes.Byte>, scale: nat)
    requires bytes != []
    ensures DebeziumDecimal.DecodeDecimal(Some(bytes), scale).Some?
    ensures DenotesUnscaled(DebeziumDecimal.DecodeDecimal(Some(bytes), scale).value, bytes, scale)
  {
    DebeziumDecimal.DecodingIsExactExactlyWhen(bytes, scale);
    if |bytes| <= 11 { DebeziumDecimal.DecodingIsExact(bytes, scale); }
  }

  // The field after the first `n` field schemas: the decoded text of the last that describes it.
  ghost predicate FieldIs(tools: Tools, row: JsonObject, fields: seq<Json>, n: nat, name: string, after: JsonObject)
    requires n <= |fields|
  {
    var scale, bytes := ScaleOf(fields, n, name), BytesOf(tools, row, name);
    && (name in after <==> name in row)
    && if scale.Some? && bytes.Some?
       then name in row
            && Some(after[name]) == DecodedText(bytes.value, scale.value)
       else name in row ==> after[name] == row[name]
  }

  function DecodedText(bytes: seq<Bytes.Byte>, scale: nat): Option<Json> {
    var text := DebeziumDecimal.DecodeDecimal(Some(bytes), scale);
    if text.None? then None else Some(JText(text.value))
  }

  // What one field schema decodes, in terms of the field it names.
  lemma DecodedFieldIs(tools: Tools, row: JsonObject, field: Json, name: string)
    ensures var decoded, bytes := DecodedField(tools, row, field), BytesOf(tools, row, name);
            var described := field.JObject? && Get(field.fields, "field") == JText(name)
                && DecimalScale(field.fields).Some?;
            && (described && bytes.Some? ==>
                  && decoded.Some? && decoded.value.0 == name
                  && Some(JText(decoded.value.1)) == DecodedText(bytes.value, DecimalScale(field.fields).value))
            && (decoded.Some? && decoded.value.0 == name ==> described && bytes.Some?)
  {
    if BytesOf(tools, row, name).Some? && field.JObject? && DecimalScale(field.fields).Some? {
      DecodedDenotes(BytesOf(tools, row, name).value, DecimalScale(field.fields).value);
    }
  }

  lemma {:induction false} FieldAfter(tools: Tools, row: JsonObject, fields: seq<Json>, n: nat, name: string)
    requires n <= |fields|
    ensures FieldIs(tools, row, fields, n, name, NormalizedRow(tools, row, fields[..n]))
  {
    if n > 0 {
      FieldAfter(tools, row, fields, n - 1, name);
      assert fields[..n][..n - 1] == fields[..n - 1];
      DecodedFieldIs(tools, row, fields[n - 1], name);
    }
  }

  /** Decoding a row keeps its fields. A field that some field schema describes as a decimal,
      and that holds the base64 text of some bytes, becomes a text that denotes those bytes at
      the scale of the last such schema; every other field stays as it is. */
  lemma RowDecoded(tools: Tools, row: JsonObject, fields: seq<Json>)
    ensures var after := NormalizedRow(tools, row, fields);
            && after.Keys == row.Keys
            && (forall name :: name in row && !Decodable(tools, row, fields, name) ==> after[name] == row[name])
            && forall name :: Decodable(tools, row, fields, name) ==>
                 && name in row && after[name].JText?
                 && DenotesUnscaled(after[name].text, BytesOf(tools, row, name).value,
                                    ScaleOf(fields, |fields|, name).value)
  {
    assert fields[..|fields|] == fields;
    var after := NormalizedRow(tools, row, fields);
    forall name ensures FieldIs(tools, row, fields, |fields|, name, after) {
      FieldAfter(tools, row, fields, |fields|, name);
    }
    assert after.Keys == row.Keys by {
      forall name ensures name in after <==> name in row {
        assert FieldIs(tools, row, fields, |fields|, name, after);
      }
    }
    forall name | Decodable(tools, row, fields, name)
      ensures name in row && after[name].JText?
      ensures DenotesUnscaled(after[name].text, BytesOf(tools, row, name).value, ScaleOf(fields, |fields|, name).value)
    {
      assert FieldIs(tools, row, fields, |fields|, name, after);
      DecodedDenotes(BytesOf(tools, row, name).value, ScaleOf(fields, |fields|, name).value);
    }
    forall name | name in row && !Decodable(tools, row, fields, name) ensures after[name] == row[name] {
      assert FieldIs(tools, row, fields, |fields|, name, after);
    }
  }

  // ---- one message -------------------------------------------------------------------------------

  // The field schemas a message carries for an image: those of the first schema entry of that name.
  ghost predicate Carries(document: JsonObject, name: string, fields: seq<Json>) {
    var schema := Get(document, "schema");
    && schema.JObject? && Get(schema.fields, "fields").JList?
    && var entries := Get(schema.fields, "fields").items;
       exists i :: 0 <= i < |entries| && Named(entries[i], name)
                   && (forall j :: 0 <= j < i ==> !Named(entries[j], name))
                   && Get(entries[i].fields, "fields") == JList(fields)
  }

  lemma {:induction false} FirstNamed(entries: seq<Json>, name: string)
    ensures var found := NamedFieldSchema(entries, name);
            && (found.Some? ==>
                  exists i :: 0 <= i < |entries| && entries[i] == JObject(found.value) && Named(entries[i], name)
                    && forall j :: 0 <= j < i ==> !Named(entries[j], name))
            && (found.None? ==> forall i :: 0 <= i < |entries| ==> !Named(entries[i], name))
  {
    if entries != [] && !Named(entries[0], name) {
      FirstNamed(entries[1..], name);
      var found := NamedFieldSchema(entries[1..], name);
      if found.Some? {
        var i :| 0 <= i < |entries[1..]| && entries[1..][i] == JObject(found.value) && Named(entries[1..][i], name)
                 && forall j :: 0 <= j < i ==> !Named(entries[1..][j], name);
        assert entries[i + 1] == JObject(found.value);
        forall j | 0 <= j < i + 1 ensures !Named(entries[j], name) {
          if j > 0 { assert entries[1..][j - 1] == entries[j]; }
        }
      }
    }
  }

  function FieldsOf(entry: Option<JsonObject>): Option<seq<Json>> {
    if entry.None? || !Get(entry.value, "fields").JList? then None else Some(Get(entry.value, "fields").items)
  }

  function ImageFields(document: JsonObject, name: string): Option<seq<Json>> {
    var schema := Get(document, "schema");
    if !schema.JObject? || !Get(schema.fields, "fields").JList? then None
    else FieldsOf(NamedFieldSchema(Get(schema.fields, "fields").items, name))
  }

  lemma CarriesIs(document: JsonObject, name: string, fields: seq<Json>)
    ensures Carries(document, name, fields) <==> ImageFields(document, name) == Some(fields)
  {
    var schema := Get(document, "schema");
    if schema.JObject? && Get(schema.fields, "fields").JList? {
      var entries := Get(schema.fields, "fields").items;
      FirstNamed(entries, name);
      if NamedFieldSchema(entries, name).Some? {
        var i :| 0 <= i < |entries| && entries[i] == JObject(NamedFieldSchema(entries, name).value)
            && Named(entries[i], name)
                 && forall j :: 0 <= j < i ==> !Named(entries[j], name);
      }
    }
  }

  lemma FieldsAre(tools: Tools, document: JsonObject, envelope: JsonObject, name: string)
    ensures var after := NormalizedFields(tools, document, envelope);
            var image, fields := Get(envelope, name), ImageFields(document, name);
            && (name in after <==> name in envelope)
            && (name in envelope ==>
                  after[name] == if name in {"before", "after"} && image.JObject? && fields.Some?
                                 then JObject(NormalizedRow(tools, image.fields, fields.value)) else envelope[name])
  {
  }

  /** Decoding an envelope touches nothing but its two images, and an image exactly when it
      is an object and the message carries field schemas for it: the image is then the decoded row. */
  lemma ImagesDecoded(tools: Tools, document: JsonObject, envelope: JsonObject)
    ensures var after := NormalizedFields(tools, document, envelope);
            && after.Keys == envelope.Keys
            && (forall name :: name in envelope && name !in {"before", "after"} ==> after[name] == envelope[name])
            && (forall name, fields ::
                  name in {"before", "after"} && name in envelope && envelope[name].JObject?
                      && Carries(document, name, fields)
                  ==> after[name] == JObject(NormalizedRow(tools, envelope[name].fields, fields)))
            && (forall name ::
                  name in envelope && (!envelope[name].JObject? || forall fields :: !Carries(document, name, fields))
                  ==> after[name] == envelope[name])
  {
    var after := NormalizedFields(tools, document, envelope);
    forall name ensures name in after <==> name in envelope { FieldsAre(tools, document, envelope, name); }
    forall name | name in envelope && name !in {"before", "after"} ensures after[name] == envelope[name] {
      FieldsAre(tools, document, envelope, name);
    }
    forall name, fields
      | name in {"before", "after"} && name in envelope && envelope[name].JObject? && Carries(document, name, fields)
      ensures after[name] == JObject(NormalizedRow(tools, envelope[name].fields, fields))
    {
      FieldsAre(tools, document, envelope, name);
      CarriesIs(document, name, fields);
    }
    forall name | name in envelope && (!envelope[name].JObject? || forall fields :: !Carries(document, name, fields))
      ensures after[name] == envelope[name]
    {
      FieldsAre(tools, document, envelope, name);
      if ImageFields(document, name).Some? { CarriesIs(document, name, ImageFields(document, name).value); }
    }
  }

  // ---- one event ---------------------------------------------------------------------------------

  lemma EnvelopeRow(tools: Tools, metadata: Metadata, entity: CdcState.Entity, spec: Schemas.EntitySpec,
                    key: Option<JsonObject>, envelope: JsonObject)
    requires ParseEnvelope(tools, metadata, entity, spec, key, envelope).Event?
    ensures var e := ParseEnvelope(tools, metadata, entity, spec, key, envelope).event;
            var image := Get(envelope, if e.operation.Delete? then "before" else "after");
            image.JObject? && CdcState.RowOf(e) == Some(image.fields)
  {
  }

  // The image an event's row comes from, as the message has it.
  function RawImage(payload: Message, operation: CdcState.Operation): Json {
    var document := ParseObject(payload);
    if document.None? || UnwrapPayload(document.value).None? then JNull
    else Get(UnwrapPayload(document.value).value, if operation.Delete? then "before" else "after")
  }

  /** The row of an accepted event is the image of its message, decoded: with field schemas
      for that image every decimal field denotes its bytes at its scale and every other field
      is unchanged, and without them the row is the image. */
  lemma EventDecoded(tools: Tools, metadata: Metadata, key: Message, payload: Message)
    requires ParseDebeziumEvent(tools, metadata, key, payload).Event?
    ensures var e := ParseDebeziumEvent(tools, metadata, key, payload).event;
            var image, name := RawImage(payload, e.operation), if e.operation.Delete? then "before" else "after";
            && ParseObject(payload).Some? && image.JObject? && CdcState.RowOf(e).Some?
            && (forall fields :: Carries(ParseObject(payload).value, name, fields) ==>
                  CdcState.RowOf(e).value == NormalizedRow(tools, image.fields, fields))
            && ((forall fields :: !Carries(ParseObject(payload).value, name, fields))
                ==> CdcState.RowOf(e).value == image.fields)
  {
    var document := ParseObject(payload).value;
    var envelope := UnwrapPayload(document).value;
    var entity := Schemas.EntityFromTopic(metadata.topic).value;
    EnvelopeRow(tools, metadata, entity, Schemas.SpecOf(entity), ParseKey(key),
                NormalizedFields(tools, document, envelope));
    ImagesDecoded(tools, document, envelope);
  }
}
