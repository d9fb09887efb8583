/** What an accepted event guarantees, what that makes of reconstructed state, and that the
    messages of a change stream are read as the events the reconstruction expects. */
module ParserTheorems {
  import opened Models
  import opened Json
  import opened CdcState
  import CdcTheorems
  import opened Schemas
  import opened Parser
  import H = SourceHistory
  import A = Agreement

  // ---- accepted events --------------------------------------------------------------------------

  // What the rest of the pipeline may rely on.
  ghost predicate Complete(tools: Tools, spec: EntitySpec, e: CdcEvent) {
    && RowOf(e).Some?
    && ValidRow(tools.rules, spec, RowOf(e).value)
    && FindKey(tools.rules, spec, RowOf(e).value) == Some(e.key)
    && e.keyText == tools.dumps(JObject(e.key))
    && e.batch >= 1 && e.lsn >= 0 && e.transactionOrder >= 0 && e.partition >= 0 && e.offset >= 0
  }

  lemma EnvelopeEvents(tools: Tools, metadata: Metadata, entity: Entity, spec: EntitySpec, key: Option<JsonObject>,
                       envelope: JsonObject)
    requires ParseEnvelope(tools, metadata, entity, spec, key, envelope).Event?
    ensures var e := ParseEnvelope(tools, metadata, entity, spec, key, envelope).event;
            && Complete(tools, spec, e) && e.entity == entity
            && key.Some? && FindKey(tools.rules, spec, key.value) == Some(e.key)
  {
  }

  // The first of two fields that is a positive integer, or else 0.
  ghost predicate FirstPositive(a: Json, b: Json, n: int) {
    if HoldsWhole(a, 1) then Says(a, n)
    else if HoldsWhole(b, 1) then Says(b, n)
    else n == 0
  }

  lemma FirstPositiveIs(a: Json, b: Json, n: int)
    ensures FirstPositive(a, b, n)
       <==> n == if PositiveInt(a).Some? then PositiveInt(a).value
                 else if PositiveInt(b).Some? then PositiveInt(b).value else 0
  {
    WholeIsRead(a);
    WholeIsRead(b);
    if PositiveInt(a).Some? { WholeNumberRead(a, PositiveInt(a).value); }
    if PositiveInt(b).Some? { WholeNumberRead(b, PositiveInt(b).value); }
    WholeNumberRead(a, n);
    WholeNumberRead(b, n);
  }

  /** The event's place in the log is the message's; its batch is the row's own if usable and
      the source block's otherwise; its order within the transaction is the collection's order
      if positive, else the total order if positive, else 0. */
  lemma EventPosition(tools: Tools, metadata: Metadata, entity: Entity, spec: EntitySpec, key: Option<JsonObject>,
                      envelope: JsonObject)
    requires ParseEnvelope(tools, metadata, entity, spec, key, envelope).Event?
    ensures var e := ParseEnvelope(tools, metadata, entity, spec, key, envelope).event;
            var source := OptionalObject(Get(envelope, "source"));
            var transaction := OptionalObject(Get(envelope, "transaction"));
            var order := if transaction.Some? then transaction.value else map[];
            && e.topic == metadata.topic && e.partition == metadata.partition && e.offset == metadata.offset
            && source.Some? && Says(Get(source.value, "lsn"), e.lsn)
            && RowOf(e).Some? && e.batch >= 1
            && FirstPositive(Get(RowOf(e).value, "batch_id"), Get(source.value, "batch_id"), e.batch)
            && FirstPositive(Get(order, "data_collection_order"), Get(order, "total_order"), e.transactionOrder)
  {
    var e := ParseEnvelope(tools, metadata, entity, spec, key, envelope).event;
    var source, transaction := OptionalObject(Get(envelope, "source")), OptionalObject(Get(envelope, "transaction"));
    var order := if transaction.Some? then transaction.value else map[];
    WholeNumberRead(Get(source.value, "lsn"), e.lsn);
    FirstPositiveIs(Get(RowOf(e).value, "batch_id"), Get(source.value, "batch_id"), e.batch);
    FirstPositiveIs(Get(order, "data_collection_order"), Get(order, "total_order"), e.transactionOrder);
  }

  /** Every event the parser accepts has a row that fits its schema, a message key equal to
      the row's key, a positive batch and a non-negative position. */
  lemma AcceptedEventsAreComplete(tools: Tools, metadata: Metadata, key: Message, payload: Message)
    requires ParseDebeziumEvent(tools, metadata, key, payload).Event?
    ensures var e := ParseDebeziumEvent(tools, metadata, key, payload).event;
            && Complete(tools, SpecOf(e.entity), e) && EntityFromTopic(metadata.topic) == Some(e.entity)
            && ParseKey(key).Some? && FindKey(tools.rules, SpecOf(e.entity), ParseKey(key).value) == Some(e.key)
  {
    var document := ParseObject(payload).value;
    EnvelopeEvents(tools, metadata, EntityFromTopic(metadata.topic).value,
                   SpecOf(EntityFromTopic(metadata.topic).value),
                   ParseKey(key), NormalizedFields(tools, document, UnwrapPayload(document).value));
  }

  // The letter of an operation.
  function Letter(operation: Operation): string {
    match operation
    case Create => "c"
    case Update => "u"
    case Delete => "d"
    case Read => "r"
  }

  // The texts json.dumps writes tell values apart.
  ghost predicate TellsApart(tools: Tools) { forall a, b :: tools.dumps(a) == tools.dumps(b) ==> a == b }

  /** An accepted event is the envelope's: its operation, both its images, and the key it shares with
      the message; its key text and its payload text are written from these alone. */
  lemma EventIsTheEnvelopes(tools: Tools, metadata: Metadata, entity: Entity, spec: EntitySpec, key: Option<JsonObject>,
                            envelope: JsonObject)
    requires ParseEnvelope(tools, metadata, entity, spec, key, envelope).Event?
    ensures var e := ParseEnvelope(tools, metadata, entity, spec, key, envelope).event;
            && e.entity == entity && Get(envelope, "op") == JText(Letter(e.operation))
            && e.before == OptionalObject(Get(envelope, "before")) && e.after == OptionalObject(Get(envelope, "after"))
            && e.keyText == tools.dumps(JObject(e.key))
            && e.payloadText == PayloadText(tools, e.operation, e.before, e.after)
  {
  }

  function Shown(image: Option<JsonObject>): Json { if image.Some? then JObject(image.value) else JNull }

  lemma SameFields(a: map<string, Json>, b: map<string, Json>, name: string)
    requires JObject(a) == JObject(b) && name in a && name in b
    ensures a[name] == b[name]
  {
  }

  /** Two events have one payload text exactly when operation and both images are the same. */
  lemma PayloadTextDecides(tools: Tools, o: Operation, before: Option<JsonObject>, after: Option<JsonObject>,
                           p: Operation, older: Option<JsonObject>, newer: Option<JsonObject>)
    requires TellsApart(tools)
    ensures PayloadText(tools, o, before, after) == PayloadText(tools, p, older, newer)
       <==> o == p && before == older && after == newer
  {
    var a := map["operation" := JText(Letter(o)), "before" := Shown(before), "after" := Shown(after)];
    var b := map["operation" := JText(Letter(p)), "before" := Shown(older), "after" := Shown(newer)];
    assert PayloadText(tools, o, before, after) == tools.dumps(JObject(a));
    assert PayloadText(tools, p, older, newer) == tools.dumps(JObject(b));
    if tools.dumps(JObject(a)) == tools.dumps(JObject(b)) {
      SameFields(a, b, "operation");
      SameFields(a, b, "before");
      SameFields(a, b, "after");
      LettersDiffer(o, p);
    }
  }

  lemma LettersDiffer(o: Operation, p: Operation)
    ensures Letter(o) == Letter(p) <==> o == p
  {
    assert Letter(o)[0] == Letter(p)[0] <==> o == p;
  }

  /** Documents are read alike with and without Connect's schema wrapper, as values and as keys; a
      wrapper whose payload is no object holds nothing. */
  lemma WrappingPlaysNoPart(inner: JsonObject, schema: Json, other: Json)
    requires "schema" !in inner && "payload" !in inner && !other.JObject?
    ensures var wrapped := map["schema" := schema, "payload" := JObject(inner)];
            && UnwrapPayload(inner) == Some(inner) && UnwrapPayload(wrapped) == Some(inner)
            && ParseKey(Document(JObject(inner))) == Some(inner) == ParseKey(Document(JObject(wrapped)))
    ensures UnwrapPayload(map["schema" := schema, "payload" := other]) == None
    ensures UnwrapPayload(map["schema" := schema]) == None
    ensures ParseKey(Absent) == None && ParseKey(NotJson) == None && ParseKey(Document(other)) == None
  {
  }

  ghost predicate HoldsWhole(v: Json, least: int) { exists n :: n >= least && Says(v, n) }

  // What an envelope has to show: a known operation, the image that goes with it, a position,
  // a batch, and one key on both sides.
  ghost predicate Acceptable(tools: Tools, spec: EntitySpec, key: Option<JsonObject>, envelope: JsonObject) {
    var op, source := Get(envelope, "op"), OptionalObject(Get(envelope, "source"));
    var image := Get(envelope, if op == JText("d") then "before" else "after");
    && (op == JText("c") || op == JText("u") || op == JText("d") || op == JText("r"))
    && source.Some? && HoldsWhole(Get(source.value, "lsn"), 0)
    && image.JObject? && ValidRow(tools.rules, spec, image.fields)
    && key.Some? && FindKey(tools.rules, spec, key.value) == FindKey(tools.rules, spec, image.fields)
    && (HoldsWhole(Get(image.fields, "batch_id"), 1) || HoldsWhole(Get(source.value, "batch_id"), 1))
  }

  /** An envelope is accepted exactly when it shows all of that; nothing else is rejected. */
  lemma AcceptedExactlyWhen(tools: Tools, metadata: Metadata, entity: Entity, spec: EntitySpec,
                            key: Option<JsonObject>, envelope: JsonObject)
    ensures ParseEnvelope(tools, metadata, entity, spec, key, envelope).Event?
       <==> Acceptable(tools, spec, key, envelope)
  {
    ParsedExactlyWhenRead(tools, metadata, entity, spec, key, envelope);
    ReadAlike(tools, spec, key, envelope);
  }

  // The same through the parser's own reading of numbers.
  ghost predicate ReadAsAcceptable(tools: Tools, spec: EntitySpec, key: Option<JsonObject>, envelope: JsonObject) {
    var op, source := Get(envelope, "op"), OptionalObject(Get(envelope, "source"));
    var image := Get(envelope, if op == JText("d") then "before" else "after");
    && (op == JText("c") || op == JText("u") || op == JText("d") || op == JText("r"))
    && source.Some? && NonNegativeInt(Get(source.value, "lsn")).Some?
    && image.JObject? && ValidRow(tools.rules, spec, image.fields)
    && key.Some? && FindKey(tools.rules, spec, key.value) == FindKey(tools.rules, spec, image.fields)
    && (PositiveInt(Get(image.fields, "batch_id")).Some? || PositiveInt(Get(source.value, "batch_id")).Some?)
  }

  lemma ReadAlike(tools: Tools, spec: EntitySpec, key: Option<JsonObject>, envelope: JsonObject)
    ensures ReadAsAcceptable(tools, spec, key, envelope) <==> Acceptable(tools, spec, key, envelope)
  {
    var source := OptionalObject(Get(envelope, "source"));
    var image := Get(envelope, if Get(envelope, "op") == JText("d") then "before" else "after");
    if source.Some? {
      WholeIsRead(Get(source.value, "lsn"));
      WholeIsRead(Get(source.value, "batch_id"));
      if image.JObject? { WholeIsRead(Get(image.fields, "batch_id")); }
    }
  }

  lemma ParsedExactlyWhenRead(tools: Tools, metadata: Metadata, entity: Entity, spec: EntitySpec,
                              key: Option<JsonObject>, envelope: JsonObject)
    ensures ParseEnvelope(tools, metadata, entity, spec, key, envelope).Event?
       <==> ReadAsAcceptable(tools, spec, key, envelope)
  {
  }

  lemma WholeIsRead(v: Json)
    ensures NonNegativeInt(v).Some? <==> HoldsWhole(v, 0)
    ensures PositiveInt(v).Some? <==> HoldsWhole(v, 1)
  {
    if NonNegativeInt(v).Some? { WholeNumberRead(v, NonNegativeInt(v).value); }
    forall n | Says(v, n) ensures NonNegativeInt(v) == Some(n) { WholeNumberRead(v, n); }
  }

  // The envelope of a message, decimals decoded; nothing when the payload has none.
  function EnvelopeOf(tools: Tools, payload: Message): Option<JsonObject> {
    var document := ParseObject(payload);
    if document.None? || UnwrapPayload(document.value).None? then None
    else Some(NormalizedFields(tools, document.value, UnwrapPayload(document.value).value))
  }

  /** A message becomes an event exactly when its topic names an entity and its payload holds
      an acceptable envelope; it becomes a tombstone exactly when its topic names an entity,
      it has no payload, and its key is one of the entity's, which it carries. Anything else is
      malformed. */
  lemma MessageReadExactlyWhen(tools: Tools, metadata: Metadata, key: Message, payload: Message)
    ensures var entity, envelope := EntityFromTopic(metadata.topic), EnvelopeOf(tools, payload);
            var parsed := ParseDebeziumEvent(tools, metadata, key, payload);
            && (parsed.Event? <==> && entity.Some? && !payload.Absent? && envelope.Some?
                                   && Acceptable(tools, SpecOf(entity.value), ParseKey(key), envelope.value))
            && (parsed.Tombstone? <==> && entity.Some? && payload.Absent? && ParseKey(key).Some?
                                       && FindKey(tools.rules, SpecOf(entity.value), ParseKey(key).value).Some?)
            && (parsed.Tombstone? ==>
                  && entity == Some(parsed.entity)
                  && FindKey(tools.rules, SpecOf(parsed.entity), ParseKey(key).value) == Some(parsed.key))
  {
    var entity, envelope := EntityFromTopic(metadata.topic), EnvelopeOf(tools, payload);
    if entity.Some? && envelope.Some? {
      AcceptedExactlyWhen(tools, metadata, entity.value, SpecOf(entity.value), ParseKey(key), envelope.value);
      NeverATombstone(tools, metadata, entity.value, SpecOf(entity.value), ParseKey(key), envelope.value);
    }
  }

  // What is asked of an envelope, in this order, and why it is malformed when it does not show it.
  ghost function Demands(tools: Tools, spec: EntitySpec, key: Option<JsonObject>,
                         envelope: JsonObject): (demands: seq<(bool, ReasonCode)>)
    ensures |demands| == 8
  {
    var op, source := Get(envelope, "op"), OptionalObject(Get(envelope, "source"));
    var image := OptionalObject(Get(envelope, if op == JText("d") then "before" else "after"));
    [(op == JText("c") || op == JText("u") || op == JText("d") || op == JText("r"), UnsupportedOperation),
     (image.Some?, InvalidEnvelope),
     (source.Some?, InvalidEnvelope),
     (source.Some? && HoldsWhole(Get(source.value, "lsn"), 0), MissingSourceLsn),
     (image.Some? && ValidRow(tools.rules, spec, image.value), InvalidSchema),
     (key.Some? && FindKey(tools.rules, spec, key.value).Some?, MissingKey),
     (key.Some? && image.Some? && FindKey(tools.rules, spec, key.value) == FindKey(tools.rules, spec, image.value),
      InvalidSchema),
     (image.Some? && source.Some?
      && (HoldsWhole(Get(image.value, "batch_id"), 1) || HoldsWhole(Get(source.value, "batch_id"), 1)), MissingBatchId)]
  }

  /** The reason given is that of the first demand the envelope does not meet. */
  lemma FirstUnmetDemand(tools: Tools, metadata: Metadata, entity: Entity, spec: EntitySpec, key: Option<JsonObject>,
                         envelope: JsonObject, n: nat)
    requires var demands := Demands(tools, spec, key, envelope);
             n < 8 && !demands[n].0 && forall m :: 0 <= m < n ==> demands[m].0
    ensures ParseEnvelope(tools, metadata, entity, spec, key, envelope)
         == Malformed(Demands(tools, spec, key, envelope)[n].1)
  {
    if n < 4 {
      EarlyDemand(tools, metadata, entity, spec, key, envelope, n);
    } else {
      LateDemand(tools, metadata, entity, spec, key, envelope, n);
    }
  }

  lemma EarlyDemand(tools: Tools, metadata: Metadata, entity: Entity, spec: EntitySpec, key: Option<JsonObject>,
                    envelope: JsonObject, n: nat)
    requires var demands := Demands(tools, spec, key, envelope);
             n < 4 && !demands[n].0 && forall m :: 0 <= m < n ==> demands[m].0
    ensures ParseEnvelope(tools, metadata, entity, spec, key, envelope)
         == Malformed(Demands(tools, spec, key, envelope)[n].1)
  {
    var source := OptionalObject(Get(envelope, "source"));
    if source.Some? { WholeIsRead(Get(source.value, "lsn")); }
    var demands := Demands(tools, spec, key, envelope);
    assert (n > 0 ==> demands[0].0) && (n > 1 ==> demands[1].0) && (n > 2 ==> demands[2].0);
  }

  lemma LateDemand(tools: Tools, metadata: Metadata, entity: Entity, spec: EntitySpec, key: Option<JsonObject>,
                   envelope: JsonObject, n: nat)
    requires var demands := Demands(tools, spec, key, envelope);
             4 <= n < 8 && !demands[n].0 && forall m :: 0 <= m < n ==> demands[m].0
    ensures ParseEnvelope(tools, metadata, entity, spec, key, envelope)
         == Malformed(Demands(tools, spec, key, envelope)[n].1)
  {
    var demands := Demands(tools, spec, key, envelope);
    assert demands[0].0 && demands[1].0 && demands[2].0 && demands[3].0;
    var source := OptionalObject(Get(envelope, "source")).value;
    var image := OptionalObject(Get(envelope, if Get(envelope, "op") == JText("d") then "before" else "after")).value;
    WholeIsRead(Get(source, "lsn"));
    WholeIsRead(Get(source, "batch_id"));
    WholeIsRead(Get(image, "batch_id"));
    LateReason(tools, metadata, entity, spec, key, envelope, image, source);
    assert (n > 4 ==> demands[4].0) && (n > 5 ==> demands[5].0) && (n > 6 ==> demands[6].0);
  }

  lemma LateReason(tools: Tools, metadata: Metadata, entity: Entity, spec: EntitySpec, key: Option<JsonObject>,
                   envelope: JsonObject, image: JsonObject, source: JsonObject)
    requires OperationOf(Get(envelope, "op")).Some? && NonNegativeInt(Get(source, "lsn")).Some?
    requires Get(envelope, if Get(envelope, "op") == JText("d") then "before" else "after") == JObject(image)
    requires Get(envelope, "source") == JObject(source)
    ensures var own := if key.Some? then FindKey(tools.rules, spec, key.value) else None;
            var parsed := ParseEnvelope(tools, metadata, entity, spec, key, envelope);
            parsed.Event? || parsed == Malformed(
              if !ValidRow(tools.rules, spec, image) then InvalidSchema
              else if own.None? then MissingKey
              else if own != FindKey(tools.rules, spec, image) then InvalidSchema
              else MissingBatchId)
    ensures ParseEnvelope(tools, metadata, entity, spec, key, envelope).Event? ==>
              && ValidRow(tools.rules, spec, image) && key.Some?
              && FindKey(tools.rules, spec, key.value) == FindKey(tools.rules, spec, image)
              && (PositiveInt(Get(image, "batch_id")).Some? || PositiveInt(Get(source, "batch_id")).Some?)
  {
  }

  /** Before that: an unknown topic, a payload that is no JSON object, one without an envelope, or,
      without a payload, a key that is not the entity's. */
  lemma WhyMalformed(tools: Tools, metadata: Metadata, key: Message, payload: Message)
    ensures var parsed := ParseDebeziumEvent(tools, metadata, key, payload);
            var entity := EntityFromTopic(metadata.topic);
            && (parsed == Malformed(UnknownTopic) <==> entity.None?)
            && (parsed == Malformed(InvalidJson) <==>
                  entity.Some? && !payload.Absent? && !(payload.Document? && payload.value.JObject?))
            && (entity.Some? && payload.Absent? ==> parsed.Tombstone? || parsed == Malformed(MissingKey))
            && (entity.Some? && payload.Document? && payload.value.JObject? && EnvelopeOf(tools, payload).None? ==>
                  parsed == Malformed(InvalidEnvelope))
  {
    var entity, envelope := EntityFromTopic(metadata.topic), EnvelopeOf(tools, payload);
    if entity.Some? && envelope.Some? {
      EnvelopesAreJson(tools, metadata, entity.value, SpecOf(entity.value), ParseKey(key), envelope.value);
    }
  }

  lemma EnvelopesAreJson(tools: Tools, metadata: Metadata, entity: Entity, spec: EntitySpec, key: Option<JsonObject>,
                         envelope: JsonObject)
    ensures ParseEnvelope(tools, metadata, entity, spec, key, envelope) != Malformed(InvalidJson)
    ensures ParseEnvelope(tools, metadata, entity, spec, key, envelope) != Malformed(UnknownTopic)
  {
  }

  lemma NeverATombstone(tools: Tools, metadata: Metadata, entity: Entity, spec: EntitySpec,
                        key: Option<JsonObject>, envelope: JsonObject)
    ensures !ParseEnvelope(tools, metadata, entity, spec, key, envelope).Tombstone?
  {
  }

  datatype Delivery = Delivery(metadata: Metadata, key: Message, payload: Message)

  function EventOf(tools: Tools, m: Delivery): Option<CdcEvent> {
    var parsed := ParseDebeziumEvent(tools, m.metadata, m.key, m.payload);
    if parsed.Event? then Some(parsed.event) else None
  }

  // What is there, in order.
  function Present<T>(found: seq<Option<T>>): seq<T> {
    if found == [] then []
    else Present(found[..|found| - 1]) + if found[|found| - 1].Some? then [found[|found| - 1].value] else []
  }

  lemma {:induction false} PresentComesFrom<T>(found: seq<Option<T>>, x: T)
    requires x in Present(found)
    ensures Some(x) in found
  {
    var n := |found| - 1;
    if x in Present(found[..n]) { PresentComesFrom(found[..n], x); }
  }

  lemma {:induction false} AllPresent<T>(found: seq<Option<T>>, all: seq<T>, n: nat)
    requires n <= |found| == |all| && forall i :: 0 <= i < |all| ==> found[i] == Some(all[i])
    ensures Present(found[..n]) == all[..n]
  {
    if n > 0 {
      AllPresent(found, all, n - 1);
      assert found[..n][..n - 1] == found[..n - 1];
    }
  }

  // The events read from a list of messages.
  function ReadAll(tools: Tools, messages: seq<Delivery>): (found: seq<Option<CdcEvent>>)
    ensures |found| == |messages| && forall i :: 0 <= i < |messages| ==> found[i] == EventOf(tools, messages[i])
  {
    seq(|messages|, i requires 0 <= i < |messages| => EventOf(tools, messages[i]))
  }

  // The events among a list of messages, as ingestion keeps them.
  function Accepted(tools: Tools, messages: seq<Delivery>): seq<CdcEvent> { Present(ReadAll(tools, messages)) }

  lemma AcceptedAreComplete(tools: Tools, messages: seq<Delivery>)
    ensures forall e :: e in Accepted(tools, messages) ==> Complete(tools, SpecOf(e.entity), e)
  {
    forall e | e in Accepted(tools, messages) ensures Complete(tools, SpecOf(e.entity), e) {
      PresentComesFrom(ReadAll(tools, messages), e);
      var i :| 0 <= i < |messages| && ReadAll(tools, messages)[i] == Some(e);
      AcceptedEventsAreComplete(tools, messages[i].metadata, messages[i].key, messages[i].payload);
    }
  }

  /** Over parsed events the reconstructed state holds a record for exactly the keys whose
      latest event is not a delete: no record is lost for want of a row. */
  lemma EveryLiveKeyHasARecord(tools: Tools, messages: seq<Delivery>, cutoff: Option<int>, k: string)
    ensures var events := Accepted(tools, messages);
            k in CurrentState(events, cutoff)
            <==> k in Latest(events, cutoff) && !Latest(events, cutoff)[k].operation.Delete?
  {
    var events := Accepted(tools, messages);
    AcceptedAreComplete(tools, messages);
    CdcTheorems.LatestIsMaximal(events, cutoff, k);
  }

  // ---- the messages of a change stream ---------------------------------------------------------------

  // The envelope Debezium writes for a change, decimals decoded.
  ghost predicate Describes(envelope: JsonObject, c: H.Change) {
    && (c.before.Some? || c.after.Some?)
    && Get(envelope, "op") == JText(match A.OperationOf(c) case I => "c" case U => "u" case D => "d")
    && Get(envelope, "before") == (if c.before.Some? then JObject(A.Image(c.before.value)) else JNull)
    && Get(envelope, "after") == (if c.after.Some? then JObject(A.Image(c.after.value)) else JNull)
  }

  // Keys of the table are the JSON texts of the key fields in the row image.
  ghost predicate KeyedBy(tools: Tools, spec: EntitySpec, r: H.TableRow) {
    var key := FindKey(tools.rules, spec, A.Image(r));
    key.Some? ==> tools.dumps(JObject(key.value)) == r.key
  }

  lemma ImageBatch(r: H.TableRow, source: JsonObject)
    requires r.batch >= 1
    ensures BatchOf(A.Image(r), source) == Some(r.batch)
  {
  }

  /** A message that describes a change and is accepted becomes exactly the event the
      reconstruction theorems assume: its operation and images are the change's, and its
      batch is that of the new row, or of the old row for a delete. */
  lemma ParsedChange(tools: Tools, metadata: Metadata, entity: Entity, spec: EntitySpec, key: Option<JsonObject>,
                     envelope: JsonObject, c: H.Change)
    requires Describes(envelope, c) && KeyedBy(tools, spec, A.Subject(c)) && A.Subject(c).batch >= 1
    requires ParseEnvelope(tools, metadata, entity, spec, key, envelope).Event?
    ensures A.EventFor(ParseEnvelope(tools, metadata, entity, spec, key, envelope).event, c, entity)
  {
    var source := OptionalObject(Get(envelope, "source"));
    ImageBatch(A.Subject(c), if source.Some? then source.value else map[]);
    EnvelopeEvents(tools, metadata, entity, spec, key, envelope);
  }

  // Message `i` describes change `i`, and is accepted.
  ghost predicate Carries(tools: Tools, entity: Entity, m: Delivery, c: H.Change) {
    var document := ParseObject(m.payload);
    && ParseDebeziumEvent(tools, m.metadata, m.key, m.payload).Event?
    && EntityFromTopic(m.metadata.topic) == Some(entity)
    && document.Some? && UnwrapPayload(document.value).Some?
    && Describes(NormalizedFields(tools, document.value, UnwrapPayload(document.value).value), c)
    && KeyedBy(tools, SpecOf(entity), A.Subject(c)) && A.Subject(c).batch >= 1
  }

  lemma CarriedEvent(tools: Tools, entity: Entity, m: Delivery, c: H.Change)
    requires Carries(tools, entity, m, c)
    ensures EventOf(tools, m).Some? && EventIs(EventOf(tools, m).value, c, entity)
  {
    var document := ParseObject(m.payload).value;
    ParsedChange(tools, m.metadata, entity, SpecOf(entity), ParseKey(m.key),
                 NormalizedFields(tools, document, UnwrapPayload(document).value), c);
  }

  ghost predicate EventIs(e: CdcEvent, c: H.Change, entity: Entity) {
    (c.before.Some? || c.after.Some?) && A.EventFor(e, c, entity)
  }

  lemma CarriedEvents(tools: Tools, entity: Entity, messages: seq<Delivery>, changes: seq<H.Change>)
    requires |messages| == |changes|
    requires forall i :: 0 <= i < |messages| ==> Carries(tools, entity, messages[i], changes[i])
    ensures |Accepted(tools, messages)| == |changes|
    ensures forall i :: 0 <= i < |changes| ==> EventIs(Accepted(tools, messages)[i], changes[i], entity)
  {
    forall i | 0 <= i < |messages|
      ensures EventOf(tools, messages[i]).Some? && EventIs(EventOf(tools, messages[i]).value, changes[i], entity)
    {
      CarriedEvent(tools, entity, messages[i], changes[i]);
    }
    var events := seq(|messages|, i requires 0 <= i < |messages| => EventOf(tools, messages[i]).value);
    var found := ReadAll(tools, messages);
    AllPresent(found, events, |found|);
    assert found[..|found|] == found && events[..|events|] == events;
  }

  /** From the log to the table: when the messages carry a run's changes in log order, what
      is reconstructed from any delivery of them is the as-of reading of the captured history
      at every cutoff, or at every cutoff a run can have, exactly when every delete removed a
      stamped row. */
  lemma ParsedStreamAgreesExactlyWhenStamped(tools: Tools, entity: Entity, commands: seq<H.Command>,
                                             messages: seq<Delivery>, delivered: seq<CdcEvent>)
    requires |messages| == |H.Run(commands).changes|
    requires forall i :: 0 <= i < |messages| ==> Carries(tools, entity, messages[i], H.Run(commands).changes[i])
    requires A.Monotone(H.Run(commands).history) && A.InLogOrder(Accepted(tools, messages))
    requires A.Delivers(delivered, Accepted(tools, messages))
    ensures |H.Run(commands).history| == |H.Run(commands).changes|
    ensures (forall cutoff :: A.Agree(delivered, H.Run(commands), entity, cutoff))
       <==> A.DeletesAreStamped(H.Run(commands))
    ensures (forall cutoff: Batch :: A.Agree(delivered, H.Run(commands), entity, cutoff))
       <==> A.DeletesAreStamped(H.Run(commands))
  {
    AcceptedAreComplete(tools, messages);
    CarriedEvents(tools, entity, messages, H.Run(commands).changes);
    A.CdcAgreesWithHistoryExactlyWhenStamped(commands, entity, Accepted(tools, messages), delivered);
  }
}
