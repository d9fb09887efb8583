/** Row schemas of the four entities (src/millrace/streaming/schemas.py). */
module Schemas {
  import opened Models
  import opened Json
  import opened CdcState

  datatype ValueKind = BooleanKind | IntegerKind | DecimalKind | StringKind | TimestampKind

  datatype EntitySpec = EntitySpec(
    keyCandidates: seq<seq<string>>, requiredFields: set<string>, fields: map<string, ValueKind>)

  // Given text functions: str.strip() leaving nothing, and whether Decimal(text) parses.
  datatype TextRules = TextRules(blank: string -> bool, numeric: string -> bool)

  predicate Present(v: Json) { !v.JNull? }

  // _is_key_value
  predicate IsKeyValue(rules: TextRules, v: Json) {
    v.JInt? || (v.JText? && !rules.blank(v.text))
  }

  predicate MatchesKind(rules: TextRules, v: Json, kind: ValueKind) {
    match kind
    case BooleanKind => v.JBool?
    case IntegerKind => v.JInt?
    case DecimalKind => v.JInt? || v.JReal? || (v.JText? && rules.numeric(v.text))
    case TimestampKind => v.JInt? || (v.JText? && !rules.blank(v.text))
    case StringKind => v.JText?
  }

  // The fields named by a candidate, if all of them are key values.
  function Candidate(rules: TextRules, value: JsonObject, names: seq<string>): Option<JsonObject> {
    if forall n :: n in names ==> IsKeyValue(rules, Get(value, n))
    then Some(map n | n in names :: Get(value, n))
    else None
  }

  // EntitySpec.find_key: the first candidate that fits.
  function FindKeyAmong(rules: TextRules, candidates: seq<seq<string>>, value: JsonObject): Option<JsonObject> {
    if candidates == [] then None
    else
      var first := Candidate(rules, value, candidates[0]);
      if first.Some? then first else FindKeyAmong(rules, candidates[1..], value)
  }

  function FindKey(rules: TextRules, spec: EntitySpec, value: JsonObject): Option<JsonObject> {
    FindKeyAmong(rules, spec.keyCandidates, value)
  }

  // EntitySpec.validate_row finds nothing to report.
  predicate ValidRow(rules: TextRules, spec: EntitySpec, row: JsonObject) {
    && row != map[]
    && (forall n :: n in spec.requiredFields ==> Present(Get(row, n)))
    && (forall n :: n in row.Keys && n in spec.fields && Present(row[n]) ==>
          MatchesKind(rules, row[n], spec.fields[n]))
    && FindKey(rules, spec, row).Some?
  }

  function SpecOf(entity: Entity): EntitySpec {
    match entity
    case Customers => EntitySpec(
      [["customer_id"]],
      {"customer_id", "email", "first_name", "last_name", "status", "updated_at"},
      map["customer_id" := IntegerKind, "email" := StringKind, "first_name" := StringKind, "last_name" := StringKind,
          "status" := StringKind, "updated_at" := TimestampKind, "batch_id" := IntegerKind])
    case Products => EntitySpec(
      [["product_id"]],
      {"product_id", "sku", "name", "category", "unit_price", "active", "updated_at"},
      map["product_id" := IntegerKind, "sku" := StringKind, "name" := StringKind, "category" := StringKind,
          "unit_price" := DecimalKind, "active" := BooleanKind, "updated_at" := TimestampKind,
              "batch_id" := IntegerKind])
    case Orders => EntitySpec(
      [["order_id"]],
      {"order_id", "customer_id", "ordered_at", "status", "updated_at"},
      map["order_id" := IntegerKind, "customer_id" := IntegerKind, "status" := StringKind,
          "ordered_at" := TimestampKind, "updated_at" := TimestampKind, "batch_id" := IntegerKind])
    case OrderItems => EntitySpec(
      [["order_id", "line_number"]],
      {"order_id", "line_number", "product_id", "quantity", "unit_price", "updated_at"},
      map["order_id" := IntegerKind, "line_number" := IntegerKind, "product_id" := IntegerKind,
          "quantity" := IntegerKind,
          "unit_price" := DecimalKind, "updated_at" := TimestampKind, "batch_id" := IntegerKind])
  }

  // ---- entity_from_topic ----------------------------------------------------------------------

  function EntityFromTopic(topic: string): Option<Entity> {
    EntityNamed(Lower(LastPart(topic)))
  }

  function EntityNamed(name: string): Option<Entity> {
    if name == "customers" then Some(Customers)
    else if name == "products" then Some(Products)
    else if name == "orders" then Some(Entity.Orders)
    else if name == "order_items" then Some(OrderItems)
    else None
  }

  /** A topic is read as an entity exactly when its last part, in any case, is the entity's
      table name, whatever server and schema stand in front, and if nothing does. */
  lemma TopicNamesEntity(prefix: string, name: string, entity: Entity)
    requires '.' !in name
    ensures EntityFromTopic(prefix + "." + name) == Some(entity) <==> Lower(name) == EntityName(entity)
    ensures EntityFromTopic(name) == Some(entity) <==> Lower(name) == EntityName(entity)
  {
    LastPartIs(prefix, name);
    NamedByIts(Lower(name), entity);
  }

  /** A table's own name names its entity, in lower case and in upper case. */
  lemma TableNamesEntity(prefix: string, entity: Entity)
    ensures EntityFromTopic(prefix + "." + EntityName(entity)) == Some(entity)
    ensures EntityFromTopic(prefix + "." + Upper(EntityName(entity))) == Some(entity)
  {
    var name := EntityName(entity);
    assert forall i :: 0 <= i < |name| ==> name[i] != '.' && !('A' <= name[i] <= 'Z');
    forall i | 0 <= i < |name| ensures Upper(name)[i] != '.' { CasesAt(name, i); }
    LowerKeeps(name);
    CasesFold(name);
    TopicNamesEntity(prefix, name, entity);
    TopicNamesEntity(prefix, Upper(name), entity);
  }

  lemma NamedByIts(name: string, entity: Entity)
    ensures EntityNamed(name) == Some(entity) <==> name == EntityName(entity)
  {
    NamesDiffer(entity);
  }

  lemma NamesDiffer(entity: Entity)
    ensures forall other :: EntityName(other) == EntityName(entity) ==> other == entity
  {
    forall other | EntityName(other) == EntityName(entity) ensures other == entity {
      assert |EntityName(other)| == |EntityName(entity)| && EntityName(other)[0] == EntityName(entity)[0];
    }
  }

  // ---- keys ------------------------------------------------------------------------------------------

  /** A key holds key values only, and finding the key of a key gives it back. */
  lemma {:induction false} KeyOfKey(rules: TextRules, candidates: seq<seq<string>>, value: JsonObject)
    requires FindKeyAmong(rules, candidates, value).Some?
    ensures var key := FindKeyAmong(rules, candidates, value).value;
            && (forall n :: n in key ==> IsKeyValue(rules, key[n]) && key[n] == Get(value, n))
            && exists names ::
                 && names in candidates
                 && Candidate(rules, value, names) == Some(key) && Candidate(rules, key, names) == Some(key)
  {
    var first := Candidate(rules, value, candidates[0]);
    if first.Some? {
      var key, names := first.value, candidates[0];
      assert forall n :: n in names ==> Get(key, n) == Get(value, n);
      assert (map n | n in names :: Get(key, n)) == key;
      assert names in candidates && Candidate(rules, key, names) == Some(key);
    } else {
      KeyOfKey(rules, candidates[1..], value);
    }
  }
}
