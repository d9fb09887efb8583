/** The row and key schemas of the four entities, spelt out: what the parser accepts as a row of
    each table and under which key. */
module RowSchemas {
  import opened Models
  import opened Json
  import opened CdcState
  import opened Schemas

  // ---- fields ------------------------------------------------------------------------------------

  predicate Whole(row: JsonObject, name: string) { Get(row, name).JInt? }

  predicate Chars(row: JsonObject, name: string) { Get(row, name).JText? }

  // An instant: a number, or a text that is not blank.
  predicate Instant(rules: TextRules, row: JsonObject, name: string) {
    Whole(row, name) || (Chars(row, name) && !rules.blank(Get(row, name).text))
  }

  // A number, with or without a fraction, or a text that reads as one.
  predicate Price(rules: TextRules, row: JsonObject, name: string) {
    Whole(row, name) || Get(row, name).JReal? || (Chars(row, name) && rules.numeric(Get(row, name).text))
  }

  // The batch may be missing or null; it is looked for elsewhere then.
  predicate BatchOrNothing(row: JsonObject) { Get(row, "batch_id").JNull? || Whole(row, "batch_id") }

  // ---- rows ----------------------------------------------------------------------------------------

  lemma OneKey(rules: TextRules, name: string, row: JsonObject)
    ensures FindKeyAmong(rules, [[name]], row)
         == if IsKeyValue(rules, Get(row, name)) then Some(map[name := Get(row, name)]) else None
  {
    assert [[name]][1..] == [] && forall n :: n in [name] <==> n == name;
    assert (map n | n in [name] :: Get(row, n)) == map[name := Get(row, name)];
  }

  lemma TwoKeys(rules: TextRules, a: string, b: string, row: JsonObject)
    ensures FindKeyAmong(rules, [[a, b]], row)
         == if IsKeyValue(rules, Get(row, a)) && IsKeyValue(rules, Get(row, b))
            then Some(map[a := Get(row, a), b := Get(row, b)]) else None
  {
    assert [[a, b]][1..] == [] && forall n :: n in [a, b] <==> n == a || n == b;
    assert (map n | n in [a, b] :: Get(row, n)) == map[a := Get(row, a), b := Get(row, b)];
  }

  // The schema's part in a row: required fields are there, and known fields that are there fit.
  ghost predicate FieldsFit(rules: TextRules, spec: EntitySpec, row: JsonObject) {
    && (forall n :: n in spec.requiredFields ==> Present(Get(row, n)))
    && (forall n :: n in spec.fields && Present(Get(row, n)) ==> MatchesKind(rules, Get(row, n), spec.fields[n]))
  }

  lemma RowFits(rules: TextRules, spec: EntitySpec, row: JsonObject)
    requires spec.requiredFields != {}
    ensures ValidRow(rules, spec, row) <==> FieldsFit(rules, spec, row) && FindKey(rules, spec, row).Some?
  {
    var n :| n in spec.requiredFields;
  }

  /** A row of customers: a whole customer_id, texts, an instant; the key is customer_id. */
  lemma CustomerRow(rules: TextRules, row: JsonObject)
    ensures ValidRow(rules, SpecOf(Customers), row)
       <==> && Whole(row, "customer_id")
            && Chars(row, "email") && Chars(row, "first_name") && Chars(row, "last_name") && Chars(row, "status")
            && Instant(rules, row, "updated_at") && BatchOrNothing(row)
    ensures FindKey(rules, SpecOf(Customers), row)
         == if Instant(rules, row, "customer_id") then Some(map["customer_id" := Get(row, "customer_id")]) else None
  {
    RowFits(rules, SpecOf(Customers), row);
    OneKey(rules, "customer_id", row);
    CustomerFields(rules, row);
  }

  lemma CustomerFields(rules: TextRules, row: JsonObject)
    ensures FieldsFit(rules, SpecOf(Customers), row)
       <==> && Whole(row, "customer_id")
            && Chars(row, "email") && Chars(row, "first_name") && Chars(row, "last_name") && Chars(row, "status")
            && Instant(rules, row, "updated_at") && BatchOrNothing(row)
  {
    var fields := SpecOf(Customers).fields;
    assert "customer_id" in fields && "email" in fields && "first_name" in fields && "last_name" in fields;
    assert "status" in fields && "updated_at" in fields && "batch_id" in fields;
  }

  /** A row of products: a whole product_id, texts, a price, a truth value, an instant. */
  lemma ProductRow(rules: TextRules, row: JsonObject)
    ensures ValidRow(rules, SpecOf(Products), row)
       <==> && Whole(row, "product_id") && Chars(row, "sku") && Chars(row, "name") && Chars(row, "category")
            && Price(rules, row, "unit_price") && Get(row, "active").JBool?
            && Instant(rules, row, "updated_at") && BatchOrNothing(row)
    ensures FindKey(rules, SpecOf(Products), row)
         == if Instant(rules, row, "product_id") then Some(map["product_id" := Get(row, "product_id")]) else None
  {
    RowFits(rules, SpecOf(Products), row);
    OneKey(rules, "product_id", row);
    ProductFields(rules, row);
  }

  lemma ProductFields(rules: TextRules, row: JsonObject)
    ensures FieldsFit(rules, SpecOf(Products), row)
       <==> && Whole(row, "product_id") && Chars(row, "sku") && Chars(row, "name") && Chars(row, "category")
            && Price(rules, row, "unit_price") && Get(row, "active").JBool?
            && Instant(rules, row, "updated_at") && BatchOrNothing(row)
  {
    var fields := SpecOf(Products).fields;
    assert "product_id" in fields && "sku" in fields && "name" in fields && "category" in fields;
    assert "unit_price" in fields && "active" in fields && "updated_at" in fields && "batch_id" in fields;
  }

  /** A row of orders: whole order_id and customer_id, a status, two instants. */
  lemma OrderRow(rules: TextRules, row: JsonObject)
    ensures ValidRow(rules, SpecOf(Entity.Orders), row)
       <==> && Whole(row, "order_id") && Whole(row, "customer_id") && Chars(row, "status")
            && Instant(rules, row, "ordered_at") && Instant(rules, row, "updated_at") && BatchOrNothing(row)
    ensures FindKey(rules, SpecOf(Entity.Orders), row)
         == if Instant(rules, row, "order_id") then Some(map["order_id" := Get(row, "order_id")]) else None
  {
    RowFits(rules, SpecOf(Entity.Orders), row);
    OneKey(rules, "order_id", row);
    OrderFields(rules, row);
  }

  lemma OrderFields(rules: TextRules, row: JsonObject)
    ensures FieldsFit(rules, SpecOf(Entity.Orders), row)
       <==> && Whole(row, "order_id") && Whole(row, "customer_id") && Chars(row, "status")
            && Instant(rules, row, "ordered_at") && Instant(rules, row, "updated_at") && BatchOrNothing(row)
  {
    var fields := SpecOf(Entity.Orders).fields;
    assert "order_id" in fields && "customer_id" in fields && "status" in fields;
    assert "ordered_at" in fields && "updated_at" in fields && "batch_id" in fields;
  }

  /** A row of order_items: four whole numbers, a price, an instant; the key is order_id and
      line_number together. */
  lemma OrderItemRow(rules: TextRules, row: JsonObject)
    ensures ValidRow(rules, SpecOf(OrderItems), row)
       <==> && Whole(row, "order_id") && Whole(row, "line_number") && Whole(row, "product_id") && Whole(row, "quantity")
            && Price(rules, row, "unit_price") && Instant(rules, row, "updated_at") && BatchOrNothing(row)
    ensures FindKey(rules, SpecOf(OrderItems), row)
         == if Instant(rules, row, "order_id") && Instant(rules, row, "line_number")
            then Some(map["order_id" := Get(row, "order_id"), "line_number" := Get(row, "line_number")]) else None
  {
    RowFits(rules, SpecOf(OrderItems), row);
    TwoKeys(rules, "order_id", "line_number", row);
    OrderItemFields(rules, row);
  }

  lemma OrderItemFields(rules: TextRules, row: JsonObject)
    ensures FieldsFit(rules, SpecOf(OrderItems), row)
       <==> && Whole(row, "order_id") && Whole(row, "line_number") && Whole(row, "product_id") && Whole(row, "quantity")
            && Price(rules, row, "unit_price") && Instant(rules, row, "updated_at") && BatchOrNothing(row)
  {
    var fields := SpecOf(OrderItems).fields;
    assert "order_id" in fields && "line_number" in fields && "product_id" in fields && "quantity" in fields;
    assert "unit_price" in fields && "updated_at" in fields && "batch_id" in fields;
  }
}
