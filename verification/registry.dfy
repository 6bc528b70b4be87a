/**
 The field registry (the `antTopics` map of the bridge's utility module: field
 key -> topic suffix and cache flag), the manufacturer table (numeric code ->
 vendor name), the decoded sensor payload, and the manufacturer resolver
 `getManufacturerName`. Both tables are parameters: their contents are not
 part of this model.
 */
module Registry {
  import opened JsValue

  /** One registry entry: the payload key, the topic suffix it publishes
      under, and whether its topic is reset to zero after a quiet period. */
  datatype Field = Field(key: string, name: string, cache: bool)

  /** The registry in its iteration order. */
  type FieldRegistry = seq<Field>

  /** A decoded sensor payload: field key -> value; a missing key reads as `undefined`. */
  type Payload = map<string, Value>

  /** Manufacturer code -> vendor name. */
  type ManufacturerTable = map<Value, string>

  /** The payload key whose value is a manufacturer code. */
  const MANUFACTURER_KEY: string := "ManId"

  /** `message[key]`: the payload's value for a key, `undefined` when absent. */
  function Get(payload: Payload, key: string): Value {
    if key in payload then payload[key] else Undefined
  }

  /** `manufacturerId.get(manId) || manId`: the vendor name when the table
      maps the code to a non-empty name, and otherwise the code itself,
      unchanged and not coerced to a string. The lookup never fails. */
  function ManufacturerName(table: ManufacturerTable, manId: Value): (r: Value)
    ensures manId in table && table[manId] != "" ==> r == Str(table[manId])
    ensures manId !in table || table[manId] == "" ==> r == manId
    ensures Truthy(manId) ==> Truthy(r)
  {
    var found := if manId in table then Str(table[manId]) else Undefined;
    if Truthy(found) then found else manId
  }

  /** The value published for one present field: the resolved vendor name
      for the manufacturer key, `String(v)` for every other key. */
  function Format(table: ManufacturerTable, key: string, v: Value): Value {
    if key == MANUFACTURER_KEY then ManufacturerName(table, v) else Str(ToStr(v))
  }

  /** Every present field publishes a truthy value; only an unresolved
      manufacturer code is published as something other than a string. */
  lemma FormatOfTruthy(table: ManufacturerTable, key: string, v: Value)
    requires Truthy(v)
    ensures Truthy(Format(table, key, v))
    ensures key != MANUFACTURER_KEY ==> Format(table, key, v) == Str(ToStr(v))
    ensures !Format(table, key, v).Str? ==> key == MANUFACTURER_KEY && Format(table, key, v) == v
  {
    if key != MANUFACTURER_KEY {
      ToStrOfTruthy(v);
    }
  }
}
