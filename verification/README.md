# ant-mqtt publish mapping in Dafny

A model of the publish mapping of the ANT+ to MQTT bridge in `antMqtt.js`. The
bridge turns each decoded ANT+ sensor reading into MQTT publications, one topic
per field. Topics of selected fields are reset to zero once the sensor has been
quiet for a minute.

The model covers:

- **Values** (`jsvalue.dfy`, module `JsValue`). The payload values (`undefined`,
  `null`, integers, strings, booleans), JavaScript truthiness, and `String(v)`.
  Integers render in decimal. A decimal parser is the renderer's inverse.
- **Topics** (`topics.dfy`, module `Topics`). The prefix `antplus/<profile>/<deviceId>`
  built in `onAntData`, and the field topic `<prefix>/<name>` built in
  `publishData`. `Split`/`Join` on `/` show that a topic determines its
  profile, device and field name when the profile and the field name contain
  no `/`. Without that condition two triples can share a topic:
  `antplus/HR/1/2/z` is both (`HR`, 1, `2/z`) and (`HR/1`, 2, `z`).
- **Registry and manufacturer resolver** (`registry.dfy`, module `Registry`).
  The field registry is a sequence of `Field(key, name, cache)` in iteration
  order. The manufacturer table maps codes to names. Both are parameters,
  because the utility module that defines them is not part of this model.
  `ManufacturerName` is `getManufacturerName`. `Format` picks the published
  value: the vendor name for `ManId`, `String(v)` for every other key.
- **Publish pipeline** (`pipeline.dfy`, module `Pipeline`). `PublishData` is
  `publishData`. It returns the actions one call issues, in order:
  `Publish(topic, value)` or `CachePut(topic, 0, 60000)`. `OnAntData` is
  `onAntData`. The results are compared with reference definitions:
  `PresentFields` keeps the registry fields whose value is truthy,
  `PublishesFor` maps them to their publishes, and `ResetsFor` maps them to
  their cache puts.
- **Expiry cache and the bridge as a whole** (`expiry.dfy`, module `ExpiryCache`).
  The cache is an abstract map from topic to `Entry(value, deadline)`. `Put`
  replaces a topic's entry. `Expire` deletes a due entry and republishes its
  stored value to its own topic, which is what the expiry callback does.
  `Step` and `Run` drive the bridge over data events and timer firings.
- **Scenarios** (`scenarios.dfy`, module `Scenarios`). Concrete runs: a
  heart-rate reading, known and unknown manufacturer codes, a zero reading, a
  topic going quiet, and a second reading that postpones the reset.

The semantics of the `memory-cache` library are taken as given, not proved:

- a `put` replaces the key's entry and cancels that entry's timer;
- when the timer fires, the entry is deleted and the callback receives the key
  and the stored value.

In the model, a cancelled timer is a firing that finds the entry not yet due.

Two details of the code shape the model:

- The reset value is the number `0`, not the string `"0"`: the cache stores the
  number 0 and the expiry callback passes it to the broker unchanged
  (antMqtt.js:67-68).
- An unresolved manufacturer code is passed to the broker as the raw value,
  not run through `String()`. This happens when the code is missing from the
  table or maps to an empty name (antMqtt.js:37).

## Model

| member | source | states |
|---|---|---|
| Registry.ManufacturerName | antMqtt.js:36-38 | A code whose table name is non-empty resolves to that name; any other code comes back unchanged (no string coercion); a truthy code always resolves to a truthy value, so lookup never fails |
| Registry.FormatOfTruthy | antMqtt.js:50-56 | A present value is published as a truthy value: `String(v)` for every key but `ManId`, and only an unresolved `ManId` is published as something other than a string |
| JsValue.ToStrOfTruthy | antMqtt.js:55 | `String(v)` of a truthy value is never empty; for an integer it parses back to the integer, for a string it is the string itself |
| JsValue.IntRoundTrip | antMqtt.js:82 | The decimal rendering of any integer (device id or reading) parses back to that integer |
| JsValue.IntToStringInjective | antMqtt.js:82 | Two device ids render to the same text exactly when they are equal |
| Topics.FieldTopicLevels | antMqtt.js:82 | A field topic, built from the prefix (line 82) and the field name (line 57), splits into exactly the levels `antplus`, profile, device id, field name, when profile and name contain no `/` |
| Topics.FieldTopicInjective | antMqtt.js:82 | When profiles and field names contain no `/`, two field topics are equal exactly when profile, device id and field name are all equal, so every such triple has its own cache entry |
| Topics.TopicNameInjective | antMqtt.js:57 | Under one prefix, two field topics are equal exactly when the field names are equal |
| Pipeline.PublishesMatchPresentFields | antMqtt.js:48-64 | The publishes of a call are one per field with a truthy value and none for any other field. They follow registry order. Each goes to `<prefix>/<name>` with the formatted value |
| Pipeline.CachePutsMatchCachedFields | antMqtt.js:65-67 | The cache puts of a call are exactly one per published, cache-flagged field, in registry order, each storing 0 with TTL 60000 |
| Pipeline.CachePutFollowsPublish | antMqtt.js:57-67 | Every cache put comes immediately after the publish to the same topic and stores 0 with TTL 60000 |
| Pipeline.PresentFieldsMembers | antMqtt.js:48-50 | The fields the walk acts on are exactly the registry fields whose payload value is truthy, and there are at most as many as registry entries |
| Pipeline.PublishCountBound | antMqtt.js:48-64 | A call issues at most one publish per registry field |
| Pipeline.PresentFieldPublished | antMqtt.js:49-59 | Every registry field with a truthy value is published to its topic with its formatted value |
| Pipeline.ActionTopicsOfPresentFields | antMqtt.js:57-67 | Every action of a call, publish or cache put, targets the topic of a field whose value is truthy |
| Pipeline.FalsyFieldSilent | antMqtt.js:49-50 | With distinct field names, a field whose value is falsy (absent, `null`, `0`, `""`, `false`) gets no publish and no cache put |
| Pipeline.FalsyValueUnpublished | antMqtt.js:49-50 | A payload with a falsy value under a key yields the same actions as the payload without that key: a reading of 0 is never published |
| Pipeline.PublishDataAppend | antMqtt.js:48-77 | The actions for a registry are those for its first part followed by those for the rest; one field never affects another field's actions |
| ExpiryCache.Put | antMqtt.js:67 | A put replaces the topic's entry with the value and a deadline of now + TTL and keeps every other entry, so a topic has at most one entry |
| ExpiryCache.Expire | antMqtt.js:67-68 | A timer firing on a due entry deletes exactly that entry and sends exactly one publish of the stored value to the same topic; otherwise the cache is unchanged and nothing is sent; every other topic keeps its entry either way |
| ExpiryCache.ApplyZeroPuts | antMqtt.js:65-67 | Carrying out zero-valued puts re-arms exactly their topics to 0 at now + 60000 and leaves every other entry as it was |
| ExpiryCache.PublishDataZeroPuts | antMqtt.js:67 | Every cache put a call issues stores 0 with TTL 60000 |
| ExpiryCache.PublishDataRearms | antMqtt.js:65-67 | After a call at time `now`, each published cache-flagged field's topic holds 0 and fires at now + 60000; untouched entries keep their values and deadlines |
| ExpiryCache.NoResetBeforeTtl | antMqtt.js:67 | A topic put at `t0` is not reset before `t0 + ttl`, whatever entry it had before |
| ExpiryCache.ResetOnceAfterTtl | antMqtt.js:67-73 | A topic put and then left quiet for a full TTL is reset by its timer, with the stored value, to its own topic; its entry is gone, so a second firing right after sends nothing (`ResetAfterQuietRun` and `ResetOncePerPut` cover runs with other events between) |
| ExpiryCache.StepInvariant | antMqtt.js:65-84 | Each data event or timer firing keeps every cached value 0 and every deadline within one TTL of the current time; a timer firing sends at most the value 0 to its own topic |
| ExpiryCache.RunInvariant | antMqtt.js:65-84 | Over any run with a nondecreasing clock, the cache holds only zeros and nothing fires later than one TTL after the last event |
| ExpiryCache.StepDebounced | antMqtt.js:65-84 | One more event, no earlier than the history, keeps every cached topic due no sooner than one TTL after each of its puts in the history |
| ExpiryCache.RunDebounced | antMqtt.js:65-84 | Over any run with a nondecreasing clock, every cached topic fires no sooner than one TTL after each put of it, however many resets came between |
| ExpiryCache.NoResetWithoutPut | antMqtt.js:65-74 | A topic that is not cached stays uncached over any run in which no data event puts it, whatever other events come between, and its timer then sends nothing |
| ExpiryCache.ResetAfterQuietRun | antMqtt.js:65-74 | No topic is left stuck: a cached topic that no event puts again keeps its entry and deadline through any run of other devices' data and other topics' firings, and its timer firing at or after the deadline republishes the stored value to the topic |
| ExpiryCache.ResetOncePerPut | antMqtt.js:65-74 | After a reset of a topic, a later firing of its timer sends nothing unless an event in between put the topic again: at most one reset per quiet period |
| ExpiryCache.ResetOnlyAfterQuietTtl | antMqtt.js:65-84 | After any run from the empty cache, a timer that sends a reset sends the value 0 to its own topic, and no data event of the run put that topic in during the TTL before the firing |
| Scenarios.HeartRateReading | antMqtt.js:47-84 | Reading `heartRate: 150` from profile HR device 12 publishes `"150"` to `antplus/HR/12/heartRate`, then puts 0 for 60000 ms |
| Scenarios.ManufacturerReading | antMqtt.js:36-53 | `ManId: 89` publishes `"Garmin"` when the table names it, and the number 89 when the table lacks it or names it `""` |
| Scenarios.ZeroReading | antMqtt.js:49-50 | A payload whose readings are all 0 produces no action |
| Scenarios.QuietTopicIsReset | antMqtt.js:65-73 | After a reading, a firing 1 ms before the TTL does nothing; at the TTL the topic is reset to 0 once and its entry removed; later firings send nothing |
| Scenarios.ReadingPostponesReset | antMqtt.js:65-67 | A second reading within the TTL postpones the reset to one TTL after that reading |

## Left out

- Opening the ANT stick, the channel retry loops and sensor attachment (antMqtt.js:91-130): device I/O with sleeps.
- The MQTT connect loop and client event handlers (antMqtt.js:133-168): network plumbing over the `mqtt` library.
- Shutdown, signal handling and argument parsing (antMqtt.js:180-209). The `deviceId` argument of `main` is unused.
- The completion callbacks of the field publish and of the reset publish only log (antMqtt.js:59-64, 68-73). Logging is not modelled. `PublishData` has no input for publish outcomes, so the actions of a call cannot depend on them. This holds by construction, and no lemma states it.
- Publish options (QoS 0, no retain, message expiry 10 s, antMqtt.js:42-46): passed to the broker unchanged and not modelled.
- The contents of the field registry, the manufacturer table and the credentials file: not part of this model, so the registry and table are parameters.
- Real timers of `memory-cache` (clocks, `clearTimeout` on re-put): assumed as described above. Time is an explicit integer argument.
- Floating-point payload values, `NaN`, objects and arrays: numbers are integers.
- JsValue.ToStr: renders every integer in decimal. JavaScript switches to exponent notation at 10^21 and loses precision above 2^53.
- What the `mqtt` client does when given a number rather than a string (the raw manufacturer code, the reset value 0): the model records the value handed over, not its encoding on the wire.
