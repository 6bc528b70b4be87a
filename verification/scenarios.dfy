/**
 Concrete runs of the bridge on a one-field and a two-field registry:
 a heart-rate reading, a manufacturer code with and without a known
 vendor name, a zero reading, and a topic going quiet for a full
 time-to-live.
 */
module Scenarios {
  import opened JsValue
  import opened Topics
  import opened Registry
  import opened Pipeline
  import opened ExpiryCache

  const HEART_RATE: Field := Field("heartRate", "heartRate", true)
  const MANUFACTURER: Field := Field(MANUFACTURER_KEY, "manufacturer", false)
  const GARMIN: ManufacturerTable := map[Num(89) := "Garmin"]
  const HR_TOPIC: string := "antplus/HR/12/heartRate"
  const PWR_TOPIC: string := "antplus/PWR/7/manufacturer"

  lemma OneField(table: ManufacturerTable, f: Field, prefix: string, payload: Payload)
    ensures PublishData(table, [f], prefix, payload) == FieldActions(table, prefix, f, payload)
  {
    assert [f][1..] == [];
  }

  lemma HeartRateTopic()
    ensures Topic(Prefix("HR", 12), "heartRate") == HR_TOPIC
  {
    assert IntToString(12) == "12";
    assert Prefix("HR", 12) == "antplus/HR/12";
  }

  lemma PowerTopic()
    ensures Topic(Prefix("PWR", 7), "manufacturer") == PWR_TOPIC
  {
    assert IntToString(7) == "7";
    assert Prefix("PWR", 7) == "antplus/PWR/7";
  }

  lemma HeartRateActions(reading: int)
    requires reading != 0
    ensures OnAntData(GARMIN, [HEART_RATE], "HR", 12, map["heartRate" := Num(reading)])
         == [Publish(HR_TOPIC, Str(IntToString(reading))), CachePut(HR_TOPIC, Num(0), 60000)]
  {
    var prefix := Prefix("HR", 12);
    var payload := map["heartRate" := Num(reading)];
    HeartRateTopic();
    OneField(GARMIN, HEART_RATE, prefix, payload);
    assert Get(payload, HEART_RATE.key) == Num(reading);
    assert Format(GARMIN, HEART_RATE.key, Num(reading)) == Str(IntToString(reading));
  }

  lemma Decimal150()
    ensures IntToString(150) == "150"
  {
  }

  /** A heart-rate reading of 150 is published as the string "150" and its
      topic is put into the cache with 0 for a minute. */
  lemma HeartRateReading()
    ensures OnAntData(GARMIN, [HEART_RATE], "HR", 12, map["heartRate" := Num(150)])
         == [Publish(HR_TOPIC, Str("150")), CachePut(HR_TOPIC, Num(0), 60000)]
  {
    HeartRateActions(150);
    Decimal150();
  }

  /** A known manufacturer code is published as the vendor name; an unknown
      code, or one mapped to an empty name, is handed over as the number itself. */
  lemma ManufacturerReading()
    ensures OnAntData(GARMIN, [MANUFACTURER], "PWR", 7, map[MANUFACTURER_KEY := Num(89)])
         == [Publish(PWR_TOPIC, Str("Garmin"))]
    ensures OnAntData(map[], [MANUFACTURER], "PWR", 7, map[MANUFACTURER_KEY := Num(89)])
         == [Publish(PWR_TOPIC, Num(89))]
    ensures OnAntData(map[Num(89) := ""], [MANUFACTURER], "PWR", 7, map[MANUFACTURER_KEY := Num(89)])
         == [Publish(PWR_TOPIC, Num(89))]
  {
    var payload := map[MANUFACTURER_KEY := Num(89)];
    PowerTopic();
    assert Get(payload, MANUFACTURER.key) == Num(89);
    OneField(GARMIN, MANUFACTURER, Prefix("PWR", 7), payload);
    OneField(map[], MANUFACTURER, Prefix("PWR", 7), payload);
    OneField(map[Num(89) := ""], MANUFACTURER, Prefix("PWR", 7), payload);
  }

  /** A reading of 0 produces no action at all, for either field. */
  lemma ZeroReading()
    ensures OnAntData(GARMIN, [HEART_RATE, MANUFACTURER], "HR", 12,
                      map["heartRate" := Num(0), MANUFACTURER_KEY := Num(0)]) == []
  {
    var registry := [HEART_RATE, MANUFACTURER];
    var prefix := Prefix("HR", 12);
    var payload := map["heartRate" := Num(0), MANUFACTURER_KEY := Num(0)];
    assert registry[1..] == [MANUFACTURER];
    OneField(GARMIN, MANUFACTURER, prefix, payload);
    assert PublishData(GARMIN, registry, prefix, payload)
        == FieldActions(GARMIN, prefix, HEART_RATE, payload) + PublishData(GARMIN, [MANUFACTURER], prefix, payload);
  }

  /** A heart-rate data event at `now`: the reading is published and the
      topic re-armed to fire one time-to-live later. */
  lemma HeartRateStep(cache: Cache, now: int, reading: int)
    requires reading != 0
    ensures Step(GARMIN, [HEART_RATE], cache, now, AntData("HR", 12, map["heartRate" := Num(reading)]))
         == Outcome(cache[HR_TOPIC := Entry(Num(0), now + 60000)], [Publish(HR_TOPIC, Str(IntToString(reading)))])
  {
    HeartRateActions(reading);
    var acts := [Publish(HR_TOPIC, Str(IntToString(reading))), CachePut(HR_TOPIC, Num(0), 60000)];
    assert Publishes(acts[1..]) == [];
    var c := cache[HR_TOPIC := Entry(Num(0), now + 60000)];
    assert Apply(cache, acts[1..], now) == Apply(c, acts[1..][1..], now);
  }

  /** A reading at `t0` followed by silence: the timer firing one
      millisecond early does nothing; one time-to-live after the reading the
      topic is reset to 0 once and its cache entry is gone; a later firing
      sends nothing. */
  lemma QuietTopicIsReset(reading: int, t0: int, later: int)
    requires reading != 0
    requires t0 + 60000 <= later
    ensures var s0 := Step(GARMIN, [HEART_RATE], map[], t0, AntData("HR", 12, map["heartRate" := Num(reading)]));
      var s1 := Step(GARMIN, [HEART_RATE], s0.cache, t0 + 59999, TimerFires(HR_TOPIC));
      var s2 := Step(GARMIN, [HEART_RATE], s1.cache, t0 + 60000, TimerFires(HR_TOPIC));
      var s3 := Step(GARMIN, [HEART_RATE], s2.cache, later, TimerFires(HR_TOPIC));
      && s0.sent == [Publish(HR_TOPIC, Str(IntToString(reading)))]
      && s1.sent == []
      && s2.sent == [Publish(HR_TOPIC, Num(0))]
      && s3.sent == []
      && HR_TOPIC !in s3.cache
  {
    HeartRateStep(map[], t0, reading);
  }

  /** A second reading within the time-to-live postpones the reset: a timer
      due for the first reading finds the topic not yet due, and the entry
      now fires one time-to-live after the second reading. */
  lemma ReadingPostponesReset(r0: int, r1: int, t0: int, t1: int, t2: int)
    requires r0 != 0 && r1 != 0
    requires t0 <= t1 && t2 < t1 + 60000
    ensures var s0 := Step(GARMIN, [HEART_RATE], map[], t0, AntData("HR", 12, map["heartRate" := Num(r0)]));
      var s1 := Step(GARMIN, [HEART_RATE], s0.cache, t1, AntData("HR", 12, map["heartRate" := Num(r1)]));
      var s2 := Step(GARMIN, [HEART_RATE], s1.cache, t2, TimerFires(HR_TOPIC));
      && s1.sent == [Publish(HR_TOPIC, Str(IntToString(r1)))]
      && s2.sent == []
      && s2.cache == map[HR_TOPIC := Entry(Num(0), t1 + 60000)]
  {
    var c1 := map[HR_TOPIC := Entry(Num(0), t0 + 60000)];
    HeartRateStep(map[], t0, r0);
    HeartRateStep(c1, t1, r1);
    assert c1[HR_TOPIC := Entry(Num(0), t1 + 60000)] == map[HR_TOPIC := Entry(Num(0), t1 + 60000)];
  }
}
