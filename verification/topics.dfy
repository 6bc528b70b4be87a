/**
 MQTT topic strings of the bridge: `antplus/<profile>/<deviceId>` as the
 prefix of one sensor's data event, and `<prefix>/<field name>` as the topic
 of one field. A topic is also the key of the expiry cache.

 `Split` and `Join` on the level separator `/` are the partners used to show
 that a topic determines the profile, device and field it was built from.
 */
module Topics {
  import opened JsValue

  /** The first level of every topic the bridge publishes to. */
  const MAIN_TOPIC: string := "antplus"

  /** The prefix of one data event: `antplus/<profile>/<deviceId>`. */
  function Prefix(profile: string, deviceId: int): string {
    MAIN_TOPIC + "/" + profile + "/" + IntToString(deviceId)
  }

  /** The topic of one field under a prefix: `<prefix>/<name>`. */
  function Topic(prefix: string, name: string): string {
    prefix + "/" + name
  }

  /** Splits a string into its `/`-separated levels; never empty. */
  function Split(s: string): (r: seq<string>)
    ensures |r| >= 1
    decreases |s|
  {
    if |s| == 0 then [""]
    else
      var rest := Split(s[1..]);
      if s[0] == '/' then [""] + rest else [[s[0]] + rest[0]] + rest[1..]
  }

  /** Joins levels with `/`. */
  function Join(levels: seq<string>): string
    requires |levels| >= 1
    decreases |levels|
  {
    if |levels| == 1 then levels[0] else levels[0] + "/" + Join(levels[1..])
  }

  predicate NoSeparator(levels: seq<string>) {
    forall i :: 0 <= i < |levels| ==> '/' !in levels[i]
  }

  /** A level without a separator splits to itself. */
  lemma {:induction false} SplitLevel(a: string)
    requires '/' !in a
    ensures Split(a) == [a]
    decreases |a|
  {
    if |a| > 0 {
      assert '/' !in a[1..] by {
        forall i | 0 <= i < |a[1..]| ensures a[1..][i] != '/' {
          assert a[1..][i] == a[i + 1];
        }
      }
      SplitLevel(a[1..]);
      assert [a[0]] + a[1..] == a;
    }
  }

  /** Splitting after a separator-free level peels that level off. */
  lemma {:induction false} SplitCons(a: string, b: string)
    requires '/' !in a
    ensures Split(a + "/" + b) == [a] + Split(b)
    decreases |a|
  {
    var s := a + "/" + b;
    if |a| == 0 {
      assert s[0] == '/';
      assert s[1..] == b;
    } else {
      assert s[0] == a[0];
      assert s[1..] == a[1..] + "/" + b;
      assert '/' !in a[1..] by {
        forall i | 0 <= i < |a[1..]| ensures a[1..][i] != '/' {
          assert a[1..][i] == a[i + 1];
        }
      }
      SplitCons(a[1..], b);
      assert [a[0]] + a[1..] == a;
    }
  }

  /** `Split` undoes `Join` when no level contains a separator. */
  lemma {:induction false} SplitJoin(levels: seq<string>)
    requires |levels| >= 1
    requires NoSeparator(levels)
    ensures Split(Join(levels)) == levels
    decreases |levels|
  {
    if |levels| == 1 {
      SplitLevel(levels[0]);
    } else {
      assert NoSeparator(levels[1..]) by {
        forall i | 0 <= i < |levels[1..]| ensures '/' !in levels[1..][i] {
          assert levels[1..][i] == levels[i + 1];
        }
      }
      SplitJoin(levels[1..]);
      SplitCons(levels[0], Join(levels[1..]));
      assert [levels[0]] + levels[1..] == levels;
    }
  }

  /** A field topic is the four levels `antplus`, profile, device id and field name. */
  lemma FieldTopicLevels(profile: string, deviceId: int, name: string)
    requires '/' !in profile && '/' !in name
    ensures Split(Topic(Prefix(profile, deviceId), name))
         == [MAIN_TOPIC, profile, IntToString(deviceId), name]
  {
    var levels := [MAIN_TOPIC, profile, IntToString(deviceId), name];
    assert Join(levels[3..]) == name;
    assert Join(levels[2..]) == IntToString(deviceId) + "/" + name;
    assert Join(levels[1..]) == profile + "/" + IntToString(deviceId) + "/" + name;
    assert Topic(Prefix(profile, deviceId), name) == Join(levels);
    SplitJoin(levels);
  }

  /** Distinct (profile, device, field name) triples never share a topic, so
      each of them has its own expiry-cache entry. */
  lemma FieldTopicInjective(p1: string, d1: int, n1: string, p2: string, d2: int, n2: string)
    requires '/' !in p1 && '/' !in n1 && '/' !in p2 && '/' !in n2
    ensures Topic(Prefix(p1, d1), n1) == Topic(Prefix(p2, d2), n2)
        <==> p1 == p2 && d1 == d2 && n1 == n2
  {
    FieldTopicLevels(p1, d1, n1);
    FieldTopicLevels(p2, d2, n2);
    if Topic(Prefix(p1, d1), n1) == Topic(Prefix(p2, d2), n2) {
      IntToStringInjective(d1, d2);
    }
  }

  /** Under one prefix, the field name determines the topic. */
  lemma TopicNameInjective(prefix: string, n1: string, n2: string)
    ensures Topic(prefix, n1) == Topic(prefix, n2) <==> n1 == n2
  {
    if Topic(prefix, n1) == Topic(prefix, n2) {
      var k := |prefix| + 1;
      assert Topic(prefix, n1)[k..] == n1;
      assert Topic(prefix, n2)[k..] == n2;
    }
  }
}
