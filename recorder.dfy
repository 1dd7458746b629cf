/** The service's mutable state and its three entry points: the MQTT
    message callback, add_activity, and the "/" read handler. The module-level
    dictionary `activity` becomes the fields of one Recorder object. */
module App {
  import opened ActivityStore
  import opened ActivityView
  import Topic

  class Recorder {
    /** The keys of `activity` in the order they were first inserted. */
    var order: seq<string>
    /** Each sensor's timestamps, oldest first. */
    var activity: map<string, seq<Timestamp>>
    /** HISTORY_LENGTH: the most timestamps kept per sensor. */
    const cap: nat

    /** The state as a value. */
    function Snapshot(): Store
      reads this
    {
      Store(order, activity)
    }

    ghost predicate Valid()
      reads this
    {
      WellFormed(Snapshot(), cap)
    }

    /** An empty recorder keeping at most `cap` timestamps per sensor, by
        default HISTORY_LENGTH. */
    constructor (cap: nat := HISTORY_LENGTH)
      ensures Valid()
      ensures this.cap == cap && Snapshot() == Empty
    {
      this.cap := cap;
      order := [];
      activity := map[];
    }

    /** add_activity(id), with `ts` standing for the clock reading. */
    method AddActivity(id: string, ts: Timestamp)
      requires Valid()
      modifies this
      ensures Valid()
      ensures Snapshot() == Record(old(Snapshot()), id, ts, cap)
      ensures activity.Keys == old(activity.Keys) + {id}
      ensures forall k :: k in old(activity) && k != id ==> activity[k] == old(activity[k])
      ensures id in old(activity) && |old(activity[id])| < cap ==> activity[id] == old(activity[id]) + [ts]
      ensures id in old(activity) && 0 < |old(activity[id])| == cap ==> activity[id] == old(activity[id])[1..] + [ts]
      ensures cap > 0 && id !in old(activity) ==> activity[id] == [ts]
      ensures cap > 0 ==> activity[id][|activity[id]| - 1] == ts
    {
      if id !in activity {
        activity := activity[id := []];
        order := order + [id];
      }
      var history := activity[id] + [ts];
      if |history| > cap {
        history := history[1..];
      }
      activity := activity[id := history];
    }

    /** handle_mqtt_message: the sensor id is the topic's last segment; the
        message payload is ignored. */
    method HandleMessage(topic: string, ts: Timestamp)
      requires Valid()
      modifies this
      ensures Valid()
      ensures Snapshot() == Record(old(Snapshot()), Topic.LastSegment(topic), ts, cap)
    {
      var id := Topic.LastSegment(topic);
      AddActivity(id, ts);
    }

    /** get_activity without the JSON encoding: one record per known sensor,
        in the order the sensors were first seen. */
    method GetActivity() returns (sensors: seq<SensorRecord>)
      requires Valid()
      ensures sensors == View(order, activity, ALIASES)
    {
      sensors := [];
      var i := 0;
      while i < |order|
        invariant 0 <= i <= |order|
        invariant sensors == View(order[..i], activity, ALIASES)
      {
        var id := order[i];
        var alias := AliasOf(ALIASES, id);
        var history := activity[id];
        sensors := sensors + [SensorRecord(id, alias, history)];
        assert order[..i + 1][..i] == order[..i];
        i := i + 1;
      }
      assert order[..i] == order;
    }
  }
}
