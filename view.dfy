/** The read view served at "/": one record per known sensor, holding its
    id, its configured alias if any, and its history exactly as stored. */
module ActivityView {
  import opened ActivityStore

  datatype Option<T> = None | Some(value: T)

  /** The configured display names of some sensors. */
  const ALIASES: map<string, string> := map[
    "14693767" := "isel",
    "91150" := "robo",
    "14694519" := "säätöpöytä",
    "14693932" := "lounge"
  ]

  /** One entry of the view. */
  datatype SensorRecord = SensorRecord(id: string, alias: Option<string>, history: seq<Timestamp>)

  /** `aliases.get(id, None)`. */
  function AliasOf(aliases: map<string, string>, id: string): (r: Option<string>)
    ensures r.Some? <==> id in aliases
    ensures r.Some? ==> r.value == aliases[id]
  {
    if id in aliases then Some(aliases[id]) else None
  }

  /** The record the view builds for sensor `id`. */
  function RecordFor(activity: map<string, seq<Timestamp>>, aliases: map<string, string>, id: string): SensorRecord
    requires id in activity
  {
    SensorRecord(id, AliasOf(aliases, id), activity[id])
  }

  /** The records for the keys `order`, in that order. */
  function View(order: seq<string>, activity: map<string, seq<Timestamp>>, aliases: map<string, string>): (r: seq<SensorRecord>)
    requires forall k :: k in order ==> k in activity
    ensures |r| == |order|
    ensures forall i :: 0 <= i < |r| ==> r[i] == RecordFor(activity, aliases, order[i])
  {
    if order == [] then []
    else
      var n := |order| - 1;
      View(order[..n], activity, aliases) + [RecordFor(activity, aliases, order[n])]
  }

  /** For a well-formed store the view has exactly one record per known
      sensor, in first-seen order, carrying that sensor's stored history and
      its alias, or None when it has none. */
  lemma ViewExactlyOnce(s: Store, cap: nat, aliases: map<string, string>, id: string)
    requires WellFormed(s, cap)
    ensures id in s.activity ==> exists i :: 0 <= i < |s.order| && View(s.order, s.activity, aliases)[i].id == id
    ensures forall i :: 0 <= i < |s.order| && View(s.order, s.activity, aliases)[i].id == id ==> id in s.activity
    ensures forall i, j :: 0 <= i < j < |s.order| ==>
              View(s.order, s.activity, aliases)[i].id != View(s.order, s.activity, aliases)[j].id
    ensures forall i :: 0 <= i < |s.order| && View(s.order, s.activity, aliases)[i].id == id ==>
              View(s.order, s.activity, aliases)[i].history == s.activity[id] &&
              View(s.order, s.activity, aliases)[i].alias == AliasOf(aliases, id)
  {
    var r := View(s.order, s.activity, aliases);
    if id in s.activity {
      var i :| 0 <= i < |s.order| && s.order[i] == id;
      assert r[i] == RecordFor(s.activity, aliases, id);
      assert exists i :: 0 <= i < |r| && r[i].id == id;
    }
  }
}
