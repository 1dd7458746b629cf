/** The recorder's state as a value: the `activity` dictionary of app.py,
    mapping each sensor id to its list of timestamps, oldest first, with at
    most a fixed number of entries per sensor. A Python dict remembers the
    order in which its keys were first inserted, and the read view iterates
    in that order, so the store keeps that order beside the map. */
module ActivityStore {

  /** Timestamps are opaque: the clock and its ISO 8601 formatting are
      outside the model, and nothing assumes they increase. */
  type Timestamp = string

  /** The default cap on each sensor's history. */
  const HISTORY_LENGTH: nat := 10

  /** The dictionary `activity`: its keys in insertion order, and the map. */
  datatype Store = Store(order: seq<string>, activity: map<string, seq<Timestamp>>)

  /** A sensor event as the recorder receives it. */
  datatype Event = Event(sensor: string, at: Timestamp)

  const Empty: Store := Store([], map[])

  /** The invariant the recorder keeps: the key order lists every key of the
      map exactly once, and no history is longer than the cap. */
  ghost predicate WellFormed(s: Store, cap: nat) {
    && (forall i, j :: 0 <= i < j < |s.order| ==> s.order[i] != s.order[j])
    && (forall k :: k in s.activity <==> k in s.order)
    && (forall k :: k in s.activity ==> |s.activity[k]| <= cap)
  }

  /** One history after `append(ts)` and, when it is then over the cap, one
      `pop(0)`. */
  function Pushed(history: seq<Timestamp>, ts: Timestamp, cap: nat): (r: seq<Timestamp>)
    ensures |history| < cap ==> r == history + [ts]
    ensures 0 < |history| && cap <= |history| ==> r == history[1..] + [ts]
    ensures |history| <= cap ==> |r| <= cap
    ensures cap > 0 ==> |r| > 0 && r[|r| - 1] == ts
  {
    var appended := history + [ts];
    if |appended| > cap then appended[1..] else appended
  }

  /** add_activity(id) with the clock reading `ts`: an unseen sensor first
      gets an empty list, then the new timestamp is pushed onto its list. */
  function Record(s: Store, id: string, ts: Timestamp, cap: nat): (r: Store)
    ensures r.activity.Keys == s.activity.Keys + {id}
    ensures forall k :: k in s.activity && k != id ==> r.activity[k] == s.activity[k]
    ensures id in s.activity ==> r.order == s.order
    ensures id !in s.activity ==> r.order == s.order + [id]
    ensures cap > 0 ==> |r.activity[id]| > 0 && r.activity[id][|r.activity[id]| - 1] == ts
    ensures cap > 0 && id !in s.activity ==> r.activity[id] == [ts]
    ensures id in s.activity ==> r.activity[id] == Pushed(s.activity[id], ts, cap)
    ensures WellFormed(s, cap) ==> WellFormed(r, cap)
  {
    var history := if id in s.activity then s.activity[id] else [];
    var order := if id in s.activity then s.order else s.order + [id];
    Store(order, s.activity[id := Pushed(history, ts, cap)])
  }

  /** The store after a stream of events delivered one by one to an empty
      recorder. */
  function Replay(events: seq<Event>, cap: nat): Store {
    if events == [] then Empty
    else
      var e := events[|events| - 1];
      Record(Replay(events[..|events| - 1], cap), e.sensor, e.at, cap)
  }

  /** Every timestamp of `events` that belongs to sensor `id`, in arrival order. */
  function StampsOf(events: seq<Event>, id: string): seq<Timestamp> {
    if events == [] then []
    else
      var e := events[|events| - 1];
      StampsOf(events[..|events| - 1], id) + (if e.sensor == id then [e.at] else [])
  }

  /** The newest `n` elements of `s`, oldest first. */
  function LastN(s: seq<Timestamp>, n: nat): (r: seq<Timestamp>)
    ensures |r| == if |s| <= n then |s| else n
    ensures r == s[|s| - |r|..]
  {
    if |s| <= n then s else s[|s| - n..]
  }

  /** Pushing onto the newest `n` elements keeps the newest `n` of the longer
      stream: the FIFO cap never loses an element it should keep. */
  lemma LastNPush(s: seq<Timestamp>, t: Timestamp, n: nat)
    ensures Pushed(LastN(s, n), t, n) == LastN(s + [t], n)
  {
  }

  /** A store built from an empty recorder always satisfies the invariant. */
  lemma {:induction false} ReplayWellFormed(events: seq<Event>, cap: nat)
    ensures WellFormed(Replay(events, cap), cap)
  {
    if events != [] {
      ReplayWellFormed(events[..|events| - 1], cap);
    }
  }

  /** After any stream of events, a sensor is known exactly when it has sent
      an event, and its history is the newest `cap` of its timestamps in
      arrival order. */
  lemma {:induction false} ReplayHistory(events: seq<Event>, cap: nat, id: string)
    ensures id in Replay(events, cap).activity <==> StampsOf(events, id) != []
    ensures id in Replay(events, cap).activity ==>
              Replay(events, cap).activity[id] == LastN(StampsOf(events, id), cap)
  {
    if events != [] {
      var init, e := events[..|events| - 1], events[|events| - 1];
      ReplayHistory(init, cap, id);
      RecordKeepsNewest(Replay(init, cap), e, cap, id, StampsOf(init, id));
    }
  }

  /** One add_activity step keeps "the history of `id` is the newest `cap`
      of its timestamps so far". */
  lemma RecordKeepsNewest(s: Store, e: Event, cap: nat, id: string, stamps: seq<Timestamp>)
    requires id in s.activity <==> stamps != []
    requires id in s.activity ==> s.activity[id] == LastN(stamps, cap)
    ensures var r, stamps' := Record(s, e.sensor, e.at, cap), stamps + (if e.sensor == id then [e.at] else []);
            && (id in r.activity <==> stamps' != [])
            && (id in r.activity ==> r.activity[id] == LastN(stamps', cap))
  {
    if e.sensor == id {
      LastNPush(stamps, e.at, cap);
    }
  }

  /** Bounded eviction: once a sensor has sent at least `cap` events, its
      history holds exactly `cap` timestamps, the newest ones; the older ones
      are gone. */
  lemma ReplayEvicts(events: seq<Event>, cap: nat, id: string)
    requires StampsOf(events, id) != []
    requires cap <= |StampsOf(events, id)|
    ensures var stamps := StampsOf(events, id);
            && id in Replay(events, cap).activity
            && Replay(events, cap).activity[id] == stamps[|stamps| - cap..]
            && |Replay(events, cap).activity[id]| == cap
  {
    var stamps := StampsOf(events, id);
    ReplayHistory(events, cap, id);
    assert LastN(stamps, cap) == stamps[|stamps| - cap..];
  }
}
