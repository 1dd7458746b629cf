# activity-api: the motion-sensor activity recorder, in Dafny

The service subscribes to the motion topics of an MQTT broker. It keeps the
time of each sensor's latest events in an in-memory dictionary and serves that
dictionary over HTTP. This project models the three pieces of logic in
`app.py`:

- the sensor id taken from a message topic, which is the part after the last
  `/` (module `Topic`, file `topic.dfy`);
- `add_activity`, the bounded per-sensor FIFO history. Each sensor id maps to
  its timestamps, oldest first. A new timestamp is appended. When the list
  then holds more than `HISTORY_LENGTH` (10) entries, its oldest entry is
  dropped. This is stated as a pure step on a `Store` value (module
  `ActivityStore`, file `store.dfy`) and carried out in place by the class
  `App.Recorder` (file `recorder.dfy`);
- the read view built by `get_activity`: one record per known sensor, with its
  id, its alias from `ALIASES` (or none), and its history as stored (module
  `ActivityView`, file `view.dfy`, and `App.Recorder.GetActivity`).

A Python `dict` iterates its keys in the order they were first inserted.
`get_activity` iterates that way, so the store keeps that key order (`order`)
beside the map (`activity`). The view therefore lists sensors in the order they
were first heard from.

The history cap is a constructor parameter of `Recorder`, which defaults to
`ActivityStore.HISTORY_LENGTH`, the source's value 10. A cap of 0 behaves as
the Python code would: the list is emptied again right after each append.

A topic always yields an id: `split('/')` returns at least one piece, and a
topic ending in `/` yields the empty id `""`, which is recorded like any other.
Histories are served oldest first, exactly as stored.

## Model

| member | source | states |
|---|---|---|
| Topic.Split | app.py:68 | `split('/')` never returns an empty list; no piece contains `/`; joining the pieces with `/` gives back the topic |
| Topic.LastSegment | app.py:68 | the id has no `/` and is a suffix of the topic. It is the whole topic when the topic has no `/`, otherwise a `/` stands right before it (the part after the last `/`) |
| Topic.LastSegmentUnique | app.py:68 | any `/`-free suffix that is the whole topic or follows a `/` equals the extracted id, so the id is exactly the text after the last `/` |
| ActivityStore.Pushed | app.py:53-57 | one append plus eviction: below the cap the list grows by the new timestamp. At the cap (non-empty) the oldest entry goes and the new one is appended, so the length stays the same. A list within the cap stays within it, and with a positive cap the new timestamp is last |
| ActivityStore.Record | app.py:44-57 | the key set gains exactly `id`; every other sensor's list is unchanged. An unseen id is appended to the key order and, with a positive cap, gets `[ts]`. A known id's list becomes `Pushed` of its old list, and the new timestamp ends it. The invariant (distinct keys in order, every list within the cap) is preserved |
| ActivityStore.LastNPush | app.py:53-57 | pushing onto the newest `cap` timestamps gives the newest `cap` timestamps of the extended stream |
| ActivityStore.RecordKeepsNewest | app.py:44-57 | one `add_activity` step keeps a sensor known exactly when it has timestamps, with its list the newest `cap` of them |
| ActivityStore.ReplayWellFormed | app.py:44-57 | any sequence of `add_activity` calls from the empty dictionary keeps every list within the cap and the key order duplicate-free and complete |
| ActivityStore.ReplayHistory | app.py:44-57 | after any event stream, a sensor is a key exactly when it sent an event, and its list is the newest `cap` of its timestamps in arrival order |
| ActivityStore.ReplayEvicts | app.py:53-57 | once a sensor has sent at least `cap` events, its list holds exactly `cap` entries, the newest ones; the older ones are gone |
| ActivityView.AliasOf | app.py:84 | `ALIASES.get(id, None)`: `Some` exactly when the id is configured, carrying its alias |
| ActivityView.View | app.py:81-91 | one record per key, in key order; each record holds the id, its alias lookup and the stored list unchanged |
| ActivityView.ViewExactlyOnce | app.py:81-91 | for a well-formed store a sensor appears in the view iff it is a key, no sensor appears twice, and its record carries its stored history and its alias or `None` |
| App.Recorder.constructor | app.py:31 | the recorder starts with no sensors, with the cap `HISTORY_LENGTH` (10) unless another is given, and with the invariant established |
| App.Recorder.AddActivity | app.py:44-57 | the in-place update equals `Record` on the old state: the key set gains `id`; other lists are unchanged. An unseen id gets `[ts]`. Below the cap the list gains `ts`; at the cap it loses its oldest entry and gains `ts`. The invariant is preserved |
| App.Recorder.HandleMessage | app.py:66-69 | a message records its time under the topic's last segment and changes nothing else |
| App.Recorder.GetActivity | app.py:80-93 | the loop builds exactly `View` of the current dictionary with the configured `ALIASES` |

## Left out

- The Flask application, the route decorator and `jsonify`: HTTP plumbing. `GetActivity` returns the records as values.
- The MQTT client configuration, the connect handler and the subscription: network I/O.
- The `print` calls and the `handle_logging` callback with its `LOG_LEVELS` table: logging side effects only.
- The clock: `datetime.utcnow().isoformat()` is replaced by a timestamp parameter. No ordering of timestamps is assumed.
- Concurrent delivery of MQTT callbacks, which mutate the unlocked global dictionary: the model is sequential.
- The message payload: the code never reads it.
- Python's arbitrary-length strings and lists map to Dafny's unbounded sequences; no size limits are modelled.
