/** Extraction of a sensor id from an MQTT topic: the id is the last
    '/'-separated segment of the topic (Python's `topic.split('/')[-1]`). */
module Topic {

  /** The topic level separator. */
  const Sep: char := '/'

  /** The inverse of Split: the parts glued back together with Sep between
      consecutive parts (Python's `'/'.join(parts)`). */
  function Join(parts: seq<string>): string
    requires |parts| >= 1
  {
    if |parts| == 1 then parts[0] else parts[0] + [Sep] + Join(parts[1..])
  }

  /** Python's `s.split('/')`: the maximal Sep-free pieces of `s`, in order.
      It never returns an empty list; an empty string splits into [""]. */
  function Split(s: string): (parts: seq<string>)
    ensures |parts| >= 1
    ensures forall i :: 0 <= i < |parts| ==> Sep !in parts[i]
    ensures Join(parts) == s
  {
    if s == [] then [""]
    else
      var rest := Split(s[1..]);
      if s[0] == Sep then
        assert ([""] + rest)[1..] == rest;
        [""] + rest
      else
        JoinPrepend(s[0], rest);
        assert s == [s[0]] + s[1..];
        [[s[0]] + rest[0]] + rest[1..]
  }

  /** Prepending a character to the first part prepends it to the join. */
  lemma {:induction false} JoinPrepend(c: char, parts: seq<string>)
    requires |parts| >= 1
    ensures Join([[c] + parts[0]] + parts[1..]) == [c] + Join(parts)
  {
  }

  /** The last part sits at the end of the joined string; when there is more
      than one part, a separator stands right before it. */
  lemma {:induction false} JoinEndsWithLast(parts: seq<string>)
    requires |parts| >= 1
    ensures var j, last := Join(parts), parts[|parts| - 1];
            && |last| <= |j|
            && j[|j| - |last|..] == last
            && (|parts| == 1 ==> j == last)
            && (|parts| > 1 ==> |last| < |j| && j[|j| - |last| - 1] == Sep)
  {
    if |parts| > 1 {
      var tail := parts[1..];
      JoinEndsWithLast(tail);
      var j, jt, last := Join(parts), Join(tail), parts[|parts| - 1];
      assert tail[|tail| - 1] == last;
      assert j == parts[0] + [Sep] + jt;
      var off := |parts[0]| + 1;
      assert j[off..] == jt;
      if |tail| == 1 {
        assert jt == last;
        assert j[|j| - |last| - 1] == Sep;
      } else {
        assert j[|j| - |last| - 1] == jt[|jt| - |last| - 1];
      }
      assert j[|j| - |last|..] == jt[|jt| - |last|..];
    }
  }

  /** The sensor id carried by a topic: the text after the last Sep, or the
      whole topic when it has no Sep. A topic ending in Sep yields "". */
  function LastSegment(topic: string): (id: string)
    ensures Sep !in id
    ensures |id| <= |topic| && topic[|topic| - |id|..] == id
    ensures Sep !in topic ==> id == topic
    ensures Sep in topic ==> |id| < |topic| && topic[|topic| - |id| - 1] == Sep
  {
    var parts := Split(topic);
    JoinEndsWithLast(parts);
    parts[|parts| - 1]
  }

  /** The contract of LastSegment pins its result down: any Sep-free suffix
      of the topic that is the whole topic or follows a Sep is the id. */
  lemma LastSegmentUnique(topic: string, w: string)
    requires Sep !in w
    requires |w| <= |topic| && topic[|topic| - |w|..] == w
    requires w == topic || (|w| < |topic| && topic[|topic| - |w| - 1] == Sep)
    ensures w == LastSegment(topic)
  {
  }

}
