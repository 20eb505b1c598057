/** The bounded, most-recent-first list of outages kept by the ping loop, and the
    two in-place edits the loop makes to it: prepending a new outage (with the
    eviction of the oldest one when the list is over its capacity) and writing the
    end time of the head entry when the host answers again. */
module OutageList {

  datatype Option<T> = None | Some(value: T)

  /** One `[start, end]` pair of the outage list. A timestamp is an abstract
      integer (seconds); `None` stands for the PHP `null` the loop stores. */
  datatype Outage = Outage(started: Option<int>, ended: Option<int>)

  /** The most entries the list can hold for a configured `max_outages` of `cap`.
      A capacity of 0 still lets one entry through: a recovery on an empty list
      creates one, and an unshift followed by a single pop keeps one. */
  function Bound(cap: nat): (b: nat)
    ensures b >= 1 && b >= cap
    ensures cap >= 1 ==> b == cap
  {
    if cap == 0 then 1 else cap
  }

  /** `array_unshift` of `e`, then one `array_pop` when the list is longer than
      `cap`. Only the tail (the oldest entry) can go; everything else keeps its
      order behind the new head. */
  function Admit(os: seq<Outage>, e: Outage, cap: nat): (r: seq<Outage>)
    ensures |r| == if |os| + 1 > cap then |os| else |os| + 1
    ensures r == ([e] + os)[..|r|]
    ensures |os| <= Bound(cap) ==> |r| <= Bound(cap)
    ensures |r| > 0 ==> r[0] == e && r[1..] == os[..|r| - 1]
  {
    var pushed := [e] + os;
    if |pushed| > cap then pushed[..|pushed| - 1] else pushed
  }

  /** `$outages[0][1] = t`: the head entry gets end time `t`, whatever it held
      before; on an empty list PHP creates an entry that has an end and no start. */
  function Close(os: seq<Outage>, t: int): (r: seq<Outage>)
    ensures |r| == if os == [] then 1 else |os|
    ensures r[0].ended == Some(t)
    ensures r[0].started == if os == [] then None else os[0].started
    ensures forall i :: 1 <= i < |r| ==> r[i] == os[i]
  {
    if os == [] then [Outage(None, Some(t))] else os[0 := os[0].(ended := Some(t))]
  }
}
