# raspberry-pi-ping-led: the ping loop's bookkeeping, in Dafny

The program pings a host once a second, drives a GPIO pin high while packets
are being dropped, and shows live statistics on an ncurses screen. Its only
decision logic is the per-tick bookkeeping inside `ping_loop`: the packet
counters, the run of consecutive drops, the pending outage start, the outage
counter, and a bounded, most-recent-first list of `[start, end]` outage pairs,
plus the choice of which of those pairs the screen lists and how.

This project models that bookkeeping and proves its properties.

- `outage_list.dfy` (module `OutageList`) holds the outage pair and the two
  in-place edits the loop makes to the list. `Admit` is `array_unshift`
  followed by at most one `array_pop`. `Close` is the write `$outages[0][1] = …`.
- `outage_rows.dfy` (module `OutageRows`) holds the row decision. `RowFor`
  decides one entry, `Rows` specifies the whole list, and `RecentOutages` is
  the display `for` loop proved against `Rows`.
- `ping_loop.dfy` (module `PingLoop`) holds class `Monitor`. Its fields are the
  loop's local variables, and its method `Tick(ok, now)` is one pass of the loop
  body, split into `Reply` (the success branch) and `Drop` (the failure branch).
  `Monitor.Valid()` ties the counters to reference definitions over the ghost
  history of outcomes (`Drops`, `TrailingDrops`, `OutagesOpened`). It also keeps
  the list's shape: within its bound, only the head can be open, and the head
  is open only while the current run is at or past the threshold (for a
  capacity and a threshold of at least 1, exactly then).
  `DroppedRatio` is `bcdiv(dropped, total, 5)`. Client methods replay fixed tick
  sequences and check the resulting state.

Timestamps are abstract integers (seconds) supplied by the caller of `Tick`. The
probe outcome is a boolean parameter. The alert bit written to the pin and the
dropped ratio are results of `Tick`. The `bcadd` counters are unbounded naturals.

The code is modelled as written, including these behaviours:

- A reply after any drop writes the head entry's end, even when the run of
  drops was too short to open an outage. This rewrites the end time of an
  outage that was already closed (`ScenarioShortRunRewritesEnd`). On an
  empty list it creates an entry with an end and no start, which the
  screen then skips (`ScenarioShortRunFirst`). The pairing of `$outage_start`
  with `$outage_end` and the "[in progress]" label suggest that each outage
  is meant to be closed once, but the code does not enforce it.
- The pending start is assigned only when the previous tick also dropped. So
  the outage starts at the time of the drop that reaches the threshold. With
  a threshold of 1 it has no start at all, and the screen never lists it
  (`ScenarioThresholdOne`).
- The configuration is not validated. A threshold of 0 never opens an outage.
  A capacity of 0 still keeps one entry once a recovery or a second outage
  has put one there (`OutagesWithinBound`, `ScenarioCapacityZero`). An
  outage opened on an empty list is popped at once
  (`ScenarioCapacityZeroEmpty`).
- The loop never divides by zero: it counts the packet before computing the
  ratio, so `DroppedRatio` requires `total > 0`.

## Model

| member | source | states |
|---|---|---|
| `OutageList.Admit` | raspberry-pi-ping-led.php:102-103 | the new entry goes to the head; at most the oldest (tail) entry is dropped, exactly when the list exceeds the capacity; the others keep their order; a list within its bound stays within it |
| `OutageList.Close` | raspberry-pi-ping-led.php:79-81 | only the head's end changes, to the given time, whatever it held; an empty list gains one entry with an end and no start |
| `OutageRows.RowFor` | raspberry-pi-ping-led.php:119-127 | an entry is shown iff it has a start; it is "[in progress]" iff it has no end; otherwise its duration is end minus start seconds |
| `OutageRows.RecentOutages` | raspberry-pi-ping-led.php:116-129 | the header is drawn iff the list is non-empty; the loop produces exactly the rows `Rows` specifies |
| `OutageRows.RowsSound` | raspberry-pi-ping-led.php:118-128 | every line shown is RowFor's decision for the entry at its slot |
| `OutageRows.RowsComplete` | raspberry-pi-ping-led.php:118-120 | every entry that has a start gets a line |
| `OutageRows.RowsInOrder` | raspberry-pi-ping-led.php:118-128 | lines follow list order (most recent first), each entry at most once |
| `PingLoop.DropsAtMostTotal` | raspberry-pi-ping-led.php:76-97 | dropped packets never exceed total packets |
| `PingLoop.TrailingAtMostDrops` | raspberry-pi-ping-led.php:90-99 | the consecutive-drop count never exceeds the dropped count |
| `PingLoop.RunLength` | raspberry-pi-ping-led.php:90-99 | after a success, k drops in a row give a consecutive-drop count of k |
| `PingLoop.RunOpensOnce` | raspberry-pi-ping-led.php:99-102 | a run of k drops opens exactly one outage when 1 <= threshold <= k and none otherwise, never one per tick |
| `PingLoop.OpenedMonotone` | raspberry-pi-ping-led.php:100-101 | the number of outages opened never decreases as ticks are added |
| `PingLoop.DroppedRatio` | raspberry-pi-ping-led.php:84 | `bcdiv(dropped, total, 5)` in units of 1/100000: it lies in [0, 100000] when no more packets dropped than were sent, is 0 with no drops and 100000 when every packet dropped; defined only for total > 0, which the loop guarantees |
| `PingLoop.RatioMeaning` | raspberry-pi-ping-led.php:84 | the ratio is dropped/total truncated to 5 decimals: the largest r with r * total <= dropped * 100000 |
| `PingLoop.OutagesWithinBound` | raspberry-pi-ping-led.php:102-103 | in every reachable state the list holds at most `max_outages` entries, and at most one when `max_outages` is 0 |
| `PingLoop.CountersOrdered` | raspberry-pi-ping-led.php:76-99 | in every reachable state, consecutive drops <= dropped packets <= total packets |
| `PingLoop.InProgressOnlyAtHead` | raspberry-pi-ping-led.php:100-123 | at most one line is "[in progress]": the first one, and only while the current run is at or past the threshold |
| `PingLoop.Monitor.constructor` | raspberry-pi-ping-led.php:43-51 | all counters start at 0, no pending start, an empty list, an empty history |
| `PingLoop.Monitor.Tick` | raspberry-pi-ping-led.php:76-111 | one tick: the total grows by 1, the dropped count grows iff the probe failed, the run resets or grows, the alert bit is on iff the probe failed, and the ratio is recomputed; the outage counter grows iff this drop brings the run to the threshold exactly; the list is closed, admitted to, or left alone accordingly; the invariant is kept |
| `PingLoop.Monitor.Reply` | raspberry-pi-ping-led.php:78-91 | a success closes the head only if the previous tick dropped, leaves the list untouched otherwise, and resets the run and the pending start |
| `PingLoop.Monitor.Drop` | raspberry-pi-ping-led.php:93-105 | a failure sets the pending start to now iff the previous tick dropped; on reaching the threshold it counts the outage and admits a new open entry, whose start is now for a threshold of 2 or more and absent for a threshold of 1 |
| `PingLoop.FirstOutage` | raspberry-pi-ping-led.php:76-111 | with threshold 3 and capacity 2, the ticks ok, drop, drop, drop, drop, ok leave one outage, from tick 4 to tick 6 |
| `PingLoop.ShortOutage` | raspberry-pi-ping-led.php:93-104 | with threshold 2 and capacity 1, two drops and a reply count one more outage and leave it as the only entry, evicting the older one |

## Left out

- The ICMP probe `ping()` (raw socket, `microtime` latency in floating point) is left out. Its result is the boolean `ok`. A reply measured at exactly 0.0 seconds would count as a drop in the program, because the loop tests the latency's truthiness. The model does not capture that case.
- GPIO setup and output are left out. The pin value is the `alert` result of `Tick` (on iff the tick dropped).
- ncurses initialisation, colours and all string formatting (`sprintf`, `str_pad`) are left out, including the status line. That line prints the ratio with a `%` sign without multiplying it by 100. The model keeps the values a line is printed from.
- `date("Y-m-d h:i:s")` and `strtotime` are replaced by caller-supplied integer timestamps. The 12-hour format's ambiguity and its effect on durations are not modelled.
- The lock-file `while` driver, `touch` and `sleep(1)` are left out. The model exposes one tick.
- The local `$outage_end` is not a field. It is set and read inside the success branch and reset to null before the tick ends.
- Argument, CLI and root checks, exception handling, and the `array_merge` of default settings are left out. The threshold and the capacity are constructor parameters (naturals).
- `intval` saturating at the platform's largest integer for a huge consecutive-drop count is not modelled. The counters are unbounded.
- The source computes the dropped ratio inside each branch. The model computes it once, after the branch, from the same updated counters, so the value is the same.
