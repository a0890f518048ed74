# imperva-events: a Dafny model of the poller core

`imperva-events` polls Imperva's infrastructure-events API on a timer. It
keeps a watermark: the latest event time that `GetNewEvents` has returned.
The watermark moves when the events are fetched, before any of them is sent,
whatever the sends return. Every event newer than the watermark is forwarded
to a list of outputs (Stdout, and optionally Slack and Grafana). This project models the core of that loop and proves its
contracts:

- `Imperva.Imperva` is the `Imperva` struct as a class. It has the mutable
  watermark `lastEvent` and the output list `outputs`. Its methods are the
  constructor (`NewImperva`), `AddOutput`, `GetNewEvents`, the start of `Run`
  and one tick of `Run` (`Tick`).
- `Watermark` holds the filter-and-advance logic of `GetNewEvents`. Its
  specification functions (`NewerThan`, `MaxTime`, `Advanced`) take the
  function that gives an item its time as a parameter. The lemmas about
  selection, ordering, the watermark's maximality, idempotence and ignored
  items are proved there once.
- `Delivery` holds the nested send loop of a tick (`Dispatch`) and the
  specification of the attempts it makes (`FanOut`).
- `EventTime` is Go's `time.Parse` for the layout `"2006-01-02 15:04:05 UTC"`.
  It is used by `ImpervaEvent.GetTime`.
- `Common` is the `common.Event` record and its `String` method. `Utils` is
  `EnvGet`, with `strconv.Atoi` and `strconv.ParseBool`.

Time is modelled as whole nanoseconds since 0001-01-01 00:00:00 UTC, so Go's
zero `time.Time` is 0. The HTTP fetch is an input of type
`Result<seq<ImpervaEvent>, FetchError>`. There is one error variant for each
of the three failure points: the request, reading the body, and decoding the
JSON. What the network answers to the Slack and Grafana sends is also an
input, `net: nat -> SendResult`. `net(k)` answers attempt number `k` of the
tick, so any pattern of failures can be expressed. `EnvGet` takes the
environment as a `map<string, string>`.

Facts about the code that shape the model:

- One feed is polled, the infrastructure-events endpoint, and one watermark,
  `lastEvent`, is kept for it.
- An event whose time does not parse gets the zero instant. It is therefore
  returned if the watermark is before year 1. `UnparsableIgnored` requires a
  watermark at or after zero for that reason. `NewImperva` starts the
  watermark at zero. `Run` sets it to `now - initInterval` minutes.
- A send reply is not returned to anyone. It is only logged when it is
  non-empty. The model records each attempt's result in the list of attempts.

## Model

| member | source | states |
|---|---|---|
| Common.EventString | pkg/common/event.go:11-13 | The result is the title, then ": ", then the body: its length is the sum plus 2, the title is a prefix and the body a suffix. |
| Common.RenderedSplitsBack | pkg/common/event.go:11-13 | When the title contains no ": ", splitting the rendered string at its first ": " gives back exactly the title and the body. |
| Utils.Atoi | pkg/common/utils.go:23-27 | An accepted string starts with a sign or a digit, only a '-' sign gives a negative value, and every accepted value fits a 64-bit int. |
| Utils.AtoiFormatInt | pkg/common/utils.go:23-28 | Every 64-bit int written in decimal is read back exactly by `Atoi`. |
| Utils.ParseBool | pkg/common/utils.go:29-33 | Exactly the twelve spellings 1/t/T/TRUE/true/True and 0/f/F/FALSE/false/False are accepted, and exactly the first six mean true. |
| Utils.EnvGet | pkg/common/utils.go:15-38 | An unset or empty variable yields the default unchanged, whatever its type. The result has the default's variant for int, bool and string defaults. A changed result is the raw string or a value that Atoi or ParseBool accepted. |
| Utils.EnvGetInt | pkg/common/utils.go:23-28 | With an int default, a set variable yields the int that Atoi reads from it, or the default when Atoi rejects it. |
| Utils.EnvGetBool | pkg/common/utils.go:29-34 | With a bool default, a true spelling yields true, a false spelling yields false, and anything else yields the default. |
| Utils.EnvGetVerbatim | pkg/common/utils.go:35-36 | With a default that is neither int nor bool, a set variable is returned verbatim as a string. |
| Utils.EnvGetFormattedInt | pkg/common/utils.go:22-28 | Setting a variable to the decimal form of any 64-bit int makes EnvGet with an int default return that int, so the `.(int)` assertions on its result hold. |
| Utils.EnvGetFormattedBool | pkg/common/utils.go:29-34 | Setting a variable to "true" or "false" makes EnvGet with a bool default return that bool. |
| EventTime.Fraction | pkg/imperva/imperva.go:51 | A fractional second that the layout does not mention but `time.Parse` accepts after the seconds gives nanoseconds in [0, 10^9). Without a '.' or ',' followed by a digit the input is returned whole with 0 nanoseconds. With one, every digit is consumed and what is left does not start with a digit. |
| EventTime.FractionReads | pkg/imperva/imperva.go:51 | A '.' or ',' then any run of digits is consumed entirely. Its first nine digits, scaled to nanoseconds, are the value, and the rest are dropped. |
| EventTime.NineDigitsRead | pkg/imperva/imperva.go:51 | Any nanosecond count written as nine digits after '.' reads back exactly. |
| EventTime.ParseLayout | pkg/imperva/imperva.go:51 | Every accepted string denotes a valid date: a year from 0 to 9999, a month from 1 to 12, a day within its month, and in-range clock fields. |
| EventTime.ParseFormat | pkg/imperva/imperva.go:51 | Parsing the canonical "YYYY-MM-DD HH:MM:SS UTC" text of any valid whole-second date gives that date back. |
| EventTime.ParseFormatNanos | pkg/imperva/imperva.go:51 | Parsing the text "YYYY-MM-DD HH:MM:SS.NNNNNNNNN UTC" of any valid date gives that date back, nanoseconds included. |
| EventTime.InstantOrder | pkg/imperva/imperva.go:50-56 | Instants order valid dates exactly as their fields order them lexicographically, and equal instants mean equal dates. So comparing parsed times as `After` does compares the dates themselves. |
| EventTime.InstantSign | pkg/imperva/imperva.go:50-56 | A valid date is at or after the zero instant iff its year is at least 1. |
| Imperva.GetTime | pkg/imperva/imperva.go:50-56 | An unparsable time gives the zero instant. A time is before zero iff it parses to a date in year 0. |
| Imperva.ImpervaEventString | pkg/imperva/imperva.go:58-60 | The result is the event type, a space, the target, " (POP: ", the POP and ")", with the matching length. |
| Imperva.Normalise | pkg/imperva/imperva.go:120-124 | The event sent for a fetched item has the item's parsed time, the title "Imperva event" and the item's String as its body. |
| Imperva.NormalisedRendering | pkg/imperva/imperva.go:120-124 | The line Stdout logs for a sent event starts with "Imperva event: " and splits back into the title and the item's description. |
| Imperva.UnparsableIgnored | pkg/imperva/imperva.go:91-99 | With a watermark at or after zero, an item whose time does not parse is never returned and does not change the result or the new watermark. |
| Watermark.NewerThanSelects | pkg/imperva/imperva.go:91-97 | The result is the feed restricted to exactly the positions whose time is strictly after the watermark, in increasing position order. |
| Watermark.NewerThanMembers | pkg/imperva/imperva.go:91-97 | An item is returned iff it occurs in the feed and its time is strictly after the watermark; an item equal to the watermark is excluded. |
| Watermark.NewerThanCounts | pkg/imperva/imperva.go:91-97 | Every copy of a newer item is returned, so items that share a new timestamp are all kept, and no copy of an older item is returned. |
| Watermark.MaxTimeIsMax | pkg/imperva/imperva.go:93-95 | The running maximum is at least its start, bounds every item's time, and is either the start or some item's time. |
| Watermark.AdvancedIsMax | pkg/imperva/imperva.go:91-99 | The new watermark never decreases. It is unchanged when nothing is returned. It is the old watermark or the time of a returned item. It bounds every feed item's time. |
| Watermark.Idempotent | pkg/imperva/imperva.go:91-99 | Filtering the same feed again from the new watermark returns nothing and leaves the watermark as it is. |
| Watermark.OldItemIrrelevant | pkg/imperva/imperva.go:91-99 | An item at or before the watermark can be removed from the feed without changing the result or the new watermark. |
| Watermark.ThreeItemScenario | pkg/imperva/imperva.go:91-99 | Items at 10 s before, 5 s after and 20 s after the watermark give exactly the last two, and the watermark moves to the latest. |
| Delivery.SendToAllAt | pkg/imperva/imperva.go:125-133 | Sending one event makes one attempt for each output, in list order. Attempt j goes to output j with the answer for its own number. |
| Delivery.FanOutLength | pkg/imperva/imperva.go:119-134 | A tick makes exactly (number of events) × (number of outputs) send attempts. |
| Delivery.FanOutSlot | pkg/imperva/imperva.go:119-134 | Attempt number i·M+j sends event i to output j, whatever the earlier attempts returned. Events are the outer loop and outputs the inner one. |
| Delivery.FanOutAt | pkg/imperva/imperva.go:119-134 | Both facts for all events and outputs: N×M attempts, and attempt i·M+j sends event i to output j. |
| Delivery.EveryEventReachesEveryOutput | pkg/imperva/imperva.go:119-134 | For every event and every output, some attempt of the tick sends that event to that output. |
| Delivery.Dispatch | pkg/imperva/imperva.go:119-134 | The nested loop makes exactly the attempts of FanOut: N×M of them, attempt i·M+j sending the normalised event i to output j. A failed send does not stop the loop. |
| Output.Send | pkg/output/stdout.go:11-14 | Stdout always succeeds with an empty reply. Slack and Grafana answer whatever the transport answered. |
| Imperva.Imperva.constructor | pkg/imperva/imperva.go:141-160 | A new poller keeps the credentials and account. Its watermark is the zero instant and its output list is exactly [Stdout]. |
| Imperva.Imperva.AddOutput | pkg/imperva/imperva.go:103-105 | The output is appended at the end. Earlier outputs and the watermark are unchanged. |
| Imperva.Imperva.GetNewEvents | pkg/imperva/imperva.go:66-101 | On a fetch error it returns nothing and the watermark is unchanged. Otherwise it returns the items strictly after the entry watermark, in feed order. The watermark becomes the maximum of the old one and their times, and it never decreases. |
| Imperva.Imperva.Run | pkg/imperva/imperva.go:107-108 | Starting sets the watermark to initInterval minutes before `now` and keeps the outputs. |
| Imperva.Imperva.Tick | pkg/imperva/imperva.go:113-135 | On a fetch error no send happens and the watermark is unchanged. Otherwise the new events are normalised and each is sent to every output: (new events) × (outputs) attempts, with the watermark advanced as GetNewEvents does. |
| Imperva.FetchTwice | pkg/imperva/imperva.go:66-101 | Calling GetNewEvents twice on the same feed returns nothing the second time. The watermark ends where the first call left it. |

## Left out

- HTTP request construction and its headers (pkg/imperva/imperva.go:143-151), `client.Do`, reading and closing the body, and `json.Unmarshal` are I/O. They are replaced by the `Feed` input. `http.NewRequest` with a constant method and URL cannot fail, so `NewImperva` is a constructor without an error path.
- `sync.RWMutex`, the ticker goroutine and the `sync.WaitGroup` (pkg/imperva/imperva.go:45, 67-68, 109-114, 135-137) exist for concurrency. Ticks are modelled one at a time with `Tick`. The `wg.Done()` after the endless loop can never run.
- `time.Now()` (pkg/imperva/imperva.go:108) is the parameter `now` of `Run`. `pollInterval` only sets the ticker and is not modelled.
- Imperva.Imperva.Run: does not model the int64 overflow of `time.Duration(-initInterval) * time.Minute`, because the model's integers are unbounded.
- Logging with zerolog (failed fetches, failed sends, non-empty replies) is output only. The model keeps each send's result in the returned attempts instead.
- `ImpervaEvent.toJson` (pkg/imperva/imperva.go:62-64) is never called and wraps `json.Marshal`.
- The Slack and Grafana outputs (pkg/output/slack.go, pkg/output/grafana.go) call vendor clients that are not part of this model. They format dates with Go's `time` package. Only their success or failure, supplied by `net`, is modelled.
- cmd/root.go, the flag and environment wiring, is not part of this model. The `.(int)` and `.(string)` assertions there are covered by the `EnvGet` variant lemmas.
- `GetTime` models `time.Time` as an instant only. The location and the monotonic clock reading play no part in `After`, and neither is modelled.
- EventTime.ParseLayout: accepts both '.' and ',' before a fractional second, as Go 1.17 and later do. Go releases before 1.17 accept only '.'.
- Utils.Atoi: assumes Go's `int` is 64 bits wide. On a 32-bit platform the accepted range is smaller.
