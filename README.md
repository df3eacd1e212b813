# Audio converter core in Dafny

The application converts dropped audio files to MP3 in the browser. It
has three parts at its core:

- a task queue that runs each pushed task through a processor, a limited
  number at a time, and reports each task once, as `complete` or `error`;
- a converter holding the selected bitrate setting. From that setting it
  builds the ffmpeg argument list, using a fixed table of five
  constant-bitrate (CBR) and ten variable-bitrate (VBR) settings;
- the page logic:
  - the name a converted file is saved under;
  - the bitrate drop-down built from the table for the selected type;
  - mapping the drop-down's reported value back to a table entry;
  - the state the two drop-downs hold.

The project is split into these modules:

- `Options` (`options.dfy`): the `Option` type. `None` stands for
  JavaScript's `undefined` where a lookup can fail.
- `Decimal` (`decimal.dfy`): how JavaScript renders an integer-valued
  number as a string (`toString()`, `${n}`), with a parser that inverts
  it. Both the argument list and the drop-down values depend on this
  rendering.
- `Converter` (`converter.dfy`): the bitrate table and the argument-list
  builder. `Converter.BuildCmd` appends one element at a time, as the
  source does. `ParseCmd` reads such a list back; the two are proved
  inverse in both directions (`BuildCmd`'s contract and
  `ParseCmdOnlyBuiltShape`). The `Converter` class has one
  mutable field, the selected setting. An entry's `label` is called
  `caption` here, because `label` is a reserved word in Dafny.
- `TaskQueue` (`queue.dfy`): the `Queue` class.
  - Its fields are the pending tasks, the running tasks and the log of
    notified events.
  - Ghost fields give every pushed task a ticket and follow that ticket
    from waiting, to running, to settled with exactly one event.
  - The invariant `Consistent` ties all of these together. Every
    state-changing method preserves it.
  - The scheduler that the source takes from async.queue is written out
    as explicit steps: `StartNext`, `Process`, `Settle`, `Finish` and
    `Drain`.
  - The processor is a parameter. It is either the outcome passed to
    `Settle` or a function from task to outcome for `Drain`.
- `App` (`app.dfy`): the page's own computations, as pure functions over
  a `Selection` value.

## Model

| member | source | states |
|---|---|---|
| TaskQueue.Queue.constructor | src/queue.ts:21-32 | A new queue uses the given concurrency (default 1) and is idle: nothing is pending, running or reported. |
| TaskQueue.Queue.Enqueue | src/queue.ts:38-40 | A task joins the back of the pending list. Nothing starts and no event is notified. |
| TaskQueue.Queue.Push | src/queue.ts:34-42 | A single task, or the tasks of an array in order, go behind the pending ones. Running tasks and events are unchanged, and the invariant is kept. |
| TaskQueue.Queue.StartNext | src/queue.ts:24-31 | When a slot is free, the oldest pending task moves to the running list and no event is notified. |
| TaskQueue.Queue.Process | src/queue.ts:24-31 | Starts exactly min(free slots, pending) tasks, oldest first. Ordering is preserved. Afterwards either pending is empty or every slot is taken. |
| TaskQueue.EventFor | src/queue.ts:24-31 | A settled call yields one event for its own task: `complete` with the result if fulfilled, `error` with the reason if rejected. |
| TaskQueue.Queue.Settle | src/queue.ts:25-30 | A settled call frees its slot and appends exactly `EventFor` of its task to the log. Its ticket becomes settled with that event's index. |
| TaskQueue.SettleConsistent | src/queue.ts:25-30 | Settling any running task preserves the queue invariant: ticket bijection, exactly-once reporting, and push order with one slot. |
| TaskQueue.Queue.Finish | src/queue.ts:24-31 | After a call settles, its event is logged and the freed slot is refilled from the pending list. If anything was pending, the pending list shrinks. |
| TaskQueue.Queue.SettleOldest | src/queue.ts:24-31 | One scheduler turn. The events logged so far, followed by the events of running the remaining tasks in order, stay the same. |
| TaskQueue.Queue.Drain | src/queue.ts:24-41 | Running until idle appends exactly `EventsOf(running + pending)`: one event per task in start order, each from that task's own outcome. |
| TaskQueue.EventsOfAt | src/queue.ts:24-31 | The k-th event of a run reports the k-th task with its own outcome, whatever the other tasks' outcomes are. |
| TaskQueue.FailureIsolation | src/queue.ts:24-31 | If the middle of three tasks fails, the events are complete, error, complete, in push order. |
| TaskQueue.Queue.AtMostOnce | src/queue.ts:25-30 | Two distinct events never report on the same pushed task. |
| TaskQueue.Queue.IdleMeansAllReported | src/queue.ts:24-41 | When the queue is idle, every pushed task has exactly one event. |
| TaskQueue.Queue.SequentialOrder | src/queue.ts:21-31 | With concurrency 1, the k-th event reports the k-th pushed task. |
| TaskQueue.Tasks | src/queue.ts:35 | A single task becomes a one-element list; an array of tasks stays as it is. |
| TaskQueue.Truthy | src/queue.ts:39 | JavaScript truthiness on the modelled values: exactly `undefined`, `null`, `false`, `0` and `""` are falsy. |
| TaskQueue.EventsAsWritten | src/queue.ts:24-40 | The events the code as written notifies: none exactly when the rejection reason is falsy, otherwise `EventFor` of the task. |
| TaskQueue.FalsyRejectionUnreported | src/queue.ts:38-40 | As written, a rejection with `undefined` or `""` produces no event. |
| TaskQueue.AsWrittenAgreesOnTruthyReasons | src/queue.ts:24-40 | For fulfilled calls and truthy rejection reasons, the code as written matches `EventFor`. |
| Converter.BitrateTableShape | src/converter.ts:67-86 | The table has 15 entries: 5 CBR entries first, then 10 VBR entries with quality 0..9 in order. No two entries share a value. |
| Converter.BitrateTableValues | src/converter.ts:67-86 | The CBR values are exactly {320, 256, 192, 128, 96} and the VBR values exactly {0, ..., 9}. |
| Converter.ParseCmd | src/converter.ts:19-52 | The inverse partner of the builder at these lines (nothing is parsed there): a list it accepts has six elements, with `-i` and `-vn` in place, and the input and output read from positions 1 and 5. |
| Converter.ParseCmdOnlyBuiltShape | src/converter.ts:19-52 | Every list `ParseCmd` accepts is exactly the built shape for the setting it reads: `-b:a <v>k` for CBR or `-q:a <v>` for VBR, with `<v>` the canonical rendering. Any other list gives `None`. |
| Converter.BuildCmd | src/converter.ts:19-52 | The list is exactly `-i input -vn`, then `-b:a <v>k` for CBR or `-q:a <v>` for VBR, then the output. `ParseCmd` recovers the setting. |
| Converter.Converter.constructor | src/converter.ts:88-94 | A new converter selects the first table entry, 320 kbps CBR. |
| Converter.Converter.SetBitrateOption | src/converter.ts:136-138 | The selected setting becomes the given one and nothing else changes. |
| Converter.Converter.ConvertCommand | src/converter.ts:122-126 | A conversion of file `id` writes `id.mp3`, encoded with the currently selected setting. |
| Decimal.NatToString | src/converter.ts:36-41 | The decimal rendering is all digits, non-empty, with no leading zero. |
| Decimal.IntToString | src/converter.ts:36-41 | The rendering of an integer value in the argument list and the drop-down: a minus sign exactly for negatives, then the canonical digits of the magnitude (never "-0"). |
| Decimal.ParseNat | src/App.tsx:116-121 | The inverse partner of the rendering used at these lines (nothing is parsed there): parsing succeeds exactly on canonical digit strings. |
| Decimal.IntRoundTrip | src/converter.ts:36-41 | Parsing the rendering of an integer gives the integer back. |
| Decimal.NatStringRoundTrip | src/App.tsx:116-121 | For the rendering used at these lines and its inverse partner: rendering a parsed canonical string gives the string back. |
| Decimal.ParseIntRendering | src/converter.ts:36-41 | For the rendering used at these lines and its inverse partner: every string `ParseInt` accepts is the rendering of the value it gives. |
| Decimal.IntToStringInjective | src/App.tsx:116-121 | About the rendering used at these lines: distinct integers render as distinct strings, so comparing rendered values compares the values. |
| App.RelativeIndex | src/App.tsx:52-55 | Where `slice` puts an argument: a non-negative one is clamped to the length, a negative one counts back from the end and is clamped to 0. |
| App.Slice | src/App.tsx:52-55 | `slice` gives a contiguous piece of the string starting at the resolved start. In range it is `s[start..end]`; from 0 with a negative end it drops that many characters from the end; it is empty when the resolved end is not after the resolved start. Its length is the resolved end minus the resolved start when positive, otherwise 0. |
| App.LastIndexOf | src/App.tsx:52-55 | Returns -1 exactly when there is no '.', otherwise the index of the last '.'. |
| App.DownloadStem | src/App.tsx:52-55 | The stem is a prefix of the name. With a '.', it ends just before the last '.'. Without one, it drops the last character, or is empty for an empty name. |
| App.DownloadName | src/App.tsx:58 | The saved name is the stem followed by ".mp3". |
| App.DownloadNameReplacesExtension | src/App.tsx:52-58 | `base.ext` with no '.' in `ext` is saved as `base.mp3`. |
| App.DownloadNameWithoutDot | src/App.tsx:52-58 | A non-empty name without a '.' loses its last character before ".mp3". |
| App.OptionsOfType | src/App.tsx:112-113 | An entry is listed exactly when it is in the table and has the selected type. |
| App.OptionsOfTypeAppend | src/App.tsx:112-113 | Filtering distributes over concatenation. |
| App.OptionsOfTypeSplit | src/App.tsx:112-113 | If a table is all of one type up to `n` and all of the other type after it, the filters return the two halves. |
| App.OptionsOfTypeInTable | src/App.tsx:112-113 | The CBR list is the first 5 table entries and the VBR list the other 10, in table order. |
| App.ToItems | src/App.tsx:114-117 | Each item is the entry's label with its value rendered in decimal, in the same order. |
| App.BitrateItems | src/App.tsx:112-117 | The drop-down has one item per entry of the selected type. Item k is entry k's label with its value in decimal, and entry k is a table entry of that type. |
| App.BitrateItemsListed | src/App.tsx:112-117 | The drop-down for each type holds the items of exactly that half of the table. |
| App.FindByValueString | src/App.tsx:120-122 | The result is the first table entry whose rendered value is the string: every entry before it renders differently. It is `None` exactly when no entry matches. |
| App.FindByOwnValue | src/App.tsx:120-122 | In a table without repeated values, looking up an entry's own value gives that entry. |
| App.LookupFindsListedOption | src/App.tsx:112-122 | Looking up the value of the k-th listed item gives the k-th listed entry. |
| App.InitialSelection | src/App.tsx:32-35 | The page opens on type CBR with the first table entry chosen. |
| App.InitialSelectionShown | src/App.tsx:32-35 | The initial choice is the first item of the initially shown list. |
| App.OnTypeChange | src/App.tsx:103-105 | Choosing a type changes the type only; the chosen entry stays. |
| App.OnBitrateChange | src/App.tsx:119-124 | The new choice is the table entry whose rendered value is the reported string, with the type unchanged. It is `None` (`undefined`) exactly when no entry matches. |
| App.ListedCount | src/App.tsx:112-113 | The drop-down lists 5 entries for CBR and 10 for VBR. |
| App.ChoosingListedEntry | src/App.tsx:112-124 | For every k below 5 (CBR) or 10 (VBR), the shown list has a k-th item, and picking it selects exactly the k-th listed entry. |
| App.TypeChangeKeepsHiddenChoice | src/App.tsx:103-118 | After switching from the initial state to VBR, the chosen entry is still 320 kbps CBR, and no shown item has its value. |

## Left out

- The processor itself, ffmpeg, file reading, `isValidAudioFile`,
  `Converter.load`, `crypto.randomUUID` and the browser download are I/O.
  - The processor's outcome is a parameter.
  - The file id is a parameter of `ConvertCommand`.
  - Only the argument list of `convert` is modelled.
- async.queue's internals are left out: timing, promise scheduling and
  the interleaving of concurrent calls. `Settle` lets any running task
  settle. `Drain` settles the oldest running task first, which is the
  only possible order when concurrency is 1.
- The subscriber list of `EventListener` is not part of this model. The
  event log stands for every notification. Subscribers are taken not to
  throw. In the source, a throw while `complete` is notified
  (src/queue.ts:27) is caught by `.catch(callback)` (src/queue.ts:30),
  so the same task is also reported as `error` when the thrown value is
  truthy. A throw while `error` is notified (src/queue.ts:39) escapes the
  callback.
- TaskQueue.Queue.Drain: the processor is a function of the task value,
  so two pushes of equal task values settle alike there. The real
  processor depends on I/O and a fresh random id. `Settle`, with its own
  outcome per call, has no such restriction.
- TaskQueue.Queue.constructor: requires concurrency of at least 1.
  async.queue's behaviour for 0 is not part of this model.
- TaskQueue.Queue.Push: treats `T` as a non-array type. The case where a
  task is itself an array, which `Array.isArray` would split, is not
  modelled.
- Converter events (`progress`), the progress bar, the toasts, the
  format select, `sw.js`, `main.tsx` and the utility helpers are left
  out. They only display things or do I/O.
- The effect that copies the page's choice into the converter
  (src/App.tsx:80-82) is not modelled as a step. Its effect is
  `Converter.Converter.SetBitrateOption`.
- App.DownloadStem: characters are Unicode scalar values, while
  JavaScript's `lastIndexOf` and `slice` count UTF-16 code units. The two
  agree except for a name without '.' whose last character lies outside
  the Basic Multilingual Plane. There `slice(0, -1)` drops only the low
  surrogate, and the model drops the whole character.
- App.DownloadNameWithoutDot: the same UTF-16 gap. For a name without '.'
  whose last character lies outside the Basic Multilingual Plane, the
  source keeps the high surrogate and the model drops the whole character.
- App.Slice: indices count characters, not UTF-16 code units, so the
  model's `slice` differs from JavaScript's on strings with characters
  outside the Basic Multilingual Plane.
- TaskQueue.Truthy: `JsValue` has no NaN, no BigInt and no -0. JavaScript
  treats NaN, `0n` and -0 as falsy too, so in the source a rejection with
  one of those reasons also goes unreported. The model cannot express
  those reasons.
- Decimal: bitrate values are integers. Fractional, NaN and infinite
  numbers and exponent notation are left out, because the table holds
  only small integers.
- App.OnTypeChange: the event value's cast to the type is not checked in
  the source. The model takes an already valid type.

## Findings

| source | as written | input that shows it | evidently intended | confidence | as-written member | corrected member |
|---|---|---|---|---|---|---|
| src/queue.ts:38-40 | The push callback notifies `error` only when its argument is truthy, so a rejection with a falsy reason reports nothing. | A processor whose promise rejects with `undefined` (`Promise.reject()`) or throws `""`. | Every settled task gets exactly one event; a rejected one gets `error`. | not executed | TaskQueue.EventsAsWritten (shown by TaskQueue.FalsyRejectionUnreported) | TaskQueue.EventFor (used by TaskQueue.Queue.Settle; exactly-once proved in TaskQueue.Queue.IdleMeansAllReported) |
