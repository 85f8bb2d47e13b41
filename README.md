# hawktracer-converter: converters, label mapping and converter registry

hawktracer-converter turns a decoded HawkTracer event stream into other trace
formats. This project models its core in Dafny:

- **Label getter** (`src/label_mapping.rs`). Each event gets a label. The
  getter takes the first configured field (by default `label`, then `name`)
  that holds a `u64` or a string. A string is the label itself. A `u64` is an
  identifier, resolved through a label map.
  - The map is loaded from text lines `category label identifier`.
  - The map also learns entries from in-stream `HT_StringMappingEvent` events.
  - An unknown identifier falls back to its own decimal text, which the map
    then remembers.
- **Chrome tracing converter** (`src/converters/chrome_tracing_converter.rs`).
  It writes `[` once. Then each event becomes one JSON object: the label,
  timestamp and duration converted from ns to µs with rounding, the thread id
  (99 when absent), and an `args` object holding every field the object does
  not already use.
- **Flame graph converter** (`src/converters/flamegraph_converter.rs`).
  1. It collects one interval per event that has a timestamp, a duration, a
     thread id and a label.
  2. At the end it sorts the intervals by start.
  3. It feeds them to one call tree per thread. A node's parent is the
     nearest node on the cursor path whose last range encloses the interval.
     A node adds up the lengths of all intervals placed on it.
  4. It merges the thread trees into one tree, adding durations along equal
     label paths.
  5. It writes the merged tree into an HTML page as nested JavaScript object
     literals.
- **Converter manager** (`src/converter_manager.rs`). It keeps the
  `debug`, `chrome-tracing` and `flamegraph` factories in registration order
  and looks a factory up by format name.

The modules are:

| module | contents |
|---|---|
| `Prelude` | options, the `u64` bound, decimal text, Rust's `u64` parsing, a given order for hash sets |
| `Events` | the decoder's event and value types (the `hawktracer_parser` crate is not part of this model) |
| `LabelMapping` | `LabelMap`, `LabelGetter` |
| `ChromeTracing` | `EventWriter`, `ChromeTracingConverter` |
| `FlamegraphTree` | `StackItem`, `ThreadStack` |
| `FlamegraphSort` | the stable sort by start time |
| `FlamegraphForest` | every thread's stack fed from the sorted intervals |
| `FlamegraphMerge` | `merge_stacks` on values |
| `FlamegraphRender` | the page text and `HTMLFlameGraphWritter` |
| `Flamegraph` | `FlamegraphConverter` |
| `ConverterManager` | the factory registry |

In the source a call tree is a graph of `Rc<RefCell<StackItem>>` nodes. In
the model it is a map from a node's label path (the labels from the root down
to it) to its item. A node's parent is its path minus the last label; its
children are the one-label extensions. Children are keyed by label in the
source too, so a path names exactly one node. The converter owns its stacks
in a hash map, so each thread's stack is a value. `ThreadStack.AddItem` works
on the object, and its contract ties it to the value function `Place`.

The chrome converter's `process_event` matches the label getter's answer as
one `Option` of a pair. `LabelGetter::get_label`, however, returns a pair of
options. The model follows the getter: no field gives `MissingLabelField`.
The getter never returns a field without a label, so `InvalidType` cannot
occur (`ChromeTracing.InvalidTypeUnreachable`).

## Model

| member | source | states |
|---|---|---|
| Prelude.Decimal | src/label_mapping.rs:54 | the decimal text of a number is non-empty, all digits, and has no leading zero unless the number is 0 |
| Prelude.ParseU64 | src/label_mapping.rs:33 | `parse::<u64>` accepts a text exactly when, after an optional leading `+`, it is a non-empty run of digits whose value fits in a `u64`, and then gives that value |
| Prelude.NonDigitRejected | src/label_mapping.rs:33-40 | a text with a space, a `-` sign, a letter or any other non-digit after the optional `+` is rejected |
| Prelude.EmptyRejected | src/label_mapping.rs:33-40 | the empty text and a lone `+` are rejected |
| Prelude.OverflowRejected | src/label_mapping.rs:33-40 | the digits of a number past the `u64` range are rejected |
| Prelude.LeadingZerosAccepted | src/label_mapping.rs:33 | leading zeros are accepted and do not change the value: "007" gives 7 |
| Prelude.DecimalValue | src/label_mapping.rs:54 | the digits of `to_string` denote the number |
| Prelude.DecimalRoundTrip | src/label_mapping.rs:33-54 | parsing the decimal text of any `u64` gives the number back |
| Prelude.PlusSignAccepted | src/label_mapping.rs:33 | like Rust's parser, an identifier with a leading `+` is accepted |
| Prelude.Enumerate | src/converters/flamegraph_converter.rs:127 | hash-map iteration visits every key exactly once, in some order |
| Events.ValidEventBounds | src/converters/chrome_tracing_converter.rs:157-166 | a `u64` or `u32` read from an event the decoder can produce lies within its width |
| Events.GetRawValue | src/label_mapping.rs:106 | a field's value is found exactly when the event has that field, and it is the value stored under the name |
| LabelMapping.Split | src/label_mapping.rs:23 | `split(' ')` yields at least one piece and no piece contains the separator |
| LabelMapping.SplitJoin | src/label_mapping.rs:23 | joining the pieces of a split with the separator restores the line |
| LabelMapping.JoinSplit | src/label_mapping.rs:23 | splitting separator-free pieces joined by the separator gives the pieces back |
| LabelMapping.ParseLine | src/label_mapping.rs:23-44 | a parsed line yields an identifier that fits in a `u64` and a label with no space |
| LabelMapping.ParseThreePieces | src/label_mapping.rs:23-45 | a line of three space-free pieces is kept exactly when its identifier parses, then giving that identifier and the label; otherwise it is skipped |
| LabelMapping.WordIdentifierSkipped | src/label_mapping.rs:33-40 | the line `cat lbl abc` is skipped |
| LabelMapping.NegativeIdentifierSkipped | src/label_mapping.rs:33-40 | the line `cat lbl -1` is skipped |
| LabelMapping.OverflowIdentifierSkipped | src/label_mapping.rs:33-40 | a line whose identifier is past the `u64` range is skipped |
| LabelMapping.CorruptedLineIgnored | src/label_mapping.rs:138-146 | a corrupted line is ignored and the valid line after it maps 8 to `valid_label`, as the corrupted-file test expects; the test's data file `resources/test/label_map_invalid.txt` is not part of this model, so the two lines are chosen here |
| LabelMapping.ValidLineRead | src/label_mapping.rs:23-45 | the line `cat valid_label 8` gives 8 and `valid_label` |
| LabelMapping.ParseWrittenLine | src/label_mapping.rs:23-45 | the line `category label identifier` parses to that identifier and label; the category is ignored |
| LabelMapping.WrongPieceCount | src/label_mapping.rs:24-31 | a line that does not split into exactly three pieces is skipped |
| LabelMapping.LoadLastWins | src/label_mapping.rs:21-45 | after loading, an identifier maps to the label of the last valid line defining it |
| LabelMapping.LoadUntouched | src/label_mapping.rs:21-45 | an identifier no valid line defines keeps its previous entry, or stays absent |
| LabelMapping.Resolve | src/label_mapping.rs:51-56 | the label is the mapped one, or else the identifier's decimal text |
| LabelMapping.MemoInvisible | src/label_mapping.rs:51-56 | storing the fallback does not change what any identifier resolves to |
| LabelMapping.FallbackReadsBack | src/label_mapping.rs:52-55 | the fallback label of an unmapped `u64` identifier parses back to the identifier |
| LabelMapping.LabelMap.constructor | src/label_mapping.rs:12-16 | the mapping starts empty |
| LabelMapping.LabelMap.LoadLines | src/label_mapping.rs:18-49 | the loop leaves the mapping equal to the line-by-line load of the lines |
| LabelMapping.LabelMap.GetLabel | src/label_mapping.rs:51-56 | returns the resolved label and stores exactly that label for the identifier, nothing else changes |
| LabelMapping.LabelMap.AddMapping | src/label_mapping.rs:58-60 | the identifier is mapped to the label, nothing else changes |
| LabelMapping.MappingIdLearntOnce | src/label_mapping.rs:79-87 | the mapping event's class id is learnt from, and only from, a KlassInfo event naming `HT_StringMappingEvent` that arrives while the id is still unknown: it becomes that event's `u32` `info_klass_id`, or stays unknown if that field is absent; once known it never changes |
| LabelMapping.MappingChangesOnlyByEvent | src/label_mapping.rs:88-96 | a mapping event with a `u64` identifier and a string label maps that identifier to that label; the label map changes in no other case |
| LabelMapping.FirstLabelField | src/label_mapping.rs:105-115 | the chosen field holds a `u64` or a string, and no earlier candidate does; with none chosen, no candidate does |
| LabelMapping.LabelOf | src/label_mapping.rs:105-116 | the returned field is the first candidate holding a `u64` or a string; a string is its own label and leaves the map alone, a `u64` is resolved and the map stores the result; with no such candidate there is no field, no label and the map is unchanged |
| LabelMapping.StringFieldIsLabel | src/label_mapping.rs:177-186 | a string field is its own label |
| LabelMapping.MissingFieldNoLabel | src/label_mapping.rs:188-197 | an event without a candidate field has no label |
| LabelMapping.OtherTypeNoLabel | src/label_mapping.rs:199-214 | a field of another type gives no label |
| LabelMapping.NumericFieldResolved | src/label_mapping.rs:108-110 | a `u64` field is resolved through the map, which remembers the result |
| LabelMapping.LabelFieldPreferred | src/main.rs:23 | with the default candidates, `label` wins over `name` |
| LabelMapping.NameFieldFallback | src/main.rs:23 | with the default candidates, `name` is used when there is no `label` |
| LabelMapping.LabelGetter.constructor | src/label_mapping.rs:70-76 | keeps the map and the candidate fields; no mapping event class is known yet |
| LabelMapping.LabelGetter.UpdateMappingEventInfo | src/label_mapping.rs:79-97 | the class id and the map change as the mapping-event rules say |
| LabelMapping.LabelGetter.GetLabel | src/label_mapping.rs:99-117 | the mapping update followed by the first usable candidate field; the returned field, label and new state are those the rules give |
| ChromeTracing.NsToUs | src/converters/chrome_tracing_converter.rs:118-120 | nanoseconds become microseconds rounded to nearest, half up, and stay within `u64` |
| ChromeTracing.NsToUsExamples | src/converters/chrome_tracing_converter.rs:223-230 | 1234, 89999, 60000, 32500 and 5 ns give 1, 90, 60, 33 and 0 µs |
| ChromeTracing.FormatFreeArg | src/converters/chrome_tracing_converter.rs:122-124 | an argument starts with the quoted field name, a colon and a space |
| ChromeTracing.FormatFreeArgExamples | src/converters/chrome_tracing_converter.rs:232-242 | a number field gives `"field": 12` and a string field `"field": "value"` |
| ChromeTracing.TypeArg | src/converters/chrome_tracing_converter.rs:129-137 | at most one `type` argument, present only for a `u32` `type` field naming a registered class |
| ChromeTracing.UnusedArgsExact | src/converters/chrome_tracing_converter.rs:139-149 | the arguments are exactly the formatted fields that are not already used |
| ChromeTracing.CommaJoinEmpty | src/converters/chrome_tracing_converter.rs:144-146 | the argument text is empty exactly when there are no arguments, so it never starts with a comma |
| ChromeTracing.EventText | src/converters/chrome_tracing_converter.rs:153-176 | writing fails exactly when the event has no `u64` timestamp, and the error names that field |
| ChromeTracing.EventTextRecord | src/converters/chrome_tracing_converter.rs:157-173 | with a timestamp, the record carries it in microseconds, the duration in microseconds or 0 when absent, and the thread id or 99 when absent |
| ChromeTracing.WriteEventExample | src/converters/chrome_tracing_converter.rs:244-264 | the test event gives exactly the JSON object the test expects |
| ChromeTracing.EventWriter.constructor | src/converters/chrome_tracing_converter.rs:98-116 | the used fields are timestamp, duration, thread_id and the label field |
| ChromeTracing.EventWriter.GetFreeArgs | src/converters/chrome_tracing_converter.rs:126-151 | the loop builds the comma-joined arguments of the unused fields and marks `type` used when it is written |
| ChromeTracing.EventWriter.WriteEvent | src/converters/chrome_tracing_converter.rs:153-176 | the written record, or the missing-timestamp error, is the one the format gives |
| ChromeTracing.InvalidTypeUnreachable | src/converters/chrome_tracing_converter.rs:61-69 | an event converted with the getter's answer never fails with `InvalidType` |
| ChromeTracing.ChromeTracingConverter.constructor | src/converters/chrome_tracing_converter.rs:76-85 | nothing written, header not yet written |
| ChromeTracing.ChromeTracingConverter.ProcessEvent | src/converters/chrome_tracing_converter.rs:40-72 | `[` is written once, before the first event; the label getter advances as its rules say; the output grows by the event's record, and the result is its status |
| ChromeTracing.ChromeTracingConverter.Emit | src/converters/chrome_tracing_converter.rs:51-71 | no label field gives `MissingLabelField` and writes nothing; otherwise the event's record or error |
| FlamegraphTree.NewItem | src/converters/flamegraph_converter.rs:19-28 | a new item has zero duration and the given last range |
| FlamegraphTree.NewRoot | src/converters/flamegraph_converter.rs:30-32 | the root has the empty label and spans all of `u64` |
| FlamegraphTree.UpdateLastRange | src/converters/flamegraph_converter.rs:34-38 | the duration grows by the interval's length and the interval becomes the last range |
| FlamegraphTree.InitialState | src/converters/flamegraph_converter.rs:54-60 | a lone valid root with the cursor on it |
| FlamegraphTree.Container | src/converters/flamegraph_converter.rs:68-71 | the walk stops at the deepest node on the cursor path that encloses the interval; no node below it on the path does |
| FlamegraphTree.Place | src/converters/flamegraph_converter.rs:67-96 | placing a valid interval keeps the tree valid |
| FlamegraphTree.PlaceFacts | src/converters/flamegraph_converter.rs:67-96 | the cursor moves to the container's child with the interval's label; that child's duration grows by the interval's length and it takes the interval as its last range; no other node changes |
| FlamegraphTree.PlaceWeight | src/converters/flamegraph_converter.rs:91-94 | only the placed node's duration changes, by the interval's length |
| FlamegraphTree.PlaceCreatesOnlyMissingChild | src/converters/flamegraph_converter.rs:73-89 | a node is created exactly when the container has no child of that label |
| FlamegraphTree.PlaceKeepsNestedChain | src/converters/flamegraph_converter.rs:67-96 | along the cursor path every node's last range stays inside its parent's |
| FlamegraphTree.RunAccumulates | src/converters/flamegraph_converter.rs:119-124 | after a run, each node's duration is its old one plus the lengths of the intervals placed on it |
| FlamegraphTree.RunCreates | src/converters/flamegraph_converter.rs:119-124 | after a run, a node exists exactly if it existed or an interval was placed on it |
| FlamegraphTree.RunKeepsNestedChain | src/converters/flamegraph_converter.rs:119-124 | nesting along the cursor path holds through a whole run |
| FlamegraphTree.ThreadStack.constructor | src/converters/flamegraph_converter.rs:54-60 | a fresh stack is the initial state |
| FlamegraphTree.ThreadStack.IsParentOf | src/converters/flamegraph_converter.rs:62-65 | the root encloses every valid interval, so the upward walk ends |
| FlamegraphTree.ThreadStack.AddItem | src/converters/flamegraph_converter.rs:67-96 | the new state is the placement of the interval, and the stack stays valid |
| FlamegraphTree.NestedScenario | src/converters/flamegraph_converter.rs:67-96 | B over [10, 50] nests under A over [0, 100]; A weighs 100 and B 40 |
| FlamegraphSort.SortByStart | src/converters/flamegraph_converter.rs:117 | the sorted intervals are a permutation of the collected ones |
| FlamegraphSort.SortSorted | src/converters/flamegraph_converter.rs:117 | the sorted intervals are ordered by start |
| FlamegraphSort.SortOfThread | src/converters/flamegraph_converter.rs:117 | sorting all intervals and then taking one thread's gives the sort of that thread's intervals alone |
| FlamegraphSort.InsertStable | src/converters/flamegraph_converter.rs:117 | inserting an interval puts it after every interval with the same start, whose order is kept |
| FlamegraphSort.SortStable | src/converters/flamegraph_converter.rs:117 | the sort is stable: the intervals with the same start keep their arrival order |
| FlamegraphSort.SortAllValid | src/converters/flamegraph_converter.rs:117 | sorting keeps every interval well formed |
| FlamegraphForest.Forest | src/converters/flamegraph_converter.rs:119-124 | feeding intervals keeps every thread's stack valid |
| FlamegraphForest.ForestThreads | src/converters/flamegraph_converter.rs:120-122 | a stack exists for exactly the threads seen before and the threads of the intervals |
| FlamegraphForest.ForestPerThread | src/converters/flamegraph_converter.rs:119-124 | each thread's stack is its own intervals run in order, untouched by other threads |
| FlamegraphMerge.ChildLabels | src/converters/flamegraph_converter.rs:134 | the labels of exactly the node's children |
| FlamegraphMerge.Subtree | src/converters/flamegraph_converter.rs:148-151 | the nodes an attached child brings along: exactly those at or below it |
| FlamegraphMerge.MergeAt | src/converters/flamegraph_converter.rs:133-154 | the merge adds every node below the merge point; shared nodes add their durations; other nodes are unchanged |
| FlamegraphMerge.MergeAtValid | src/converters/flamegraph_converter.rs:133-154 | merging valid trees keeps the tree valid |
| FlamegraphMerge.MergeLabelsAll | src/converters/flamegraph_converter.rs:134-153 | merging the children one at a time, over all child labels, is the whole merge |
| FlamegraphMerge.MergeStepExisting | src/converters/flamegraph_converter.rs:135-146 | a child that exists on both sides: add its duration, then merge below it |
| FlamegraphMerge.MergeStepAttach | src/converters/flamegraph_converter.rs:147-152 | a child missing above: attaching its subtree is that child's merge step |
| FlamegraphMerge.MergeAllSums | src/converters/flamegraph_converter.rs:126-129 | after merging all thread trees, each path's duration is the sum over the trees, and it exists iff some tree has it |
| FlamegraphMerge.MergeOrderIndependent | src/converters/flamegraph_converter.rs:127 | the merged durations and nodes do not depend on the hash map's thread order |
| FlamegraphMerge.SingleIntervalRun | src/converters/flamegraph_converter.rs:67-96 | one interval gives its label a weight equal to its length |
| FlamegraphMerge.TwoThreadScenario | src/converters/flamegraph_converter.rs:126-129 | `main` for 30 on thread 1 and for 70 on thread 2 merge to 100 |
| FlamegraphRender.BelowShrinks | src/converters/flamegraph_converter.rs:235-236 | the recursion into a child has fewer nodes below it, so writing terminates |
| FlamegraphRender.FlamesOf | src/converters/flamegraph_converter.rs:235-238 | one object per listed child |
| FlamegraphRender.ItemTextNonRoot | src/converters/flamegraph_converter.rs:227-242 | a non-root node is `{ name: "<label>", value: <duration>, children: [`, its children each followed by `,`, then `] }` |
| FlamegraphRender.FlameContents | src/converters/flamegraph_converter.rs:226-245 | the object reached along a label path shows that node's duration, and no object exists off the tree |
| FlamegraphRender.RenderShowsTree | src/converters/flamegraph_converter.rs:216-220 | the rendered tree shows exactly the merged tree's nodes with their durations |
| FlamegraphRender.RenderOrderIndependent | src/converters/flamegraph_converter.rs:235 | the durations shown do not depend on the children's hash map order |
| FlamegraphRender.ChildLabelList | src/converters/flamegraph_converter.rs:235 | a listing of a node's children, each once |
| FlamegraphRender.SiblingOrderOf | src/converters/flamegraph_converter.rs:235 | a child order for every node of the tree |
| FlamegraphRender.FlameGraphWriter.constructor | src/converters/flamegraph_converter.rs:212-214 | nothing written yet |
| FlamegraphRender.FlameGraphWriter.IsRoot | src/converters/flamegraph_converter.rs:222-224 | a node is the root exactly when it has no parent; any other node is a child of its parent |
| FlamegraphRender.FlameGraphWriter.WriteStackItem | src/converters/flamegraph_converter.rs:226-245 | appends the node's text: its object, unless it is the root, around its children's texts |
| FlamegraphRender.FlameGraphWriter.WriteFlamegraph | src/converters/flamegraph_converter.rs:216-220 | appends the header, the tree and the footer |
| Flamegraph.ToEventItem | src/converters/flamegraph_converter.rs:163-177 | an interval exists exactly when the event has a `u64` timestamp, a `u64` duration, a `u32` thread id and a label; it starts at the timestamp and lasts the duration |
| Flamegraph.Recorded | src/converters/flamegraph_converter.rs:168-179 | at most one interval is recorded per event, and it is the event's interval |
| Flamegraph.MergedStep | src/converters/flamegraph_converter.rs:127-129 | one more thread merged onto a valid super-root keeps it valid |
| Flamegraph.MergeAllValid | src/converters/flamegraph_converter.rs:126-129 | merging valid thread trees gives a valid tree |
| Flamegraph.FreshTrees | src/converters/flamegraph_converter.rs:117-124 | from no stacks, each thread's tree is the run of that thread's collected intervals sorted by start |
| Flamegraph.FlamegraphSums | src/converters/flamegraph_converter.rs:116-129 | each merged duration is the sum over threads of the lengths placed at that path, and a path exists iff some thread has it |
| Flamegraph.FlamegraphConverter.constructor | src/converters/flamegraph_converter.rs:107-114 | no intervals, no stacks, nothing written |
| Flamegraph.FlamegraphConverter.ProcessEvent | src/converters/flamegraph_converter.rs:158-182 | the label getter advances as its rules say and the event's interval, if any, is appended |
| Flamegraph.FlamegraphConverter.RecordEvent | src/converters/flamegraph_converter.rs:163-179 | appends the event's interval when it has one, else nothing |
| Flamegraph.FlamegraphConverter.MergeStacks | src/converters/flamegraph_converter.rs:133-154 | the loop over the children computes the merge of the stack into the super-root |
| Flamegraph.FlamegraphConverter.MergeChild | src/converters/flamegraph_converter.rs:135-152 | one turn of the loop performs the merge step for that child |
| Flamegraph.FlamegraphConverter.FeedStacks | src/converters/flamegraph_converter.rs:119-124 | after feeding, the stacks are those the intervals give, each created on first use |
| Flamegraph.FlamegraphConverter.MergeThreads | src/converters/flamegraph_converter.rs:126-129 | every thread is merged once, in some order, into a valid super-root |
| Flamegraph.FlamegraphConverter.GenerateFlamegraph | src/converters/flamegraph_converter.rs:116-131 | sorts the intervals, feeds every thread's stack, merges them and appends the page of the merged tree |
| ConverterManager.Name | src/converters/flamegraph_converter.rs:202-204 | the format names: `debug` (`src/converters/debug_converter.rs:159-161`), `chrome-tracing` (`src/converters/chrome_tracing_converter.rs:190-192`) and `flamegraph` |
| ConverterManager.Find | src/converter_manager.rs:36-41 | a factory is found exactly when one has the name, and it is the first one that does |
| ConverterManager.Names | src/converter_manager.rs:44-52 | one name per factory, in registration order |
| ConverterManager.FindNames | src/converter_manager.rs:36-52 | a name finds a factory exactly when it is among the listed names |
| ConverterManager.EmbeddedLookup | src/converter_manager.rs:24-28 | each embedded name finds its own factory; any other name finds none |
| ConverterManager.FindAppend | src/converter_manager.rs:54-56 | registering more factories changes only the lookup of names not yet taken |
| ConverterManager.NewNameFound | src/converter_manager.rs:36-41 | a factory registered under a name not yet taken is the one that name finds |
| ConverterManager.PluginLookup | src/converter_manager.rs:54-56 | a plug-in factory named `custom` registered after the embedded ones is found by its name, and `debug` still finds the debug factory |
| ConverterManager.LaterFactoryShadowed | src/converter_manager.rs:36-41 | a factory registered under a taken name is never picked |
| ConverterManager.ConverterManager.constructor | src/converter_manager.rs:16-22 | the embedded factories, in order |
| ConverterManager.ConverterManager.LoadEmbeddedConverters | src/converter_manager.rs:24-28 | registers debug, Chrome tracing and flame graph, in that order |
| ConverterManager.ConverterManager.CreateConverter | src/converter_manager.rs:30-42 | the loop picks the first factory registered under the name, or none |
| ConverterManager.ConverterManager.GetConverters | src/converter_manager.rs:44-52 | the loop lists the names in registration order |
| ConverterManager.ConverterManager.RegisterStaticFactory | src/converter_manager.rs:54-56 | any factory, embedded or a plug-in under any name, goes last |
| ConverterManager.DefaultFormat | src/main.rs:123 | the default format, the first listed name, is `debug` |

## Left out

- Input and output are not modelled: reading the map files, the network or
  file source, the progress spinners and the command line (`src/main.rs`).
  A map file is given as its lines after `lines()`. A writer is a string
  that grows; its I/O errors (`?` on `write_fmt`) are not modelled.
- Events.Event: its field list may repeat a name, which the decoder's map
  of fields cannot; a lookup takes the first field with the name.
- Events.ValidEvent: the operations accept any field values, including
  integers wider than their Rust type; they do not require it, since their
  contracts hold for every input, and the decoder's range is stated by
  `ValidEvent` with `ValidEventBounds`.
- The `eprintln!` diagnostics for bad map lines and unknown identifiers are
  not modelled.
- LabelMapping.LabelMap.LoadLines: a file that cannot be opened, or a line
  that cannot be read, is not modelled, because the lines are given.
- `src/converters/debug_converter.rs` is not part of this model. Only its
  format name `debug` is, as `ConverterManager.DebugFactory`.
- ConverterManager.ConverterManager.CreateConverter: returns the chosen
  factory, not the converter that factory would construct. The writer and
  label getter it is handed are not passed along.
- Flamegraph.FlamegraphConverter.ProcessEvent: requires that timestamp plus
  duration fit in a `u64`. In the source that addition panics in a debug
  build and wraps in a release build.
- FlamegraphTree.UpdateLastRange: the durations summed inside a node are
  unbounded integers, so their `u64` overflow is not modelled.
- The order of a hash map's iteration is arbitrary in the source, and the
  model takes it as given:
  - each event's field order (`Event.values`);
  - the thread order when merging (`Enumerate`);
  - the child order when rendering (`SiblingOrderOf`).

  The child order when merging is a free choice (`:|`); the lemmas show it
  does not change what is merged or shown.
- Flamegraph.FlamegraphConverter.GenerateFlamegraph: takes the page
  preamble as a parameter. The preamble is the header text together with the
  embedded CSS and JavaScript resources, which are not part of this model.
  `drop` calling `generate_flamegraph` becomes an explicit call.
- Rust's `{:?}` escaping of field names in `format_free_arg` is not
  modelled, and neither is the missing escaping of labels in either output
  format. A name is written as is, between quotes.
- `Events.Display` stands for the decoder's `Display` of a value. Values of
  types the converters do not inspect carry that text as given.
- The numeric value of the KlassInfo class id is defined in the decoder
  crate. It is a parameter of `LabelGetter`.
- The Chrome tracing output's closing `]` is never written, because
  `close_converter` has an empty default and the converter does not
  override it. The model writes none either.
- Sharing of `Rc` nodes between a thread stack and the super-root after an
  attach is not modelled: the model copies the subtree. The source never
  visits a thread stack again after merging it.
