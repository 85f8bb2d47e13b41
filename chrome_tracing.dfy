/** The Chrome tracing converter (src/converters/chrome_tracing_converter.rs):
    every event becomes one complete-event record ("ph":"X") of the Chrome
    trace-event JSON array, with the event's label as its name, the event's
    other fields as its arguments, and times turned from nanoseconds into
    microseconds. */
module ChromeTracing {
  import opened Prelude
  import opened Events
  import opened LabelMapping

  /** Why an event could not be written. `MissingValue` is the decoder's
      error for a field that is absent or of another type. */
  datatype EventError = MissingLabelField | InvalidType(field: string) | MissingValue(name: string)

  datatype Result<T> = Ok(value: T) | Err(error: EventError)

  /** The thread id written for an event without a `u32` `thread_id`. */
  const InvalidThreadId: nat := 99

  /** `ns_to_us`: nanoseconds to microseconds, rounded to the nearest, a
      half rounded up. */
  function NsToUs(n: nat): (r: nat)
    ensures 1000 * r <= n + 500 < 1000 * r + 1000
    ensures n <= U64_MAX ==> r <= U64_MAX
  {
    n / 1000 + (n % 1000) / 500
  }

  /** The values of the unit test of `ns_to_us`. */
  lemma NsToUsExamples()
    ensures NsToUs(1234) == 1 && NsToUs(89999) == 90 && NsToUs(60000) == 60
    ensures NsToUs(32500) == 33 && NsToUs(5) == 0
  {
  }

  /** `format_free_arg`: the field name quoted, a colon, and the value's
      `Display`. */
  function FormatFreeArg(name: string, v: Value): (r: string)
    ensures "\"" + name + "\": " <= r
    ensures r[0] == '"'
  {
    "\"" + name + "\": " + Display(v)
  }

  /** The cases of the unit test of `format_free_arg`: a number (a `u16`,
      which the decoder displays in decimal) and a string. */
  lemma FormatFreeArgExamples()
    ensures FormatFreeArg("field", Other("12")) == "\"field\": 12"
    ensures FormatFreeArg("field", Str("value")) == "\"field\": \"value\""
  {
    assert "\"" + "field" + "\": " == "\"field\": ";
    assert Display(Str("value")) == "\"value\"";
  }

  /** The leading `type` argument: present when the event has a `u32` field
      `type` naming a class the registry knows; it shows the class name. */
  function TypeArg(e: Event, reg: Registry): (r: seq<string>)
    ensures |r| <= 1
    ensures r != [] <==> GetValueU32(e, "type").Some? && GetValueU32(e, "type").value in reg
    ensures r != [] ==> r[0] == FormatFreeArg("type", Str(reg[GetValueU32(e, "type").value]))
  {
    match GetValueU32(e, "type")
    case Some(k) => if k in reg then [FormatFreeArg("type", Str(reg[k]))] else []
    case None => []
  }

  /** The used fields once the free arguments are gathered: `type` joins them
      when it was written as the leading argument. */
  function UsedAfter(e: Event, reg: Registry, used: set<string>): set<string> {
    if TypeArg(e, reg) == [] then used else used + {"type"}
  }

  /** The arguments for the fields not in `used`, in the event's order. */
  function UnusedArgs(values: seq<(string, Value)>, used: set<string>): seq<string>
    decreases |values|
  {
    if values == [] then []
    else
      var (name, v) := values[|values| - 1];
      UnusedArgs(values[..|values| - 1], used) + (if name in used then [] else [FormatFreeArg(name, v)])
  }

  /** Pieces joined with commas. */
  function CommaJoin(ps: seq<string>): string
    decreases |ps|
  {
    if ps == [] then ""
    else if |ps| == 1 then ps[0]
    else CommaJoin(ps[..|ps| - 1]) + "," + ps[|ps| - 1]
  }

  predicate NonEmptyPieces(ps: seq<string>) {
    forall i :: 0 <= i < |ps| ==> |ps[i]| > 0
  }

  /** `get_free_args`: the type argument, then every field not used as a
      timestamp, duration, thread id or label field, separated by commas. */
  function FreeArgs(e: Event, reg: Registry, used: set<string>): string {
    CommaJoin(TypeArg(e, reg) + UnusedArgs(e.values, UsedAfter(e, reg, used)))
  }

  /** The arguments are exactly the unused fields: each argument shows one of
      them, and each of them has an argument. */
  lemma {:induction false} UnusedArgsExact(values: seq<(string, Value)>, used: set<string>)
    ensures forall k :: 0 <= k < |values| && values[k].0 !in used ==>
              FormatFreeArg(values[k].0, values[k].1) in UnusedArgs(values, used)
    ensures forall a :: a in UnusedArgs(values, used) ==>
              exists k :: 0 <= k < |values| && values[k].0 !in used && a == FormatFreeArg(values[k].0, values[k].1)
    decreases |values|
  {
    if values != [] {
      var init := values[..|values| - 1];
      var last := values[|values| - 1];
      var tail := if last.0 in used then [] else [FormatFreeArg(last.0, last.1)];
      assert UnusedArgs(values, used) == UnusedArgs(init, used) + tail;
      UnusedArgsExact(init, used);
      forall k | 0 <= k < |values| && values[k].0 !in used
        ensures FormatFreeArg(values[k].0, values[k].1) in UnusedArgs(values, used)
      {
        if k < |init| {
          assert init[k] == values[k];
        } else {
          assert values[k] == last;
          assert UnusedArgs(values, used)[|UnusedArgs(init, used)|] == FormatFreeArg(last.0, last.1);
        }
      }
      assert forall k :: 0 <= k < |init| ==> init[k] == values[k];
    }
  }

  /** Arguments are never empty, so none is lost between the commas. */
  lemma {:induction false} UnusedArgsNonEmpty(values: seq<(string, Value)>, used: set<string>)
    ensures NonEmptyPieces(UnusedArgs(values, used))
    decreases |values|
  {
    if values != [] {
      UnusedArgsNonEmpty(values[..|values| - 1], used);
    }
  }

  /** The leading argument and the field arguments are all non-empty. */
  lemma PiecesNonEmpty(e: Event, reg: Registry, values: seq<(string, Value)>, used: set<string>)
    ensures NonEmptyPieces(TypeArg(e, reg) + UnusedArgs(values, used))
  {
    UnusedArgsNonEmpty(values, used);
  }

  /** The arguments of one more field. */
  lemma UnusedArgsStep(values: seq<(string, Value)>, i: nat, used: set<string>)
    requires i < |values|
    ensures UnusedArgs(values[..i + 1], used)
         == UnusedArgs(values[..i], used) + (if values[i].0 in used then [] else [FormatFreeArg(values[i].0, values[i].1)])
  {
    assert values[..i + 1][..i] == values[..i];
  }

  /** The joined arguments after one more field: unchanged for a used
      field, otherwise a comma unless nothing was written, then the field. */
  lemma FreeArgsStep(e: Event, reg: Registry, values: seq<(string, Value)>, i: nat, used: set<string>)
    requires i < |values|
    ensures var before := CommaJoin(TypeArg(e, reg) + UnusedArgs(values[..i], used));
            var arg := FormatFreeArg(values[i].0, values[i].1);
            CommaJoin(TypeArg(e, reg) + UnusedArgs(values[..i + 1], used))
              == if values[i].0 in used then before else if before == "" then arg else before + "," + arg
  {
    var prefix := TypeArg(e, reg);
    var pieces := prefix + UnusedArgs(values[..i], used);
    var arg := FormatFreeArg(values[i].0, values[i].1);
    UnusedArgsStep(values, i, used);
    if values[i].0 in used {
      assert UnusedArgs(values[..i + 1], used) == UnusedArgs(values[..i], used);
    } else {
      PiecesNonEmpty(e, reg, values[..i], used);
      CommaJoinSnoc(pieces, arg);
      ConcatAssoc(prefix, UnusedArgs(values[..i], used), [arg]);
    }
  }

  /** Joining non-empty pieces gives the empty text only for no pieces. */
  lemma {:induction false} CommaJoinEmpty(ps: seq<string>)
    requires NonEmptyPieces(ps)
    ensures CommaJoin(ps) == "" <==> ps == []
  {
    if |ps| > 1 {
      assert |ps[|ps| - 1]| > 0;
    }
  }

  /** One more piece: a comma first unless nothing was written yet. */
  lemma CommaJoinSnoc(ps: seq<string>, x: string)
    requires NonEmptyPieces(ps)
    ensures CommaJoin(ps + [x]) == if CommaJoin(ps) == "" then x else CommaJoin(ps) + "," + x
  {
    CommaJoinEmpty(ps);
    assert (ps + [x])[..|ps|] == ps;
  }

  /** The record of one event: label, start and duration in microseconds,
      process 0, thread id, and the free arguments. */
  function Record(text: string, ts: nat, dur: nat, tid: nat, args: string): string {
    "{\"name\":\"" + text + "\",\"ph\":\"X\",\"ts\":" + Decimal(ts) + ",\"dur\":" + Decimal(dur)
      + ",\"pid\":0,\"tid\":" + Decimal(tid) + ", \"args\": { " + args + " } },"
  }

  /** `write_event` on values: an event without a `u64` timestamp is an
      error; a missing duration is 0 and a missing thread id 99. */
  function EventText(e: Event, reg: Registry, text: string, used: set<string>): (r: Result<string>)
    ensures r.Err? <==> GetValueU64(e, "timestamp").None?
    ensures r.Err? ==> r.error == MissingValue("timestamp")
  {
    match GetValueU64(e, "timestamp")
    case None => Err(MissingValue("timestamp"))
    case Some(ts) =>
      var dur := match GetValueU64(e, "duration") case Some(d) => NsToUs(d) case None => 0;
      var tid := match GetValueU32(e, "thread_id") case Some(t) => t case None => InvalidThreadId;
      Ok(Record(text, NsToUs(ts), dur, tid, FreeArgs(e, reg, used)))
  }

  /** With a timestamp, the event's record: the times in microseconds, 0
      for a missing duration and 99 for a missing thread id. */
  lemma EventTextRecord(e: Event, reg: Registry, text: string, used: set<string>)
    requires GetValueU64(e, "timestamp").Some?
    ensures var ts := NsToUs(GetValueU64(e, "timestamp").value);
            var args := FreeArgs(e, reg, used);
            && (GetValueU64(e, "duration").None? && GetValueU32(e, "thread_id").None? ==>
                  EventText(e, reg, text, used) == Ok(Record(text, ts, 0, 99, args)))
            && (GetValueU64(e, "duration").None? && GetValueU32(e, "thread_id").Some? ==>
                  EventText(e, reg, text, used)
                  == Ok(Record(text, ts, 0, GetValueU32(e, "thread_id").value, args)))
            && (GetValueU64(e, "duration").Some? && GetValueU32(e, "thread_id").None? ==>
                  EventText(e, reg, text, used)
                  == Ok(Record(text, ts, NsToUs(GetValueU64(e, "duration").value), 99, args)))
            && (GetValueU64(e, "duration").Some? && GetValueU32(e, "thread_id").Some? ==>
                  EventText(e, reg, text, used)
                  == Ok(Record(text, ts, NsToUs(GetValueU64(e, "duration").value), GetValueU32(e, "thread_id").value, args)))
  {
  }

  /** The fields an event writer starts with as used. */
  function InitialUsed(labelField: string): set<string> {
    {"timestamp", "duration", "thread_id", labelField}
  }

  /** The event of the unit test of `write_event`. */
  function TestEvent(): Event {
    Event(99, [("timestamp", U64(5999)), ("duration", U64(12000)), ("field1", Other("-45")), ("thread_id", U32(7))])
  }

  /** The test event's only free argument is `field1`. */
  lemma TestEventArgs()
    ensures FreeArgs(TestEvent(), map[], InitialUsed("field")) == "\"field1\": -45"
  {
    var e := TestEvent();
    var used := InitialUsed("field");
    assert GetValueU32(e, "type") == None;
    assert UsedAfter(e, map[], used) == used;
    var v := e.values;
    assert "field1" !in used;
    UnusedArgsStep(v, 0, used);
    UnusedArgsStep(v, 1, used);
    UnusedArgsStep(v, 2, used);
    UnusedArgsStep(v, 3, used);
    assert v[..0] == [] && v[..4] == v;
    assert FormatFreeArg("field1", Other("-45")) == "\"field1\": -45";
  }

  /** The test event's time, duration and thread. */
  lemma TestEventFields()
    ensures GetValueU64(TestEvent(), "timestamp") == Some(5999)
    ensures GetValueU64(TestEvent(), "duration") == Some(12000)
    ensures GetValueU32(TestEvent(), "thread_id") == Some(7)
  {
  }

  lemma SmallDecimals()
    ensures Decimal(6) == "6" && Decimal(12) == "12" && Decimal(7) == "7"
  {
    assert Decimal(1) == "1";
  }

  /** The record text up to the start time. */
  lemma TestRecordHead()
    ensures "{\"name\":\"" + "label" + "\",\"ph\":\"X\",\"ts\":" + "6"
         == "{\"name\":\"label\",\"ph\":\"X\",\"ts\":6"
  {
    assert "{\"name\":\"" + "label" == "{\"name\":\"label";
    assert "{\"name\":\"label" + "\",\"ph\":\"X\",\"ts\":" == "{\"name\":\"label\",\"ph\":\"X\",\"ts\":";
  }

  /** The record text up to the thread id. */
  lemma TestRecordMiddle()
    ensures "{\"name\":\"label\",\"ph\":\"X\",\"ts\":6" + ",\"dur\":" + "12" + ",\"pid\":0,\"tid\":" + "7"
         == "{\"name\":\"label\",\"ph\":\"X\",\"ts\":6,\"dur\":12,\"pid\":0,\"tid\":7"
  {
    assert "{\"name\":\"label\",\"ph\":\"X\",\"ts\":6" + ",\"dur\":" == "{\"name\":\"label\",\"ph\":\"X\",\"ts\":6,\"dur\":";
    assert "{\"name\":\"label\",\"ph\":\"X\",\"ts\":6,\"dur\":" + "12" == "{\"name\":\"label\",\"ph\":\"X\",\"ts\":6,\"dur\":12";
    assert "{\"name\":\"label\",\"ph\":\"X\",\"ts\":6,\"dur\":12" + ",\"pid\":0,\"tid\":" == "{\"name\":\"label\",\"ph\":\"X\",\"ts\":6,\"dur\":12,\"pid\":0,\"tid\":";
  }

  /** The whole record text. */
  lemma TestRecordTail()
    ensures "{\"name\":\"label\",\"ph\":\"X\",\"ts\":6,\"dur\":12,\"pid\":0,\"tid\":7" + ", \"args\": { " + "\"field1\": -45" + " } },"
         == "{\"name\":\"label\",\"ph\":\"X\",\"ts\":6,\"dur\":12,\"pid\":0,\"tid\":7, \"args\": { \"field1\": -45 } },"
  {
    assert "{\"name\":\"label\",\"ph\":\"X\",\"ts\":6,\"dur\":12,\"pid\":0,\"tid\":7" + ", \"args\": { " == "{\"name\":\"label\",\"ph\":\"X\",\"ts\":6,\"dur\":12,\"pid\":0,\"tid\":7, \"args\": { ";
    assert "{\"name\":\"label\",\"ph\":\"X\",\"ts\":6,\"dur\":12,\"pid\":0,\"tid\":7, \"args\": { " + "\"field1\": -45" == "{\"name\":\"label\",\"ph\":\"X\",\"ts\":6,\"dur\":12,\"pid\":0,\"tid\":7, \"args\": { \"field1\": -45";
  }

  /** The record text of the unit test of `write_event`. */
  lemma TestRecordText()
    ensures Record("label", 6, 12, 7, "\"field1\": -45")
         == "{\"name\":\"label\",\"ph\":\"X\",\"ts\":6,\"dur\":12,\"pid\":0,\"tid\":7, \"args\": { \"field1\": -45 } },"
  {
    SmallDecimals();
    TestRecordHead();
    TestRecordMiddle();
    TestRecordTail();
    assert Record("label", 6, 12, 7, "\"field1\": -45")
        == "{\"name\":\"" + "label" + "\",\"ph\":\"X\",\"ts\":" + "6" + ",\"dur\":" + "12" + ",\"pid\":0,\"tid\":" + "7" + ", \"args\": { " + "\"field1\": -45" + " } },";
  }

  /** The unit test of `write_event`: the exact text of the record. */
  lemma WriteEventExample()
    ensures EventText(TestEvent(), map[], "label", InitialUsed("field"))
         == Ok("{\"name\":\"label\",\"ph\":\"X\",\"ts\":6,\"dur\":12,\"pid\":0,\"tid\":7, \"args\": { \"field1\": -45 } },")
  {
    TestEventFields();
    TestEventArgs();
    assert NsToUs(5999) == 6 && NsToUs(12000) == 12;
    assert EventText(TestEvent(), map[], "label", InitialUsed("field"))
        == Ok(Record("label", 6, 12, 7, "\"field1\": -45"));
    TestRecordText();
  }

  /** `EventWriter`: the event, the fields already written, the class
      registry and the label. */
  class EventWriter {
    const event: Event
    var usedFields: set<string>
    const reg: Registry
    const text: string

    /** `EventWriter::new`: the time, duration, thread and label fields are
        used. */
    constructor (event: Event, reg: Registry, text: string, labelField: string)
      ensures this.event == event && this.reg == reg && this.text == text
      ensures usedFields == InitialUsed(labelField)
    {
      this.event := event;
      this.reg := reg;
      this.text := text;
      usedFields := InitialUsed(labelField);
    }

    /** `get_free_args`. */
    method GetFreeArgs() returns (args: string)
      modifies this
      ensures args == FreeArgs(event, reg, old(usedFields))
      ensures usedFields == UsedAfter(event, reg, old(usedFields))
    {
      args := "";
      var typeId := GetValueU32(event, "type");
      if typeId.Some? && typeId.value in reg {
        usedFields := usedFields + {"type"};
        args := args + FormatFreeArg("type", Str(reg[typeId.value]));
      }
      var values := event.values;
      var used := usedFields;
      var prefix := TypeArg(event, reg);
      assert args == CommaJoin(prefix);
      var i := 0;
      while i < |values|
        invariant 0 <= i <= |values|
        invariant args == CommaJoin(prefix + UnusedArgs(values[..i], used))
        modifies {}
      {
        FreeArgsStep(event, reg, values, i, used);
        var name := values[i].0;
        var v := values[i].1;
        if name !in used {
          if args != "" {
            args := args + ",";
          }
          args := args + FormatFreeArg(name, v);
        }
        i := i + 1;
      }
      assert values[..i] == values;
    }

    /** `write_event`: the record's text, or the error for a missing
        timestamp, in which case nothing is gathered. */
    method WriteEvent() returns (r: Result<string>)
      modifies this
      ensures r == EventText(event, reg, text, old(usedFields))
      ensures usedFields == if r.Ok? then UsedAfter(event, reg, old(usedFields)) else old(usedFields)
    {
      var timestamp := GetValueU64(event, "timestamp");
      if timestamp.None? {
        return Err(MissingValue("timestamp"));
      }
      var ts := NsToUs(timestamp.value);
      var duration := GetValueU64(event, "duration");
      var dur := if duration.Some? then NsToUs(duration.value) else 0;
      var threadId := GetValueU32(event, "thread_id");
      var tid := if threadId.Some? then threadId.value else InvalidThreadId;
      var args := GetFreeArgs();
      r := Ok(Record(text, ts, dur, tid, args));
    }
  }

  /** `process_event` for a label lookup's answer: no label field is an
      error, and so is a field without a label; otherwise the event's
      record. */
  function ConvertEvent(e: Event, reg: Registry, field: Option<string>, text: Option<string>): Result<string> {
    match field
    case None => Err(MissingLabelField)
    case Some(f) =>
      match text
      case None => Err(InvalidType(f))
      case Some(t) => EventText(e, reg, t, InitialUsed(f))
  }

  /** The status `process_event` returns for a conversion. */
  function Status(c: Result<string>): Result<()> {
    match c
    case Ok(_) => Ok(())
    case Err(error) => Err(error)
  }

  /** The text a conversion appends to the output. */
  function Written(c: Result<string>): string {
    match c
    case Ok(t) => t
    case Err(_) => ""
  }

  /** The label getter finds a field exactly when it finds a label, so
      `InvalidType` is never the outcome of a converted event. */
  lemma InvalidTypeUnreachable(fields: seq<string>, m: map<nat, string>, e: Event, reg: Registry)
    ensures var (field, text, _) := LabelOf(fields, m, e);
            !ConvertEvent(e, reg, field, text).Err? || !ConvertEvent(e, reg, field, text).error.InvalidType?
  {
  }

  /** `ChromeTracingConverter`: the text written so far, whether the array's
      opening bracket is written, and the label getter. */
  class ChromeTracingConverter {
    var output: string
    var headerWritten: bool
    const labelGetter: LabelGetter

    /** `ChromeTracingConverter::new`. */
    constructor (labelGetter: LabelGetter)
      ensures output == "" && !headerWritten && this.labelGetter == labelGetter
    {
      output := "";
      headerWritten := false;
      this.labelGetter := labelGetter;
    }

    /** `process_event`: the opening bracket before the first event (even
        one that fails), the label lookup, then the event's record or the
        error. Nothing closes the array. */
    method ProcessEvent(e: Event, reg: Registry) returns (r: Result<()>)
      modifies this, labelGetter, labelGetter.labelMap
      ensures headerWritten
      ensures labelGetter.mappingEventId == old(labelGetter.After(e)).0
      ensures labelGetter.labelMap.mapping == old(labelGetter.After(e)).3
      ensures r == Status(ConvertEvent(e, reg, old(labelGetter.After(e)).1, old(labelGetter.After(e)).2))
      ensures output == old(output) + (if old(headerWritten) then "" else "[")
                        + Written(ConvertEvent(e, reg, old(labelGetter.After(e)).1, old(labelGetter.After(e)).2))
    {
      ghost var answer := labelGetter.After(e);
      ghost var before := output + (if headerWritten then "" else "[");
      if !headerWritten {
        output := output + "[";
        headerWritten := true;
      }
      assert output == before;
      var field, text := labelGetter.GetLabel(e);
      assert field == answer.1 && text == answer.2;
      r := Emit(e, reg, field, text);
    }

    /** The part of `process_event` after the label lookup. */
    method Emit(e: Event, reg: Registry, field: Option<string>, text: Option<string>) returns (r: Result<()>)
      requires field.Some? <==> text.Some?
      modifies this
      ensures headerWritten == old(headerWritten)
      ensures r == Status(ConvertEvent(e, reg, field, text))
      ensures output == old(output) + Written(ConvertEvent(e, reg, field, text))
    {
      if field.None? {
        return Err(MissingLabelField);
      }
      var f := field.value;
      if text.None? {
        assert false;
        return Err(InvalidType(f));
      }
      var writer := new EventWriter(e, reg, text.value, field.value);
      var written := writer.WriteEvent();
      if written.Err? {
        return Err(written.error);
      }
      output := output + written.value;
      r := Ok(());
    }
  }
}
