/** The label getter (src/label_mapping.rs): a map from numeric identifiers to
    labels, loaded from a text file of `<category> <label> <identifier>` lines
    and extended by string-mapping events in the trace, and the lookup that
    finds an event's label among a list of candidate fields. */
module LabelMapping {
  import opened Prelude
  import opened Events

  // ---------------------------------------------------------------------
  // Lines of the mapping file.

  /** `str::split(sep)`: the pieces between separators, empty pieces
      included, so there is always one more piece than separators. */
  function Split(s: string, sep: char): (r: seq<string>)
    ensures |r| >= 1
    ensures forall i :: 0 <= i < |r| ==> sep !in r[i]
    decreases |s|
  {
    if s == [] then [""]
    else
      var rest := Split(s[1..], sep);
      if s[0] == sep then [""] + rest
      else [[s[0]] + rest[0]] + rest[1..]
  }

  /** The pieces put back together, the separator between neighbours. */
  function Join(ps: seq<string>, sep: char): string
    requires |ps| >= 1
    decreases |ps|
  {
    if |ps| == 1 then ps[0] else ps[0] + [sep] + Join(ps[1..], sep)
  }

  /** Splitting loses nothing: joining the pieces gives the line back. */
  lemma {:induction false} SplitJoin(s: string, sep: char)
    ensures Join(Split(s, sep), sep) == s
    decreases |s|
  {
    if s != [] {
      SplitJoin(s[1..], sep);
      var rest := Split(s[1..], sep);
      if s[0] == sep {
        assert ([""] + rest)[1..] == rest;
        assert s == [s[0]] + s[1..];
      } else {
        var ps := [[s[0]] + rest[0]] + rest[1..];
        if |rest| == 1 {
          assert s == [s[0]] + rest[0];
        } else {
          assert ps[1..] == rest[1..];
          assert Join(rest, sep) == rest[0] + [sep] + Join(rest[1..], sep);
          assert s == [s[0]] + s[1..];
        }
      }
    }
  }

  /** Joining pieces free of the separator and splitting again gives the
      same pieces. */
  lemma {:induction false} JoinSplit(ps: seq<string>, sep: char)
    requires |ps| >= 1 && forall i :: 0 <= i < |ps| ==> sep !in ps[i]
    ensures Split(Join(ps, sep), sep) == ps
    decreases |ps|, |ps[0]|
  {
    if |ps| == 1 {
      SplitPiece(ps[0], sep);
    } else {
      var tail := Join(ps[1..], sep);
      JoinSplit(ps[1..], sep);
      SplitPrefix(ps[0], tail, sep);
      assert [ps[0]] + ps[1..] == ps;
    }
  }

  /** A string free of the separator is one piece. */
  lemma {:induction false} SplitPiece(s: string, sep: char)
    requires sep !in s
    ensures Split(s, sep) == [s]
    decreases |s|
  {
    if s != [] {
      SplitPiece(s[1..], sep);
      assert [s[0]] + s[1..] == s;
    }
  }

  /** A piece free of the separator, the separator and a tail: the piece
      followed by the tail's pieces. */
  lemma {:induction false} SplitPrefix(p: string, tail: string, sep: char)
    requires sep !in p
    ensures Split(p + [sep] + tail, sep) == [p] + Split(tail, sep)
    decreases |p|
  {
    var s := p + [sep] + tail;
    if p == [] {
      assert s[1..] == tail;
    } else {
      assert s[1..] == p[1..] + [sep] + tail;
      SplitPrefix(p[1..], tail, sep);
      var rest := Split(s[1..], sep);
      assert rest[0] == p[1..] && rest[1..] == Split(tail, sep);
      assert [p[0]] + p[1..] == p;
    }
  }

  /** One line of the mapping file: exactly three space-separated pieces,
      the third an identifier `str::parse::<u64>` accepts; the result is the
      identifier and the second piece, the label. The first piece, the
      category, is not used. */
  function ParseLine(line: string): (r: Option<(nat, string)>)
    ensures r.Some? ==> r.value.0 <= U64_MAX && ' ' !in r.value.1
  {
    var pieces := Split(line, ' ');
    if |pieces| != 3 then None
    else match ParseU64(pieces[2])
      case None => None
      case Some(id) => Some((id, pieces[1]))
  }

  /** A line of three space-free pieces is kept exactly when its third
      piece parses as a `u64`, and then gives that number and the label;
      otherwise it is skipped. */
  lemma ParseThreePieces(category: string, text: string, ident: string)
    requires ' ' !in category && ' ' !in text && ' ' !in ident
    ensures ParseLine(category + " " + text + " " + ident)
         == if ParseU64(ident).Some? then Some((ParseU64(ident).value, text)) else None
  {
    var ps := [category, text, ident];
    assert Join(ps, ' ') == category + " " + text + " " + ident by {
      assert ps[1..][1..] == [ident];
      assert Join(ps[1..], ' ') == text + [' '] + ident;
      assert " " == [' '];
    }
    JoinSplit(ps, ' ');
  }

  /** A line written as category, label and identifier, separated by single
      spaces, is read back as that identifier and label. */
  lemma ParseWrittenLine(category: string, text: string, id: nat)
    requires ' ' !in category && ' ' !in text && id <= U64_MAX
    ensures ParseLine(category + " " + text + " " + Decimal(id)) == Some((id, text))
  {
    assert ' ' !in Decimal(id) by {
      assert forall i :: 0 <= i < |Decimal(id)| ==> IsDigit(Decimal(id)[i]);
    }
    ParseThreePieces(category, text, Decimal(id));
    DecimalRoundTrip(id);
  }

  /** A line whose identifier is a word is skipped. */
  lemma WordIdentifierSkipped()
    ensures ParseLine("cat lbl abc") == None
  {
    ParseThreePieces("cat", "lbl", "abc");
    assert "cat lbl abc" == "cat" + " " + "lbl" + " " + "abc";
    NonDigitRejected("abc", 0);
  }

  /** A line whose identifier is negative is skipped. */
  lemma NegativeIdentifierSkipped()
    ensures ParseLine("cat lbl -1") == None
  {
    ParseThreePieces("cat", "lbl", "-1");
    assert "cat lbl -1" == "cat" + " " + "lbl" + " " + "-1";
    NonDigitRejected("-1", 0);
  }

  /** A line whose identifier is past the `u64` range is skipped. */
  lemma OverflowIdentifierSkipped(n: nat)
    requires n > U64_MAX
    ensures ParseLine("cat lbl " + Decimal(n)) == None
  {
    assert ' ' !in Decimal(n) by {
      assert forall i :: 0 <= i < |Decimal(n)| ==> IsDigit(Decimal(n)[i]);
    }
    ParseThreePieces("cat", "lbl", Decimal(n));
    assert "cat lbl " + Decimal(n) == "cat" + " " + "lbl" + " " + Decimal(n);
    OverflowRejected(n);
  }

  /** A file with a corrupted line keeps the valid line after it: the line
      with a word for its identifier is skipped and `8` maps to its label. */
  lemma CorruptedLineIgnored(m: map<nat, string>)
    ensures Load(m, ["cat lbl abc", "cat valid_label 8"]) == m[8 := "valid_label"]
  {
    var lines := ["cat lbl abc", "cat valid_label 8"];
    var first := lines[..1];
    assert first[..0] == [];
    WordIdentifierSkipped();
    assert Load(m, first) == ApplyLine(m, "cat lbl abc") == m;
    ValidLineRead();
    assert Load(m, lines) == ApplyLine(Load(m, first), "cat valid_label 8");
  }

  /** The valid line of that file. */
  lemma ValidLineRead()
    ensures ParseLine("cat valid_label 8") == Some((8, "valid_label"))
  {
    assert "cat valid_label 8" == "cat" + " " + "valid_label" + " " + "8";
    ParseThreePieces("cat", "valid_label", "8");
    assert ParseU64("8") == Some(8) by {
      assert UnsignedDigits("8") == "8";
      assert DigitsValue("8") == DigitsValue("8"[..0]) * 10 + 8;
    }
  }

  /** A line whose pieces are not exactly three is ignored. */
  lemma WrongPieceCount(ps: seq<string>)
    requires |ps| >= 1 && |ps| != 3 && forall i :: 0 <= i < |ps| ==> ' ' !in ps[i]
    ensures ParseLine(Join(ps, ' ')) == None
  {
    JoinSplit(ps, ' ');
  }

  /** The mapping after one more line: a valid line's identifier gets its
      label, replacing any earlier one; another line changes nothing. */
  function ApplyLine(m: map<nat, string>, line: string): map<nat, string> {
    match ParseLine(line)
    case Some((id, text)) => m[id := text]
    case None => m
  }

  /** `LabelMap::load_from_file` over the file's lines, in order. */
  function Load(m: map<nat, string>, lines: seq<string>): map<nat, string>
    decreases |lines|
  {
    if lines == [] then m else ApplyLine(Load(m, lines[..|lines| - 1]), lines[|lines| - 1])
  }

  /** Line `line` gives identifier `id` a label. */
  predicate Defines(line: string, id: nat) {
    ParseLine(line).Some? && ParseLine(line).value.0 == id
  }

  /** The last line wins: when line `i` is the last valid line naming
      `id`, the loaded mapping gives `id` that line's label. */
  lemma {:induction false} LoadLastWins(m: map<nat, string>, lines: seq<string>, id: nat, i: nat)
    requires i < |lines| && Defines(lines[i], id)
    requires forall j :: i < j < |lines| ==> !Defines(lines[j], id)
    ensures id in Load(m, lines) && Load(m, lines)[id] == ParseLine(lines[i]).value.1
    decreases |lines|
  {
    var init := lines[..|lines| - 1];
    if i < |lines| - 1 {
      assert init[i] == lines[i];
      assert forall j :: i < j < |init| ==> init[j] == lines[j];
      LoadLastWins(m, init, id, i);
      LoadStepOther(Load(m, init), lines[|lines| - 1], id);
    }
  }

  /** An identifier no valid line names keeps what the mapping had. */
  lemma {:induction false} LoadUntouched(m: map<nat, string>, lines: seq<string>, id: nat)
    requires forall j :: 0 <= j < |lines| ==> !Defines(lines[j], id)
    ensures id in Load(m, lines) <==> id in m
    ensures id in m ==> Load(m, lines)[id] == m[id]
    decreases |lines|
  {
    if lines != [] {
      var init := lines[..|lines| - 1];
      assert forall j :: 0 <= j < |init| ==> init[j] == lines[j];
      LoadUntouched(m, init, id);
      LoadStepOther(Load(m, init), lines[|lines| - 1], id);
    }
  }

  lemma LoadStepOther(m: map<nat, string>, line: string, id: nat)
    requires !Defines(line, id)
    ensures (id in ApplyLine(m, line) <==> id in m) && (id in m ==> ApplyLine(m, line)[id] == m[id])
  {
  }

  /** What the map holds for `id`, or the identifier's decimal text. */
  function Resolve(m: map<nat, string>, id: nat): string {
    if id in m then m[id] else Decimal(id)
  }

  /** Remembering the fallback is invisible: afterwards every identifier
      resolves as before. */
  lemma MemoInvisible(m: map<nat, string>, id: nat, k: nat)
    ensures Resolve(m[id := Resolve(m, id)], k) == Resolve(m, k)
  {
  }

  /** An identifier without a label resolves to text that parses back to it. */
  lemma FallbackReadsBack(m: map<nat, string>, id: nat)
    requires id !in m && id <= U64_MAX
    ensures ParseU64(Resolve(m, id)) == Some(id)
  {
    DecimalRoundTrip(id);
  }

  /** `LabelMap`: identifier to label. */
  class LabelMap {
    var mapping: map<nat, string>

    /** `LabelMap::new`. */
    constructor ()
      ensures mapping == map[]
    {
      mapping := map[];
    }

    /** `LabelMap::load_from_file`, given the file's lines: lines that are
        not three pieces or whose identifier does not parse are skipped. */
    method LoadLines(lines: seq<string>)
      modifies this
      ensures mapping == Load(old(mapping), lines)
    {
      var i := 0;
      while i < |lines|
        invariant 0 <= i <= |lines|
        invariant mapping == Load(old(mapping), lines[..i])
      {
        assert lines[..i + 1][..i] == lines[..i];
        var line := lines[i];
        var pieces := Split(line, ' ');
        if |pieces| == 3 {
          var id := ParseU64(pieces[2]);
          if id.Some? {
            mapping := mapping[id.value := pieces[1]];
          }
        }
        i := i + 1;
      }
      assert lines[..i] == lines;
    }

    /** `LabelMap::get_label`: the label of `id`; an identifier without one
        gets its decimal text, which is remembered. */
    method GetLabel(id: nat) returns (text: string)
      modifies this
      ensures text == Resolve(old(mapping), id)
      ensures mapping == old(mapping)[id := text]
    {
      if id !in mapping {
        mapping := mapping[id := Decimal(id)];
      }
      text := mapping[id];
    }

    /** `LabelMap::add_mapping`: `id` gets `label`, replacing any earlier one. */
    method AddMapping(id: nat, text: string)
      modifies this
      ensures mapping == old(mapping)[id := text]
    {
      mapping := mapping[id := text];
    }
  }

  // ---------------------------------------------------------------------
  // The label getter.

  /** The class name of the events that extend the mapping at run time. */
  const StringMappingKlass: string := "HT_StringMappingEvent"

  /** `update_mapping_event_info` on values: the class id of the mapping
      events and the mapping, after `e`. Until the class id is known, a
      class-info event (class id `klassInfoId`) that describes the mapping
      event class supplies it; once it is known, every event of that class
      with a `u64` identifier and a string label adds that pair. */
  function UpdateInfo(klassInfoId: nat, mappingId: Option<nat>, m: map<nat, string>, e: Event)
    : (r: (Option<nat>, map<nat, string>))
  {
    if mappingId.None? && e.klassId == klassInfoId then
      if GetValueString(e, "event_klass_name") == Some(StringMappingKlass) then
        (GetValueU32(e, "info_klass_id"), m)
      else (mappingId, m)
    else if mappingId.Some? && e.klassId == mappingId.value then
      match (GetValueU64(e, "identifier"), GetValueString(e, "label"))
      case (Some(id), Some(text)) => (mappingId, m[id := text])
      case _ => (mappingId, m)
    else (mappingId, m)
  }

  /** Once known, the class id of the mapping events never changes; it is
      learnt from, and only from, a class-info event describing the mapping
      event class, and then the mapping is left alone. */
  lemma MappingIdLearntOnce(klassInfoId: nat, mappingId: Option<nat>, m: map<nat, string>, e: Event)
    ensures var r := UpdateInfo(klassInfoId, mappingId, m, e);
            && (mappingId.Some? ==> r.0 == mappingId)
            && (mappingId.None? && e.klassId == klassInfoId
                && GetValueString(e, "event_klass_name") == Some(StringMappingKlass) ==>
                  r.0 == GetValueU32(e, "info_klass_id") && r.1 == m)
            && (r.0 != mappingId ==>
                  && mappingId.None? && e.klassId == klassInfoId
                  && GetValueString(e, "event_klass_name") == Some(StringMappingKlass)
                  && r.0 == GetValueU32(e, "info_klass_id") && r.1 == m)
  {
  }

  /** A mapping event with a `u64` identifier and a string label maps the
      identifier to the label; the mapping changes by no other event and in
      no other entry. */
  lemma MappingChangesOnlyByEvent(klassInfoId: nat, mappingId: Option<nat>, m: map<nat, string>, e: Event)
    ensures var r := UpdateInfo(klassInfoId, mappingId, m, e);
            mappingId.Some? && e.klassId == mappingId.value
            && GetValueU64(e, "identifier").Some? && GetValueString(e, "label").Some? ==>
              r.1 == m[GetValueU64(e, "identifier").value := GetValueString(e, "label").value]
    ensures var r := UpdateInfo(klassInfoId, mappingId, m, e);
            r.1 != m ==>
              && mappingId.Some? && e.klassId == mappingId.value
              && GetValueU64(e, "identifier").Some? && GetValueString(e, "label").Some?
              && r.1 == m[GetValueU64(e, "identifier").value := GetValueString(e, "label").value]
  {
  }

  /** A field value that can be a label: a `u64` (an identifier to look up)
      or a string (the label itself). */
  predicate IsLabelValue(v: Option<Value>) {
    v.Some? && (v.value.U64? || v.value.Str?)
  }

  /** The position of the first field, from `i` on, whose value can be a label. */
  function FirstLabelField(fields: seq<string>, e: Event, i: nat): (r: Option<nat>)
    requires i <= |fields|
    ensures r.Some? ==> i <= r.value < |fields| && IsLabelValue(GetRawValue(e, fields[r.value]))
                        && forall j :: i <= j < r.value ==> !IsLabelValue(GetRawValue(e, fields[j]))
    ensures r.None? ==> forall j :: i <= j < |fields| ==> !IsLabelValue(GetRawValue(e, fields[j]))
    decreases |fields| - i
  {
    if i == |fields| then None
    else if IsLabelValue(GetRawValue(e, fields[i])) then Some(i)
    else FirstLabelField(fields, e, i + 1)
  }

  /** `LabelGetter::get_label` on values, after the mapping update: the first
      candidate field holding a `u64` or a string names the label; a `u64` is
      resolved through the mapping (which remembers the fallback); no such
      field gives neither a field nor a label. The result: field, label and
      the mapping afterwards. */
  function LabelOf(fields: seq<string>, m: map<nat, string>, e: Event)
    : (r: (Option<string>, Option<string>, map<nat, string>))
    ensures r.0.Some? <==> r.1.Some?
    ensures r.0.Some? ==> exists j :: 0 <= j < |fields| && fields[j] == r.0.value
    ensures r.0.None? ==> r.2 == m && forall j :: 0 <= j < |fields| ==> !IsLabelValue(GetRawValue(e, fields[j]))
    ensures FirstLabelField(fields, e, 0).None? ==> r == (None, None, m)
    ensures FirstLabelField(fields, e, 0).Some? ==>
              var j := FirstLabelField(fields, e, 0).value;
              var v := GetRawValue(e, fields[j]).value;
              && r.0 == Some(fields[j])
              && (v.Str? ==> r.1 == Some(v.s) && r.2 == m)
              && (v.U64? ==> r.1 == Some(Resolve(m, v.n)) && r.2 == m[v.n := Resolve(m, v.n)])
  {
    match FirstLabelField(fields, e, 0)
    case None => (None, None, m)
    case Some(j) =>
      match GetRawValue(e, fields[j])
      case Some(U64(n)) => (Some(fields[j]), Some(Resolve(m, n)), m[n := Resolve(m, n)])
      case Some(Str(s)) => (Some(fields[j]), Some(s), m)
  }

  /** The event a test builds: class id 1 and one field. */
  function OneFieldEvent(name: string, v: Value): Event {
    Event(1, [(name, v)])
  }

  /** A string field named by the getter is the label. */
  lemma StringFieldIsLabel(m: map<nat, string>)
    ensures LabelOf(["name"], m, OneFieldEvent("name", Str("test1"))) == (Some("name"), Some("test1"), m)
  {
    assert FirstLabelField(["name"], OneFieldEvent("name", Str("test1")), 0) == Some(0);
  }

  /** An event without any of the fields gives no label. */
  lemma MissingFieldNoLabel(m: map<nat, string>)
    ensures LabelOf(["unknown"], m, OneFieldEvent("name", Str("test1"))) == (None, None, m)
  {
    assert FirstLabelField(["unknown"], OneFieldEvent("name", Str("test1")), 1) == None;
  }

  /** A field of a type that cannot be a label gives no label. */
  lemma OtherTypeNoLabel(m: map<nat, string>, d: string)
    ensures LabelOf(["name"], m, OneFieldEvent("name", Other(d))) == (None, None, m)
  {
    assert FirstLabelField(["name"], OneFieldEvent("name", Other(d)), 1) == None;
  }

  /** A numeric field is looked up; an unknown identifier gives its decimal text. */
  lemma NumericFieldResolved(m: map<nat, string>, n: nat)
    ensures LabelOf(["label", "name"], m, OneFieldEvent("label", U64(n)))
         == (Some("label"), Some(Resolve(m, n)), m[n := Resolve(m, n)])
  {
    assert FirstLabelField(["label", "name"], OneFieldEvent("label", U64(n)), 0) == Some(0);
  }

  /** The candidate fields the program uses, in order of preference. */
  const DefaultLabelFields: seq<string> := ["label", "name"]

  /** With both fields present, `label` wins over `name`, whatever the
      order of the event's fields. */
  lemma LabelFieldPreferred(m: map<nat, string>, a: string, b: string)
    ensures LabelOf(DefaultLabelFields, m, Event(1, [("name", Str(a)), ("label", Str(b))])) == (Some("label"), Some(b), m)
  {
    var e := Event(1, [("name", Str(a)), ("label", Str(b))]);
    assert e.values[1..] == [("label", Str(b))];
    assert Lookup(e.values[1..], "label") == Some(Str(b));
    assert GetRawValue(e, "label") == Some(Str(b));
    assert FirstLabelField(DefaultLabelFields, e, 0) == Some(0);
  }

  /** Without a `label` field, `name` is used. */
  lemma NameFieldFallback(m: map<nat, string>, a: string)
    ensures LabelOf(DefaultLabelFields, m, Event(1, [("name", Str(a))])) == (Some("name"), Some(a), m)
  {
    assert FirstLabelField(DefaultLabelFields, Event(1, [("name", Str(a))]), 1) == Some(1);
  }

  /** `LabelGetter`: the mapping, the candidate fields in order of
      preference, and the class id of the mapping events once known.
      `klassInfoId` is the class id the decoder gives class-info events
      (`CoreEventKlassId::KlassInfo`, defined by the decoder). */
  class LabelGetter {
    const labelMap: LabelMap
    const labelFields: seq<string>
    const klassInfoId: nat
    var mappingEventId: Option<nat>

    /** `LabelGetter::new`. */
    constructor (labelMap: LabelMap, labelFields: seq<string>, klassInfoId: nat)
      ensures this.labelMap == labelMap && this.labelFields == labelFields
      ensures this.klassInfoId == klassInfoId && mappingEventId == None
    {
      this.labelMap := labelMap;
      this.labelFields := labelFields;
      this.klassInfoId := klassInfoId;
      mappingEventId := None;
    }

    /** What `GetLabel(e)` does, on values: the class id of the mapping
        events, the field, the label and the mapping afterwards. */
    ghost function After(e: Event): (Option<nat>, Option<string>, Option<string>, map<nat, string>)
      reads this, labelMap
    {
      var (id, m) := UpdateInfo(klassInfoId, mappingEventId, labelMap.mapping, e);
      var (field, text, m2) := LabelOf(labelFields, m, e);
      (id, field, text, m2)
    }

    /** `update_mapping_event_info`. */
    method UpdateMappingEventInfo(e: Event)
      modifies this, labelMap
      ensures (mappingEventId, labelMap.mapping)
           == UpdateInfo(klassInfoId, old(mappingEventId), old(labelMap.mapping), e)
    {
      if mappingEventId.None? && e.klassId == klassInfoId {
        var klassName := GetValueString(e, "event_klass_name");
        if klassName == Some(StringMappingKlass) {
          mappingEventId := GetValueU32(e, "info_klass_id");
        }
      } else if mappingEventId.Some? && e.klassId == mappingEventId.value {
        var id := GetValueU64(e, "identifier");
        var text := GetValueString(e, "label");
        if text.Some? && id.Some? {
          labelMap.AddMapping(id.value, text.value);
        }
      }
    }

    /** `LabelGetter::get_label`: update the mapping from the event, then
        return the first candidate field holding a `u64` or a string and the
        label it gives. */
    method GetLabel(e: Event) returns (field: Option<string>, text: Option<string>)
      modifies this, labelMap
      ensures (mappingEventId, field, text, labelMap.mapping) == old(After(e))
    {
      UpdateMappingEventInfo(e);
      ghost var updated := labelMap.mapping;
      var i := 0;
      while i < |labelFields|
        invariant 0 <= i <= |labelFields|
        invariant FirstLabelField(labelFields, e, 0) == FirstLabelField(labelFields, e, i)
        invariant labelMap.mapping == updated
        invariant mappingEventId == UpdateInfo(klassInfoId, old(mappingEventId), old(labelMap.mapping), e).0
      {
        var value := GetRawValue(e, labelFields[i]);
        if value.Some? {
          match value.value {
            case U64(n) =>
              var l := labelMap.GetLabel(n);
              return Some(labelFields[i]), Some(l);
            case Str(s) =>
              return Some(labelFields[i]), Some(s);
            case _ =>
          }
        }
        assert !IsLabelValue(value);
        assert FirstLabelField(labelFields, e, i) == FirstLabelField(labelFields, e, i + 1);
        i := i + 1;
      }
      return None, None;
    }
  }
}
