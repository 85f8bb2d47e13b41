/** The boundary with the trace decoder (the `hawktracer_parser` crate, which is
    not part of this model): a decoded event is a class id plus named field
    values, and the class registry maps class ids to class names. */
module Events {
  import opened Prelude

  /** A field value. `U64`, `U32` and `Str` are the variants the converters
      inspect; every other variant of the decoder (signed and narrower
      integers, nested structures) is `Other`, carrying the text the decoder's
      `Display` gives it. */
  datatype Value = U64(n: nat) | U32(n: nat) | Str(s: string) | Other(display: string)

  /** A value the decoder can produce: an unsigned integer within its width. */
  predicate ValidValue(v: Value) {
    match v
    case U64(n) => n <= U64_MAX
    case U32(n) => n <= U32_MAX
    case _ => true
  }

  /** A decoded event. `values` lists the fields in the order in which the
      decoder's hash map yields them; that order is arbitrary and given. */
  datatype Event = Event(klassId: nat, values: seq<(string, Value)>)

  /** An event the decoder can produce: every field value is valid. */
  predicate ValidEvent(e: Event) {
    forall i :: 0 <= i < |e.values| ==> ValidValue(e.values[i].1)
  }

  /** Class id to class name (`EventKlassRegistry::get_klass_by_id`). */
  type Registry = map<nat, string>

  /** `Event::get_raw_value`: the value stored under `name`, if any. */
  function GetRawValue(e: Event, name: string): (r: Option<Value>)
    ensures r.Some? <==> exists i :: 0 <= i < |e.values| && e.values[i].0 == name
    ensures r.Some? ==> exists i :: 0 <= i < |e.values| && e.values[i] == (name, r.value)
  {
    Lookup(e.values, name)
  }

  function Lookup(values: seq<(string, Value)>, name: string): (r: Option<Value>)
    ensures r.Some? <==> exists i :: 0 <= i < |values| && values[i].0 == name
    ensures r.Some? ==> exists i :: 0 <= i < |values| && values[i] == (name, r.value)
  {
    if values == [] then None
    else if values[0].0 == name then Some(values[0].1)
    else
      var r := Lookup(values[1..], name);
      assert forall i :: 1 <= i < |values| ==> values[i] == values[1..][i - 1];
      r
  }

  /** `Event::get_value_u64`: succeeds only for a field holding a `U64`. */
  function GetValueU64(e: Event, name: string): Option<nat> {
    match GetRawValue(e, name)
    case Some(U64(n)) => Some(n)
    case _ => None
  }

  /** `Event::get_value_u32`: succeeds only for a field holding a `U32`. */
  function GetValueU32(e: Event, name: string): Option<nat> {
    match GetRawValue(e, name)
    case Some(U32(n)) => Some(n)
    case _ => None
  }

  /** The numbers read from a valid event stay within their widths. */
  lemma ValidEventBounds(e: Event, name: string)
    requires ValidEvent(e)
    ensures GetValueU64(e, name).Some? ==> GetValueU64(e, name).value <= U64_MAX
    ensures GetValueU32(e, name).Some? ==> GetValueU32(e, name).value <= U32_MAX
  {
    match GetRawValue(e, name)
    case Some(v) =>
      var i :| 0 <= i < |e.values| && e.values[i] == (name, v);
      assert ValidValue(e.values[i].1);
    case None =>
  }

  /** `Event::get_value_string`: succeeds only for a field holding a `Str`. */
  function GetValueString(e: Event, name: string): Option<string> {
    match GetRawValue(e, name)
    case Some(Str(s)) => Some(s)
    case _ => None
  }

  /** The decoder's `Display` of a value: numbers in decimal, strings quoted. */
  function Display(v: Value): string {
    match v
    case U64(n) => Decimal(n)
    case U32(n) => Decimal(n)
    case Str(s) => "\"" + s + "\""
    case Other(d) => d
  }
}
