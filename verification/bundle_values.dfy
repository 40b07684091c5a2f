/** Bundle-facing values as trees, their canonical JSON length, and the measures their budgets are
    about.  Texts are sequences of code points that may hold surrogates, as in Python. */
module BundleValues {
  import opened Wrappers
  import opened PythonText

  const ROOT_MAX_BYTES := 8 * 1024 * 1024
  const ROOT_MAX_NODES := 65536
  const STRING_MAX_BYTES := 4096
  const TUPLE_MAX_ITEMS := 1024
  const INTEGER_MAX := 0x7FFF_FFFF_FFFF_FFFF
  const METRIC_MAX_DEPTH := 64
  const PLAN_TEXT_MAX_CHARS := 8192

  /** `Closure` is an `AcceptedMeasurementClosure`, with the two fields that are treated specially
      apart from its other ones.  `Float` carries its `repr`. */
  datatype Value =
    | Null
    | Boolean(b: bool)
    | Integer(n: int)
    | Float(finite: bool, repr: string)
    | Text(s: Str)
    | List(items: seq<Value>)
    | Dict(entries: seq<Entry>)
    | Tuple(items: seq<Value>)
    | Record(kind: string, fields: seq<Field>)
    | Closure(fields: seq<Field>, metrics: Value, receipt: Value)
    | Foreign

  datatype Entry = Entry(key: Value, item: Value)

  datatype Field = Field(name: string, value: Value)

  // ---- Scalars

  function PointBytes(c: Point): nat {
    if c < 0x80 then 1 else if c < 0x800 then 2 else if c < 0x10000 then 3 else 4
  }

  /** The UTF-8 length; None is the `UnicodeError` of a surrogate. */
  function Utf8Length(s: Str): Option<nat> {
    if s == [] then Some(0)
    else
      var rest := Utf8Length(s[..|s| - 1]);
      if rest.None? || Surrogate(s[|s| - 1]) then None else Some(rest.value + PointBytes(s[|s| - 1]))
  }

  /** The bytes of one code point inside a JSON string. */
  function EscapedBytes(c: Point): nat {
    if c == 0x22 || c == 0x5C || 8 <= c <= 10 || c == 12 || c == 13 then 2
    else if c < 0x20 then 6
    else PointBytes(c)
  }

  function TextLength(s: Str): (length: nat)
    ensures length >= 2
  {
    if s == [] then 2 else TextLength(s[..|s| - 1]) + EscapedBytes(s[|s| - 1])
  }

  function DigitCount(n: nat): nat {
    if n < 10 then 1 else 1 + DigitCount(n / 10)
  }

  function IntegerLength(n: int): nat {
    if n < 0 then 1 + DigitCount(-n) else DigitCount(n)
  }

  // ---- Nodes: every value, list item, dictionary key and item, and record field

  function Nodes(v: Value): (n: nat)
    ensures n >= 1
    decreases v
  {
    match v
    case List(items) => 1 + AllNodes(items)
    case Tuple(items) => 1 + AllNodes(items)
    case Dict(entries) => 1 + EntryNodes(entries)
    case Record(_, fields) => 1 + FieldNodes(fields)
    case Closure(fields, metrics, receipt) => 1 + FieldNodes(fields) + Nodes(metrics) + Nodes(receipt)
    case _ => 1
  }

  function AllNodes(items: seq<Value>): nat
    decreases items
  {
    if items == [] then 0 else AllNodes(items[..|items| - 1]) + Nodes(items[|items| - 1])
  }

  function PairNodes(e: Entry): nat
    decreases e
  {
    Nodes(e.key) + Nodes(e.item)
  }

  function EntryNodes(entries: seq<Entry>): nat
    decreases entries
  {
    if entries == [] then 0
    else
      EntryNodes(entries[..|entries| - 1]) + PairNodes(entries[|entries| - 1])
  }

  function FieldNodes(fields: seq<Field>): nat
    decreases fields
  {
    if fields == [] then 0 else FieldNodes(fields[..|fields| - 1]) + Nodes(fields[|fields| - 1].value)
  }

  // ---- The bytes of the scalars

  function Scalars(v: Value): nat
    decreases v
  {
    match v
    case Null => 4
    case Boolean(b) => if b then 4 else 5
    case Integer(n) => IntegerLength(n)
    case Float(_, repr) => |repr|
    case Text(s) => TextLength(s)
    case List(items) => AllScalars(items)
    case Tuple(items) => AllScalars(items)
    case Dict(entries) => EntryScalars(entries)
    case Record(_, fields) => FieldScalars(fields)
    case Closure(fields, metrics, receipt) => FieldScalars(fields) + Scalars(metrics) + Scalars(receipt)
    case Foreign => 0
  }

  function AllScalars(items: seq<Value>): nat
    decreases items
  {
    if items == [] then 0 else AllScalars(items[..|items| - 1]) + Scalars(items[|items| - 1])
  }

  function PairScalars(e: Entry): nat
    decreases e
  {
    Scalars(e.key) + Scalars(e.item)
  }

  function EntryScalars(entries: seq<Entry>): nat
    decreases entries
  {
    if entries == [] then 0
    else
      EntryScalars(entries[..|entries| - 1]) + PairScalars(entries[|entries| - 1])
  }

  function FieldScalars(fields: seq<Field>): nat
    decreases fields
  {
    if fields == [] then 0 else FieldScalars(fields[..|fields| - 1]) + Scalars(fields[|fields| - 1].value)
  }

  // ---- The projection and its length

  /** `projection_plain_value`: records become dictionaries, tuples lists; an absent root completion
      receipt is dropped.  Keys are sorted when printed, so their order here does not matter. */
  function Plain(v: Value): Value
    decreases v
  {
    match v
    case Tuple(items) => List(PlainItems(items))
    case Record(_, fields) => Dict(PlainFields(fields))
    case Closure(fields, metrics, receipt) =>
      var special := [Entry(Text(Points("metric_values")), if metrics.Tuple? then List(metrics.items) else metrics)]
                   + (if receipt.Null? then [] else [Entry(Text(Points("root_completion_receipt")), Plain(receipt))]);
      Dict(PlainFields(fields) + special)
    case _ => v
  }

  function PlainItems(items: seq<Value>): seq<Value>
    decreases items
  {
    if items == [] then [] else PlainItems(items[..|items| - 1]) + [Plain(items[|items| - 1])]
  }

  function PlainFields(fields: seq<Field>): seq<Entry>
    decreases fields
  {
    if fields == [] then []
    else
      var last := fields[|fields| - 1];
      PlainFields(fields[..|fields| - 1]) + [Entry(Text(Points(last.name)), Plain(last.value))]
  }

  /** The length of the compact JSON text of a projected value. */
  function Length(v: Value): nat
    decreases v
  {
    match v
    case List(items) => 2 + ItemsLength(items)
    case Tuple(items) => 2 + ItemsLength(items)
    case Dict(entries) => 2 + EntriesLength(entries)
    case Record(_, _) => 0
    case Closure(_, _, _) => 0
    case _ => Scalars(v)
  }

  function ItemsLength(items: seq<Value>): nat
    decreases items
  {
    if items == [] then 0
    else ItemsLength(items[..|items| - 1]) + (if |items| > 1 then 1 else 0) + Length(items[|items| - 1])
  }

  function PairLength(e: Entry): nat
    decreases e
  {
    Length(e.key) + 1 + Length(e.item)
  }

  function EntriesLength(entries: seq<Entry>): nat
    decreases entries
  {
    if entries == [] then 0
    else
      EntriesLength(entries[..|entries| - 1]) + (if |entries| > 1 then 1 else 0)
      + PairLength(entries[|entries| - 1])
  }
}
