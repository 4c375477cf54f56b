/**
 * The documents that `tomli.load` and `yaml.safe_load` hand to the
 * manifest readers, and the few Python operations those readers apply to
 * them: `key in x`, `x[key]`, `x.get(key, default)`, `x.items()`, iteration
 * and the f-string rendering `f"{x}"`.  Each operation returns `None` where
 * Python raises (a `TypeError` or an `AttributeError`).
 */
module PyValue {
  import opened Wrappers
  import opened PyText

  /** A parsed TOML or YAML value; tables keep their keys in document order. */
  datatype Value =
    | Null
    | Bool(b: bool)
    | Int(i: int)
    | Str(s: string)
    | Arr(items: seq<Value>)
    | Table(entries: seq<Entry>)

  datatype Entry = Entry(key: string, value: Value)

  /** The value stored under `key`: the first entry with that key. */
  function Lookup(entries: seq<Entry>, key: string): (r: Option<Value>)
    ensures r.Some? <==> exists k :: 0 <= k < |entries| && entries[k].key == key
    ensures r.Some? ==> exists k :: 0 <= k < |entries| && entries[k] == Entry(key, r.value)
  {
    if entries == [] then None
    else if entries[0].key == key then Some(entries[0].value)
    else
      var r := Lookup(entries[1..], key);
      assert forall k :: 1 <= k < |entries| ==> entries[k] == entries[1..][k - 1];
      r
  }

  /** `p in s` for two strings: `p` occurs somewhere in `s` (the empty string always does). */
  predicate Substring(p: string, s: string) {
    |p| == 0 || Find(s, p, 0).Some?
  }

  /** The keys of a table, as the strings iteration yields. */
  function Keys(entries: seq<Entry>): (r: seq<Value>)
    ensures |r| == |entries|
    ensures forall k :: 0 <= k < |r| ==> r[k] == Str(entries[k].key)
  {
    seq(|entries|, k requires 0 <= k < |entries| => Str(entries[k].key))
  }

  /**
   * `key in v` for a string `key`: key membership in a table, substring
   * search in a string, element equality in a list; `None` (a `TypeError`)
   * for anything that is not a container.
   */
  function Contains(v: Value, key: string): (r: Option<bool>)
    ensures r.None? <==> !(v.Table? || v.Str? || v.Arr?)
    ensures v.Table? ==> r == Some(Lookup(v.entries, key).Some?)
    ensures v.Arr? ==> r == Some(Str(key) in v.items)
  {
    match v
    case Table(entries) => Some(Lookup(entries, key).Some?)
    case Str(s) => Some(Substring(key, s))
    case Arr(items) => Some(Str(key) in items)
    case _ => None
  }

  /** `v[key]` for a string `key`: only a table that holds the key answers. */
  function Index(v: Value, key: string): (r: Option<Value>)
    ensures r.Some? <==> v.Table? && Lookup(v.entries, key).Some?
    ensures v.Table? ==> r == Lookup(v.entries, key)
  {
    if v.Table? then Lookup(v.entries, key) else None
  }

  /** `v.get(key, default)`: only tables have `get`. */
  function Get(v: Value, key: string, default: Value): (r: Option<Value>)
    ensures r.Some? <==> v.Table?
    ensures v.Table? ==> r.value == (match Lookup(v.entries, key) case Some(x) => x case None => default)
  {
    if v.Table? then
      match Lookup(v.entries, key)
      case Some(x) => Some(x)
      case None => Some(default)
    else None
  }

  /** `v.items()`: only tables have `items`. */
  function Items(v: Value): (r: Option<seq<Entry>>)
    ensures r.Some? <==> v.Table?
    ensures v.Table? ==> r.value == v.entries
  {
    if v.Table? then Some(v.entries) else None
  }

  /**
   * `for x in v`: a list yields its items, a table its keys, a string its
   * characters (as one-character strings); anything else raises.
   */
  function Iterate(v: Value): (r: Option<seq<Value>>)
    ensures r.Some? <==> v.Arr? || v.Table? || v.Str?
    ensures v.Arr? ==> r == Some(v.items)
    ensures v.Table? ==> r == Some(Keys(v.entries))
    ensures v.Str? ==> |r.value| == |v.s| && forall k :: 0 <= k < |v.s| ==> r.value[k] == Str([v.s[k]])
  {
    match v
    case Arr(items) => Some(items)
    case Table(entries) => Some(Keys(entries))
    case Str(s) => Some(seq(|s|, k requires 0 <= k < |s| => Str([s[k]])))
    case _ => None
  }

  /** Decimal digits of a natural number, most significant first. */
  function NatDigits(n: nat): (r: string)
    ensures |r| > 0
    ensures forall k :: 0 <= k < |r| ==> '0' <= r[k] <= '9'
  {
    var d := ['0' + (n % 10) as char];
    if n < 10 then d else NatDigits(n / 10) + d
  }

  /** `str(i)` for an integer. */
  function IntText(i: int): (r: string)
    ensures |r| > 0
  {
    if i < 0 then "-" + NatDigits(-i) else NatDigits(i)
  }

  /** The characters of `s` with `\`, the quote character and the common control characters escaped. */
  function Escape(s: string, quote: char): string {
    if s == [] then ""
    else
      var c := s[0];
      var e := if c == '\\' then "\\\\"
               else if c == quote then ['\\', quote]
               else if c == '\n' then "\\n"
               else if c == '\r' then "\\r"
               else if c == '\t' then "\\t"
               else [c];
      e + Escape(s[1..], quote)
  }

  /** `repr(s)`: single quotes, unless the text holds a single quote and no double quote. */
  function StrRepr(s: string): (r: string)
    ensures |r| >= 2 && r[0] == r[|r| - 1] && (r[0] == '\'' || r[0] == '"')
  {
    var quote := if '\'' in s && '"' !in s then '"' else '\'';
    [quote] + Escape(s, quote) + [quote]
  }

  /**
   * `str(v)`, which is what `f"{v}"` prints: a string verbatim, anything
   * else as its `repr`, so only the empty string displays as nothing.
   */
  function Display(v: Value): (r: string)
    ensures v.Str? ==> r == v.s
    ensures r == [] <==> v == Str([])
  {
    match v
    case Str(s) => s
    case _ => Repr(v)
  }

  /**
   * `repr(v)`; containers print their elements with `repr`.  The text is
   * never empty: a string is quoted, a list bracketed, a dict braced.
   */
  function Repr(v: Value): (r: string)
    decreases v, 1
    ensures |r| > 0
    ensures v.Str? ==> |r| >= 2 && r[0] == r[|r| - 1] && (r[0] == '\'' || r[0] == '"')
    ensures v.Arr? ==> |r| >= 2 && r[0] == '[' && r[|r| - 1] == ']'
    ensures v.Table? ==> |r| >= 2 && r[0] == '{' && r[|r| - 1] == '}'
  {
    match v
    case Null => "None"
    case Bool(b) => if b then "True" else "False"
    case Int(i) => IntText(i)
    case Str(s) => StrRepr(s)
    case Arr(items) => "[" + ReprItems(items) + "]"
    case Table(entries) => "{" + ReprEntries(entries) + "}"
  }

  /** The items of a list, `repr`-ed and joined by ", ". */
  function ReprItems(items: seq<Value>): string
    decreases items
  {
    if items == [] then ""
    else if |items| == 1 then Repr(items[0])
    else Repr(items[0]) + ", " + ReprItems(items[1..])
  }

  /** The entries of a dict as `'key': value`, joined by ", ". */
  function ReprEntries(entries: seq<Entry>): string
    decreases entries
  {
    if entries == [] then ""
    else
      var first := StrRepr(entries[0].key) + ": " + Repr(entries[0].value);
      if |entries| == 1 then first else first + ", " + ReprEntries(entries[1..])
  }
}
