/**
 * Python values as they arrive from configuration: `None`, booleans,
 * integers, strings, lists and string-keyed dicts.
 */
module PyValue {
  import opened Wrappers
  import PyDict
  import PyText

  datatype Value =
    | VNone
    | VBool(b: bool)
    | VInt(i: int)
    | VStr(s: string)
    | VList(items: seq<Value>)
    | VDict(entries: PyDict.Dict<string, Value>)

  /** Python truthiness (`if v:`). */
  predicate Truthy(v: Value) {
    match v
    case VNone => false
    case VBool(b) => b
    case VInt(i) => i != 0
    case VStr(s) => |s| > 0
    case VList(items) => |items| > 0
    case VDict(entries) => |entries| > 0
  }

  /** Whether the value may be used as a dict key; lists and dicts may not. */
  predicate Hashable(v: Value) {
    !v.VList? && !v.VDict?
  }

  /** `d.get(k, default)` on a config dict. */
  function Get(d: PyDict.Dict<string, Value>, k: string, default: Value): Value {
    PyDict.GetOr(d, k, default)
  }

  /** `d[k]`: a missing key is a `KeyError`, modelled as `None`. */
  function Index(d: PyDict.Dict<string, Value>, k: string): Option<Value> {
    PyDict.Get(d, k)
  }

  /**
   * What `for x in v` visits: a list's items, a string's characters, a
   * dict's keys. `None`, booleans and integers are not iterable.
   */
  function Iterate(v: Value): (r: Option<seq<Value>>)
    ensures r.Some? <==> v.VList? || v.VStr? || v.VDict?
    ensures v.VList? ==> r == Some(v.items)
    ensures v.VStr? ==> |r.value| == |v.s| && forall i :: 0 <= i < |v.s| ==> r.value[i] == VStr([v.s[i]])
    ensures v.VDict? ==> |r.value| == |v.entries| && forall i :: 0 <= i < |v.entries| ==> r.value[i] == VStr(v.entries[i].0)
  {
    match v
    case VList(items) => Some(items)
    case VStr(s) => Some(seq(|s|, i requires 0 <= i < |s| => VStr([s[i]])))
    case VDict(entries) => Some(seq(|entries|, i requires 0 <= i < |entries| => VStr(entries[i].0)))
    case _ => None
  }

  /** `str(v)`. */
  function Str(v: Value): string
    decreases v, 1
  {
    match v
    case VNone => "None"
    case VBool(b) => if b then "True" else "False"
    case VInt(i) => PyText.IntToStr(i)
    case VStr(s) => s
    case VList(items) =>
      "[" + PyText.Join(seq(|items|, k requires 0 <= k < |items| => Repr(items[k])), ", ") + "]"
    case VDict(entries) =>
      "{" + PyText.Join(seq(|entries|, k requires 0 <= k < |entries| => EntryRepr(entries, k)), ", ") + "}"
  }

  function EntryRepr(entries: PyDict.Dict<string, Value>, k: nat): string
    requires k < |entries|
    decreases VDict(entries), 0
  {
    assert entries[k] in entries;
    "'" + entries[k].0 + "': " + Repr(entries[k].1)
  }

  /** `repr(v)`: as `str`, except that strings are quoted. */
  function Repr(v: Value): string
    decreases v, 2
  {
    if v.VStr? then "'" + v.s + "'" else Str(v)
  }
}
