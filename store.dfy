/** The `Config` class of config.py: a parsed configuration file and its typed
    getters. The file parser itself (configparser) is not modelled: a `Config`
    is the map from (section, option) to raw text that parsing produced. */
module ConfigStore {
  import opened Python
  import opened Text
  import opened SizeParser

  /** A parsed configuration file: (section, option) to raw string value.
      It is built once by the loader and never changed afterwards. */
  datatype Config = Config(entries: map<(string, string), string>)

  /** `ConfigParser.get(section, option, fallback=fallback)`: the stored text,
      or the fallback itself when the section or the option is missing. */
  function Get(c: Config, section: string, option: string, fallback: PyValue): (v: PyValue)
    ensures (section, option) in c.entries ==> v == PyStr(c.entries[(section, option)])
    ensures (section, option) !in c.entries ==> v == fallback
  {
    if (section, option) in c.entries then PyStr(c.entries[(section, option)]) else fallback
  }

  /** `getByteSize`: `parse_size` of the stored text or of the fallback; a
      fallback that is not a str has no `.upper()` and raises AttributeError. */
  function GetByteSize(c: Config, section: string, option: string, fallback: PyValue := PyInt(0)): (r: Result<int>)
    ensures (section, option) in c.entries ==> r == ParseSize(c.entries[(section, option)])
    ensures (section, option) !in c.entries && fallback.PyStr? ==> r == ParseSize(fallback.s)
    ensures (section, option) !in c.entries && !fallback.PyStr? ==> r == Err(AttributeError)
  {
    match Get(c, section, option, fallback)
    case PyStr(s) => ParseSize(s)
    case _ => Err(AttributeError)
  }

  /** `getUpper`: despite its name, the stored text is returned unchanged. */
  function GetUpper(c: Config, section: string, option: string, fallback: PyValue := PyNone): (r: PyValue)
    ensures (section, option) in c.entries ==> r == PyStr(c.entries[(section, option)])
    ensures (section, option) !in c.entries ==> r == fallback
  {
    Get(c, section, option, fallback)
  }

  /** `getlist`: the fallback itself when the value is '' and `fallbackOnEmpty`
      is set; otherwise `v.split(',')`, which raises AttributeError when the
      value is a fallback that is not a str. */
  function GetList(c: Config, section: string, option: string,
                   fallback: PyValue := PyList([]), fallbackOnEmpty: bool := false): (r: Result<PyValue>)
    ensures var v := Get(c, section, option, fallback);
      v == PyStr("") && fallbackOnEmpty ==> r == Ok(fallback)
    ensures var v := Get(c, section, option, fallback);
      v.PyStr? && !(v.s == "" && fallbackOnEmpty) ==>
        && r.Ok? && r.value.PyList?
        && Join(r.value.items, ',') == v.s
        && |r.value.items| == multiset(v.s)[','] + 1
        && (forall i :: 0 <= i < |r.value.items| ==> ',' !in r.value.items[i])
    ensures !Get(c, section, option, fallback).PyStr? ==> r == Err(AttributeError)
  {
    var v := Get(c, section, option, fallback);
    if v == PyStr("") && fallbackOnEmpty then Ok(fallback)
    else
      match v
      case PyStr(s) =>
        JoinSplit(s, ',');
        SplitShape(s, ',');
        Ok(PyList(Split(s, ',')))
      case _ => Err(AttributeError)
  }

  /** `getListOrFalse`: [] when the option is missing or empty, otherwise
      `v.split(',')`. Over the stored text it never raises (interpolation of
      `%` in the value is not modelled), and it never returns False. */
  function GetListOrFalse(c: Config, section: string, option: string): (r: Result<seq<string>>)
    ensures r.Ok?
    ensures r.value == [] <==> (section, option) !in c.entries || c.entries[(section, option)] == ""
    ensures r.value != [] ==>
      && Join(r.value, ',') == c.entries[(section, option)]
      && |r.value| == multiset(c.entries[(section, option)])[','] + 1
      && (forall i :: 0 <= i < |r.value| ==> ',' !in r.value[i])
  {
    var v := Get(c, section, option, PyBool(false));
    if !Truthy(v) then Ok([])
    else
      match v
      case PyStr(s) =>
        JoinSplit(s, ',');
        SplitShape(s, ',');
        Ok(Split(s, ','))
      case _ => Err(AttributeError)
  }

  /** The pieces `getlist` returns are exactly `v.split(',')`, which by
      `SplitUnique` is the only list of comma-free pieces joining back to `v`. */
  lemma GetListIsSplit(c: Config, section: string, option: string, fallback: PyValue, fallbackOnEmpty: bool)
    requires Get(c, section, option, fallback).PyStr?
    requires !(Get(c, section, option, fallback).s == "" && fallbackOnEmpty)
    ensures GetList(c, section, option, fallback, fallbackOnEmpty)
      == Ok(PyList(Split(Get(c, section, option, fallback).s, ',')))
  {
    var items := GetList(c, section, option, fallback, fallbackOnEmpty).value.items;
    var v := Get(c, section, option, fallback).s;
    assert |items| >= 1;
    SplitJoin(items, ',');
  }

  /** A stored value of `str(n)` followed by a unit letter reads back as n
      times that unit. */
  lemma GetByteSizeOfUnit(c: Config, section: string, option: string, fallback: PyValue, n: int, u: Unit)
    requires (section, option) in c.entries
    requires c.entries[(section, option)] == IntToString(n) + Suffix(u)
    ensures GetByteSize(c, section, option, fallback) == Ok(n * Multiplier(u))
  {
    ParseSizeOfUnit(n, u);
  }

  /** With the default fallback 0, a missing option raises AttributeError
      (`0` has no `.upper()`) instead of reading as 0. */
  lemma GetByteSizeMissingDefault(c: Config, section: string, option: string)
    requires (section, option) !in c.entries
    ensures GetByteSize(c, section, option) == Err(AttributeError)
    ensures GetByteSize(c, section, option, PyStr("0")) == Ok(0)
  {
    assert Normalize("0") == "0";
  }

  /** `getByteSize` as its default `fallback=0` evidently intends: a fallback
      that is already a number is the size itself, only text is parsed. */
  function GetByteSizeFixed(c: Config, section: string, option: string, fallback: PyValue := PyInt(0)): (r: Result<int>)
    ensures (section, option) in c.entries ==> r == GetByteSize(c, section, option, fallback)
    ensures (section, option) !in c.entries && fallback.PyInt? ==> r == Ok(fallback.i)
    ensures fallback.PyStr? ==> r == GetByteSize(c, section, option, fallback)
  {
    match Get(c, section, option, fallback)
    case PyStr(s) => ParseSize(s)
    case PyInt(n) => Ok(n)
    case _ => Err(AttributeError)
  }

  /** With the corrected getter, a missing option reads as the default 0. */
  lemma GetByteSizeFixedMissingDefault(c: Config, section: string, option: string)
    requires (section, option) !in c.entries
    ensures GetByteSizeFixed(c, section, option) == Ok(0)
    ensures GetByteSize(c, section, option) != GetByteSizeFixed(c, section, option)
  {
  }

  /** `getUpper` performs no case folding: a stored value with a lower-case
      letter does not come back upper-cased. */
  lemma GetUpperKeepsCase(c: Config, section: string, option: string, fallback: PyValue, i: nat)
    requires (section, option) in c.entries
    requires i < |c.entries[(section, option)]|
    requires 'a' <= c.entries[(section, option)][i] <= 'z'
    ensures GetUpper(c, section, option, fallback) != PyStr(Upper(c.entries[(section, option)]))
  {
    var v := c.entries[(section, option)];
    assert Upper(v)[i] != v[i];
  }

  /** `getlist` on the stored text "a,b,c". */
  lemma GetListExamples(c: Config)
    requires ("s", "abc") in c.entries && c.entries[("s", "abc")] == "a,b,c"
    ensures GetList(c, "s", "abc") == Ok(PyList(["a", "b", "c"]))
  {
    var pieces := ["a", "b", "c"];
    assert Join(pieces, ',') == "a,b,c";
    SplitUnique(pieces, "a,b,c", ',');
    GetListIsSplit(c, "s", "abc", PyList([]), false);
  }

  /** `getlist` on a stored "" and on a missing option. */
  lemma GetListEmptyExamples(c: Config)
    requires ("s", "empty") in c.entries && c.entries[("s", "empty")] == ""
    requires ("s", "missing") !in c.entries
    ensures GetList(c, "s", "empty", PyList(["x"]), true) == Ok(PyList(["x"]))
    ensures GetList(c, "s", "empty") == Ok(PyList([""]))
    ensures GetList(c, "s", "missing") == Err(AttributeError)
  {
    GetListIsSplit(c, "s", "empty", PyList([]), false);
  }

  /** `getByteSize` on the stored texts "10M" and "1G". */
  lemma GetByteSizeExamples(c: Config)
    requires ("net", "buffer") in c.entries && c.entries[("net", "buffer")] == "10M"
    requires ("net", "limit") in c.entries && c.entries[("net", "limit")] == "1G"
    ensures GetByteSize(c, "net", "buffer") == Ok(10485760)
    ensures GetByteSize(c, "net", "limit") == Ok(1073741824)
  {
    GetByteSizeOfUnit(c, "net", "buffer", PyInt(0), 10, Mega);
    GetByteSizeOfUnit(c, "net", "limit", PyInt(0), 1, Giga);
  }
}
