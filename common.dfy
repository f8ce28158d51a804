/** Values shared by every part of the model: optional values, results carrying the
    errors the generator raises, and insertion-ordered dictionaries. */
module Common {

  datatype Option<T> = None | Some(value: T)

  datatype Result<T> = Ok(value: T) | Err(error: Error)

  /** Every error the generator can raise, as a value. */
  datatype Error =
    | UnknownFileType(path: string)                              // detection.py:277
    | InvalidLocalizedCall(path: string, calls: seq<string>)     // detection.py:96-99
    | CaptureCountMismatch(captures: seq<string>)                // detection.py:66-67
    | ValueNamesInconsistent                                     // __init__.py:132-133
    | VariableNamesInconsistent                                  // __init__.py:134-135
    | ConflictingExclusions                                      // files.py:43-44
    | MixedAbsoluteAndRelativePaths                              // os.path.commonpath's ValueError

  /** A Python dict with string keys: `keys` is the insertion order, `items` the mapping. */
  datatype Dict<V> = Dict(keys: seq<string>, items: map<string, V>) {

    ghost predicate Valid() {
      && (forall i, j :: 0 <= i < j < |keys| ==> keys[i] != keys[j])
      && (forall k :: k in items <==> k in keys)
    }
  }

  function EmptyDict<V>(): (d: Dict<V>)
    ensures d.Valid() && d.keys == [] && d.items == map[]
  {
    Dict([], map[])
  }

  /** `d[k].append(x)` on a `defaultdict(list)`. */
  function AppendTo<X>(d: Dict<seq<X>>, k: string, x: X): (r: Dict<seq<X>>)
    requires d.Valid()
    ensures r.Valid()
    ensures r.keys == if k in d.items then d.keys else d.keys + [k]
    ensures r.items == d.items[k := if k in d.items then d.items[k] + [x] else [x]]
  {
    if k in d.items then Dict(d.keys, d.items[k := d.items[k] + [x]])
    else Dict(d.keys + [k], d.items[k := [x]])
  }

  /** `d[k] = v`: a new key goes to the end of the order, an existing one keeps its place. */
  function Put<V>(d: Dict<V>, k: string, v: V): (r: Dict<V>)
    requires d.Valid()
    ensures r.Valid()
    ensures r.keys == if k in d.items then d.keys else d.keys + [k]
    ensures r.items == d.items[k := v]
  {
    if k in d.items then Dict(d.keys, d.items[k := v]) else Dict(d.keys + [k], d.items[k := v])
  }
}
