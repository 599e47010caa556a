/**
  `to_python`: the deep conversion applied to the report before it is
  serialised. numpy integer, floating and boolean scalars become plain Python
  ones; dicts and lists are rebuilt with converted values; anything else
  (strings, None, plain scalars, tuples and their contents) is returned as is.
*/
module Convert {

  /** The Python values a report can hold. */
  datatype PyValue =
    | PyInt(i: int)
    | PyFloat(f: real)
    | PyBool(b: bool)
    | NpInt(ni: int)
    | NpFloat(nf: real)
    | NpBool(nb: bool)
    | PyStr(s: string)
    | PyNone
    | PyTuple(elems: seq<PyValue>)
    | PyList(items: seq<PyValue>)
    | PyDict(entries: seq<Entry>)

  /** One key/value pair of a dict, in insertion order. */
  datatype Entry = Entry(key: PyValue, value: PyValue)

  /** A numpy scalar wrapper. */
  predicate IsWrapper(v: PyValue) {
    v.NpInt? || v.NpFloat? || v.NpBool?
  }

  /**
    No wrapper is reachable through list items or dict values (the places
    `to_python` descends into).
  */
  predicate Converted(v: PyValue) {
    match v
    case NpInt(_) => false
    case NpFloat(_) => false
    case NpBool(_) => false
    case PyList(xs) => forall i :: 0 <= i < |xs| ==> Converted(xs[i])
    case PyDict(es) => forall i :: 0 <= i < |es| ==> Converted(es[i].value)
    case _ => true
  }

  function ToPython(v: PyValue): (r: PyValue)
    ensures Converted(r)
    ensures v.NpInt? ==> r == PyInt(v.ni)
    ensures v.NpFloat? ==> r == PyFloat(v.nf)
    ensures v.NpBool? ==> r == PyBool(v.nb)
    ensures v.PyList? ==> (r.PyList? && |r.items| == |v.items|
                           && forall i :: 0 <= i < |v.items| ==> r.items[i] == ToPython(v.items[i]))
    ensures v.PyDict? ==> (r.PyDict? && |r.entries| == |v.entries|
                           && forall i :: 0 <= i < |v.entries| ==>
                                r.entries[i] == Entry(v.entries[i].key, ToPython(v.entries[i].value)))
    ensures !(IsWrapper(v) || v.PyList? || v.PyDict?) ==> r == v
  {
    match v
    case PyDict(es) =>
      PyDict(seq(|es|, i requires 0 <= i < |es| => Entry(es[i].key, ToPython(es[i].value))))
    case PyList(xs) =>
      PyList(seq(|xs|, i requires 0 <= i < |xs| => ToPython(xs[i])))
    case NpInt(n) => PyInt(n)
    case NpFloat(x) => PyFloat(x)
    case NpBool(b) => PyBool(b)
    case _ => v
  }

  /** A value with no reachable wrapper is left unchanged. */
  lemma {:induction false} ConvertedUnchanged(v: PyValue)
    requires Converted(v)
    ensures ToPython(v) == v
  {
    match v
    case PyList(xs) =>
      forall i | 0 <= i < |xs|
        ensures ToPython(xs[i]) == xs[i]
      {
        ConvertedUnchanged(xs[i]);
      }
      assert ToPython(v).items == xs;
    case PyDict(es) =>
      forall i | 0 <= i < |es|
        ensures ToPython(es[i].value) == es[i].value
      {
        ConvertedUnchanged(es[i].value);
      }
      assert ToPython(v).entries == es;
    case _ =>
  }

  /** Converting twice is converting once. */
  lemma ToPythonIdempotent(v: PyValue)
    ensures ToPython(ToPython(v)) == ToPython(v)
  {
    ConvertedUnchanged(ToPython(v));
  }
}
