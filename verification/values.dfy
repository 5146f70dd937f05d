/**
 * The value tree the parser produces, its errors, and the ordered tables
 * that stand for Python dictionaries (insertion order kept, keys unique).
 */
module Values {
  import opened Wrappers

  datatype Value =
    | Int(i: int)
    | Float(d: Decimal)
    | Str(s: string)
    | Arr(items: seq<Value>)
    | Table(entries: seq<Entry>)
  {
    /** What `_evaluate` can yield: a string, an integer or a float. */
    predicate IsScalar() {
      Int? || Float? || Str?
    }

    predicate IsNumber() {
      Int? || Float?
    }
  }

  /**
   * A Python float, left uninterpreted: it records how it arose (a decimal
   * literal, a `sum` involving a float, `math.sqrt`, `abs` of a float).
   */
  datatype Decimal =
    | Literal(text: string)
    | SumOf(terms: seq<Value>)
    | SqrtOf(arg: Value)
    | AbsOf(arg: Value)

  /** One key/value pair of a table. */
  datatype Entry = Entry(key: string, value: Value)

  /** The parser's `SyntaxError` messages, plus one kind for Python's own errors. */
  datatype Error =
    | InvalidConstantExpression(expression: string)
    | InvalidExpression(expression: string)
    | ArityError(operation: string, count: nat)
    | UnknownOperation(operation: string)
    | InvalidTableEntry(item: string)
    | InvalidStructure(item: string)
      /** A `TypeError` or `ValueError` raised by `sum`, `abs` or `math.sqrt`. */
    | OperandError

  type Parsed<T> = Result<T, Error>

  /** The keys of `t` in insertion order. */
  function Keys(t: seq<Entry>): (ks: seq<string>)
    ensures |ks| == |t|
  {
    if t == [] then [] else [t[0].key] + Keys(t[1..])
  }

  predicate KeysUnique(t: seq<Entry>) {
    forall i, j | 0 <= i < j < |t| :: t[i].key != t[j].key
  }

  /** Python's `d.get(k)`: the value of the entry whose key is `k`, if any. */
  function Lookup(t: seq<Entry>, k: string): (r: Option<Value>)
    ensures r.None? <==> forall i | 0 <= i < |t| :: t[i].key != k
  {
    if t == [] then None
    else if t[0].key == k then Some(t[0].value)
    else
      assert forall i | 1 <= i < |t| :: t[i] == t[1..][i - 1];
      Lookup(t[1..], k)
  }

  /** In a table with unique keys, looking up an entry's key finds that entry. */
  lemma {:induction false} LookupUnique(t: seq<Entry>, i: nat)
    requires KeysUnique(t) && i < |t|
    ensures Lookup(t, t[i].key) == Some(t[i].value)
  {
    if i > 0 {
      LookupUnique(t[1..], i - 1);
    }
  }

  /**
   * Python's `d[k] = v`: an existing key keeps its position and takes the new
   * value, a new key is appended at the end.
   */
  function Put(t: seq<Entry>, k: string, v: Value): (r: seq<Entry>)
    ensures Lookup(r, k) == Some(v)
    ensures forall k' | k' != k :: Lookup(r, k') == Lookup(t, k')
    ensures KeysUnique(t) ==> KeysUnique(r)
  {
    if t == [] then [Entry(k, v)]
    else if t[0].key == k then
      var r := [Entry(k, v)] + t[1..];
      assert r[1..] == t[1..];
      r
    else
      var rest := Put(t[1..], k, v);
      var r := [t[0]] + rest;
      assert r[1..] == rest;
      assert KeysUnique(t) ==> KeysUnique(r) by {
        if KeysUnique(t) {
          assert Lookup(t[1..], t[0].key).None?;
          assert Lookup(rest, t[0].key).None?;
          assert forall j | 1 <= j < |r| :: r[j] == rest[j - 1];
        }
      }
      r
  }

  /**
   * Insertion order under `d[k] = v`: the key order is unchanged when `k` is
   * already present, and `k` comes last otherwise.
   */
  lemma {:induction false} PutKeys(t: seq<Entry>, k: string, v: Value)
    ensures Keys(Put(t, k, v)) == if Lookup(t, k).Some? then Keys(t) else Keys(t) + [k]
  {
    if t != [] && t[0].key != k {
      PutKeys(t[1..], k, v);
      assert Put(t, k, v)[1..] == Put(t[1..], k, v);
    } else if t != [] {
      assert Put(t, k, v)[1..] == t[1..];
    }
  }

  /**
   * Python's `d.update(u)` for a dictionary `u`: every key of `u` takes the
   * value `u` gives it, every other key keeps its value from `t`.
   */
  function Merge(t: seq<Entry>, u: seq<Entry>): (r: seq<Entry>)
    ensures KeysUnique(u) ==> forall k :: Lookup(r, k) == if Lookup(u, k).Some? then Lookup(u, k) else Lookup(t, k)
    ensures KeysUnique(t) ==> KeysUnique(r)
    ensures u == [] ==> r == t
    decreases |u|
  {
    if u == [] then t
    else
      var r := Merge(Put(t, u[0].key, u[0].value), u[1..]);
      assert KeysUnique(u) ==> Lookup(u[1..], u[0].key).None?;
      r
  }
}
