/**
 * Decoded JSON values, and the subscript operations the flatteners apply to them
 * (`log['k']`, `log['a']['b']`, `log.get('k', default)`).
 */
module Json {
  import opened Wrappers
  import opened Dicts

  /**
   * A decoded JSON value.  An object keeps its members in text order, as
   * `json.loads` sees them; the Python dict it becomes is `Items(members)`.
   */
  datatype Json =
    | JNull
    | JBool(b: bool)
    | JNum(n: int)
    | JStr(s: string)
    | JArr(elems: seq<Json>)
    | JObj(members: seq<(string, Json)>)

  /** Why a subscript `v[key]` raised. */
  datatype FieldError =
    | KeyAbsent(key: string)          // KeyError: v is a dict without key
    | NotSubscriptable(key: string)   // TypeError: v is not a dict

  /**
   * The dict `json.loads` builds from an object's members: `dict(pairs)`, so a
   * repeated key keeps its first position and its last value.
   */
  function Items(members: seq<(string, Json)>): (d: seq<(string, Json)>)
    ensures DistinctKeys(d)
    ensures forall k :: Lookup(d, k) == LastFor(members, k)
  {
    var d := PutAll([], members);
    assert DistinctKeys(d) by { PutAllDistinct([], members); }
    assert forall k :: Lookup(d, k) == LastFor(members, k) by {
      forall k ensures Lookup(d, k) == LastFor(members, k) {
        PutAllLookup([], members, k);
      }
    }
    d
  }

  /** `v[k]` on a decoded value. */
  function Field(v: Json, k: string): (r: Result<Json, FieldError>)
    ensures r.Success? <==> v.JObj? && HasKey(v.members, k)
    ensures r.Success? ==> LastFor(v.members, k) == Some(r.value)
    ensures r.Failure? && v.JObj? ==> r.error == KeyAbsent(k)
    ensures r.Failure? && !v.JObj? ==> r.error == NotSubscriptable(k)
  {
    match v
    case JObj(members) =>
      (match Lookup(Items(members), k)
       case Some(x) => Success(x)
       case None => Failure(KeyAbsent(k)))
    case _ => Failure(NotSubscriptable(k))
  }

  /** `v[p0][p1]...`: follows a path of keys, raising at the first segment that fails. */
  function Path(v: Json, path: seq<string>): (r: Result<Json, FieldError>)
    ensures r.Success? && path != [] ==> v.JObj?
    decreases |path|
  {
    if path == [] then Success(v)
    else
      var x :- Field(v, path[0]);
      Path(x, path[1..])
  }

  /** `v.get(k, default)` on a dict. */
  function GetOr(members: seq<(string, Json)>, k: string, default: Json): (r: Json)
    ensures HasKey(members, k) ==> Some(r) == LastFor(members, k)
    ensures !HasKey(members, k) ==> r == default
  {
    match Lookup(Items(members), k)
    case Some(x) => x
    case None => default
  }

  /** A one-key path succeeds exactly when the value is an object holding that key. */
  lemma SingleKeyPath(v: Json, k: string)
    ensures Path(v, [k]) == Field(v, k)
  {
    assert [k][1..] == [];
  }

  /** A two-key path `v[a][b]` fails when `v[a]` exists but has no key b. */
  lemma {:induction false} NestedPathMissing(v: Json, a: string, b: string)
    requires v.JObj? && HasKey(v.members, a)
    requires var inner := LastFor(v.members, a).value; inner.JObj? && !HasKey(inner.members, b)
    ensures Path(v, [a, b]) == Failure(KeyAbsent(b))
  {
    assert [a, b][1..] == [b];
    assert [b][1..] == [];
  }
}
