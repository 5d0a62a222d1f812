/**
 * src/config.js: `merge(ref, src)` lays the user's `config.json` over the
 * defaults, guided by JavaScript's `typeof` and `.length`; the exported
 * loader falls back to the defaults when reading, parsing or merging
 * throws.
 *
 * Values are parsed JSON. `src` is `Option<Json>` because `src[key]` is
 * `undefined` for a key the user's file lacks; a `TypeError` thrown by a
 * property read on `null` is a `Failure`.
 */
module Config {
  import opened Wrappers
  import opened Text

  /** A value `JSON.parse` can produce. */
  datatype Json =
    | JNull
    | JBool(b: bool)
    | JNum(n: real)
    | JStr(s: string)
    | JArr(items: seq<Json>)
    | JObj(fields: map<string, Json>)

  /** The results of `typeof` that JSON values and `undefined` can have. */
  datatype JsType = TUndefined | TObject | TBoolean | TNumber | TString

  /** `typeof v`: `null` and arrays are objects too. */
  function TypeOf(v: Option<Json>): JsType {
    match v
    case None => TUndefined
    case Some(JNull) => TObject
    case Some(JBool(_)) => TBoolean
    case Some(JNum(_)) => TNumber
    case Some(JStr(_)) => TString
    case Some(JArr(_)) => TObject
    case Some(JObj(_)) => TObject
  }

  const TYPE_ERROR := "TypeError"

  /** An array index as a property name: "0", or digits without a leading zero. */
  predicate IsIndexKey(k: string) {
    k != [] && (forall i :: 0 <= i < |k| ==> IsDigit(k[i])) && (k[0] == '0' ==> |k| == 1)
  }

  /** `v[key]` for the own properties JSON values have; on `null` it throws. */
  function Get(v: Json, key: string): Result<Option<Json>, string> {
    match v
    case JNull => Failure(TYPE_ERROR)
    case JBool(_) => Success(None)
    case JNum(_) => Success(None)
    case JStr(s) =>
      if key == "length" then Success(Some(JNum(|s| as real)))
      else if IsIndexKey(key) && DecimalValue(key) < |s| then Success(Some(JStr([s[DecimalValue(key)]])))
      else Success(None)
    case JArr(xs) =>
      if key == "length" then Success(Some(JNum(|xs| as real)))
      else if IsIndexKey(key) && DecimalValue(key) < |xs| then Success(Some(xs[DecimalValue(key)]))
      else Success(None)
    case JObj(m) => Success(if key in m then Some(m[key]) else None)
  }

  /** JavaScript truthiness; `undefined` is false. */
  predicate Truthy(v: Option<Json>) {
    match v
    case None => false
    case Some(JNull) => false
    case Some(JBool(b)) => b
    case Some(JNum(n)) => n != 0.0
    case Some(JStr(s)) => s != []
    case Some(JArr(_)) => true
    case Some(JObj(_)) => true
  }

  /**
   * `merge(ref, src)`. With `fixArrays` an array default takes any array of
   * the user's whole, as a non-empty one already does; without it, this is
   * the code as written, where an empty array default falls through to the
   * object branch.
   */
  function MergeWith(fixArrays: bool, ref: Json, src: Option<Json>): Result<Json, string>
    decreases ref
  {
    if TypeOf(Some(ref)) != TypeOf(src) then Success(ref)
    else
      var s := src.value;
      match Get(ref, "length")
      case Failure(err) => Failure(err)
      case Success(refLength) =>
        if Truthy(refLength) then
          match Get(s, "length")
          case Failure(err) => Failure(err)
          case Success(srcLength) => if !Truthy(srcLength) then Success(ref) else Success(s)
        else if fixArrays && ref.JArr? then
          if s.JArr? then Success(s) else Success(ref)
        else if TypeOf(Some(ref)) == TObject then
          match ref
          case JArr(_) => Success(JObj(map[]))
          case JObj(m) =>
            if m == map[] then Success(JObj(map[]))
            else if s.JNull? then Failure(TYPE_ERROR)
            else if forall k | k in m :: MergeWith(fixArrays, m[k], Member(s, k)).Success? then
              Success(JObj(map k | k in m :: MergeWith(fixArrays, m[k], Member(s, k)).value))
            else Failure(TYPE_ERROR)
        else Success(s)
  }

  /** `src[key]` on a value that is not `null`. */
  function Member(s: Json, key: string): Option<Json>
    requires !s.JNull?
  {
    Get(s, key).value
  }

  /** `merge` as written. */
  function Merge(ref: Json, src: Option<Json>): Result<Json, string> {
    MergeWith(false, ref, src)
  }

  /** `merge` with empty array defaults treated as arrays. */
  function MergeFixed(ref: Json, src: Option<Json>): Result<Json, string> {
    MergeWith(true, ref, src)
  }

  /**
   * The exported loader: `read` is what `fs.readFileSync('config.json')`
   * returns or throws, `parse` is `JSON.parse`; any failure yields the
   * defaults.
   */
  function Load(defaults: Json, read: Result<string, string>, parse: string -> Result<Json, string>): (r: Json)
    ensures read.Failure? ==> r == defaults
    ensures read.Success? && parse(read.value).Failure? ==> r == defaults
    ensures read.Success? && parse(read.value).Success? ==>
      r == (match Merge(defaults, Some(parse(read.value).value))
            case Success(merged) => merged
            case Failure(_) => defaults)
  {
    match read
    case Failure(_) => defaults
    case Success(text) =>
      match parse(text)
      case Failure(_) => defaults
      case Success(user) =>
        match Merge(defaults, Some(user))
        case Success(merged) => merged
        case Failure(_) => defaults
  }

  // ---- What merge promises ----

  /** A value of another type than the default's, or no value at all, leaves the default. */
  lemma {:induction false} MergeTypeMismatch(fixArrays: bool, ref: Json, src: Option<Json>)
    requires TypeOf(Some(ref)) != TypeOf(src)
    ensures MergeWith(fixArrays, ref, src) == Success(ref)
  {
  }

  /** A merged value is of the default's type: a user's file never changes the type of a setting. */
  lemma {:induction false} MergeKeepsType(fixArrays: bool, ref: Json, src: Option<Json>)
    requires MergeWith(fixArrays, ref, src).Success?
    ensures TypeOf(Some(MergeWith(fixArrays, ref, src).value)) == TypeOf(Some(ref))
  {
  }

  /** A non-empty string or array default is kept against an empty one and replaced whole by a non-empty one. */
  lemma {:induction false} MergeLengths(fixArrays: bool, ref: Json, src: Json)
    requires (ref.JStr? && src.JStr? && ref.s != []) || (ref.JArr? && src.JArr? && ref.items != [])
    ensures MergeWith(fixArrays, ref, Some(src)) == Success(if src == JStr([]) || src == JArr([]) then ref else src)
  {
  }

  /**
   * Any default with a truthy `length` (a non-empty string or array, or an
   * object with such a key) is kept when the user's value of the same type
   * has a falsy `length`, and is replaced whole otherwise.
   */
  lemma {:induction false} MergeTruthyLength(fixArrays: bool, ref: Json, src: Json)
    requires Get(ref, "length").Success? && Truthy(Get(ref, "length").value)
    requires TypeOf(Some(ref)) == TypeOf(Some(src)) && !src.JNull?
    ensures Get(src, "length").Success?
    ensures MergeWith(fixArrays, ref, Some(src)) == Success(if Truthy(Get(src, "length").value) then src else ref)
  {
  }

  /** An object where the default is a non-empty array: the default list is kept. */
  lemma {:induction false} MergeArrayAgainstObject(fixArrays: bool, items: seq<Json>, m: map<string, Json>)
    requires items != [] && !HasLength(m)
    ensures MergeWith(fixArrays, JArr(items), Some(JObj(m))) == Success(JArr(items))
  {
    MergeTruthyLength(fixArrays, JArr(items), JObj(m));
  }

  /** Values of the same primitive type: the user's wins. */
  lemma {:induction false} MergePrimitive(fixArrays: bool, ref: Json, src: Json)
    requires (ref.JBool? && src.JBool?) || (ref.JNum? && src.JNum?) || (ref == JStr([]) && src.JStr?)
    ensures MergeWith(fixArrays, ref, Some(src)) == Success(src)
  {
  }

  /** Whether an object default has a truthy own `length`, which sends it down the string-and-array branches. */
  predicate HasLength(m: map<string, Json>) {
    "length" in m && Truthy(Some(m["length"]))
  }

  /**
   * Objects: exactly the default's keys, each merged with the user's value
   * for it; keys only the user has are dropped, keys the user lacks keep
   * the default.
   */
  lemma {:induction false} MergeObject(fixArrays: bool, m: map<string, Json>, src: Json)
    requires !HasLength(m) && TypeOf(Some(src)) == TObject && !src.JNull?
    requires MergeWith(fixArrays, JObj(m), Some(src)).Success?
    ensures var r := MergeWith(fixArrays, JObj(m), Some(src)).value;
      && r.JObj? && r.fields.Keys == m.Keys
      && (forall k :: k in m ==> MergeWith(fixArrays, m[k], Member(src, k)) == Success(r.fields[k]))
      && (forall k :: k in m && Member(src, k).None? ==> r.fields[k] == m[k])
  {
    var r := MergeWith(fixArrays, JObj(m), Some(src)).value;
    forall k | k in m && Member(src, k).None? ensures r.fields[k] == m[k] {
      MergeTypeMismatch(fixArrays, m[k], None);
    }
  }

  /** An object whose merge reads a member of `null` throws. */
  lemma {:induction false} MergeNullThrows(fixArrays: bool, m: map<string, Json>)
    requires !HasLength(m) && m != map[]
    ensures MergeWith(fixArrays, JObj(m), Some(JNull)).Failure?
  {
  }

  /** An empty object from the user keeps every default. */
  lemma {:induction false} MergeEmptyObject(fixArrays: bool, m: map<string, Json>)
    ensures MergeWith(fixArrays, JObj(m), Some(JObj(map[]))) == Success(JObj(m))
  {
    if !HasLength(m) && m != map[] {
      forall k | k in m ensures MergeWith(fixArrays, m[k], Member(JObj(map[]), k)) == Success(m[k]) {
        MergeTypeMismatch(fixArrays, m[k], None);
      }
      var merged := map k | k in m :: MergeWith(fixArrays, m[k], Member(JObj(map[]), k)).value;
      assert merged == m;
      assert MergeWith(fixArrays, JObj(m), Some(JObj(map[]))) == Success(JObj(merged));
    }
  }

  /** No `null` anywhere below the objects, and no empty array among their values (the two values `merge` mishandles). */
  ghost predicate Mergeable(v: Json) {
    match v
    case JNull => false
    case JArr(xs) => xs != []
    case JObj(m) => forall k :: k in m ==> Mergeable(m[k])
    case _ => true
  }

  /** Merging a value with itself gives it back, for values without `null` or empty arrays. */
  lemma {:induction false} MergeSelf(ref: Json)
    requires Mergeable(ref)
    ensures Merge(ref, Some(ref)) == Success(ref)
  {
    match ref
    case JObj(m) =>
      if !HasLength(m) && m != map[] {
        forall k | k in m ensures MergeWith(false, m[k], Member(ref, k)) == Success(m[k]) {
          MergeSelf(m[k]);
        }
        var merged := map k | k in m :: MergeWith(false, m[k], Member(ref, k)).value;
        assert merged == m;
        assert MergeWith(false, ref, Some(ref)) == Success(JObj(merged));
      }
    case _ =>
  }

  /** The defaults come back unchanged whenever the file cannot be read or parsed, or the merge throws. */
  lemma {:induction false} LoadFallback(defaults: Json, read: Result<string, string>, parse: string -> Result<Json, string>)
    requires read.Failure? || parse(read.value).Failure? || Merge(defaults, Some(parse(read.value).value)).Failure?
    ensures Load(defaults, read, parse) == defaults
  {
  }

  /** Whatever the user's file holds, the loaded configuration has the defaults' type. */
  lemma {:induction false} LoadKeepsType(defaults: Json, read: Result<string, string>, parse: string -> Result<Json, string>)
    ensures TypeOf(Some(Load(defaults, read, parse))) == TypeOf(Some(defaults))
  {
    if read.Success? && parse(read.value).Success? && Merge(defaults, Some(parse(read.value).value)).Success? {
      MergeKeepsType(false, defaults, Some(parse(read.value).value));
    }
  }

  // ---- An empty array default ----

  /** As written: an empty array default and a user's array merge to an empty object. */
  lemma {:induction false} MergeEmptyArray(xs: seq<Json>)
    ensures Merge(JArr([]), Some(JArr(xs))) == Success(JObj(map[]))
  {
  }

  /** Corrected: an array default gives an array, the user's whole unless the default is non-empty and the user's empty. */
  lemma {:induction false} MergeFixedKeepsArrays(items: seq<Json>, xs: seq<Json>)
    ensures MergeFixed(JArr(items), Some(JArr(xs))) == Success(if items != [] && xs == [] then JArr(items) else JArr(xs))
  {
  }

  /** Corrected, arrays stay arrays (unless the user's object has a truthy `length` and passes for one). */
  lemma {:induction false} MergeFixedArrayType(items: seq<Json>, src: Option<Json>)
    requires src.Some? && src.value.JObj? ==> !HasLength(src.value.fields)
    requires MergeFixed(JArr(items), src).Success?
    ensures MergeFixed(JArr(items), src).value.JArr?
  {
  }
}
