/** `sanitize_for_json`: turns the profile results into values the JSON encoder accepts. */
module Sanitize {

  /** A floating-point value: finite, NaN, or an infinity. */
  datatype PyFloat = Finite(x: real) | NaN | PosInf | NegInf

  /** The Python values the profile results are built from: the native scalars, their NumPy
      counterparts (`np.integer`, `np.floating`, `np.bool_`), lists, dictionaries in insertion
      order, and any other object, which the sanitiser passes through untouched. */
  datatype Value =
    | Null
    | Bool(b: bool)
    | Int(i: int)
    | Float(f: PyFloat)
    | Str(s: string)
    | NpInt(i: int)
    | NpFloat(f: PyFloat)
    | NpBool(b: bool)
    | List(items: seq<Value>)
    | Dict(entries: seq<(string, Value)>)
    | Other(name: string)

  /** Lines 152-167: dictionaries and lists are rebuilt around their sanitised members, NumPy
      scalars become native ones, NaN and infinite floats become `None`, everything else is
      returned as it is. */
  function SanitizeForJson(v: Value): (r: Value)
    ensures v.List? <==> r.List?
    ensures v.List? ==> |r.items| == |v.items|
    ensures v.Dict? <==> r.Dict?
    ensures v.Dict? ==> |r.entries| == |v.entries|
    ensures v.Dict? ==> forall i | 0 <= i < |v.entries| :: r.entries[i].0 == v.entries[i].0
    decreases v
  {
    match v
    case Dict(entries) =>
      Dict(seq(|entries|, i requires 0 <= i < |entries| => (entries[i].0, SanitizeForJson(entries[i].1))))
    case List(items) =>
      List(seq(|items|, i requires 0 <= i < |items| => SanitizeForJson(items[i])))
    case NpInt(i) => Int(i)
    case NpFloat(f) => if f.Finite? then Float(f) else Null
    case Float(f) => if f.Finite? then v else Null
    case NpBool(b) => Bool(b)
    case _ => v
  }

  /** What the JSON encoder accepts without complaint: no NumPy scalar and no NaN or infinity,
      at any depth. */
  predicate Safe(v: Value)
    decreases v
  {
    match v
    case NpInt(_) => false
    case NpFloat(_) => false
    case NpBool(_) => false
    case Float(f) => f.Finite?
    case List(items) => forall i | 0 <= i < |items| :: Safe(items[i])
    case Dict(entries) => forall i | 0 <= i < |entries| :: Safe(entries[i].1)
    case _ => true
  }

  /** The members of a list or a dictionary are sanitised themselves (the recursive calls of
      lines 153-156), so the scalar rules apply at every depth. */
  lemma SanitizeMembers(v: Value)
    ensures v.List? ==> forall i | 0 <= i < |v.items| ::
      SanitizeForJson(v).items[i] == SanitizeForJson(v.items[i])
    ensures v.Dict? ==> forall i | 0 <= i < |v.entries| ::
      SanitizeForJson(v).entries[i] == (v.entries[i].0, SanitizeForJson(v.entries[i].1))
  {
  }

  /** A summary table nested two deep, as `describe().to_dict()` gives it: the NumPy mean becomes
      a native float and the NaN standard deviation of a one-row column becomes `None`. */
  lemma NestedExample()
    ensures SanitizeForJson(Dict([("A", Dict([("mean", NpFloat(Finite(2.0))), ("std", NpFloat(NaN))]))]))
      == Dict([("A", Dict([("mean", Float(Finite(2.0))), ("std", Null)]))])
  {
    var inner := Dict([("mean", NpFloat(Finite(2.0))), ("std", NpFloat(NaN))]);
    var clean := Dict([("mean", Float(Finite(2.0))), ("std", Null)]);
    SanitizeMembers(inner);
    var s := SanitizeForJson(inner);
    assert s.entries[0] == ("mean", Float(Finite(2.0)));
    assert s.entries[1] == ("std", Null);
    assert s.entries == clean.entries;
    var outer := Dict([("A", inner)]);
    SanitizeMembers(outer);
    assert SanitizeForJson(outer).entries == [("A", clean)];
  }

  /** Every sanitised value is safe. */
  lemma {:induction false} SanitizedIsSafe(v: Value)
    ensures Safe(SanitizeForJson(v))
    decreases v
  {
    match v
    case Dict(entries) =>
      forall i | 0 <= i < |entries| ensures Safe(SanitizeForJson(entries[i].1)) {
        SanitizedIsSafe(entries[i].1);
      }
    case List(items) =>
      forall i | 0 <= i < |items| ensures Safe(SanitizeForJson(items[i])) {
        SanitizedIsSafe(items[i]);
      }
    case _ =>
  }

  /** A safe value is left as it is. */
  lemma {:induction false} SafeIsFixed(v: Value)
    requires Safe(v)
    ensures SanitizeForJson(v) == v
    decreases v
  {
    match v
    case Dict(entries) =>
      forall i | 0 <= i < |entries| ensures SanitizeForJson(entries[i].1) == entries[i].1 {
        SafeIsFixed(entries[i].1);
      }
      assert SanitizeForJson(v).entries == entries;
    case List(items) =>
      forall i | 0 <= i < |items| ensures SanitizeForJson(items[i]) == items[i] {
        SafeIsFixed(items[i]);
      }
      assert SanitizeForJson(v).items == items;
    case _ =>
  }

  /** Sanitising twice gives what sanitising once gives. */
  lemma Idempotent(v: Value)
    ensures SanitizeForJson(SanitizeForJson(v)) == SanitizeForJson(v)
  {
    SanitizedIsSafe(v);
    SafeIsFixed(SanitizeForJson(v));
  }

  /** The scalar rules: NaN and infinities, wrapped or native, become `None`; NumPy integers,
      finite floats and booleans become the native value with the same content. */
  lemma ScalarRules(x: real, i: int, b: bool)
    ensures forall f: PyFloat | !f.Finite? :: SanitizeForJson(NpFloat(f)) == Null && SanitizeForJson(Float(f)) == Null
    ensures SanitizeForJson(NpFloat(Finite(x))) == Float(Finite(x))
    ensures SanitizeForJson(Float(Finite(x))) == Float(Finite(x))
    ensures SanitizeForJson(NpInt(i)) == Int(i) && SanitizeForJson(Int(i)) == Int(i)
    ensures SanitizeForJson(NpBool(b)) == Bool(b) && SanitizeForJson(Bool(b)) == Bool(b)
  {
  }

  /** The outlier counts as `detect_outliers` returns them (native integers after `int(count)`,
      keyed by column) come out unchanged. */
  lemma OutlierCountsUnchanged(entries: seq<(string, Value)>)
    requires forall i | 0 <= i < |entries| :: entries[i].1.Int?
    ensures SanitizeForJson(Dict(entries)) == Dict(entries)
  {
    SafeIsFixed(Dict(entries));
  }
}
