/**
  The loops of the copy engine as the source writes them: the slice copy
  appends element by element, and the struct walk and the dotted-path pass
  update the destination struct in place through nested loops.  Each is
  proved to compute what the corresponding function of the engine defines.
*/
module EngineLoops {
  import opened Wrappers
  import opened Reflect
  import opened Fields
  import opened Paths
  import opened Registry
  import opened Engine
  import opened EngineFacts

  /** getSliceTargetValue: convert and append one element at a time, stopping at the first error. */
  method GetSliceTargetValue(cfg: Config, from: Value, toType: Type) returns (r: Run<Value>)
    requires from.SliceVal? && toType.SliceT?
    ensures r == SliceTargetValue(cfg, from, toType, 0, [])
  {
    var to: seq<Value> := [];
    var i := 0;
    while i < |from.elems|
      invariant 0 <= i <= |from.elems|
      invariant SliceTargetValue(cfg, from, toType, 0, []) == SliceTargetValue(cfg, from, toType, i, to)
    {
      var target := TargetValue(cfg, from.elems[i], Fresh(RealType(toType.elem)));
      if target.Panic? {
        return Panic(target.msg);
      }
      if target.err.Some? {
        return Ret(SliceVal(toType.elem, to), target.err);
      }
      var x := if toType.elem.PtrT? then ValuePtr(target.val.value) else target.val.value;
      if TypeOf(x) != toType.elem {
        return Panic("reflect.Append: value is not assignable to the element type");
      }
      to := to + [x];
      i := i + 1;
    }
    r := Ret(SliceVal(toType.elem, to), None);
  }

  /**
    getStructTargetValue: build the destination (a zero struct when `to` is
    invalid) and its field map, walk the source's fields into it, and then
    run the dotted-path pass unless the walk stopped on an error.
  */
  method GetStructTargetValue(cfg: Config, from: Value, to: Dest) returns (r: Run<Produced>)
    requires from.StructVal? && DestType(to).StructT?
    ensures r == StructTargetValue(cfg, from, to)
  {
    var base := if to.Existing? then to.v else Zero(to.t);
    var toFields := GetStructAllFields(TypeOf(base));
    var toMap := GetFieldMap(toFields);
    var fromFields := GetStructAllFields(TypeOf(from));
    var walked := WalkStruct(cfg, from, fromFields, base, toMap);
    match walked
    case Panic(m) =>
      r := Panic(m);
    case Ret(b, err) =>
      if err.Some? {
        r := Ret(Produced(b, Keep(to, b)), err);
      } else {
        var multi := SetMultiLevelFields(cfg, from, b);
        match multi
        case Panic(m) => r := Panic(m);
        case Ret(b', err') => r := Ret(Produced(b', Keep(to, b')), err');
      }
  }

  /**
    The outer loop of the struct walk: every flattened source field that
    `from` holds is copied into its destination fields in place; the first
    error returns the destination as written so far.
  */
  method WalkStruct(cfg: Config, from: Value, fromFields: seq<Field>, to: Value, toMap: map<string, Field>)
    returns (r: Run<Value>)
    requires from.StructVal? && to.StructVal?
    ensures r == WalkFields(cfg, from, fromFields, 0, to, toMap)
  {
    var base := to;
    var i := 0;
    while i < |fromFields|
      invariant 0 <= i <= |fromFields|
      invariant base.StructVal?
      invariant WalkFields(cfg, from, fromFields, 0, to, toMap) == WalkFields(cfg, from, fromFields, i, base, toMap)
    {
      var fromValue := FieldByName(from, fromFields[i].name);
      if fromValue.Valid? {
        var names := TargetFieldNames(cfg.diffPairs, fromFields[i].name);
        var step := CopyToTargets(cfg, fromValue.v, names, base, toMap);
        if step.Panic? || step.err.Some? {
          return step;
        }
        base := step.val;
      }
      i := i + 1;
    }
    r := Ret(base, None);
  }

  /**
    The inner loop of the struct walk: the source value `fromValue` is
    copied into each destination field its rename targets name, in place;
    the first error returns the destination as written so far.  On a
    destination without embedded fields, and with distinct names, each
    named field present receives its own copy and no other field changes.
  */
  method CopyToTargets(cfg: Config, fromValue: Value, names: seq<string>, to: Value, toMap: map<string, Field>)
    returns (r: Run<Value>)
    requires to.StructVal?
    ensures r == WalkNames(cfg, fromValue, names, 0, to, toMap)
    ensures Plain(to) && Distinct(names) && KeyedByName(toMap) && r.Ret? && r.err.None? ==>
      && (forall n :: n in names && n in toMap && FieldByName(to, n).Valid? ==>
            CopyField(cfg, fromValue, n, FieldByName(to, n).v).Ret? &&
            FieldByName(r.val, n) == Valid(CopyField(cfg, fromValue, n, FieldByName(to, n).v).val))
      && (forall n :: !(n in names && n in toMap) ==> FieldByName(r.val, n) == FieldByName(to, n))
  {
    var base := to;
    var j := 0;
    while j < |names|
      invariant 0 <= j <= |names|
      invariant base.StructVal?
      invariant WalkNames(cfg, fromValue, names, 0, to, toMap) == WalkNames(cfg, fromValue, names, j, base, toMap)
    {
      if names[j] in toMap {
        var toName := toMap[names[j]].name;
        var toValue := FieldByName(base, toName);
        if toValue.Valid? {
          var copied := CopyField(cfg, fromValue, toName, toValue.v);
          if copied.Panic? {
            r := Panic(copied.msg);
            return;
          }
          base := SetFieldByName(base, toName, copied.val);
          if copied.err.Some? {
            r := Ret(base, copied.err);
            return;
          }
        }
      }
      j := j + 1;
    }
    r := Ret(base, None);
    if Plain(to) && Distinct(names) && KeyedByName(toMap) {
      FanOutWrites(cfg, fromValue, names, to, toMap);
    }
  }

  /**
    setMultiLevelFields: for each registered origin, in registration order,
    its dotted targets are copied in place; the first error or panic ends
    the pass.
  */
  method SetMultiLevelFields(cfg: Config, from: Value, to: Value) returns (r: Run<Value>)
    requires from.StructVal? && to.StructVal?
    ensures r == MultiPairs(cfg, from, 0, to)
  {
    var base := to;
    var k := 0;
    while k < |cfg.pairOrder|
      invariant 0 <= k <= |cfg.pairOrder|
      invariant base.StructVal?
      invariant MultiPairs(cfg, from, 0, to) == MultiPairs(cfg, from, k, base)
    {
      var step := CopyDottedTargets(cfg, from, cfg.pairOrder[k], PairTargets(cfg, k), base);
      if step.Panic? || step.err.Some? {
        return step;
      }
      base := step.val;
      k := k + 1;
    }
    r := Ret(base, None);
  }

  /**
    The inner loop of setMultiLevelFields: for each target of `origin` with
    a "." on either side, resolve both paths and copy between the two
    locations, writing the destination in place.
  */
  method CopyDottedTargets(cfg: Config, from: Value, origin: string, targets: seq<string>, to: Value)
    returns (r: Run<Value>)
    requires from.StructVal? && to.StructVal?
    ensures r == MultiTargets(cfg, from, origin, targets, 0, to)
  {
    var base := to;
    var t := 0;
    while t < |targets|
      invariant 0 <= t <= |targets|
      invariant base.StructVal?
      invariant MultiTargets(cfg, from, origin, targets, 0, to) == MultiTargets(cfg, from, origin, targets, t, base)
    {
      var target := targets[t];
      if '.' in origin || '.' in target {
        var fromField := ValueByPath(origin, Valid(from));
        if fromField.Fatal? {
          return Panic(fromField.msg);
        }
        var toField := ValueByPath(target, Valid(base));
        if toField.Fatal? {
          return Panic(toField.msg);
        }
        if toField.rv.Invalid? || fromField.rv.Invalid? {
          return Panic("call of reflect.Value.Type on zero Value");
        }
        ValueByPathIsFold(target, Valid(base));
        var copied := CopyValue(cfg, fromField.rv.v, toField.rv.v);
        if copied.Panic? {
          return Panic(copied.msg);
        }
        base := WriteByPath(Split(target), base, copied.val);
        if copied.err.Some? {
          return Ret(base, copied.err);
        }
      }
      t := t + 1;
    }
    r := Ret(base, None);
  }
}
