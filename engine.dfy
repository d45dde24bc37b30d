/**
  The copy engine: copyValue, the getTargetValue dispatch, the struct walk
  with its dotted-path pass, and the slice copy, as one family of mutually
  recursive functions over the reflection model.

  Every function here returns a Run: either the values the source returns
  together with its (possibly nil) error, or a panic.  A panic propagates
  through every caller, since each of them returns at once on a non-nil
  error or a panic.  Writes that the source makes in place, through an
  addressable `to`, are returned as the new contents of that `to`.
*/
module Engine {
  import opened Wrappers
  import opened Reflect
  import opened Fields
  import opened Paths
  import opened Registry

  /** The errors a copy reports. */
  datatype Error =
    | TypeMismatch(fromName: string, toName: string)
    | ConverterFailed(msg: string)
    | NotPointerTarget

  /** Either a result with a possibly nil error, or a panic. */
  datatype Run<T> = Ret(val: T, err: Option<Error>) | Panic(msg: string)

  /**
    The `to` argument of getTargetValue: an existing, addressable value, or
    the invalid Value, which carries the destination type `toType` alone.
  */
  datatype Dest = Existing(v: Value) | Fresh(t: Type)

  function DestType(d: Dest): Type
  {
    match d
    case Existing(v) => TypeOf(v)
    case Fresh(t) => t
  }

  /** What getTargetValue produces: its result and its `to` after the writes made through it. */
  datatype Produced = Produced(value: Value, dest: Dest)

  /** `d` is `to` after in-place writes: an invalid `to` stays as it was, an existing one keeps its type. */
  predicate SameSlot(d: Dest, to: Dest)
  {
    && (to.Fresh? ==> d == to)
    && (to.Existing? ==> d.Existing? && TypeOf(d.v) == TypeOf(to.v))
  }

  /** The errors a copy can report: a converter's, or a type mismatch when those are not ignored. */
  predicate Allowed(cfg: Config, err: Option<Error>)
  {
    err.Some? ==> err.value.ConverterFailed? || (err.value.TypeMismatch? && !cfg.ignoreTypeError)
  }

  predicate IsPointer(v: Value)
  {
    v.Ref? || v.Nil?
  }

  /** getRealValue applied to the `to` of copyValue, with getRealType of its type. */
  function RealDest(to: Value): (d: Dest)
    ensures TSize(DestType(d)) <= TSize(TypeOf(to))
    ensures IsPointer(to) ==> TSize(DestType(d)) < TSize(TypeOf(to))
    ensures DestType(d) == RealType(TypeOf(to))
  {
    match to
    case Ref(q) => Existing(q)
    case Nil(e) => Fresh(e)
    case _ => Existing(to)
  }

  /** `to` once its real value has become `d`: written through a pointer, or not at all through a nil one. */
  function Reattach(to: Value, d: Dest): (r: Value)
    requires SameSlot(d, RealDest(to))
    ensures TypeOf(r) == TypeOf(to)
  {
    match to
    case Ref(_) => Ref(d.v)
    case Nil(_) => to
    case _ => d.v
  }

  /** The struct destination after the walk: stored in place when it existed, else only returned. */
  function Keep(to: Dest, b: Value): (d: Dest)
    requires TypeOf(b) == DestType(to)
    ensures SameSlot(d, to)
  {
    if to.Existing? then Existing(b) else to
  }

  /**
    copyValue: compute the value for the real (pointed-to) destination and
    store it there.  On an error nothing is stored beyond what the struct
    walk already wrote in place; storing through a nil pointer, or a value
    of another type, panics.
  */
  function CopyValue(cfg: Config, from: Value, to: Value): (r: Run<Value>)
    ensures r.Ret? ==> TypeOf(r.val) == TypeOf(to) && Allowed(cfg, r.err)
    ensures r.Ret? && to.Nil? ==> r.val == to
    ensures r.Ret? && to.Ref? ==> r.val.Ref?
    decreases TSize(TypeOf(to)), 4, from, 0, 0
  {
    match RealValue(from)
    case Invalid => Panic("call of reflect.Value.Type on zero Value")
    case Valid(f) =>
      var rto := RealDest(to);
      match TargetValue(cfg, f, rto)
      case Panic(m) => Panic(m)
      case Ret(p, err) =>
        if err.Some? then Ret(Reattach(to, p.dest), err)
        else if to.Nil? then Panic("call of reflect.Value.Set on zero Value")
        else if TypeOf(p.value) != DestType(rto) then Panic("reflect.Set: value is not assignable to the destination type")
        else Ret(Reattach(to, Existing(p.value)), None)
  }

  /**
    getTargetValue: in strict priority order, a registered converter for
    the exact type pair, a native conversion, pointer unwrapping on either
    side, the struct walk, the slice copy, and finally the zero value of the
    destination type with a type error unless type errors are ignored.
  */
  function TargetValue(cfg: Config, from: Value, to: Dest): (r: Run<Produced>)
    ensures r.Ret? ==> SameSlot(r.val.dest, to) && Allowed(cfg, r.err)
    decreases TSize(DestType(to)), 3, from, 0, 0
  {
    var toType := DestType(to);
    match GetConverter(cfg.converters, TypeOf(from), toType)
    case Some(c) =>
      if c.fn.None? then Panic("call of nil func value")
      else
        var out := c.fn.value(from, toType);
        Ret(Produced(out.value, to), if out.err.Some? then Some(ConverterFailed(out.err.value)) else None)
    case None =>
      if cfg.native.convertible(TypeOf(from), toType) then
        Ret(Produced(cfg.native.convert(from, toType), to), None)
      else if IsPointer(from) || (to.Existing? && IsPointer(to.v)) then
        if IsPointer(from) && to.Existing? && IsPointer(to.v) then
          if to.v.Nil? || from.Nil? then Panic("call of reflect.Value.Type on zero Value")
          else
            match TargetValue(cfg, from.pointee, Existing(to.v.pointee))
            case Panic(m) => Panic(m)
            case Ret(p, err) => Ret(Produced(p.value, Existing(Ref(p.dest.v))), err)
        else if IsPointer(from) then
          if from.Nil? then Panic("call of reflect.Value.Type on zero Value")
          else TargetValue(cfg, from.pointee, to)
        else
          if to.v.Nil? then Panic("call of reflect.Value.Type on zero Value")
          else
            match TargetValue(cfg, from, Existing(to.v.pointee))
            case Panic(m) => Panic(m)
            case Ret(p, err) => Ret(Produced(p.value, Existing(Ref(p.dest.v))), err)
      else if toType.StructT? && from.StructVal? then
        StructTargetValue(cfg, from, to)
      else if from.SliceVal? && toType.SliceT? then
        match SliceTargetValue(cfg, from, toType, 0, [])
        case Panic(m) => Panic(m)
        case Ret(s, err) => Ret(Produced(s, to), err)
      else
        Ret(Produced(Zero(toType), to),
            if cfg.ignoreTypeError then None else Some(TypeMismatch(Name(TypeOf(from)), Name(toType))))
  }

  /**
    getStructTargetValue: walk the source's flattened fields into the
    destination (a zero struct when `to` is invalid), then run the
    dotted-path pass; the first error ends the copy with what was written.
  */
  function StructTargetValue(cfg: Config, from: Value, to: Dest): (r: Run<Produced>)
    requires from.StructVal? && DestType(to).StructT?
    ensures r.Ret? ==> SameSlot(r.val.dest, to) && TypeOf(r.val.value) == DestType(to) && Allowed(cfg, r.err)
    decreases TSize(DestType(to)), 2, from, 0, 0
  {
    var base := if to.Existing? then to.v else Zero(to.t);
    var toMap := FieldMap(AllFields(TypeOf(base)));
    match WalkFields(cfg, from, AllFields(TypeOf(from)), 0, base, toMap)
    case Panic(m) => Panic(m)
    case Ret(b, Some(e)) => Ret(Produced(b, Keep(to, b)), Some(e))
    case Ret(b, None) =>
      match MultiPairs(cfg, from, 0, b)
      case Panic(m) => Panic(m)
      case Ret(b', err) => Ret(Produced(b', Keep(to, b')), err)
  }

  /**
    The outer loop of the struct walk, from source field `i` on: a field
    `from` holds is copied into each of its destination names, and the first
    error or panic ends the walk.
  */
  function WalkFields(cfg: Config, from: Value, fromFields: seq<Field>, i: nat,
                      base: Value, toMap: map<string, Field>): (r: Run<Value>)
    requires from.StructVal? && base.StructVal? && i <= |fromFields|
    ensures r.Ret? ==> r.val.StructVal? && TypeOf(r.val) == TypeOf(base) && Allowed(cfg, r.err)
    decreases TSize(TypeOf(base)), 1, from, |fromFields| - i, 0
  {
    if i == |fromFields| then Ret(base, None)
    else
      var fromValue := FieldByName(from, fromFields[i].name);
      if fromValue.Invalid? then WalkFields(cfg, from, fromFields, i + 1, base, toMap)
      else
        var names := TargetFieldNames(cfg.diffPairs, fromFields[i].name);
        match WalkNames(cfg, fromValue.v, names, 0, base, toMap)
        case Panic(m) => Panic(m)
        case Ret(b, Some(e)) => Ret(b, Some(e))
        case Ret(b, None) => WalkFields(cfg, from, fromFields, i + 1, b, toMap)
  }

  /**
    The inner loop of the struct walk: the source value `fromValue` is
    copied into each destination name from the `j`-th on that the
    destination's field map holds; the first error ends the loop.
  */
  function WalkNames(cfg: Config, fromValue: Value, names: seq<string>, j: nat,
                     base: Value, toMap: map<string, Field>): (r: Run<Value>)
    requires base.StructVal? && j <= |names|
    ensures r.Ret? ==> r.val.StructVal? && TypeOf(r.val) == TypeOf(base) && Allowed(cfg, r.err)
    decreases TSize(TypeOf(base)), 0, fromValue, |names| - j, 0
  {
    if j == |names| then Ret(base, None)
    else if names[j] !in toMap then WalkNames(cfg, fromValue, names, j + 1, base, toMap)
    else
      var toName := toMap[names[j]].name;
      var toValue := FieldByName(base, toName);
      if toValue.Invalid? then WalkNames(cfg, fromValue, names, j + 1, base, toMap)
      else
        match CopyField(cfg, fromValue, toName, toValue.v)
        case Panic(m) => Panic(m)
        case Ret(nv, err) =>
          var base' := SetFieldByName(base, toName, nv);
          if err.Some? then Ret(base', err)
          else WalkNames(cfg, fromValue, names, j + 1, base', toMap)
  }

  /**
    The body of the inner loop for one destination field: the transformer
    registered under the destination field's name, if any, is applied to
    the source value first, and the result is copied into the field.
  */
  function CopyField(cfg: Config, fromValue: Value, toName: string, toValue: Value): (r: Run<Value>)
    ensures r.Ret? ==> TypeOf(r.val) == TypeOf(toValue) && Allowed(cfg, r.err)
    decreases TSize(TypeOf(toValue)), 5, fromValue, 0, 0
  {
    if toName in cfg.transformers then
      match cfg.transformers[toName]
      case Func(numIn, numOut, call) =>
        if call.None? then Panic("reflect: call of nil function")
        else if numIn != 1 || numOut == 0 then Panic("reflect: Call with the wrong number of arguments or results")
        else CopyValue(cfg, call.value(fromValue), toValue)
      case _ => Panic("call of reflect.Value.Call on a value that is not a function")
    else CopyValue(cfg, fromValue, toValue)
  }

  /** The rename targets the dotted-path pass visits for the `k`-th origin: its registered targets, if any. */
  function PairTargets(cfg: Config, k: nat): (r: seq<string>)
    requires k < |cfg.pairOrder|
    ensures cfg.pairOrder[k] in cfg.diffPairs ==> r == cfg.diffPairs[cfg.pairOrder[k]]
    ensures cfg.pairOrder[k] !in cfg.diffPairs ==> r == []
  {
    if cfg.pairOrder[k] in cfg.diffPairs then cfg.diffPairs[cfg.pairOrder[k]] else []
  }

  /** setMultiLevelFields, outer loop: the registered origins from the `k`-th on; the first error ends the pass. */
  function MultiPairs(cfg: Config, from: Value, k: nat, base: Value): (r: Run<Value>)
    requires from.StructVal? && base.StructVal? && k <= |cfg.pairOrder|
    ensures r.Ret? ==> r.val.StructVal? && TypeOf(r.val) == TypeOf(base) && Allowed(cfg, r.err)
    decreases TSize(TypeOf(base)), 1, from, |cfg.pairOrder| - k, 0
  {
    if k == |cfg.pairOrder| then Ret(base, None)
    else
      match MultiTargets(cfg, from, cfg.pairOrder[k], PairTargets(cfg, k), 0, base)
      case Panic(m) => Panic(m)
      case Ret(b, Some(e)) => Ret(b, Some(e))
      case Ret(b, None) => MultiPairs(cfg, from, k + 1, b)
  }

  /**
    setMultiLevelFields, inner loop: for each target of `origin` from the
    `t`-th on where the origin or the target contains a ".", resolve both
    paths and copy between the two locations directly (no transformer is
    applied); the first error ends the loop.
  */
  function MultiTargets(cfg: Config, from: Value, origin: string, targets: seq<string>, t: nat,
                        base: Value): (r: Run<Value>)
    requires from.StructVal? && base.StructVal? && t <= |targets|
    ensures r.Ret? ==> r.val.StructVal? && TypeOf(r.val) == TypeOf(base) && Allowed(cfg, r.err)
    decreases TSize(TypeOf(base)), 0, from, |targets| - t, 0
  {
    if t == |targets| then Ret(base, None)
    else if !('.' in origin || '.' in targets[t]) then MultiTargets(cfg, from, origin, targets, t + 1, base)
    else
      match ValueByPath(origin, Valid(from))
      case Fatal(m) => Panic(m)
      case Found(fv) =>
        match ValueByPath(targets[t], Valid(base))
        case Fatal(m) => Panic(m)
        case Found(tv) =>
          if tv.Invalid? || fv.Invalid? then Panic("call of reflect.Value.Type on zero Value")
          else
            ValueByPathIsFold(targets[t], Valid(base));
            PathFoldSmaller(Split(targets[t]), base);
            match CopyValue(cfg, fv.v, tv.v)
            case Panic(m) => Panic(m)
            case Ret(nv, err) =>
              var base' := WriteByPath(Split(targets[t]), base, nv);
              if err.Some? then Ret(base', err)
              else MultiTargets(cfg, from, origin, targets, t + 1, base')
  }

  /** The element a slice of element type `elem` receives: boxed in a new pointer when `elem` is a pointer type. */
  function SliceElement(elem: Type, v: Value): (r: Value)
    ensures !elem.PtrT? ==> r == v
    ensures elem.PtrT? && TypeOf(v) == elem.elem && !IsPointer(v) ==> r == Ref(v) && TypeOf(r) == elem
    ensures elem.PtrT? && IsPointer(v) ==> r == v
  {
    if elem.PtrT? then ValuePtr(v) else v
  }

  /**
    getSliceTargetValue, from element `i` on, with `acc` the elements
    built so far: each source element is converted on its own to the real
    element type; an error ends the copy with the slice built so far.
  */
  function SliceTargetValue(cfg: Config, from: Value, toType: Type, i: nat, acc: seq<Value>): (r: Run<Value>)
    requires from.SliceVal? && toType.SliceT? && i <= |from.elems|
    ensures r.Ret? ==> r.val.SliceVal? && r.val.elemType == toType.elem && Allowed(cfg, r.err)
    decreases TSize(toType), 0, from, |from.elems| - i, 0
  {
    if i == |from.elems| then Ret(SliceVal(toType.elem, acc), None)
    else
      match TargetValue(cfg, from.elems[i], Fresh(RealType(toType.elem)))
      case Panic(m) => Panic(m)
      case Ret(p, Some(e)) => Ret(SliceVal(toType.elem, acc), Some(e))
      case Ret(p, None) =>
        var x := SliceElement(toType.elem, p.value);
        if TypeOf(x) != toType.elem then Panic("reflect.Append: value is not assignable to the element type")
        else SliceTargetValue(cfg, from, toType, i + 1, acc + [x])
  }
}
