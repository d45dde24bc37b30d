/**
  Properties of the copy engine: the dispatch order of getTargetValue, the
  shape of a slice copy, the order of transform and convert in the struct
  walk, and when the walk and the dotted-path pass leave the destination
  alone.
*/
module EngineFacts {
  import opened Wrappers
  import opened Reflect
  import opened Fields
  import opened Paths
  import opened Registry
  import opened Engine

  /**
    A registered converter for the exact type pair decides the result: a nil
    function panics, otherwise its value is returned with its error, which
    is never squashed; neither the native rules nor ignoreTypeError are
    consulted.
  */
  lemma ConverterFirst(cfg: Config, from: Value, to: Dest, native: Native, ignore: bool)
    requires GetConverter(cfg.converters, TypeOf(from), DestType(to)).Some?
    ensures var c := GetConverter(cfg.converters, TypeOf(from), DestType(to)).value;
      && (c.fn.None? ==> TargetValue(cfg, from, to).Panic?)
      && (c.fn.Some? ==>
            var out := c.fn.value(from, DestType(to));
            var r := TargetValue(cfg, from, to);
            && r.Ret? && r.val == Produced(out.value, to)
            && (r.err.Some? <==> out.err.Some?)
            && (out.err.Some? ==> r.err == Some(ConverterFailed(out.err.value))))
    ensures TargetValue(cfg.(native := native, ignoreTypeError := ignore), from, to) == TargetValue(cfg, from, to)
  {
  }

  /** With no converter, a native conversion comes next and never fails. */
  lemma NativeSecond(cfg: Config, from: Value, to: Dest)
    requires GetConverter(cfg.converters, TypeOf(from), DestType(to)).None?
    requires cfg.native.convertible(TypeOf(from), DestType(to))
    ensures TargetValue(cfg, from, to) == Ret(Produced(cfg.native.convert(from, DestType(to)), to), None)
  {
  }

  /**
    A native conversion onto a non-pointer destination is stored without
    error: when the conversion yields the target type, as Go's does, the
    type check in copyValue cannot panic.
  */
  lemma NativeStored(cfg: Config, from: Value, to: Value)
    requires ConvertsToTarget(cfg.native) && !IsPointer(from) && !IsPointer(to)
    requires GetConverter(cfg.converters, TypeOf(from), TypeOf(to)).None?
    requires cfg.native.convertible(TypeOf(from), TypeOf(to))
    ensures CopyValue(cfg, from, to) == Ret(cfg.native.convert(from, TypeOf(to)), None)
  {
    assert RealValue(from) == Valid(from);
    assert RealDest(to) == Existing(to);
    NativeSecond(cfg, from, Existing(to));
    assert TypeOf(cfg.native.convert(from, TypeOf(to))) == TypeOf(to);
  }

  /**
    When nothing applies, the result is the zero value of the destination
    type; the error is nil exactly when type errors are ignored, and
    otherwise names both types.
  */
  lemma FallbackZero(cfg: Config, from: Value, to: Dest)
    requires GetConverter(cfg.converters, TypeOf(from), DestType(to)).None?
    requires !cfg.native.convertible(TypeOf(from), DestType(to))
    requires !IsPointer(from) && !(to.Existing? && IsPointer(to.v))
    requires !(DestType(to).StructT? && from.StructVal?)
    requires !(from.SliceVal? && DestType(to).SliceT?)
    ensures var r := TargetValue(cfg, from, to);
      && r.Ret? && r.val == Produced(Zero(DestType(to)), to)
      && (r.err.None? <==> cfg.ignoreTypeError)
      && (r.err.Some? ==> r.err.value == TypeMismatch(Name(TypeOf(from)), Name(DestType(to))))
  {
  }

  /**
    Two non-nil pointers are both dereferenced and the pointees copied;
    what is written lands behind the destination pointer.
  */
  lemma PointersUnwrapped(cfg: Config, from: Value, to: Value)
    requires GetConverter(cfg.converters, TypeOf(from), TypeOf(to)).None?
    requires !cfg.native.convertible(TypeOf(from), TypeOf(to))
    requires from.Ref? && to.Ref?
    ensures var inner := TargetValue(cfg, from.pointee, Existing(to.pointee));
      && (inner.Panic? ==> TargetValue(cfg, from, Existing(to)).Panic?)
      && (inner.Ret? ==> TargetValue(cfg, from, Existing(to))
                           == Ret(Produced(inner.val.value, Existing(Ref(inner.val.dest.v))), inner.err))
  {
  }

  /** A nil pointer on either side of the pointer case panics. */
  lemma NilPointerPanics(cfg: Config, from: Value, to: Dest)
    requires GetConverter(cfg.converters, TypeOf(from), DestType(to)).None?
    requires !cfg.native.convertible(TypeOf(from), DestType(to))
    requires from.Nil? || (to.Existing? && to.v.Nil?)
    ensures TargetValue(cfg, from, to).Panic?
  {
  }

  /** A source pointer against a non-pointer destination: the pointee is copied instead. */
  lemma PointerToValue(cfg: Config, from: Value, to: Dest)
    requires GetConverter(cfg.converters, TypeOf(from), DestType(to)).None?
    requires !cfg.native.convertible(TypeOf(from), DestType(to))
    requires from.Ref? && !(to.Existing? && IsPointer(to.v))
    ensures TargetValue(cfg, from, to) == TargetValue(cfg, from.pointee, to)
  {
  }

  /**
    A non-pointer source against a non-nil destination pointer: the source
    is copied into the pointee, and what is written lands behind the pointer.
  */
  lemma ValueToPointer(cfg: Config, from: Value, to: Value)
    requires GetConverter(cfg.converters, TypeOf(from), TypeOf(to)).None?
    requires !cfg.native.convertible(TypeOf(from), TypeOf(to))
    requires !IsPointer(from) && to.Ref?
    ensures var inner := TargetValue(cfg, from, Existing(to.pointee));
      && (inner.Panic? ==> TargetValue(cfg, from, Existing(to)).Panic?)
      && (inner.Ret? ==> TargetValue(cfg, from, Existing(to))
                           == Ret(Produced(inner.val.value, Existing(Ref(inner.val.dest.v))), inner.err))
  {
  }

  /** With no converter, no native conversion and no pointer, two structs go to the struct walk. */
  lemma StructDelegation(cfg: Config, from: Value, to: Dest)
    requires GetConverter(cfg.converters, TypeOf(from), DestType(to)).None?
    requires !cfg.native.convertible(TypeOf(from), DestType(to))
    requires !IsPointer(from) && !(to.Existing? && IsPointer(to.v))
    requires DestType(to).StructT? && from.StructVal?
    ensures TargetValue(cfg, from, to) == StructTargetValue(cfg, from, to)
  {
  }

  /**
    With no converter, no native conversion and no pointer, two slices go to
    the slice copy, and the destination itself is not written.
  */
  lemma SliceDelegation(cfg: Config, from: Value, to: Dest)
    requires GetConverter(cfg.converters, TypeOf(from), DestType(to)).None?
    requires !cfg.native.convertible(TypeOf(from), DestType(to))
    requires !IsPointer(from) && !(to.Existing? && IsPointer(to.v))
    requires from.SliceVal? && DestType(to).SliceT?
    ensures var s := SliceTargetValue(cfg, from, DestType(to), 0, []);
      && (s.Panic? ==> TargetValue(cfg, from, to).Panic?)
      && (s.Ret? ==> TargetValue(cfg, from, to) == Ret(Produced(s.val, to), s.err))
  {
  }

  /**
    copyValue stores getTargetValue's result in the real destination: behind
    a pointer, or in place of a non-pointer; on an error it keeps only what
    getTargetValue wrote in place.  A nil source pointer, storing through a
    nil destination pointer, and storing a value of another type panic.
  */
  lemma CopyValueStores(cfg: Config, from: Value, to: Value)
    ensures from.Nil? ==> CopyValue(cfg, from, to).Panic?
    ensures !from.Nil? ==>
      var f := RealValue(from).v;
      var t := TargetValue(cfg, f, RealDest(to));
      var r := CopyValue(cfg, from, to);
      && (t.Panic? ==> r.Panic?)
      && (t.Ret? && t.err.Some? ==> r == Ret(Reattach(to, t.val.dest), t.err))
      && (t.Ret? && t.err.None? && to.Ref? && TypeOf(t.val.value) == TypeOf(to.pointee) ==>
            r == Ret(Ref(t.val.value), None))
      && (t.Ret? && t.err.None? && !IsPointer(to) && TypeOf(t.val.value) == TypeOf(to) ==>
            r == Ret(t.val.value, None))
      && (t.Ret? && t.err.None? && (to.Nil? || TypeOf(t.val.value) != DestType(RealDest(to))) ==> r.Panic?)
  {
  }

  /** The run of one slice element: converted on its own into the real element type. */
  function ElementRun(cfg: Config, et: Type, x: Value): Run<Produced>
  {
    TargetValue(cfg, x, Fresh(RealType(et)))
  }

  /** `y` is what a slice of element type `et` receives for source element `x`. */
  predicate ElementOk(cfg: Config, et: Type, x: Value, y: Value)
  {
    var e := ElementRun(cfg, et, x);
    e.Ret? && e.err.None? && y == SliceElement(et, e.val.value)
  }

  /**
    A slice copy that returns keeps order and derives element i from source
    element i alone (boxed when the element type is a pointer); it has the
    source's length exactly when there is no error, and otherwise holds the
    elements before the first failing one, whose error it returns.
  */
  lemma SliceCopyShape(cfg: Config, from: Value, toType: Type)
    requires from.SliceVal? && toType.SliceT?
    ensures var r := SliceTargetValue(cfg, from, toType, 0, []);
      r.Ret? ==>
        && |r.val.elems| <= |from.elems|
        && (forall k :: 0 <= k < |r.val.elems| ==> ElementOk(cfg, toType.elem, from.elems[k], r.val.elems[k]))
        && (r.err.None? <==> |r.val.elems| == |from.elems|)
        && (r.err.Some? ==> ElementRun(cfg, toType.elem, from.elems[|r.val.elems|]).Ret?
                            && ElementRun(cfg, toType.elem, from.elems[|r.val.elems|]).err == r.err)
  {
    SliceLoopShape(cfg, from, toType, 0, []);
  }

  lemma {:induction false} SliceLoopShape(cfg: Config, from: Value, toType: Type, i: nat, acc: seq<Value>)
    requires from.SliceVal? && toType.SliceT? && i <= |from.elems| && |acc| == i
    requires forall k :: 0 <= k < i ==> ElementOk(cfg, toType.elem, from.elems[k], acc[k])
    ensures var r := SliceTargetValue(cfg, from, toType, i, acc);
      r.Ret? ==>
        && |r.val.elems| <= |from.elems|
        && (forall k :: 0 <= k < |r.val.elems| ==> ElementOk(cfg, toType.elem, from.elems[k], r.val.elems[k]))
        && (r.err.None? <==> |r.val.elems| == |from.elems|)
        && (r.err.Some? ==> ElementRun(cfg, toType.elem, from.elems[|r.val.elems|]).Ret?
                            && ElementRun(cfg, toType.elem, from.elems[|r.val.elems|]).err == r.err)
    decreases |from.elems| - i
  {
    if i < |from.elems| {
      var e := ElementRun(cfg, toType.elem, from.elems[i]);
      if e.Ret? && e.err.None? {
        var x := SliceElement(toType.elem, e.val.value);
        if TypeOf(x) == toType.elem {
          SliceLoopShape(cfg, from, toType, i + 1, acc + [x]);
        }
      }
    }
  }

  /**
    In the struct walk a transformer registered under the destination
    field's name is applied first and its result converted: the field
    receives convert(transform(v)); with none registered, convert(v).  A
    typed nil function or a non-function panics when called.
  */
  lemma TransformThenConvert(cfg: Config, fromValue: Value, toName: string, toValue: Value)
    ensures toName in cfg.transformers && WellFormedTransformer(cfg.transformers[toName])
            && cfg.transformers[toName].call.Some? ==>
      CopyField(cfg, fromValue, toName, toValue) == CopyValue(cfg, cfg.transformers[toName].call.value(fromValue), toValue)
    ensures toName !in cfg.transformers ==>
      CopyField(cfg, fromValue, toName, toValue) == CopyValue(cfg, fromValue, toValue)
    ensures toName in cfg.transformers && !(cfg.transformers[toName].Func? && cfg.transformers[toName].call.Some?) ==>
      CopyField(cfg, fromValue, toName, toValue).Panic?
  {
  }

  /** A destination name the destination's field map does not hold is skipped without error. */
  lemma AbsentNameSkipped(cfg: Config, fromValue: Value, names: seq<string>, j: nat,
                          base: Value, toMap: map<string, Field>)
    requires base.StructVal? && j < |names| && names[j] !in toMap
    ensures WalkNames(cfg, fromValue, names, j, base, toMap) == WalkNames(cfg, fromValue, names, j + 1, base, toMap)
  {
  }

  /**
    A destination name the field map holds: the field is copied into (the
    transformer applied first); an error ends the inner loop at once with the
    field written, and so does a panic; otherwise the loop goes on with it.
  */
  lemma PresentNameStep(cfg: Config, fromValue: Value, names: seq<string>, j: nat,
                        base: Value, toMap: map<string, Field>)
    requires base.StructVal? && j < |names| && names[j] in toMap
    requires FieldByName(base, toMap[names[j]].name).Valid?
    ensures var toName := toMap[names[j]].name;
      var c := CopyField(cfg, fromValue, toName, FieldByName(base, toName).v);
      var r := WalkNames(cfg, fromValue, names, j, base, toMap);
      && (c.Panic? ==> r.Panic?)
      && (c.Ret? && c.err.Some? ==> r == Ret(SetFieldByName(base, toName, c.val), c.err))
      && (c.Ret? && c.err.None? ==> r == WalkNames(cfg, fromValue, names, j + 1, SetFieldByName(base, toName, c.val), toMap))
  {
  }

  /**
    Fan-out: on a destination without embedded fields, an inner loop over
    distinct names that ends without error leaves each named field of the
    map holding its own copy of the source value, and every other field as
    it was.
  */
  lemma FanOutWrites(cfg: Config, fromValue: Value, names: seq<string>, base: Value, toMap: map<string, Field>)
    requires Plain(base) && Distinct(names) && KeyedByName(toMap)
    ensures var r := WalkNames(cfg, fromValue, names, 0, base, toMap);
      r.Ret? && r.err.None? ==>
        && (forall n :: n in names && n in toMap && FieldByName(base, n).Valid? ==>
              CopyField(cfg, fromValue, n, FieldByName(base, n).v).Ret? &&
              FieldByName(r.val, n) == Valid(CopyField(cfg, fromValue, n, FieldByName(base, n).v).val))
        && (forall n :: !(n in names && n in toMap) ==> FieldByName(r.val, n) == FieldByName(base, n))
  {
    FanOut(cfg, fromValue, names, 0, base, toMap);
    assert names[0..] == names;
  }

  lemma {:induction false} FanOut(cfg: Config, fromValue: Value, names: seq<string>, j: nat,
                                  base: Value, toMap: map<string, Field>)
    requires Plain(base) && Distinct(names) && KeyedByName(toMap) && j <= |names|
    ensures var r := WalkNames(cfg, fromValue, names, j, base, toMap);
      r.Ret? && r.err.None? ==>
        && (forall n :: n in names[j..] && n in toMap && FieldByName(base, n).Valid? ==>
              CopyField(cfg, fromValue, n, FieldByName(base, n).v).Ret? &&
              FieldByName(r.val, n) == Valid(CopyField(cfg, fromValue, n, FieldByName(base, n).v).val))
        && (forall n :: !(n in names[j..] && n in toMap) ==> FieldByName(r.val, n) == FieldByName(base, n))
    decreases |names| - j
  {
    if j < |names| {
      var n0 := names[j];
      assert names[j..] == [n0] + names[j + 1..];
      assert n0 !in names[j + 1..] by {
        forall m | j + 1 <= m < |names| ensures names[m] != n0 { }
      }
      if n0 !in toMap || FieldByName(base, n0).Invalid? {
        FanOut(cfg, fromValue, names, j + 1, base, toMap);
      } else {
        var c := CopyField(cfg, fromValue, n0, FieldByName(base, n0).v);
        if c.Ret? && c.err.None? {
          var base' := SetFieldByName(base, n0, c.val);
          SetOtherField(base, n0, c.val, n0);
          forall b | b != n0 ensures FieldByName(base', b) == FieldByName(base, b) {
            SetOtherField(base, n0, c.val, b);
          }
          FanOut(cfg, fromValue, names, j + 1, base', toMap);
        }
      }
    }
  }

  /**
    The outer loop of the struct walk: a field the source does not hold is
    passed over; otherwise the inner loop's error or panic ends the walk,
    and its destination is what the walk goes on with.
  */
  lemma WalkFieldsStep(cfg: Config, from: Value, fromFields: seq<Field>, i: nat, base: Value, toMap: map<string, Field>)
    requires from.StructVal? && base.StructVal? && i < |fromFields|
    ensures var fv := FieldByName(from, fromFields[i].name);
      var r := WalkFields(cfg, from, fromFields, i, base, toMap);
      && (fv.Invalid? ==> r == WalkFields(cfg, from, fromFields, i + 1, base, toMap))
      && (fv.Valid? ==>
            var w := WalkNames(cfg, fv.v, TargetFieldNames(cfg.diffPairs, fromFields[i].name), 0, base, toMap);
            && (w.Panic? ==> r.Panic?)
            && (w.Ret? && w.err.Some? ==> r == w)
            && (w.Ret? && w.err.None? ==> r == WalkFields(cfg, from, fromFields, i + 1, w.val, toMap)))
  {
  }

  /**
    getStructTargetValue: an error in the walk is returned with the
    destination as written, and the dotted-path pass does not run; after a
    walk without error, the pass runs on the walked destination and decides
    the outcome.
  */
  lemma WalkThenPass(cfg: Config, from: Value, to: Dest)
    requires from.StructVal? && DestType(to).StructT?
    ensures var base := if to.Existing? then to.v else Zero(to.t);
      var w := WalkFields(cfg, from, AllFields(TypeOf(from)), 0, base, FieldMap(AllFields(TypeOf(base))));
      var r := StructTargetValue(cfg, from, to);
      && (w.Panic? ==> r.Panic?)
      && (w.Ret? && w.err.Some? ==> r == Ret(Produced(w.val, Keep(to, w.val)), w.err))
      && (w.Ret? && w.err.None? ==>
            var m := MultiPairs(cfg, from, 0, w.val);
            && (m.Panic? ==> r.Panic?)
            && (m.Ret? ==> r == Ret(Produced(m.val, Keep(to, m.val)), m.err)))
  {
  }

  /** No rename target of any source field from the `i`-th on is a destination field name. */
  predicate NoneTargeted(cfg: Config, fromFields: seq<Field>, i: nat, toMap: map<string, Field>)
  {
    forall k, n :: i <= k < |fromFields| && n in TargetFieldNames(cfg.diffPairs, fromFields[k].name) ==> n !in toMap
  }

  /** Names absent from the destination map are skipped: a walk that finds none leaves the destination alone, without error. */
  lemma {:induction false} WalkSkipsAbsent(cfg: Config, from: Value, fromFields: seq<Field>, i: nat,
                                           base: Value, toMap: map<string, Field>)
    requires from.StructVal? && base.StructVal? && i <= |fromFields|
    requires NoneTargeted(cfg, fromFields, i, toMap)
    ensures WalkFields(cfg, from, fromFields, i, base, toMap) == Ret(base, None)
    decreases |fromFields| - i
  {
    if i < |fromFields| {
      var fv := FieldByName(from, fromFields[i].name);
      if fv.Valid? {
        var names := TargetFieldNames(cfg.diffPairs, fromFields[i].name);
        NamesAllAbsent(cfg, fv.v, names, 0, base, toMap);
      }
      WalkSkipsAbsent(cfg, from, fromFields, i + 1, base, toMap);
    }
  }

  /** An inner loop none of whose remaining names the field map holds leaves the destination alone. */
  lemma {:induction false} NamesAllAbsent(cfg: Config, fromValue: Value, names: seq<string>, j: nat,
                                          base: Value, toMap: map<string, Field>)
    requires base.StructVal? && j <= |names|
    requires forall m :: j <= m < |names| ==> names[m] !in toMap
    ensures WalkNames(cfg, fromValue, names, j, base, toMap) == Ret(base, None)
    decreases |names| - j
  {
    if j < |names| {
      NamesAllAbsent(cfg, fromValue, names, j + 1, base, toMap);
    }
  }

  /** A target with no "." on either side of the pair is skipped by the dotted-path pass. */
  lemma UndottedSkipped(cfg: Config, from: Value, origin: string, targets: seq<string>, t: nat, base: Value)
    requires from.StructVal? && base.StructVal? && t < |targets|
    requires '.' !in origin && '.' !in targets[t]
    ensures MultiTargets(cfg, from, origin, targets, t, base) == MultiTargets(cfg, from, origin, targets, t + 1, base)
  {
  }

  /**
    One dotted pair: the value at the origin's path is copied onto the value
    at the target's path, and the result is written back along the target's
    path; an error ends the pass with that write, a panic ends it too, and
    otherwise the pass goes on.  Off nil pointers, the target's path then
    reads back exactly the copied value.
  */
  lemma DottedStep(cfg: Config, from: Value, origin: string, targets: seq<string>, t: nat, base: Value)
    requires from.StructVal? && base.StructVal? && t < |targets|
    requires '.' in origin || '.' in targets[t]
    requires ValueByPath(origin, Valid(from)).Found? && ValueByPath(origin, Valid(from)).rv.Valid?
    requires ValueByPath(targets[t], Valid(base)).Found? && ValueByPath(targets[t], Valid(base)).rv.Valid?
    ensures ValueByPath(targets[t], Valid(base)) == PathFold(Split(targets[t]), Valid(base))
    ensures var c := CopyValue(cfg, ValueByPath(origin, Valid(from)).rv.v, ValueByPath(targets[t], Valid(base)).rv.v);
      var r := MultiTargets(cfg, from, origin, targets, t, base);
      && (c.Panic? ==> r.Panic?)
      && (c.Ret? ==>
            var base' := WriteByPath(Split(targets[t]), base, c.val);
            && (c.err.Some? ==> r == Ret(base', c.err))
            && (c.err.None? ==> r == MultiTargets(cfg, from, origin, targets, t + 1, base'))
            && (!ThroughNil(Split(targets[t]), base) ==> ValueByPath(targets[t], Valid(base')) == Found(Valid(c.val))))
  {
    ValueByPathIsFold(targets[t], Valid(base));
    var c := CopyValue(cfg, ValueByPath(origin, Valid(from)).rv.v, ValueByPath(targets[t], Valid(base)).rv.v);
    if c.Ret? {
      var base' := WriteByPath(Split(targets[t]), base, c.val);
      ValueByPathIsFold(targets[t], Valid(base'));
      if !ThroughNil(Split(targets[t]), base) {
        WriteThenRead(Split(targets[t]), base, c.val);
      }
    }
  }

  /** Neither `origin` nor any of its targets from the `t`-th on contains a ".". */
  predicate UndottedFrom(origin: string, targets: seq<string>, t: nat)
  {
    && (t < |targets| ==> '.' !in origin)
    && (forall m :: t <= m < |targets| ==> '.' !in targets[m])
  }

  /** Neither a registered origin that has targets nor any of its targets contains a ".". */
  predicate NoDottedPair(cfg: Config)
  {
    forall k :: 0 <= k < |cfg.pairOrder| ==> UndottedFrom(cfg.pairOrder[k], PairTargets(cfg, k), 0)
  }

  /** The dotted-path pass only acts on pairs with a "." on either side: without any, it changes nothing. */
  lemma {:induction false} NoDotsNoMultiLevel(cfg: Config, from: Value, k: nat, base: Value)
    requires from.StructVal? && base.StructVal? && k <= |cfg.pairOrder|
    requires NoDottedPair(cfg)
    ensures MultiPairs(cfg, from, k, base) == Ret(base, None)
    decreases |cfg.pairOrder| - k
  {
    if k < |cfg.pairOrder| {
      TargetsAllUndotted(cfg, from, cfg.pairOrder[k], PairTargets(cfg, k), 0, base);
      NoDotsNoMultiLevel(cfg, from, k + 1, base);
    }
  }

  /** An inner loop of the pass over targets of which none, nor the origin, has a "." leaves the destination alone. */
  lemma {:induction false} TargetsAllUndotted(cfg: Config, from: Value, origin: string, targets: seq<string>, t: nat, base: Value)
    requires from.StructVal? && base.StructVal? && t <= |targets|
    requires UndottedFrom(origin, targets, t)
    ensures MultiTargets(cfg, from, origin, targets, t, base) == Ret(base, None)
    decreases |targets| - t
  {
    if t < |targets| {
      assert '.' !in origin && '.' !in targets[t];
      TargetsAllUndotted(cfg, from, origin, targets, t + 1, base);
    }
  }

  /**
    Identity copy of one field: with no transformer under the destination
    name, no converter from the field's type to itself and Go's own
    conversion rules, a non-pointer value copied onto a field of its own
    type arrives unchanged and without error.
  */
  lemma IdentityField(cfg: Config, v: Value, n: string, w: Value)
    requires Reflexive(cfg.native) && n !in cfg.transformers
    requires !IsPointer(v) && TypeOf(v) == TypeOf(w)
    requires GetConverter(cfg.converters, TypeOf(v), TypeOf(v)).None?
    ensures CopyField(cfg, v, n, w) == Ret(v, None)
  {
    assert !IsPointer(w);
    assert RealValue(v) == Valid(v);
    assert RealDest(w) == Existing(w);
    assert cfg.native.convertible(TypeOf(v), TypeOf(v));
    assert cfg.native.convert(v, TypeOf(v)) == v;
    NativeSecond(cfg, v, Existing(w));
    assert TargetValue(cfg, v, Existing(w)) == Ret(Produced(v, Existing(w)), None);
    assert CopyValue(cfg, v, w) == Ret(v, None);
  }

  /** Some source field from the `i`-th on is named `n`. */
  predicate Listed(fromFields: seq<Field>, i: nat, n: string)
    decreases |fromFields| - i
  {
    i < |fromFields| && (fromFields[i].name == n || Listed(fromFields, i + 1, n))
  }

  /**
    The destination holds every field the map names, and each source field
    from the `i`-th on that the map names holds a non-pointer value of the
    destination field's type.
  */
  predicate Matched(from: Value, fromFields: seq<Field>, i: nat, base: Value, toMap: map<string, Field>)
    requires from.StructVal? && base.StructVal?
  {
    && (forall n :: n in toMap ==> FieldByName(base, n).Valid?)
    && (forall k :: i <= k < |fromFields| && fromFields[k].name in toMap ==>
          var fv := FieldByName(from, fromFields[k].name);
          fv.Valid? && !IsPointer(fv.v) && TypeOf(fv.v) == TypeOf(FieldByName(base, fromFields[k].name).v))
  }

  /**
    Identity copy of a struct: with no rename rules, no transformer under a
    destination name, no converter from a type to itself and Go's own
    conversion rules, the walk ends without error; each destination field
    that a source field of the same name and type matches then holds that
    source field's value, and every other field is as it was.
  */
  lemma {:induction false} IdentityWalk(cfg: Config, from: Value, fromFields: seq<Field>, i: nat,
                                        base: Value, toMap: map<string, Field>)
    requires from.StructVal? && Plain(base) && KeyedByName(toMap) && i <= |fromFields|
    requires cfg.diffPairs == map[] && Reflexive(cfg.native) && NoSelfConverter(cfg.converters)
    requires forall n :: n in toMap ==> n !in cfg.transformers
    requires Matched(from, fromFields, i, base, toMap)
    ensures var r := WalkFields(cfg, from, fromFields, i, base, toMap);
      && r.Ret? && r.err.None?
      && (forall n :: n in toMap && Listed(fromFields, i, n) ==> FieldByName(r.val, n) == FieldByName(from, n))
      && (forall n :: !(n in toMap && Listed(fromFields, i, n)) ==> FieldByName(r.val, n) == FieldByName(base, n))
    decreases |fromFields| - i
  {
    if i < |fromFields| {
      var name := fromFields[i].name;
      var fv := FieldByName(from, name);
      WalkFieldsStep(cfg, from, fromFields, i, base, toMap);
      assert TargetFieldNames(cfg.diffPairs, name) == [name];
      if name !in toMap {
        if fv.Valid? {
          AbsentNameSkipped(cfg, fv.v, [name], 0, base, toMap);
        }
        IdentityWalk(cfg, from, fromFields, i + 1, base, toMap);
      } else {
        assert toMap[name].name == name;
        var w := FieldByName(base, name);
        IdentityField(cfg, fv.v, name, w.v);
        PresentNameStep(cfg, fv.v, [name], 0, base, toMap);
        var base' := SetFieldByName(base, name, fv.v);
        assert WalkNames(cfg, fv.v, [name], 0, base, toMap) == Ret(base', None);
        forall n | true
          ensures Plain(base')
          ensures n != name ==> FieldByName(base', n) == FieldByName(base, n)
        {
          SetOtherField(base, name, fv.v, n);
        }
        assert Matched(from, fromFields, i + 1, base', toMap);
        IdentityWalk(cfg, from, fromFields, i + 1, base', toMap);
      }
    }
  }

  /**
    getStructTargetValue as an identity copy: in the same setting, copying a
    struct onto an existing destination without embedded fields succeeds and
    stores the walked destination; each destination field named like a
    source field holds that source field's value, and every other field is
    as it was.
  */
  lemma IdentityStruct(cfg: Config, from: Value, to: Value)
    requires from.StructVal? && Plain(to)
    requires cfg.diffPairs == map[] && Reflexive(cfg.native) && NoSelfConverter(cfg.converters)
    requires forall n :: n in FieldMap(AllFields(TypeOf(to))) ==> n !in cfg.transformers
    requires Matched(from, AllFields(TypeOf(from)), 0, to, FieldMap(AllFields(TypeOf(to))))
    ensures var r := StructTargetValue(cfg, from, Existing(to));
      var toMap := FieldMap(AllFields(TypeOf(to)));
      && r.Ret? && r.err.None? && r.val.dest == Existing(r.val.value)
      && (forall n :: n in toMap && Listed(AllFields(TypeOf(from)), 0, n) ==>
            FieldByName(r.val.value, n) == FieldByName(from, n))
      && (forall n :: !(n in toMap && Listed(AllFields(TypeOf(from)), 0, n)) ==>
            FieldByName(r.val.value, n) == FieldByName(to, n))
  {
    var toMap := FieldMap(AllFields(TypeOf(to)));
    IdentityWalk(cfg, from, AllFields(TypeOf(from)), 0, to, toMap);
    var w := WalkFields(cfg, from, AllFields(TypeOf(from)), 0, to, toMap);
    WalkThenPass(cfg, from, Existing(to));
    forall k | 0 <= k < |cfg.pairOrder|
      ensures UndottedFrom(cfg.pairOrder[k], PairTargets(cfg, k), 0)
    {
      assert PairTargets(cfg, k) == [];
    }
    NoDotsNoMultiLevel(cfg, from, 0, w.val);
  }
}
