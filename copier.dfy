/**
  The Copier object: a registry of rename rules, transformers and
  converters that its Register methods update in place, a source set by
  From, and To, which copies that source into the value a pointer target
  points to.
*/
module Copying {
  import opened Wrappers
  import opened Reflect
  import opened Registry
  import opened Engine

  /** A variable of the caller's that a pointer passed to To points to. */
  class Cell {
    var value: Value

    constructor (v: Value)
      ensures value == v
    {
      value := v;
    }
  }

  /** The argument of To: a pointer to a variable, a nil pointer of some element type, or a non-pointer value. */
  datatype Target = PointerTo(cell: Cell) | NilPointer(elem: Type) | NotPointer(v: Value)

  /** How To ends: it returns an error (nil or not), or it panics. */
  datatype Outcome = Done(err: Option<Error>) | Panicked(msg: string)

  /** `order` lists the keys of `pairs`, once each. */
  ghost predicate OrderMatches(pairs: map<string, seq<string>>, order: seq<string>)
  {
    (forall o :: o in pairs <==> o in order) && Distinct(order)
  }

  /** Setting the targets of an origin keeps the order matching when a new origin joins its end. */
  lemma OrderStep(pairs: map<string, seq<string>>, order: seq<string>, origin: string, targets: seq<string>)
    requires OrderMatches(pairs, order)
    ensures OrderMatches(pairs[origin := targets], if origin in pairs then order else order + [origin])
  {
  }

  /** Registering one more pair of a batch sets that pair's targets on top of the earlier ones. */
  lemma PairsStep(base: map<string, seq<string>>, pairs: seq<DiffPair>, i: nat)
    requires i < |pairs|
    ensures base + PairsMap(pairs[..i + 1]) == (base + PairsMap(pairs[..i]))[pairs[i].origin := pairs[i].target]
  {
    assert pairs[..i + 1][..i] == pairs[..i];
  }

  /**
    Since RegisterConverter refuses a nil function, the converter a copy
    finds for a type pair can always be called, and since RegisterTransformer
    refuses a wrong signature, a transformer the struct walk finds takes one
    argument and returns one result.
  */
  lemma RegisteredConverterCallable(c: Copier, origin: Type, target: Type, field: string)
    requires c.Valid()
    ensures GetConverter(c.Snapshot().converters, origin, target).Some? ==>
              GetConverter(c.Snapshot().converters, origin, target).value.fn.Some?
    ensures field in c.Snapshot().transformers ==>
              c.Snapshot().transformers[field].Func? && c.Snapshot().transformers[field].numIn == 1
  {
  }

  class Copier {
    var converters: seq<Converter>
    var diffPairs: map<string, seq<string>>
    /** The origins of `diffPairs` in the order of their first registration. */
    var pairOrder: seq<string>
    var transformers: map<string, Callable>
    var ignoreTypeError: bool
    /** The source set by From; Invalid until then (a nil interface). */
    var from: RValue
    /** The native conversion rules the copies consult. */
    const native: Native

    /**
      What the registration methods guarantee: every converter has a
      function, every transformer takes one argument and returns one
      result, and `pairOrder` lists the keys of `diffPairs` once each.
    */
    ghost predicate Valid()
      reads this
    {
      && (forall i :: 0 <= i < |converters| ==> converters[i].fn.Some?)
      && (forall f :: f in transformers ==> WellFormedTransformer(transformers[f]))
      && OrderMatches(diffPairs, pairOrder)
    }

    /** The registry as the copy engine reads it. */
    function Snapshot(): (cfg: Config)
      reads this
      ensures cfg.converters == converters && cfg.diffPairs == diffPairs && cfg.transformers == transformers
      ensures cfg.ignoreTypeError == ignoreTypeError
    {
      Config(converters, diffPairs, pairOrder, transformers, ignoreTypeError, native)
    }

    /** New: an empty registry; type errors are ignored whatever the argument says. */
    constructor New(ignoreTypeError: bool, native: Native)
      ensures Valid()
      ensures this.ignoreTypeError
      ensures converters == [] && diffPairs == map[] && pairOrder == [] && transformers == map[]
      ensures from == Invalid && this.native == native
    {
      converters := [];
      diffPairs := map[];
      pairOrder := [];
      transformers := map[];
      this.ignoreTypeError := true;
      from := Invalid;
      this.native := native;
    }

    /**
      RegisterDiffPairs: each pair, in order, sets the targets of its
      origin, so a later pair for the same origin overwrites an earlier
      one; a new origin joins the end of the visiting order.
    */
    method RegisterDiffPairs(pairs: seq<DiffPair>)
      requires Valid()
      modifies this
      ensures Valid()
      ensures diffPairs == old(diffPairs) + PairsMap(pairs)
      ensures |old(pairOrder)| <= |pairOrder| && pairOrder[..|old(pairOrder)|] == old(pairOrder)
      ensures converters == old(converters) && transformers == old(transformers)
      ensures ignoreTypeError == old(ignoreTypeError) && from == old(from)
    {
      var rules, order := diffPairs, pairOrder;
      var i := 0;
      while i < |pairs|
        invariant 0 <= i <= |pairs|
        invariant OrderMatches(rules, order)
        invariant rules == diffPairs + PairsMap(pairs[..i])
        invariant |pairOrder| <= |order| && order[..|pairOrder|] == pairOrder
        modifies {}
      {
        var pair := pairs[i];
        OrderStep(rules, order, pair.origin, pair.target);
        PairsStep(diffPairs, pairs, i);
        if pair.origin !in rules {
          order := order + [pair.origin];
        }
        rules := rules[pair.origin := pair.target];
        i := i + 1;
      }
      assert pairs[..i] == pairs;
      diffPairs, pairOrder := rules, order;
    }

    /**
      RegisterTransformer: panics on nil, on a non-function, and on a
      function that does not take exactly one argument or does not return
      exactly one result; otherwise sets the transformer of destination
      field `field`.
    */
    method RegisterTransformer(field: string, transformer: Callable) returns (panic: Option<string>)
      requires Valid()
      modifies this
      ensures Valid()
      ensures panic.None? <==> WellFormedTransformer(transformer)
      ensures transformer.NilCallable? ==> panic == Some("transformer cannot be nil")
      ensures transformer.NotFunc? ==> panic == Some("transformer must be a function")
      ensures transformer.Func? && transformer.numIn != 1 ==> panic == Some("transformer must has 1 arg")
      ensures transformer.Func? && transformer.numIn == 1 && transformer.numOut != 1 ==>
                panic == Some("transformer must has 1 return value")
      ensures panic.None? ==> transformers == old(transformers)[field := transformer]
      ensures panic.Some? ==> transformers == old(transformers)
      ensures converters == old(converters) && diffPairs == old(diffPairs) && pairOrder == old(pairOrder)
      ensures ignoreTypeError == old(ignoreTypeError) && from == old(from)
    {
      match transformer
      case NilCallable =>
        return Some("transformer cannot be nil");
      case NotFunc =>
        return Some("transformer must be a function");
      case Func(numIn, numOut, _) =>
        if numIn != 1 {
          return Some("transformer must has 1 arg");
        }
        if numOut != 1 {
          return Some("transformer must has 1 return value");
        }
        transformers := transformers[field := transformer];
        panic := None;
    }

    /**
      RegisterConverter: panics on a nil function; otherwise appends, so a
      converter registered earlier for the same pair keeps precedence.
    */
    method RegisterConverter(converter: Converter) returns (panic: Option<string>)
      requires Valid()
      modifies this
      ensures Valid()
      ensures panic.Some? <==> converter.fn.None?
      ensures panic.None? ==> converters == old(converters) + [converter]
      ensures panic.Some? ==> converters == old(converters)
      ensures transformers == old(transformers) && diffPairs == old(diffPairs) && pairOrder == old(pairOrder)
      ensures ignoreTypeError == old(ignoreTypeError) && from == old(from)
    {
      if converter.fn.None? {
        return Some("converter func cannot be nil");
      }
      converters := converters + [converter];
      panic := None;
    }

    /** From: records the source of the next copy. */
    method From(source: RValue)
      requires Valid()
      modifies this
      ensures Valid()
      ensures from == source
      ensures converters == old(converters) && transformers == old(transformers)
      ensures diffPairs == old(diffPairs) && pairOrder == old(pairOrder)
      ensures ignoreTypeError == old(ignoreTypeError)
    {
      from := source;
    }

    /**
      To: a non-pointer target is an error before anything is copied; a nil
      pointer source returns nil; otherwise the source is copied into the
      target through copyValue, and what copyValue wrote is left in the
      variable the target points to.
    */
    method To(target: Target) returns (o: Outcome)
      requires Valid()
      modifies if target.PointerTo? then {target.cell} else {}
      ensures Valid()
      ensures target.NotPointer? ==> o == Done(Some(NotPointerTarget))
      ensures !target.NotPointer? && from.Valid? && from.v.Nil? ==> o == Done(None)
      ensures !target.NotPointer? && from.Invalid? ==> o.Panicked?
      ensures target.NilPointer? && from.Valid? && !from.v.Nil? ==>
        var run := CopyValue(Snapshot(), from.v, Nil(target.elem));
        o == (if run.Panic? then Panicked(run.msg) else Done(run.err))
      ensures target.PointerTo? && from.Valid? && !from.v.Nil? ==>
        var run := CopyValue(Snapshot(), from.v, Ref(old(target.cell.value)));
        && o == (if run.Panic? then Panicked(run.msg) else Done(run.err))
        && (run.Ret? ==> target.cell.value == run.val.pointee)
        && (run.Panic? ==> target.cell.value == old(target.cell.value))
      ensures target.PointerTo? && !(from.Valid? && !from.v.Nil?) ==> unchanged(target.cell)
      ensures o.Done? && o.err.Some? ==> o.err.value.NotPointerTarget? || Allowed(Snapshot(), o.err)
    {
      if target.NotPointer? {
        return Done(Some(NotPointerTarget));
      }
      if from.Invalid? {
        return Panicked("call of reflect.Value.Type on zero Value");
      }
      if from.v.Nil? {
        return Done(None);
      }
      var to := if target.PointerTo? then Ref(target.cell.value) else Nil(target.elem);
      var run := CopyValue(Snapshot(), from.v, to);
      match run
      case Panic(m) =>
        o := Panicked(m);
      case Ret(v, err) =>
        if target.PointerTo? {
          target.cell.value := v.pointee;
        }
        o := Done(err);
    }
  }
}
