/**
  The configuration a copier holds: converters keyed by an (origin, target)
  type pair, rename rules ("diff pairs") from a source field name to the
  destination names it feeds, and transformers keyed by destination field
  name; plus the lookups the copy engine makes in it.
*/
module Registry {
  import opened Wrappers
  import opened Reflect

  /** What a converter function returns: a value and, on failure, an error message. */
  datatype Converted = Converted(value: Value, err: Option<string>)

  type ConverterFn = (Value, Type) -> Converted

  /** A converter for one (origin, target) type pair; `fn` is None for a nil function. */
  datatype Converter = Converter(origin: Type, target: Type, fn: Option<ConverterFn>)

  /** A rename rule: the source field `origin` feeds every destination name in `target`. */
  datatype DiffPair = DiffPair(origin: string, target: seq<string>)

  /**
    What may be registered as a transformer: nil, a value that is not a
    function, or a function with its numbers of parameters and results;
    `call` is None for a typed nil function, which has a signature but no body.
  */
  datatype Callable = NilCallable | NotFunc | Func(numIn: nat, numOut: nat, call: Option<Value -> Value>)

  /**
    Go's native conversion rules (Type.ConvertibleTo and Value.Convert),
    which the engine consults but does not define.
  */
  datatype Native = Native(convertible: (Type, Type) -> bool, convert: (Value, Type) -> Value)

  /**
    Two laws Go's rules obey: every type converts to itself, and converting
    a value to its own type gives the value back.
  */
  ghost predicate Reflexive(n: Native)
  {
    && (forall t :: n.convertible(t, t))
    && (forall x: Value :: n.convert(x, TypeOf(x)) == x)
  }

  /** Where the rules allow a conversion, Value.Convert(t) yields a value of type t. */
  ghost predicate ConvertsToTarget(n: Native)
  {
    forall x: Value, t: Type :: n.convertible(TypeOf(x), t) ==> TypeOf(n.convert(x, t)) == t
  }

  /** No registered converter maps a type to itself. */
  predicate NoSelfConverter(converters: seq<Converter>)
  {
    forall k :: 0 <= k < |converters| ==> converters[k].origin != converters[k].target
  }

  /**
    A snapshot of a copier's registry.  `pairOrder` lists the keys of
    `diffPairs` in the order the dotted-path pass visits them.
  */
  datatype Config = Config(
    converters: seq<Converter>,
    diffPairs: map<string, seq<string>>,
    pairOrder: seq<string>,
    transformers: map<string, Callable>,
    ignoreTypeError: bool,
    native: Native)

  predicate Matches(c: Converter, origin: Type, target: Type)
  {
    c.origin == origin && c.target == target
  }

  /** The position of the first converter registered for the pair, or the number of converters when there is none. */
  function FirstMatch(converters: seq<Converter>, origin: Type, target: Type): (k: nat)
    ensures k <= |converters|
    ensures k < |converters| ==> Matches(converters[k], origin, target)
    ensures forall j :: 0 <= j < k ==> !Matches(converters[j], origin, target)
  {
    if converters == [] then 0
    else if Matches(converters[0], origin, target) then 0
    else 1 + FirstMatch(converters[1..], origin, target)
  }

  /**
    getConverter: the earliest-registered converter whose origin and target
    both equal the queried pair, or None when no converter has that pair.
  */
  function GetConverter(converters: seq<Converter>, origin: Type, target: Type): (r: Option<Converter>)
    ensures r.None? <==> forall j :: 0 <= j < |converters| ==> !Matches(converters[j], origin, target)
    ensures r.Some? ==> exists k :: 0 <= k < |converters| && r.value == converters[k] &&
                          Matches(converters[k], origin, target) &&
                          forall j :: 0 <= j < k ==> !Matches(converters[j], origin, target)
  {
    var k := FirstMatch(converters, origin, target);
    if k < |converters| then Some(converters[k]) else None
  }

  /** Appending a converter never takes a pair away from a converter registered before it. */
  lemma {:induction false} AppendKeepsPrecedence(converters: seq<Converter>, c: Converter, origin: Type, target: Type)
    ensures GetConverter(converters + [c], origin, target)
         == if GetConverter(converters, origin, target).Some? then GetConverter(converters, origin, target)
            else if Matches(c, origin, target) then Some(c) else None
  {
    FirstMatchAppend(converters, c, origin, target);
  }

  lemma {:induction false} FirstMatchAppend(converters: seq<Converter>, c: Converter, origin: Type, target: Type)
    ensures FirstMatch(converters + [c], origin, target)
         == if FirstMatch(converters, origin, target) < |converters| then FirstMatch(converters, origin, target)
            else if Matches(c, origin, target) then |converters| else |converters| + 1
  {
    if converters != [] {
      assert (converters + [c])[1..] == converters[1..] + [c];
      FirstMatchAppend(converters[1..], c, origin, target);
    }
  }

  /**
    getTargetFieldNames: the registered rename targets of `origin` when
    there is at least one, otherwise `origin` itself.
  */
  function TargetFieldNames(diffPairs: map<string, seq<string>>, origin: string): (r: seq<string>)
    ensures |r| >= 1
    ensures origin in diffPairs && diffPairs[origin] != [] ==> r == diffPairs[origin]
    ensures origin !in diffPairs || diffPairs[origin] == [] ==> r == [origin]
  {
    if origin in diffPairs && |diffPairs[origin]| > 0 then diffPairs[origin] else [origin]
  }

  /** The rename rules of a batch, later pairs for the same origin overwriting earlier ones. */
  function PairsMap(pairs: seq<DiffPair>): (m: map<string, seq<string>>)
    ensures |pairs| > 0 ==> pairs[|pairs| - 1].origin in m && m[pairs[|pairs| - 1].origin] == pairs[|pairs| - 1].target
  {
    if pairs == [] then map[]
    else PairsMap(pairs[..|pairs| - 1])[pairs[|pairs| - 1].origin := pairs[|pairs| - 1].target]
  }

  /** A batch's map has exactly the batch's origins as keys, each with the targets of its last pair. */
  lemma {:induction false} PairsMapMeaning(pairs: seq<DiffPair>)
    ensures PairsMap(pairs).Keys == set i | 0 <= i < |pairs| :: pairs[i].origin
    ensures forall i :: 0 <= i < |pairs| && (forall j :: i < j < |pairs| ==> pairs[j].origin != pairs[i].origin)
              ==> PairsMap(pairs)[pairs[i].origin] == pairs[i].target
  {
    if pairs != [] {
      var init := pairs[..|pairs| - 1];
      PairsMapMeaning(init);
      assert (set i | 0 <= i < |pairs| :: pairs[i].origin)
          == (set i | 0 <= i < |init| :: init[i].origin) + {pairs[|pairs| - 1].origin};
      forall i | 0 <= i < |pairs| && (forall j :: i < j < |pairs| ==> pairs[j].origin != pairs[i].origin)
        ensures PairsMap(pairs)[pairs[i].origin] == pairs[i].target
      {
        if i < |init| {
          assert forall j :: i < j < |init| ==> init[j].origin != init[i].origin;
        }
      }
    }
  }

  /** No name occurs twice in the list. */
  predicate Distinct(s: seq<string>)
  {
    forall i, j :: 0 <= i < j < |s| ==> s[i] != s[j]
  }

  /** A transformer the registration accepts: a function of exactly one parameter and one result. */
  predicate WellFormedTransformer(t: Callable)
  {
    t.Func? && t.numIn == 1 && t.numOut == 1
  }
}
