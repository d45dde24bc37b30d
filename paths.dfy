/**
  Dotted field paths ("A.B.C"): splitting on ".", joining back, and the
  resolution of a path against a value one field access at a time.
*/
module Paths {
  import opened Reflect

  /** The outcome of a path resolution: a (possibly invalid) value, or a panic. */
  datatype Lookup = Found(rv: RValue) | Fatal(msg: string)

  /** The index of the first '.' in `p`, or |p| when there is none. */
  function IndexOfDot(p: string): (k: nat)
    ensures k <= |p|
    ensures k < |p| ==> p[k] == '.'
    ensures forall j :: 0 <= j < k ==> p[j] != '.'
  {
    if p == [] then 0
    else if p[0] == '.' then 0
    else 1 + IndexOfDot(p[1..])
  }

  /** strings.Split(p, "."): the pieces between the dots; always at least one. */
  function Split(p: string): (r: seq<string>)
    ensures |r| >= 1
    ensures forall i :: 0 <= i < |r| ==> '.' !in r[i]
    decreases |p|
  {
    var k := IndexOfDot(p);
    if k == |p| then [p] else [p[..k]] + Split(p[k + 1..])
  }

  /** strings.Join(segs, "."): two or more pieces are separated by a "." after the first. */
  function Join(segs: seq<string>): (r: string)
    ensures |segs| == 1 ==> r == segs[0]
    ensures |segs| >= 2 ==> |segs[0]| < |r| && r[|segs[0]|] == '.'
  {
    if segs == [] then ""
    else if |segs| == 1 then segs[0]
    else segs[0] + "." + Join(segs[1..])
  }

  /** Joining the pieces of a split gives back the original path. */
  lemma {:induction false} JoinSplit(p: string)
    ensures Join(Split(p)) == p
    decreases |p|
  {
    var k := IndexOfDot(p);
    if k < |p| {
      var segs := Split(p);
      assert segs == [p[..k]] + Split(p[k + 1..]);
      assert segs[1..] == Split(p[k + 1..]);
      JoinSplit(p[k + 1..]);
      assert Join(segs) == p[..k] + "." + p[k + 1..];
      assert p == p[..k] + "." + p[k + 1..];
    }
  }

  /** Splitting a join of dot-free pieces gives back the pieces. */
  lemma {:induction false} SplitJoin(segs: seq<string>)
    requires |segs| >= 1
    requires forall i :: 0 <= i < |segs| ==> '.' !in segs[i]
    ensures Split(Join(segs)) == segs
  {
    if |segs| > 1 {
      var p := Join(segs);
      var rest := Join(segs[1..]);
      assert p == segs[0] + "." + rest;
      FirstDot(segs[0], rest);
      assert p[..|segs[0]|] == segs[0];
      assert p[|segs[0]| + 1..] == rest;
      SplitJoin(segs[1..]);
    } else {
      NoDotIndex(segs[0]);
    }
  }

  /** In a dot-free piece followed by a "." and the rest, the first dot is the one after the piece. */
  lemma FirstDot(a: string, b: string)
    requires '.' !in a
    ensures IndexOfDot(a + "." + b) == |a|
  {
    var p := a + "." + b;
    assert p[|a|] == '.';
    forall j | 0 <= j < |a| ensures p[j] != '.' {
      assert p[j] == a[j];
    }
    IndexOfDotIs(p, |a|);
  }

  lemma {:induction false} NoDotIndex(p: string)
    requires '.' !in p
    ensures IndexOfDot(p) == |p|
  {
    if p != [] {
      assert p[0] in p;
      assert forall c :: c in p[1..] ==> c in p;
      NoDotIndex(p[1..]);
    }
  }

  lemma DotIndex(p: string)
    requires '.' in p
    ensures IndexOfDot(p) < |p|
  {
    assert forall j :: 0 <= j < |p| && p[j] == '.' ==> IndexOfDot(p) <= j;
  }

  lemma IndexOfDotIs(p: string, k: nat)
    requires k < |p| && p[k] == '.'
    requires forall j :: 0 <= j < k ==> p[j] != '.'
    ensures IndexOfDot(p) == k
  {
  }

  /**
    One field access of a path: through a non-nil pointer to a struct or on
    a struct, FieldByName; a nil pointer yields the zero value of its own
    (pointer) type; anything else panics.
  */
  function Step(seg: string, rv: RValue): (r: Lookup)
    ensures rv.Invalid? ==> r.Fatal?
    ensures rv.Valid? && rv.v.Nil? ==> r == Found(rv)
    ensures rv.Valid? && (rv.v.Prim? || rv.v.SliceVal?) ==> r.Fatal?
    ensures rv.Valid? && rv.v.StructVal? ==> r == Found(FieldByName(rv.v, seg))
    ensures rv.Valid? && rv.v.Ref? && rv.v.pointee.StructVal? ==> r == Found(FieldByName(rv.v.pointee, seg))
  {
    match rv
    case Invalid => Fatal("cannot get value by fields for an invalid value")
    case Valid(v) =>
      match v
      case Ref(p) =>
        if p.StructVal? then Found(FieldByName(p, seg))
        else Fatal("FieldByName on a non-struct value")
      case Nil(_) => Found(Valid(Zero(TypeOf(v))))
      case StructVal(_, _) => Found(FieldByName(v, seg))
      case _ => Fatal("cannot get value by fields for: " + Name(TypeOf(v)))
  }

  /** The fold of single field accesses over a list of segments. */
  function PathFold(segs: seq<string>, rv: RValue): Lookup
  {
    if segs == [] then Found(rv)
    else
      match Step(segs[0], rv)
      case Fatal(m) => Fatal(m)
      case Found(x) => PathFold(segs[1..], x)
  }

  /**
    getValueByFieldPath as the source writes it: a path with a dot is split,
    its first piece resolved, and the rest (joined back) resolved against
    that result; a path without a dot is a single field access.
  */
  function ValueByPath(p: string, rv: RValue): (r: Lookup)
    ensures rv.Invalid? ==> r.Fatal?
    ensures '.' !in p ==> r == Step(p, rv)
    decreases |p|
  {
    if '.' in p then
      var paths := Split(p);
      var first := paths[0];
      var others := Join(paths[1..]);
      var k := IndexOfDot(p);
      assert k < |p| && paths[1..] == Split(p[k + 1..]);
      JoinSplit(p[k + 1..]);
      match ValueByPath(first, rv)
      case Fatal(m) => Fatal(m)
      case Found(x) => ValueByPath(others, x)
    else
      Step(p, rv)
  }

  /** Path resolution is the fold of one field access per "."-separated segment. */
  lemma {:induction false} ValueByPathIsFold(p: string, rv: RValue)
    ensures ValueByPath(p, rv) == PathFold(Split(p), rv)
    decreases |p|
  {
    var k := IndexOfDot(p);
    if '.' in p {
      DotIndex(p);
      var paths := Split(p);
      assert paths == [p[..k]] + Split(p[k + 1..]);
      JoinSplit(p[k + 1..]);
      assert '.' !in p[..k];
      ValueByPathIsFold(p[..k], rv);
      NoDotIndex(p[..k]);
      match Step(p[..k], rv)
      case Fatal(m) =>
      case Found(x) =>
        ValueByPathIsFold(p[k + 1..], x);
    } else {
      NoDotIndex(p);
    }
  }

  /** A single access never reaches a value of a larger type; from a struct, a strictly smaller one. */
  lemma StepSmaller(seg: string, v: Value)
    requires Step(seg, Valid(v)).Found? && Step(seg, Valid(v)).rv.Valid?
    ensures TSize(TypeOf(Step(seg, Valid(v)).rv.v)) <= TSize(TypeOf(v))
    ensures v.StructVal? || v.Ref? ==> TSize(TypeOf(Step(seg, Valid(v)).rv.v)) < TSize(TypeOf(v))
  {
  }

  /** A path of at least one segment resolved against a struct lands on a value of a smaller type. */
  lemma {:induction false} PathFoldSmaller(segs: seq<string>, v: Value)
    requires PathFold(segs, Valid(v)).Found? && PathFold(segs, Valid(v)).rv.Valid?
    ensures TSize(TypeOf(PathFold(segs, Valid(v)).rv.v)) <= TSize(TypeOf(v))
    ensures segs != [] && v.StructVal? ==> TSize(TypeOf(PathFold(segs, Valid(v)).rv.v)) < TSize(TypeOf(v))
  {
    if segs != [] {
      var x := Step(segs[0], Valid(v));
      assert x.Found?;
      if x.rv.Valid? {
        StepSmaller(segs[0], v);
        PathFoldSmaller(segs[1..], x.rv.v);
      } else {
        InvalidStaysFatal(segs[1..]);
      }
    }
  }

  /** Once a path has reached the invalid Value, any further segment panics. */
  lemma {:induction false} InvalidStaysFatal(segs: seq<string>)
    ensures segs == [] ==> PathFold(segs, Invalid) == Found(Invalid)
    ensures segs != [] ==> PathFold(segs, Invalid).Fatal?
  {
  }

  /** The resolution of a path against a value, given that it neither panics nor reaches the invalid Value. */
  ghost predicate Resolves(segs: seq<string>, v: Value)
  {
    PathFold(segs, Valid(v)).Found? && PathFold(segs, Valid(v)).rv.Valid?
  }

  /** True when the resolution of the path passes through a nil pointer before its last segment. */
  predicate ThroughNil(segs: seq<string>, v: Value)
  {
    segs != [] && (v.Nil? ||
      match Step(segs[0], Valid(v))
      case Found(Valid(x)) => ThroughNil(segs[1..], x)
      case _ => false)
  }

  /**
    The in-place write to the location a path resolves to: the field found
    at each step is replaced, and a pointer on the way is written through.
    A nil pointer on the way resolved to a fresh zero value that is stored
    nowhere, so the write leaves the value as it was.
  */
  function WriteByPath(segs: seq<string>, v: Value, nv: Value): (r: Value)
    requires Resolves(segs, v)
    requires TypeOf(nv) == TypeOf(PathFold(segs, Valid(v)).rv.v)
    ensures TypeOf(r) == TypeOf(v)
    ensures ThroughNil(segs, v) ==> r == v
    decreases segs
  {
    if segs == [] then nv
    else
      InvalidStaysFatal(segs[1..]);
      match v
      case Nil(_) => v
      case Ref(p) =>
        var inner := FieldByName(p, segs[0]).v;
        var inner' := WriteByPath(segs[1..], inner, nv);
        SetFieldToItself(p, segs[0]);
        Ref(SetFieldByName(p, segs[0], inner'))
      case StructVal(_, _) =>
        var inner := FieldByName(v, segs[0]).v;
        var inner' := WriteByPath(segs[1..], inner, nv);
        SetFieldToItself(v, segs[0]);
        SetFieldByName(v, segs[0], inner')
      case _ => assert false; v
  }

  /** Off nil pointers, a path reads back exactly the value just written through it. */
  lemma {:induction false} WriteThenRead(segs: seq<string>, v: Value, nv: Value)
    requires Resolves(segs, v)
    requires TypeOf(nv) == TypeOf(PathFold(segs, Valid(v)).rv.v)
    requires !ThroughNil(segs, v)
    ensures PathFold(segs, Valid(WriteByPath(segs, v, nv))) == Found(Valid(nv))
    decreases segs
  {
    if segs != [] {
      var inner := if v.Ref? then FieldByName(v.pointee, segs[0]).v else FieldByName(v, segs[0]).v;
      WriteThenRead(segs[1..], inner, nv);
    }
  }
}
