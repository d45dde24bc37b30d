/**
  A closed model of the part of Go's reflection that the copier inspects:
  the kind of a type (primitive, pointer, struct, slice), the declared
  fields of a struct type, and the values of each kind.  A struct value
  carries its fields' names and values, so its type is derived from it.
*/
module Reflect {

  /** A Go type, as far as the copier distinguishes types. */
  datatype Type =
    | PrimT(name: string)
    | PtrT(elem: Type)
    | StructT(name: string, fields: seq<Field>)
    | SliceT(elem: Type)

  /** A declared struct field; `anonymous` marks an embedded field. */
  datatype Field = Field(name: string, ty: Type, anonymous: bool)

  /** A Go value.  The datum of a primitive is left abstract. */
  datatype Value =
    | Prim(tname: string, datum: int)
    | Nil(elemType: Type)
    | Ref(pointee: Value)
    | StructVal(sname: string, fields: seq<FieldValue>)
    | SliceVal(elemType: Type, elems: seq<Value>)

  datatype FieldValue = FieldValue(name: string, anonymous: bool, val: Value)

  /** A reflect.Value: either the invalid zero Value or a real value. */
  datatype RValue = Invalid | Valid(v: Value)

  function TypeOf(v: Value): Type
  {
    match v
    case Prim(n, _) => PrimT(n)
    case Nil(e) => PtrT(e)
    case Ref(p) => PtrT(TypeOf(p))
    case StructVal(n, fs) =>
      StructT(n, seq(|fs|, i requires 0 <= i < |fs| => Field(fs[i].name, TypeOf(fs[i].val), fs[i].anonymous)))
    case SliceVal(e, _) => SliceT(e)
  }

  /** The zero value of a type (reflect.Zero). */
  function Zero(t: Type): (z: Value)
    ensures TypeOf(z) == t
  {
    match t
    case PrimT(n) => Prim(n, 0)
    case PtrT(e) => Nil(e)
    case StructT(n, fs) =>
      var z := StructVal(n, seq(|fs|, i requires 0 <= i < |fs| => FieldValue(fs[i].name, fs[i].anonymous, Zero(fs[i].ty))));
      assert TypeOf(z).fields == fs;
      z
    case SliceT(e) => SliceVal(e, [])
  }

  /** Go's Type.Name(): the declared name of a named type, "" for pointer and slice types. */
  function Name(t: Type): string
  {
    match t
    case PrimT(n) => n
    case StructT(n, _) => n
    case _ => ""
  }

  /** A size on types that every field, element and pointee type is below. */
  function TSize(t: Type): nat
    decreases t, 1
  {
    match t
    case PrimT(_) => 1
    case PtrT(e) => 1 + TSize(e)
    case StructT(_, fs) => 1 + FieldsSize(t, 0)
    case SliceT(e) => 1 + TSize(e)
  }

  function FieldsSize(t: Type, i: nat): nat
    requires t.StructT? && i <= |t.fields|
    decreases t, 0, |t.fields| - i
  {
    if i == |t.fields| then 0 else TSize(t.fields[i].ty) + FieldsSize(t, i + 1)
  }

  lemma {:induction false} FieldsSizeCovers(t: Type, i: nat, k: nat)
    requires t.StructT? && i <= k < |t.fields|
    ensures TSize(t.fields[k].ty) <= FieldsSize(t, i)
    decreases k - i
  {
    if i < k {
      FieldsSizeCovers(t, i + 1, k);
    }
  }

  /** Every field type of a struct type is smaller than the struct type. */
  lemma FieldTypeSmaller(t: Type, k: nat)
    requires t.StructT? && k < |t.fields|
    ensures TSize(t.fields[k].ty) < TSize(t)
  {
    FieldsSizeCovers(t, 0, k);
  }

  /** The value of a field of a struct value is smaller, by type, than the struct. */
  lemma FieldValueSmaller(v: Value, k: nat)
    requires v.StructVal? && k < |v.fields|
    ensures TSize(TypeOf(v.fields[k].val)) < TSize(TypeOf(v))
  {
    assert TypeOf(v).fields[k].ty == TypeOf(v.fields[k].val);
    FieldTypeSmaller(TypeOf(v), k);
  }

  /** The index of the first field named `name`, or the number of fields when there is none. */
  function DirectField(fs: seq<FieldValue>, name: string): (k: nat)
    ensures k <= |fs|
    ensures k < |fs| ==> fs[k].name == name
    ensures forall j :: 0 <= j < k ==> fs[j].name != name
  {
    if fs == [] then 0
    else if fs[0].name == name then 0
    else 1 + DirectField(fs[1..], name)
  }

  /**
    reflect.Value.FieldByName: a field declared directly under that name,
    else the first field of that name promoted from an embedded struct
    (followed through a non-nil pointer), searched in declaration order.
    An absent name yields the invalid Value.
  */
  function FieldByName(v: Value, name: string): (r: RValue)
    requires v.StructVal?
    ensures r.Valid? ==> TSize(TypeOf(r.v)) < TSize(TypeOf(v))
    decreases v, 1
  {
    var k := DirectField(v.fields, name);
    if k < |v.fields| then
      FieldValueSmaller(v, k);
      Valid(v.fields[k].val)
    else Promoted(v, name, 0)
  }

  /** The embedded struct that an anonymous field gives access to, if any. */
  function Embedded(f: FieldValue): (r: RValue)
    ensures r.Valid? ==> r.v.StructVal? && r.v < f && TSize(TypeOf(r.v)) <= TSize(TypeOf(f.val))
  {
    if !f.anonymous then Invalid
    else match f.val
      case StructVal(_, _) => Valid(f.val)
      case Ref(p) => if p.StructVal? then Valid(p) else Invalid
      case _ => Invalid
  }

  function Promoted(v: Value, name: string, i: nat): (r: RValue)
    requires v.StructVal? && i <= |v.fields|
    ensures r.Valid? ==> i < |v.fields| && TSize(TypeOf(r.v)) < TSize(TypeOf(v))
    decreases v, 0, |v.fields| - i
  {
    if i == |v.fields| then Invalid
    else
      var e := Embedded(v.fields[i]);
      var inner := if e.Valid? then FieldByName(e.v, name) else Invalid;
      if inner.Valid? then
        FieldValueSmaller(v, i);
        inner
      else Promoted(v, name, i + 1)
  }

  /** Replacing one field value by a value of the same type keeps the struct's type. */
  lemma ReplaceFieldKeepsType(v: Value, k: nat, f: FieldValue)
    requires v.StructVal? && k < |v.fields|
    requires f.name == v.fields[k].name && f.anonymous == v.fields[k].anonymous
    requires TypeOf(f.val) == TypeOf(v.fields[k].val)
    ensures TypeOf(StructVal(v.sname, v.fields[k := f])) == TypeOf(v)
  {
    var r := StructVal(v.sname, v.fields[k := f]);
    assert TypeOf(r).fields == TypeOf(v).fields;
  }

  /** Two structs of one type have their fields under the same names, in the same order. */
  lemma SameTypeSameNames(a: Value, b: Value, name: string)
    requires a.StructVal? && b.StructVal? && TypeOf(a) == TypeOf(b)
    ensures |a.fields| == |b.fields|
    ensures forall j :: 0 <= j < |a.fields| ==> a.fields[j].name == b.fields[j].name && a.fields[j].anonymous == b.fields[j].anonymous
    ensures DirectField(a.fields, name) == DirectField(b.fields, name)
  {
    assert |TypeOf(a).fields| == |a.fields|;
    forall j | 0 <= j < |a.fields|
      ensures a.fields[j].name == b.fields[j].name && a.fields[j].anonymous == b.fields[j].anonymous
    {
      assert TypeOf(a).fields[j] == TypeOf(b).fields[j];
    }
    DirectFieldByNames(a.fields, b.fields, name);
  }

  lemma {:induction false} DirectFieldByNames(a: seq<FieldValue>, b: seq<FieldValue>, name: string)
    requires |a| == |b|
    requires forall j :: 0 <= j < |a| ==> a[j].name == b[j].name
    ensures DirectField(a, name) == DirectField(b, name)
  {
    if a != [] && a[0].name != name {
      DirectFieldByNames(a[1..], b[1..], name);
    }
  }

  /**
    Setting the field that FieldByName finds (reflect's Set on the value
    FieldByName returned) to a value of the same type: the struct keeps its
    type and the field then reads back as the new value.
  */
  function SetFieldByName(v: Value, name: string, nv: Value): (r: Value)
    requires v.StructVal?
    requires FieldByName(v, name).Valid? && TypeOf(FieldByName(v, name).v) == TypeOf(nv)
    ensures r.StructVal? && TypeOf(r) == TypeOf(v)
    ensures FieldByName(r, name) == Valid(nv)
    decreases v, 1
  {
    var k := DirectField(v.fields, name);
    if k < |v.fields| then
      var r := StructVal(v.sname, v.fields[k := v.fields[k].(val := nv)]);
      ReplaceFieldKeepsType(v, k, v.fields[k].(val := nv));
      SameTypeSameNames(r, v, name);
      r
    else
      var r := SetPromoted(v, name, nv, 0);
      SameTypeSameNames(r, v, name);
      r
  }

  function SetPromoted(v: Value, name: string, nv: Value, i: nat): (r: Value)
    requires v.StructVal? && i < |v.fields|
    requires Promoted(v, name, i).Valid? && TypeOf(Promoted(v, name, i).v) == TypeOf(nv)
    ensures r.StructVal? && TypeOf(r) == TypeOf(v)
    ensures |r.fields| == |v.fields| && forall j :: 0 <= j < i ==> r.fields[j] == v.fields[j]
    ensures Promoted(r, name, i) == Valid(nv)
    decreases v, 0, |v.fields| - i
  {
    var f := v.fields[i];
    var e := Embedded(f);
    var inner := if e.Valid? then FieldByName(e.v, name) else Invalid;
    if inner.Valid? then
      var e' := SetFieldByName(e.v, name, nv);
      var f' := if f.val.Ref? then f.(val := Ref(e')) else f.(val := e');
      ReplaceFieldKeepsType(v, i, f');
      var r := StructVal(v.sname, v.fields[i := f']);
      assert Embedded(r.fields[i]) == Valid(e');
      r
    else
      var r := SetPromoted(v, name, nv, i + 1);
      assert r.fields[i] == f;
      r
  }

  /** getRealValue: a pointer is replaced by what it points to (the invalid Value for nil). */
  function RealValue(v: Value): (r: RValue)
    ensures v.Ref? ==> r == Valid(v.pointee)
    ensures v.Nil? ==> r == Invalid
    ensures !v.Ref? && !v.Nil? ==> r == Valid(v)
  {
    match v
    case Ref(p) => Valid(p)
    case Nil(_) => Invalid
    case _ => Valid(v)
  }

  /** getRealType: a pointer type is replaced by its element type, one level only. */
  function RealType(t: Type): (r: Type)
    ensures TSize(r) <= TSize(t)
    ensures t.PtrT? ==> r == t.elem
    ensures !t.PtrT? ==> r == t
  {
    if t.PtrT? then t.elem else t
  }

  /** getValuePtr: a pointer is kept as it is, any other value is boxed in a new pointer. */
  function ValuePtr(v: Value): (r: Value)
    ensures r.Ref? || r.Nil?
    ensures v.Ref? || v.Nil? ==> r == v
    ensures !v.Ref? && !v.Nil? ==> r == Ref(v) && TypeOf(r) == PtrT(TypeOf(v))
  {
    if v.Ref? || v.Nil? then v else Ref(v)
  }

  /** A struct value without embedded fields: FieldByName then finds direct fields only. */
  predicate Plain(v: Value)
  {
    v.StructVal? && forall k :: 0 <= k < |v.fields| ==> !v.fields[k].anonymous
  }

  /** In a struct without embedded fields no name is promoted. */
  lemma {:induction false} PlainNotPromoted(v: Value, name: string, i: nat)
    requires Plain(v) && i <= |v.fields|
    ensures Promoted(v, name, i) == Invalid
    decreases |v.fields| - i
  {
    if i < |v.fields| {
      PlainNotPromoted(v, name, i + 1);
    }
  }

  /**
    In a struct without embedded fields, writing one field leaves every
    field of another name as it was, and the struct still has no embedded
    field.
  */
  lemma SetOtherField(v: Value, a: string, x: Value, b: string)
    requires Plain(v) && FieldByName(v, a).Valid? && TypeOf(FieldByName(v, a).v) == TypeOf(x)
    ensures Plain(SetFieldByName(v, a, x))
    ensures a != b ==> FieldByName(SetFieldByName(v, a, x), b) == FieldByName(v, b)
  {
    PlainNotPromoted(v, a, 0);
    var k := DirectField(v.fields, a);
    var r := SetFieldByName(v, a, x);
    assert r == StructVal(v.sname, v.fields[k := v.fields[k].(val := x)]);
    assert Plain(r);
    if a != b {
      DirectFieldByNames(r.fields, v.fields, b);
      var kb := DirectField(v.fields, b);
      if kb == |v.fields| {
        PlainNotPromoted(v, b, 0);
        PlainNotPromoted(r, b, 0);
      }
    }
  }

  /** Writing back the value a field already holds changes nothing. */
  lemma {:induction false} SetFieldToItself(v: Value, name: string)
    requires v.StructVal? && FieldByName(v, name).Valid?
    ensures SetFieldByName(v, name, FieldByName(v, name).v) == v
    decreases v, 1
  {
    var k := DirectField(v.fields, name);
    if k < |v.fields| {
      assert v.fields[k := v.fields[k].(val := v.fields[k].val)] == v.fields;
    } else {
      SetPromotedToItself(v, name, 0);
    }
  }

  lemma {:induction false} SetPromotedToItself(v: Value, name: string, i: nat)
    requires v.StructVal? && i < |v.fields| && Promoted(v, name, i).Valid?
    ensures SetPromoted(v, name, Promoted(v, name, i).v, i) == v
    decreases v, 0, |v.fields| - i
  {
    var f := v.fields[i];
    var e := Embedded(f);
    var inner := if e.Valid? then FieldByName(e.v, name) else Invalid;
    if inner.Valid? {
      SetFieldToItself(e.v, name);
      var f' := if f.val.Ref? then f.(val := Ref(e.v)) else f.(val := e.v);
      assert f' == f;
      assert v.fields[i := f'] == v.fields;
    } else {
      SetPromotedToItself(v, name, i + 1);
    }
  }
}
