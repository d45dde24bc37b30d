/**
  The field resolver's view of struct types: the flattened field list, in
  which every embedded (anonymous) field is replaced by its own fields, and
  the name-to-field map built from such a list.
*/
module Fields {
  import opened Reflect

  /** What one declared field contributes to the flattened list. */
  function Piece(f: Field): (r: seq<Field>)
    ensures forall g :: g in r ==> !g.anonymous
    decreases TSize(f.ty), 2
  {
    if f.anonymous then AllFields(f.ty) else [f]
  }

  /** The flattened list of the first `i` declared fields of a struct type. */
  function FlattenPrefix(st: Type, i: nat): (r: seq<Field>)
    requires st.StructT? && i <= |st.fields|
    ensures forall g :: g in r ==> !g.anonymous
    decreases TSize(st), 0, i
  {
    if i == 0 then []
    else
      FieldTypeSmaller(st, i - 1);
      FlattenPrefix(st, i - 1) + Piece(st.fields[i - 1])
  }

  /**
    getStructAllFields: the declared fields of the struct type `t` (or of
    the struct `t` points to) in declaration order, each embedded field
    expanded in place; any other type has no fields.
  */
  function AllFields(t: Type): (r: seq<Field>)
    ensures forall g :: g in r ==> !g.anonymous
    ensures !RealType(t).StructT? ==> r == []
    decreases TSize(t), 1
  {
    var rt := RealType(t);
    if rt.StructT? then FlattenPrefix(rt, |rt.fields|) else []
  }

  /** Only one level of pointer is dereferenced, and a non-struct type yields no fields. */
  lemma AllFieldsDerefOnce(t: Type)
    ensures AllFields(PtrT(t)) == (if t.StructT? then AllFields(t) else [])
    ensures AllFields(PtrT(PtrT(t))) == []
    ensures !t.StructT? && !t.PtrT? ==> AllFields(t) == []
  {
  }

  /** A struct without embedded fields flattens to its declared fields, unchanged and in order. */
  lemma {:induction false} FlattenPlain(st: Type, i: nat)
    requires st.StructT? && i <= |st.fields|
    requires forall j :: 0 <= j < |st.fields| ==> !st.fields[j].anonymous
    ensures FlattenPrefix(st, i) == st.fields[..i]
  {
    if i > 0 {
      FlattenPlain(st, i - 1);
      assert st.fields[..i] == st.fields[..i - 1] + [st.fields[i - 1]];
    }
  }

  lemma AllFieldsPlain(st: Type)
    requires st.StructT?
    requires forall j :: 0 <= j < |st.fields| ==> !st.fields[j].anonymous
    ensures AllFields(st) == st.fields
  {
    FlattenPlain(st, |st.fields|);
  }

  /**
    Flattening follows declaration order: the fields declared before and
    after one field flatten independently of it, and that field's own piece
    sits between them.
  */
  lemma {:induction false} FlattenSplit(n: string, pre: seq<Field>, f: Field, post: seq<Field>)
    ensures AllFields(StructT(n, pre + [f] + post))
         == AllFields(StructT(n, pre)) + Piece(f) + AllFields(StructT(n, post))
  {
    var st := StructT(n, pre + [f] + post);
    FlattenShift(st, StructT(n, pre), |pre|);
    FlattenAppend(st, |pre| + 1, StructT(n, post));
  }

  /** The first fields of a longer declaration flatten as they would on their own. */
  lemma {:induction false} FlattenShift(st: Type, sub: Type, i: nat)
    requires st.StructT? && sub.StructT?
    requires i <= |sub.fields| <= |st.fields| && sub.fields == st.fields[..|sub.fields|]
    ensures FlattenPrefix(st, i) == FlattenPrefix(sub, i)
  {
    if i > 0 {
      FlattenShift(st, sub, i - 1);
      assert st.fields[i - 1] == sub.fields[i - 1];
    }
  }

  /** The fields after position `k` flatten as the struct made of them alone. */
  lemma FlattenAppend(st: Type, k: nat, rest: Type)
    requires st.StructT? && rest.StructT? && k <= |st.fields|
    requires rest.fields == st.fields[k..]
    ensures FlattenPrefix(st, |st.fields|) == FlattenPrefix(st, k) + AllFields(rest)
  {
    FlattenTail(st, k, rest, |rest.fields|);
  }

  lemma {:induction false} FlattenTail(st: Type, k: nat, rest: Type, j: nat)
    requires st.StructT? && rest.StructT? && k <= |st.fields|
    requires rest.fields == st.fields[k..] && j <= |rest.fields|
    ensures FlattenPrefix(st, k + j) == FlattenPrefix(st, k) + FlattenPrefix(rest, j)
  {
    if j > 0 {
      FlattenTail(st, k, rest, j - 1);
      assert st.fields[k + j - 1] == rest.fields[j - 1];
    }
  }

  /** getStructAllFields as the source writes it: a loop that appends each field or its expansion. */
  method GetStructAllFields(t: Type) returns (fields: seq<Field>)
    ensures fields == AllFields(t)
    ensures forall f :: f in fields ==> !f.anonymous
    decreases TSize(t)
  {
    fields := [];
    var realType := RealType(t);
    if realType.StructT? {
      var i := 0;
      while i < |realType.fields|
        invariant 0 <= i <= |realType.fields|
        invariant fields == FlattenPrefix(realType, i)
      {
        var field := realType.fields[i];
        if field.anonymous {
          FieldTypeSmaller(realType, i);
          var inner := GetStructAllFields(field.ty);
          fields := fields + inner;
        } else {
          fields := fields + [field];
        }
        i := i + 1;
      }
    }
  }

  /** Every key of the map is the name of the field it maps to. */
  predicate KeyedByName(m: map<string, Field>)
  {
    forall n :: n in m ==> m[n].name == n
  }

  /** getFieldMap: each name maps to the last field of that name (later writes overwrite). */
  function FieldMap(fields: seq<Field>): (m: map<string, Field>)
    ensures KeyedByName(m)
    ensures forall i :: 0 <= i < |fields| ==> fields[i].name in m
  {
    if fields == [] then map[]
    else FieldMap(fields[..|fields| - 1])[fields[|fields| - 1].name := fields[|fields| - 1]]
  }

  /** The index of no later field with the same name: the one whose write survives. */
  ghost predicate LastOfName(fields: seq<Field>, i: int)
    requires 0 <= i < |fields|
  {
    forall j :: i < j < |fields| ==> fields[j].name != fields[i].name
  }

  /** The map's keys are exactly the names in the list, and each key maps to a field of that name. */
  lemma {:induction false} FieldMapKeys(fields: seq<Field>)
    ensures FieldMap(fields).Keys == set i | 0 <= i < |fields| :: fields[i].name
    ensures forall n :: n in FieldMap(fields) ==> FieldMap(fields)[n].name == n
  {
    if fields != [] {
      var init := fields[..|fields| - 1];
      var last := fields[|fields| - 1];
      FieldMapKeys(init);
      assert (set i | 0 <= i < |fields| :: fields[i].name)
          == (set i | 0 <= i < |init| :: init[i].name) + {last.name};
    }
  }

  /** Each name maps to the last field carrying it: later writes overwrite earlier ones. */
  lemma {:induction false} FieldMapLastWins(fields: seq<Field>)
    ensures forall i :: 0 <= i < |fields| && LastOfName(fields, i) ==> fields[i].name in FieldMap(fields) && FieldMap(fields)[fields[i].name] == fields[i]
  {
    if fields != [] {
      var init := fields[..|fields| - 1];
      FieldMapLastWins(init);
      forall i | 0 <= i < |fields| && LastOfName(fields, i)
        ensures fields[i].name in FieldMap(fields) && FieldMap(fields)[fields[i].name] == fields[i]
      {
        if i < |init| {
          assert LastOfName(init, i);
        }
      }
    }
  }

  /** The map never has more entries than the list has fields. */
  lemma {:induction false} FieldMapSize(fields: seq<Field>)
    ensures |FieldMap(fields)| <= |fields|
  {
    if fields != [] {
      var init := fields[..|fields| - 1];
      var last := fields[|fields| - 1];
      FieldMapSize(init);
      var m := FieldMap(init);
      assert m[last.name := last].Keys == m.Keys + {last.name};
      assert |m.Keys + {last.name}| <= |m.Keys| + 1;
    }
  }

  /** getFieldMap as the source writes it: one map assignment per field, in list order. */
  method GetFieldMap(fields: seq<Field>) returns (m: map<string, Field>)
    ensures m == FieldMap(fields)
    ensures m.Keys == set i | 0 <= i < |fields| :: fields[i].name
    ensures forall i :: 0 <= i < |fields| && LastOfName(fields, i) ==> m[fields[i].name] == fields[i]
  {
    m := map[];
    var k := 0;
    while k < |fields|
      invariant 0 <= k <= |fields|
      invariant m == FieldMap(fields[..k])
    {
      assert fields[..k + 1][..k] == fields[..k];
      m := m[fields[k].name := fields[k]];
      k := k + 1;
    }
    assert fields[..k] == fields;
    FieldMapKeys(fields);
    FieldMapLastWins(fields);
  }
}
