/**
 * The string side of the field model (pkg/colgen/generator.go:550-620).
 * Walking a Go struct type is not modelled: a resolved type is given as the
 * fields that walk would list, each with its name, full type string,
 * exportedness and embedding depth.
 */
module FieldModel {
  import opened Wrappers
  import opened Strings
  import opened Seqs

  /** A field as listed by the struct walk, before its type is shortened. */
  datatype RawField = RawField(name: string, typ: string, exported: bool, level: int)

  /** entityField: the short type and the full type of a field. */
  datatype EntityField = EntityField(name: string, typ: string, fullType: string, exported: bool, level: int)

  /** What type resolution yields: the fields of a type, or nothing for an unresolved one. */
  type Resolved = Option<seq<RawField>>

  function FieldName(e: EntityField): string
  {
    e.name
  }

  function FieldType(e: EntityField): string
  {
    e.typ
  }

  /** One field after typeSliceFromType: the full type kept, the type shortened to its last path element. */
  function Shorten(f: RawField): EntityField
  {
    EntityField(f.name, PathBase(f.typ), f.typ, f.exported, f.level)
  }

  /** typeSliceFromType: nothing for an unresolved type, else every field shortened, in order. */
  function TypeSlice(t: Resolved): (es: seq<EntityField>)
    ensures t.None? ==> es == []
    ensures t.Some? ==> |es| == |t.value| && forall i :: 0 <= i < |es| ==>
      && es[i].name == t.value[i].name
      && es[i].fullType == t.value[i].typ
      && es[i].typ == PathBase(t.value[i].typ)
      && es[i].exported == t.value[i].exported
      && es[i].level == t.value[i].level
  {
    match t
    case None => []
    case Some(fs) => seq(|fs|, i requires 0 <= i < |fs| => Shorten(fs[i]))
  }

  /** typeSliceFromType, rewriting the listed fields in place. */
  method TypeSliceFromType(t: Resolved) returns (es: seq<EntityField>)
    ensures es == TypeSlice(t)
  {
    if t.None? {
      return [];
    }
    var fs := t.value;
    // the walk lists each field with its full type string in Type
    es := seq(|fs|, i requires 0 <= i < |fs| => EntityField(fs[i].name, fs[i].typ, "", fs[i].exported, fs[i].level));
    for i := 0 to |es|
      invariant |es| == |fs|
      invariant forall k :: 0 <= k < i ==> es[k] == Shorten(fs[k])
      invariant forall k :: i <= k < |es| ==> es[k] == EntityField(fs[k].name, fs[k].typ, "", fs[k].exported, fs[k].level)
    {
      var e := es[i];
      es := es[i := e.(fullType := e.typ)];
      es := es[i := es[i].(typ := PathBase(e.typ))];
    }
  }

  /**
   * A package-qualified type loses everything up to its last slash, so a
   * slice of a qualified element type loses its `[]` marker as well.
   */
  lemma QualifiedSliceLosesMarker(dir: string, name: string)
    requires name != [] && '/' !in name
    ensures Shorten(RawField("f", "[]" + dir + "/" + name, true, 0)).typ == name
  {
    assert "[]" + dir + "/" + name == ("[]" + dir) + "/" + name;
    PathBaseAfterLastSlash("[]" + dir, name);
  }

  /** A type without a slash, such as `[]int` or `string`, is kept as it is. */
  lemma UnqualifiedTypeKept(f: RawField)
    requires f.typ != [] && '/' !in f.typ
    ensures Shorten(f).typ == f.typ
  {
    PathBaseNoSlash(f.typ);
  }

  /** typeMapFromType: field name to short type, a later field overriding an earlier one of the same name. */
  function TypeMap(t: Resolved): map<string, string>
  {
    LastWins(TypeSlice(t), FieldName, FieldType)
  }

  /** typeMapFromType, one map store per field. */
  method TypeMapFromType(t: Resolved) returns (m: map<string, string>)
    ensures m == TypeMap(t)
  {
    var es := TypeSliceFromType(t);
    m := map[];
    for i := 0 to |es|
      invariant m == LastWins(es[..i], FieldName, FieldType)
    {
      assert es[..i + 1][..i] == es[..i];
      m := m[es[i].name := es[i].typ];
    }
    assert es[..|es|] == es;
  }

  /** No later field shares the name of field `i`. */
  predicate LastOfName(es: seq<EntityField>, i: int)
    requires 0 <= i < |es|
  {
    forall j :: i < j < |es| ==> es[j].name != es[i].name
  }

  /**
   * The field map has exactly the listed names as keys, and a name maps to the
   * short type of the last field carrying it.
   */
  lemma TypeMapMeaning(t: Resolved)
    ensures TypeMap(t).Keys == KeysOf(TypeSlice(t), FieldName)
    ensures forall i :: 0 <= i < |TypeSlice(t)| && LastOfName(TypeSlice(t), i) ==>
      TypeSlice(t)[i].name in TypeMap(t) && TypeMap(t)[TypeSlice(t)[i].name] == TypeSlice(t)[i].typ
  {
    var es := TypeSlice(t);
    LastWinsKeys(es, FieldName, FieldType);
    forall i | 0 <= i < |es| && LastOfName(es, i)
      ensures es[i].name in TypeMap(t) && TypeMap(t)[es[i].name] == es[i].typ
    {
      LastWinsValue(es, FieldName, FieldType, i);
    }
  }

  /** An unresolved type and a type without fields both give an empty field map. */
  lemma TypeMapEmpty(t: Resolved)
    ensures TypeMap(t) == map[] <==> t.None? || t.value == []
  {
    TypeMapMeaning(t);
    KeysOfEmpty(TypeSlice(t), FieldName);
  }
}
