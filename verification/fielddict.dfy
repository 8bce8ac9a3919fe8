/** The record-to-dict dump shared by both generations of the record types
    (`dump_without_null`): `dict(model)` lists the fields in declaration order,
    and every field whose value is `None` is deleted again. */
module FieldDict {

  /** The values the record fields hold. `Null` is Python's `None`; a `datetime`
      is kept abstract as its timestamp. */
  datatype Value = Null | Int(i: int) | Str(s: string) | Time(stamp: int)

  /** One `name: value` entry of `dict(model)`. */
  datatype Field = Field(name: string, value: Value)

  /** Names of the fields, in order. */
  function Names(fields: seq<Field>): (names: seq<string>)
    ensures |names| == |fields|
    ensures forall i :: 0 <= i < |fields| ==> names[i] == fields[i].name
  {
    if |fields| == 0 then [] else [fields[0].name] + Names(fields[1..])
  }

  /** Field names of a record are pairwise distinct. */
  predicate DistinctNames(fields: seq<Field>) {
    forall i, j :: 0 <= i < j < |fields| ==> fields[i].name != fields[j].name
  }

  /** The fields whose value is not `None`, in their order. */
  function NonNull(fields: seq<Field>): seq<Field> {
    if |fields| == 0 then []
    else if fields[|fields| - 1].value == Null then NonNull(fields[..|fields| - 1])
    else NonNull(fields[..|fields| - 1]) + [fields[|fields| - 1]]
  }

  /** One more field: kept or dropped on its own value. */
  lemma NonNullStep(fields: seq<Field>, i: nat)
    requires i < |fields|
    ensures NonNull(fields[..i + 1]) ==
      NonNull(fields[..i]) + (if fields[i].value == Null then [] else [fields[i]])
  {
    assert fields[..i + 1][..i] == fields[..i];
  }

  /** `del obj[name]` on a dict holding `name`: the entry goes, the others keep
      their order. */
  function Delete(obj: seq<Field>, name: string): (r: seq<Field>)
    ensures |r| <= |obj|
  {
    if |obj| == 0 then []
    else if obj[0].name == name then obj[1..]
    else [obj[0]] + Delete(obj[1..], name)
  }

  /** `obj[name]`, when the dict has that key. */
  predicate HasKey(obj: seq<Field>, name: string) {
    exists i :: 0 <= i < |obj| && obj[i].name == name
  }

  /** `dump_without_null(model)`, with the model given by its fields. */
  method DumpWithoutNull(fields: seq<Field>) returns (obj: seq<Field>)
    requires DistinctNames(fields)
    ensures obj == NonNull(fields)
  {
    obj := fields;
    var i := 0;
    while i < |fields|
      invariant 0 <= i <= |fields|
      invariant obj == NonNull(fields[..i]) + fields[i..]
    {
      var f := fields[i];
      DumpStep(fields, i);
      if f.value == Null {
        obj := Delete(obj, f.name);
      }
      i := i + 1;
    }
    assert fields[..|fields|] == fields;
  }

  /** One iteration of the dump loop: deleting a `None` field's name from the
      dict removes exactly that field, since no other field has its name. */
  lemma DumpStep(fields: seq<Field>, i: nat)
    requires DistinctNames(fields) && i < |fields|
    ensures var obj := NonNull(fields[..i]) + fields[i..];
      (if fields[i].value == Null then Delete(obj, fields[i].name) else obj)
        == NonNull(fields[..i + 1]) + fields[i + 1..]
  {
    var f := fields[i];
    NonNullStep(fields, i);
    if f.value == Null {
      NamesOfNonNull(fields[..i]);
      forall g | g in NonNull(fields[..i])
        ensures g.name != f.name
      {
        var k :| 0 <= k < i && fields[..i][k] == g;
        assert fields[k] == g;
      }
      DeleteAfter(NonNull(fields[..i]), fields[i..], f.name);
      assert fields[i..][1..] == fields[i + 1..];
    } else {
      assert fields[i..] == [f] + fields[i + 1..];
      AppendAssocFields(NonNull(fields[..i]), [f], fields[i + 1..]);
    }
  }

  lemma AppendAssocFields(x: seq<Field>, y: seq<Field>, z: seq<Field>)
    ensures x + (y + z) == (x + y) + z
  {
  }

  /** The kept fields come from `fields` and keep their names. */
  lemma {:induction false} NamesOfNonNull(fields: seq<Field>)
    ensures forall f :: f in NonNull(fields) ==> f in fields
  {
    if |fields| > 0 {
      var init := fields[..|fields| - 1];
      NamesOfNonNull(init);
      assert forall f :: f in init ==> f in fields;
    }
  }

  /** Deleting a name absent from `done` and heading `rest` removes that head. */
  lemma {:induction false} DeleteAfter(done: seq<Field>, rest: seq<Field>, name: string)
    requires |rest| > 0 && rest[0].name == name
    requires forall f :: f in done ==> f.name != name
    ensures Delete(done + rest, name) == done + rest[1..]
  {
    if |done| == 0 {
      assert done + rest == rest;
    } else {
      assert (done + rest)[0] == done[0] && (done + rest)[1..] == done[1..] + rest;
      DeleteAfter(done[1..], rest, name);
      assert done[1..] + rest[1..] == (done + rest[1..])[1..];
    }
  }

  /** No kept field is `None`. */
  lemma {:induction false} NonNullHasNoNull(fields: seq<Field>)
    ensures forall i :: 0 <= i < |NonNull(fields)| ==> NonNull(fields)[i].value != Null
  {
    if |fields| > 0 {
      NonNullHasNoNull(fields[..|fields| - 1]);
    }
  }

  /** A field is kept exactly when its value is not `None`, including falsy
      values such as `0` and `""`; its value is unchanged. */
  lemma {:induction false} NonNullKeeps(fields: seq<Field>, f: Field)
    ensures f in NonNull(fields) <==> (f in fields && f.value != Null)
  {
    if |fields| > 0 {
      var init, last := fields[..|fields| - 1], fields[|fields| - 1];
      NonNullKeeps(init, f);
      assert fields == init + [last];
      if f in fields && f.value != Null && f !in init {
        assert f == last;
      }
    }
  }

  /** Every key of the dump is a declared field name. */
  lemma NonNullKeys(fields: seq<Field>, name: string)
    requires HasKey(NonNull(fields), name)
    ensures name in Names(fields)
  {
    var r := NonNull(fields);
    var i :| 0 <= i < |r| && r[i].name == name;
    NonNullKeeps(fields, r[i]);
    var j :| 0 <= j < |fields| && fields[j] == r[i];
    assert Names(fields)[j] == name;
  }

  /** The dump is shorter by exactly the number of `None` fields. */
  function NullCount(fields: seq<Field>): nat {
    if |fields| == 0 then 0
    else NullCount(fields[..|fields| - 1]) + (if fields[|fields| - 1].value == Null then 1 else 0)
  }

  lemma {:induction false} NonNullLength(fields: seq<Field>)
    ensures |NonNull(fields)| + NullCount(fields) == |fields|
  {
    if |fields| > 0 {
      NonNullLength(fields[..|fields| - 1]);
    }
  }
}
