/** The older record types (`bubble_parser/types.py`): the same `Articolul`,
    an `ArticolulPDF` without article number and year, and the same
    `dump_without_null`. */
module LegacyTypes {
  import opened Common
  import opened FieldDict

  function OptInt(o: Option<int>): Value {
    match o case Some(i) => Int(i) case None => Null
  }

  /** A law article; `url` is `str | Any`. */
  datatype Articolul = Articolul(articolulId: Option<int>, number: int, url: Value)

  /** An order document, in the older layout. */
  datatype ArticolulPDF = ArticolulPDF(
    pdfId: Option<int>, listName: string, numberOrder: string, date: int, url: string, parsedAt: int)

  function NewArticolul(number: int): Articolul {
    Articolul(None, number, Null)
  }

  datatype Model = ArticolulModel(a: Articolul) | ArticolulPDFModel(p: ArticolulPDF)

  /** `dict(model)`: the declared fields in declaration order. */
  function Fields(m: Model): (fields: seq<Field>)
    ensures DistinctNames(fields)
  {
    match m
    case ArticolulModel(a) =>
      [Field("articolul_id", OptInt(a.articolulId)), Field("number", Int(a.number)), Field("url", a.url)]
    case ArticolulPDFModel(p) =>
      [Field("pdf_id", OptInt(p.pdfId)), Field("list_name", Str(p.listName)),
       Field("number_order", Str(p.numberOrder)), Field("date", Time(p.date)),
       Field("url", Str(p.url)), Field("parsed_at", Int(p.parsedAt))]
  }

  /** `dump_without_null(model)`: only `None` fields are removed, and the dump
      is shorter by exactly their number. */
  method DumpWithoutNull(m: Model) returns (obj: seq<Field>)
    ensures obj == NonNull(Fields(m))
    ensures forall i :: 0 <= i < |obj| ==> obj[i].value != Null
    ensures forall f :: f in obj <==> f in Fields(m) && f.value != Null
    ensures |obj| + NullCount(Fields(m)) == |Fields(m)|
  {
    obj := FieldDict.DumpWithoutNull(Fields(m));
    NonNullHasNoNull(Fields(m));
    NonNullLength(Fields(m));
    forall f
      ensures f in obj <==> f in Fields(m) && f.value != Null
    {
      NonNullKeeps(Fields(m), f);
    }
  }

  /** An order document has no optional field but its id: a stored one dumps
      every field. */
  lemma PdfDumpKeepsAll(p: ArticolulPDF)
    requires p.pdfId.Some?
    ensures NonNull(Fields(ArticolulPDFModel(p))) == Fields(ArticolulPDFModel(p))
  {
    var fs := Fields(ArticolulPDFModel(p));
    assert fs[..0] == [];
    NonNullStep(fs, 0);
    NonNullStep(fs, 1);
    NonNullStep(fs, 2);
    NonNullStep(fs, 3);
    NonNullStep(fs, 4);
    NonNullStep(fs, 5);
    assert fs[..6] == fs;
  }

  /** `Articolul(number=10)` dumps to `{"number": 10}`. */
  lemma ArticolulNumberOnly(n: int)
    ensures NonNull(Fields(ArticolulModel(NewArticolul(n)))) == [Field("number", Int(n))]
  {
    var fs := Fields(ArticolulModel(NewArticolul(n)));
    assert fs[..0] == [];
    NonNullStep(fs, 0);
    NonNullStep(fs, 1);
    NonNullStep(fs, 2);
    assert fs[..3] == fs;
  }
}
