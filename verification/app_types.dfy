/** The record types the scraper stores (`bubble_parser/app_types.py`) and their
    `dump_without_null`. */
module AppTypes {
  import opened Common
  import opened FieldDict

  /** `int | None` and `str | None` as dict values. */
  function OptInt(o: Option<int>): Value {
    match o case Some(i) => Int(i) case None => Null
  }

  function OptStr(o: Option<string>): Value {
    match o case Some(s) => Str(s) case None => Null
  }

  function OptTime(o: Option<int>): Value {
    match o case Some(t) => Time(t) case None => Null
  }

  /** A law article the site publishes orders under. `url` is `str | Any`. */
  datatype Articolul = Articolul(articolulId: Option<int>, number: int, url: Value)

  /** An order document of an article. */
  datatype ArticolulPDF = ArticolulPDF(
    pdfId: Option<int>, articolulNum: int, listName: string, numberOrder: string,
    date: int, year: int, url: string, parsedAt: int)

  /** One application-file row. `termen` is `str | datetime | None`. */
  datatype Dosar = Dosar(
    recordId: Option<int>, numDosar: Option<string>, date: Option<int>, termen: Value,
    numarOrdin: Option<string>, dataOrdin: Option<string>,
    rawDosar: string, articolulNum: int, year: int)

  /** `Articolul(number=n)`: the optional fields take their `None` defaults. */
  function NewArticolul(number: int): Articolul {
    Articolul(None, number, Null)
  }

  /** `Dosar(articolul_num=..., year=..., raw_dosar=...)`, the rest defaulted. */
  function NewDosar(articolulNum: int, year: int, rawDosar: string): Dosar {
    Dosar(None, None, None, Null, None, None, rawDosar, articolulNum, year)
  }

  datatype Model = ArticolulModel(a: Articolul) | ArticolulPDFModel(p: ArticolulPDF) | DosarModel(d: Dosar)

  /** `dict(model)`: the declared fields in declaration order. */
  function Fields(m: Model): (fields: seq<Field>)
    ensures DistinctNames(fields)
  {
    match m
    case ArticolulModel(a) =>
      [Field("articolul_id", OptInt(a.articolulId)), Field("number", Int(a.number)), Field("url", a.url)]
    case ArticolulPDFModel(p) =>
      [Field("pdf_id", OptInt(p.pdfId)), Field("articolul_num", Int(p.articolulNum)),
       Field("list_name", Str(p.listName)), Field("number_order", Str(p.numberOrder)),
       Field("date", Time(p.date)), Field("year", Int(p.year)), Field("url", Str(p.url)),
       Field("parsed_at", Int(p.parsedAt))]
    case DosarModel(d) =>
      [Field("record_id", OptInt(d.recordId)), Field("num_dosar", OptStr(d.numDosar)),
       Field("date", OptTime(d.date)), Field("termen", d.termen),
       Field("numar_ordin", OptStr(d.numarOrdin)), Field("data_ordin", OptStr(d.dataOrdin)),
       Field("raw_dosar", Str(d.rawDosar)), Field("articolul_num", Int(d.articolulNum)),
       Field("year", Int(d.year))]
  }

  /** `dump_without_null(model)` */
  method DumpWithoutNull(m: Model) returns (obj: seq<Field>)
    ensures obj == NonNull(Fields(m))
    ensures forall i :: 0 <= i < |obj| ==> obj[i].value != Null
    ensures forall f :: f in obj <==> f in Fields(m) && f.value != Null
  {
    obj := FieldDict.DumpWithoutNull(Fields(m));
    NonNullHasNoNull(Fields(m));
    forall f
      ensures f in obj <==> f in Fields(m) && f.value != Null
    {
      NonNullKeeps(Fields(m), f);
    }
  }

  /** `Articolul(number=10)` dumps to `{"number": 10}`. */
  lemma ArticolulNumberOnly(n: int)
    ensures NonNull(Fields(ArticolulModel(NewArticolul(n)))) == [Field("number", Int(n))]
  {
    var fs := Fields(ArticolulModel(NewArticolul(n)));
    assert fs[..0] == [];
    NonNullStep(fs, 0);
    NonNullStep(fs, 1);
    NonNullStep(fs, 2);
    assert fs[..3] == fs;
  }

  /** A dosar row built by the body pass dumps to its three given fields. */
  lemma NewDosarDump(articolulNum: int, year: int, rawDosar: string)
    ensures NonNull(Fields(DosarModel(NewDosar(articolulNum, year, rawDosar))))
      == [Field("raw_dosar", Str(rawDosar)), Field("articolul_num", Int(articolulNum)), Field("year", Int(year))]
  {
    var fs := Fields(DosarModel(NewDosar(articolulNum, year, rawDosar)));
    assert fs[..0] == [];
    NonNullStep(fs, 0);
    NonNullStep(fs, 1);
    NonNullStep(fs, 2);
    NonNullStep(fs, 3);
    NonNullStep(fs, 4);
    NonNullStep(fs, 5);
    assert NonNull(fs[..6]) == [];
    NonNullStep(fs, 6);
    NonNullStep(fs, 7);
    NonNullStep(fs, 8);
    assert fs[..9] == fs;
  }
}
