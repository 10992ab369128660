/** A judgment record as it passes between the scraper, the store and the
    export: a Python dict read through `.get`, so a missing key and a key
    holding `None` are both `None` here. */
module Records {
  import opened Wrappers

  datatype Record = Record(
    keyword: Option<string>,
    title: Option<string>,
    caseName: Option<string>,
    day: Option<int>,
    month: Option<string>,
    year: Option<int>,
    judgmentDate: Option<string>,
    docId: Option<string>,
    link: Option<string>)

  /** The empty dict. */
  const NoFields: Record := Record(None, None, None, None, None, None, None, None, None)
}
