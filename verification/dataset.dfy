/**
 The shape of the parsed data: a record maps column names to cell text, and a
 dataset is the records in file order. Reading a column a record lacks gives
 JavaScript's `undefined`, here None.
 */
module Dataset {
  import opened Wrappers
  import opened Seqs

  type Record = map<string, string>

  /** `m[key]`: the cell, or None (`undefined`) when the record has no such column. */
  function Field(m: Record, key: string): Option<string> {
    if key in m then Some(m[key]) else None
  }

  function CompanyOf(m: Record): Option<string> {
    Field(m, "Company")
  }

  function StatusOf(m: Record): Option<string> {
    Field(m, "MissionStatus")
  }

  function DateOf(m: Record): Option<string> {
    Field(m, "Date")
  }

  function MissionOf(m: Record): Option<string> {
    Field(m, "Mission")
  }

  function RocketOf(m: Record): Option<string> {
    Field(m, "Rocket")
  }

  /**
   The property name a value becomes when used as an object key
   (`counts[m.Company]`): `undefined` turns into the text "undefined".
   */
  function PropertyKey(v: Option<string>): string {
    match v
    case Some(s) => s
    case None => "undefined"
  }

  /** The object key a record's Company is counted under. */
  function CompanyKey(m: Record): string {
    PropertyKey(CompanyOf(m))
  }

  function CompanyKeys(data: seq<Record>): seq<string> {
    Map(CompanyKey, data)
  }

  /** The object key a record's MissionStatus is counted under. */
  function StatusKey(m: Record): string {
    PropertyKey(StatusOf(m))
  }

  function StatusKeys(data: seq<Record>): seq<string> {
    Map(StatusKey, data)
  }

  /** The records whose column `key` holds exactly `v`, in order. */
  function Having(data: seq<Record>, key: string, v: string): seq<Record> {
    Filter(Matches(key, v), data)
  }

  function Matches(key: string, v: string): Record -> bool {
    m => Field(m, key) == Some(v)
  }

  /** Reading column `key` of a record. */
  function Getter(key: string): Record -> Option<string> {
    m => Field(m, key)
  }

  /** Column `key` of every record, in order. */
  function Column(data: seq<Record>, key: string): seq<Option<string>> {
    Map(Getter(key), data)
  }

  /** The records kept for a value are as many as the value's occurrences in the column. */
  lemma HavingCount(data: seq<Record>, key: string, v: string)
    ensures |Having(data, key, v)| == multiset(Column(data, key))[Some(v)]
  {
    FilterCountMap(Matches(key, v), Getter(key), data, Some(v));
  }

  /** Every record has the column. */
  predicate AllHave(data: seq<Record>, key: string) {
    forall m <- data :: key in m
  }
}
