/** The persisted record of the last appearance change: a small JSON file
    holding one key, `last_update`, whose value is an ISO 8601 timestamp.
    The file system is abstracted to the value a read finds; the ISO 8601
    formatter and parser of the `datetime` library are an oracle, `IsoCodec`. */
module StateStore {
  import opened Wrappers
  import opened Time

  /** What the file holds under the key `last_update`. */
  datatype Field =
    | Absent            // the key is missing
    | Null              // the key maps to JSON null
    | Text(text: string) // the key maps to a JSON string
    | NonText           // the key maps to a number, list, object or boolean

  /** The decoded file contents. `Unreadable` covers text that is not JSON and
      JSON whose top level is not an object (no `.get`). */
  datatype Document = Unreadable | Object(lastUpdate: Field)

  /** The state file as the next read will see it. */
  datatype Store = NoFile | File(doc: Document)

  /** Why reading the stored instant raised. */
  datatype ReadError =
    | CorruptFile  // json.load or .get raised
    | BadTimestamp // datetime.fromisoformat raised

  /** The library's ISO 8601 conversions: `isoformat` and `fromisoformat`,
      the latter failing (None) on text it does not accept. */
  datatype IsoCodec = IsoCodec(format: Instant -> string, parse: string -> Option<Instant>)

  /** The parser accepts everything the formatter writes and gives back the same instant. */
  ghost predicate RoundTrips(c: IsoCodec) {
    forall t :: c.parse(c.format(t)) == Some(t)
  }

  /** Whether the stored value denotes "no previous update". */
  predicate MeansNever(s: Store) {
    s.NoFile? || (s.doc.Object? && (s.doc.lastUpdate.Absent? || s.doc.lastUpdate.Null?))
  }

  /** Reads the instant of the last update: None when there is none, the parsed
      instant when one is stored, and an error when the file or value is malformed. */
  function ReadLastUpdate(s: Store, c: IsoCodec): (r: Result<Option<Instant>, ReadError>)
    ensures r == Ok(None) <==> MeansNever(s)
    ensures r == Err(CorruptFile) <==> s == File(Unreadable)
    ensures r.Ok? && r.value.Some? <==>
              s.File? && s.doc.Object? && s.doc.lastUpdate.Text? && c.parse(s.doc.lastUpdate.text).Some?
    ensures r.Ok? && r.value.Some? ==> c.parse(s.doc.lastUpdate.text) == r.value
    ensures r == Err(BadTimestamp) <==>
              s.File? && s.doc.Object? &&
              (s.doc.lastUpdate.NonText? || (s.doc.lastUpdate.Text? && c.parse(s.doc.lastUpdate.text).None?))
  {
    match s
    case NoFile => Ok(None)
    case File(Unreadable) => Err(CorruptFile)
    case File(Object(field)) =>
      match field
      case Absent => Ok(None)
      case Null => Ok(None)
      case NonText => Err(BadTimestamp)
      case Text(text) =>
        match c.parse(text)
        case None => Err(BadTimestamp)
        case Some(t) => Ok(Some(t))
  }

  /** The file the write leaves behind: it replaces the whole file with a single
      `last_update` key holding the formatted instant. */
  function Record(c: IsoCodec, now: Instant): (s: Store)
    ensures !MeansNever(s)
    ensures ReadLastUpdate(s, c) ==
              (match c.parse(c.format(now))
               case Some(t) => Ok(Some(t))
               case None => Err(BadTimestamp))
  {
    File(Object(Text(c.format(now))))
  }

  /** Reading back what was just written gives the written instant. */
  lemma WriteThenRead(c: IsoCodec, now: Instant)
    requires RoundTrips(c)
    ensures ReadLastUpdate(Record(c, now), c) == Ok(Some(now))
  {
    assert c.parse(c.format(now)) == Some(now);
  }
}
