/** The two record shapes of the feed: the push message as it arrives, and
    the flat event the dashboard keeps. Numeric fields are modelled as reals
    (the source uses JavaScript numbers).
 */
module Types {
  import opened Prelude

  /** One seismic reading, as the buffer, the charts and the tables see it. */
  datatype Event = Event(
    id: string,
    time: string,
    lat: real,
    lon: real,
    depth: real,
    mag: real,
    magtype: string,
    region: string,
    auth: string
  )

  /** The `properties` object of a feed message. */
  datatype Properties = Properties(
    sourceId: string,
    sourceCatalog: string,
    lastUpdate: string,
    time: string,
    flynnRegion: string,
    lat: real,
    lon: real,
    depth: real,
    evtype: string,
    auth: string,
    mag: real,
    magtype: string,
    unid: string
  )

  /** The `data` object of a feed message; a parsed frame may lack `properties`. */
  datatype Data = Data(id: string, properties: Option<Properties>)

  /** A parsed feed message; a parsed frame may lack `data`. */
  datatype Message = Message(action: string, data: Option<Data>)

  /** The outcome of `JSON.parse` on one text frame. */
  datatype Parsed = ParseOk(msg: Message) | ParseFail
}
