/** The part of a module's configuration that decides how a variable becomes a sample. */
module Config {

  /** The types indexes and lookups can have; `Other` is any type without index decoding. */
  datatype Type =
    | Integer | PhysAddress48 | OctetString | DisplayString | InetAddressIPv4 | InetAddressIPv6 | EnumAsInfo
    | InetAddress | InetAddressMissingSize | LldpPortId
    | Other(name: string)

  datatype Index = Index(labelname: string, typ: Type, fixedSize: nat, implied: bool, enumValues: map<int, string>)

  datatype Lookup = Lookup(labels: seq<string>, labelname: string, oid: string, typ: Type, displayHint: string,
      enumValues: map<int, string>)

  datatype Metric = Metric(name: string, oid: string, indexes: seq<Index>, lookups: seq<Lookup>)
}
