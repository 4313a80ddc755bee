/**
  * The documents the controller emits, as values: feeds of entries with typed properties, and
  * error documents. Their XML serialisation is not part of this model.
  */
module Atom {
  import opened Wrappers
  import opened NugetPackage

  /** One `<d:Name m:type="...">value</d:Name>` property of an entry. */
  datatype Property = Property(name: string, value: Value, xmlType: Option<string>)

  /** One `<entry>`: the package it describes and its properties in emission order. */
  datatype Entry = Entry(package: Package, properties: seq<Property>)

  datatype Link = Link(rel: string, title: string, href: string)

  /** A `<feed>` with its id, title, updated time, links, `m:count` and entries. */
  datatype Feed = Feed(id: string, title: string, updated: int, links: seq<Link>, count: int, entries: seq<Entry>)

  /** An `<m:error>` document: the message, its `xml:lang` and the HTTP status. */
  datatype ErrorDocument = ErrorDocument(message: string, language: string, status: int)

  /** The packages of a feed's entries, in entry order. */
  function EntryPackages(entries: seq<Entry>): (ps: seq<Package>) {
    seq(|entries|, i requires 0 <= i < |entries| => entries[i].package)
  }
}
