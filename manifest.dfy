/** The records of an extension catalog manifest: packages and the sources each one bundles. */
module Manifest {

  /** Rust's `i64`. The filter never computes with these values; only their range is modelled. */
  newtype I64 = x: int | -0x8000_0000_0000_0000 <= x < 0x8000_0000_0000_0000

  /** One content source of a package (Rust `Source`; `base_url` is `baseUrl` in the JSON). */
  datatype Source = Source(name: string, lang: string, id: string, baseUrl: string)

  /** One extension package of the catalog (Rust `TachiyomiPkg`); it owns its sequence of sources. */
  datatype Package = Package(
    name: string,
    pkg: string,
    apk: string,
    lang: string,
    code: I64,
    version: string,
    nsfw: I64,
    sources: seq<Source>)
}
