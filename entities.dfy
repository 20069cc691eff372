/** The Cryptomatte layer entity (`CryptomatteLayer`). */
module Entities {
  import opened ValueObjects

  /**
   * One Cryptomatte layer of an image: its name, its manifest, the channels
   * that hold its ID/coverage pairs (in rank order), the suffix scheme of
   * those channels ("R", "r" or "red") and the metadata id it was read from.
   */
  datatype Layer = Layer(
    name: string,
    manifest: Manifest,
    channelNames: seq<string>,
    namingScheme: string,
    idPrefix: string)
}
