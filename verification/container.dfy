/*
 * Container: the entries of an EPUB's ZIP container. Section 3.3 of EPUB
 * Open Container Format 3.0.1 asks for the mimetype file as the first entry,
 * stored without compression.
 */
module Container {

  datatype Compression = Stored | Deflated

  /** One file of the archive: its path inside the archive and how it is compressed. */
  datatype ZipEntry = ZipEntry(name: string, compression: Compression)

  /** A listing a walk of a directory tree may produce for the files in
      it, as paths relative to its root: each file once. */
  ghost predicate IsListing(listing: seq<string>, files: set<string>) {
    && (forall f :: f in listing ==> f in files)
    && (forall f :: f in files ==> f in listing)
    && (forall i, j :: 0 <= i < j < |listing| ==> listing[i] != listing[j])
  }
}
