/** Export shaping in the browser (client.js): `createURI` turns the QR
    writer's SVG output into a standalone document, optionally wrapped as a
    data URI; "download one" saves a single item under its renamed file name;
    "download all" hands the archiver one entry per item, in item order.

    The QR writer (`QRWriter.toString`) and `encodeURIComponent` are opaque:
    they are parameters `render` and `encodeComponent`. The archive itself,
    its timestamped name and the browser save are outside the model. */
module Export {
  import opened Wrappers
  import opened Text
  import Rename
  import Upload

  /** The XML declaration put in front of the writer's output, ending in CR LF. */
  const XmlDeclaration: string := "<?xml version=\"1.0\" standalone=\"no\"?>\r\n"

  /** The data-URI scheme prefix of an encoded document. */
  const DataUriPrefix: string := "data:image/svg+xml;charset=utf-8,"

  /** The writer's output made a standalone document: the declaration in front. */
  function StandaloneDocument(svg: string): (doc: string)
    ensures StartsWith(doc, XmlDeclaration) && doc[|XmlDeclaration|..] == svg
  {
    XmlDeclaration + svg
  }

  /** `createURI(url, encode)`, with `svg` the writer's output for `url`. */
  function CreateUri(svg: string, encode: bool, encodeComponent: string -> string): (uri: string)
    ensures !encode ==> StartsWith(uri, XmlDeclaration) && uri[|XmlDeclaration|..] == svg
    ensures encode ==> StartsWith(uri, DataUriPrefix)
                       && uri[|DataUriPrefix|..] == encodeComponent(XmlDeclaration + svg)
  {
    var doc := StandaloneDocument(svg);
    if encode then DataUriPrefix + encodeComponent(doc) else doc
  }

  /** The SVG source of a standalone document: what follows the declaration. */
  function SvgSource(doc: string): (svg: Option<string>) {
    if StartsWith(doc, XmlDeclaration) then Some(doc[|XmlDeclaration|..]) else None
  }

  /** The encoded payload of a data URI: what follows the scheme prefix. */
  function DataUriBody(uri: string): (body: Option<string>) {
    if StartsWith(uri, DataUriPrefix) then Some(uri[|DataUriPrefix|..]) else None
  }

  /** Both forms of `createURI` give back the writer's output: the plain form
      after the declaration, the encoded form after undoing the scheme prefix
      and the percent-encoding (for any decoder that inverts the encoder on
      this document). */
  lemma CreateUriRoundTrip(svg: string, encodeComponent: string -> string, decodeComponent: string -> string)
    requires decodeComponent(encodeComponent(XmlDeclaration + svg)) == XmlDeclaration + svg
    ensures SvgSource(CreateUri(svg, false, encodeComponent)) == Some(svg)
    ensures DataUriBody(CreateUri(svg, true, encodeComponent)).Some?
    ensures SvgSource(decodeComponent(DataUriBody(CreateUri(svg, true, encodeComponent)).value)) == Some(svg)
  {
    var doc := XmlDeclaration + svg;
    assert doc[..|XmlDeclaration|] == XmlDeclaration;
  }

  /** The plain and the encoded form can never be confused: one starts with
      `<`, the other with `d`. */
  lemma PlainAndEncodedDiffer(svg: string, other: string, encodeComponent: string -> string)
    ensures CreateUri(svg, false, encodeComponent) != CreateUri(other, true, encodeComponent)
  {
    assert CreateUri(svg, false, encodeComponent)[0] == '<';
    assert CreateUri(other, true, encodeComponent)[0] == 'd';
  }

  /** A file handed to the browser's save dialog. */
  datatype SavedFile = SavedFile(name: string, content: string)

  /** One file in the archive "download all" builds. */
  datatype ArchiveEntry = ArchiveEntry(name: string, content: string)

  /** `dlQR(item.url, item.fileName)`: the single-item download, with the
      document encoded as a data URI and the name passed through the rename
      transform. Items always carry a payload (the upload handler only puts
      successful scans in the item list). */
  function DownloadOne(item: Upload.QRItem, render: string -> string, encodeComponent: string -> string): (saved: SavedFile)
    requires item.url.Some?
    ensures saved.name == Rename.CreateNewFilename(item.fileName)
    ensures DataUriBody(saved.content) == Some(encodeComponent(XmlDeclaration + render(item.url.value)))
  {
    SavedFile(Rename.CreateNewFilename(item.fileName), CreateUri(render(item.url.value), true, encodeComponent))
  }

  /** The entries "download all" adds to the archive, one per item in item
      order, each named by the rename transform and holding the plain
      (unencoded) document. */
  function ArchiveEntries(items: seq<Upload.QRItem>, render: string -> string): (entries: seq<ArchiveEntry>)
    requires forall k :: 0 <= k < |items| ==> items[k].url.Some?
    ensures |entries| == |items|
    ensures forall k :: 0 <= k < |items| ==>
              entries[k].name == Rename.CreateNewFilename(items[k].fileName)
              && SvgSource(entries[k].content) == Some(render(items[k].url.value))
  {
    if |items| == 0 then []
    else
      var item := items[0];
      [ArchiveEntry(Rename.CreateNewFilename(item.fileName), StandaloneDocument(render(item.url.value)))]
      + ArchiveEntries(items[1..], render)
  }

  /** Downloading everything an upload produced: one entry per successful
      scan, in selection order, each named after its file with the matched
      image extension replaced by `.svg`, and carrying the scanned payload's
      rendering. */
  lemma UploadArchive(files: seq<Upload.SelectedFile>, render: string -> string)
    ensures var items := Upload.ScanItems(files);
            var entries := ArchiveEntries(items, render);
            |entries| == |items| &&
            forall k :: 0 <= k < |entries| ==>
              var name := items[k].fileName;
              |name| >= 4 &&
              entries[k].name == name[..|name| - 4] + Rename.SvgExtension &&
              EndsWith(entries[k].name, Rename.SvgExtension) &&
              SvgSource(entries[k].content) == Some(render(items[k].url.value))
  {
    var items := Upload.ScanItems(files);
    var entries := ArchiveEntries(items, render);
    forall k | 0 <= k < |entries|
      ensures var name := items[k].fileName;
              |name| >= 4 &&
              entries[k].name == name[..|name| - 4] + Rename.SvgExtension &&
              EndsWith(entries[k].name, Rename.SvgExtension)
    {
      var name := items[k].fileName;
      Upload.ImageNameRename(name);
      var n := entries[k].name;
      assert n[|n| - 4..] == Rename.SvgExtension;
    }
  }

  /** Two uploads named `a.png` and `a.jpg` give two archive entries with
      the same name `a.svg`; the archiver keeps only the later one. */
  lemma ArchiveSharedName(render: string -> string)
    ensures var items := [Upload.QRItem("png", "a.png", Some("p")), Upload.QRItem("jpg", "a.jpg", Some("q"))];
            var entries := ArchiveEntries(items, render);
            |entries| == 2 && entries[0].name == "a.svg" && entries[1].name == "a.svg"
  {
    Rename.RenameSharedStem();
  }
}
