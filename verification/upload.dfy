/** The browser's upload handler (client.js): every time the user selects
    files, the item and error lists are rebuilt from scratch; each selected
    file whose name passes the extension filter is read and scanned, and lands
    in the item list (scan succeeded, carrying the payload) or in the error list
    (scan failed, url `null`). Files the filter rejects leave no trace.

    Reading a file (FileReader) and scanning it (the QR reader) are outside the
    model: each selected file arrives with the data URL the reader produced and
    the result the scanner gave for it. */
module Upload {
  import opened Wrappers
  import Rename

  /** One selected file: its name, the data URL it was read into, and what
      the QR scanner made of it (`None` when the scanner reported an error). */
  datatype SelectedFile = SelectedFile(name: string, dataUrl: string, scan: Option<string>)

  /** `QRItem`: the image source, the original file name and the decoded
      payload, `None` standing for the `null` url of a failed scan. */
  datatype QRItem = QRItem(src: string, fileName: string, url: Option<string>)

  /** The two module-level lists the handler rebuilds. */
  datatype Session = Session(items: seq<QRItem>, errors: seq<QRItem>)

  /** The alternatives of the filter `/\.(jpg|png|gif)$/`, dot included. */
  const ImageExtensions: seq<string> := [".jpg", ".png", ".gif"]

  /** The filter's pattern, which has no flags, matches `name` from index `i`
      to the end. */
  predicate ImagePatternAt(name: string, i: int) {
    0 <= i <= |name| && name[i..] in ImageExtensions
  }

  /** The upload filter: the pattern matches somewhere in the name. Matching
      is case-sensitive, and `.jpeg` is not among the alternatives. */
  function IsImageName(name: string): (b: bool)
    ensures b <==> exists i :: ImagePatternAt(name, i)
  {
    assert forall e :: e in ImageExtensions ==> |e| == 4;
    if |name| >= 4 && name[|name| - 4..] in ImageExtensions then
      assert ImagePatternAt(name, |name| - 4);
      true
    else
      false
  }

  /** Names the filter accepts and rejects. */
  lemma FilterExamples()
    ensures IsImageName("scan.jpg") && IsImageName("a.b.png") && IsImageName(".gif")
    ensures !IsImageName("scan.jpeg") && !IsImageName("scan.PNG") && !IsImageName("png")
  {
    assert "scan.jpg"[4..] == ".jpg";
    assert "a.b.png"[3..] == ".png";
    assert ".gif"[0..] == ".gif";
    assert "scan.jpeg"[5..] == "jpeg";
    assert "scan.PNG"[4..] == ".PNG";
  }

  /** Every name the filter accepts has an extension for the rename
      transform, so its export name is its stem followed by `.svg`. */
  lemma ImageNameRename(name: string)
    requires IsImageName(name)
    ensures Rename.CreateNewFilename(name) == name[..|name| - 4] + Rename.SvgExtension
  {
    assert Rename.ExtensionAt(name, |name| - 4);
  }

  /** The files that pass the filter, in selection order. */
  function AcceptedFiles(files: seq<SelectedFile>): (accepted: seq<SelectedFile>)
    ensures |accepted| <= |files|
    ensures forall k :: 0 <= k < |accepted| ==> IsImageName(accepted[k].name)
    ensures forall k :: 0 <= k < |files| && IsImageName(files[k].name) ==> files[k] in accepted
  {
    if |files| == 0 then []
    else
      (if IsImageName(files[0].name) then [files[0]] else []) + AcceptedFiles(files[1..])
  }

  /** The successful scans among `files`, in selection order: the reference
      definition of the item list. */
  function ScanItems(files: seq<SelectedFile>): (items: seq<QRItem>)
    ensures |items| <= |files|
    ensures forall k :: 0 <= k < |items| ==>
              items[k].url.Some? && IsImageName(items[k].fileName)
  {
    if |files| == 0 then []
    else
      var f := files[0];
      (if IsImageName(f.name) && f.scan.Some? then [QRItem(f.dataUrl, f.name, f.scan)] else [])
      + ScanItems(files[1..])
  }

  /** The failed scans among `files`, in selection order: the reference
      definition of the error list. */
  function ScanErrors(files: seq<SelectedFile>): (errors: seq<QRItem>)
    ensures |errors| <= |files|
    ensures forall k :: 0 <= k < |errors| ==>
              errors[k].url.None? && IsImageName(errors[k].fileName)
  {
    if |files| == 0 then []
    else
      var f := files[0];
      (if IsImageName(f.name) && f.scan.None? then [QRItem(f.dataUrl, f.name, None)] else [])
      + ScanErrors(files[1..])
  }

  /** Classification distributes over concatenation of selections: the
      lists for `a + b` are the lists for `a` followed by those for `b`, so
      both lists keep the selection order. */
  lemma ClassifyAppend(a: seq<SelectedFile>, b: seq<SelectedFile>)
    ensures ScanItems(a + b) == ScanItems(a) + ScanItems(b)
    ensures ScanErrors(a + b) == ScanErrors(a) + ScanErrors(b)
    ensures AcceptedFiles(a + b) == AcceptedFiles(a) + AcceptedFiles(b)
  {
    ScanItemsAppend(a, b);
    ScanErrorsAppend(a, b);
    AcceptedAppend(a, b);
  }

  lemma {:induction false} ScanItemsAppend(a: seq<SelectedFile>, b: seq<SelectedFile>)
    ensures ScanItems(a + b) == ScanItems(a) + ScanItems(b)
  {
    if |a| == 0 {
      assert a + b == b;
    } else {
      assert (a + b)[1..] == a[1..] + b;
      ScanItemsAppend(a[1..], b);
    }
  }

  lemma {:induction false} ScanErrorsAppend(a: seq<SelectedFile>, b: seq<SelectedFile>)
    ensures ScanErrors(a + b) == ScanErrors(a) + ScanErrors(b)
  {
    if |a| == 0 {
      assert a + b == b;
    } else {
      assert (a + b)[1..] == a[1..] + b;
      ScanErrorsAppend(a[1..], b);
    }
  }

  lemma {:induction false} AcceptedAppend(a: seq<SelectedFile>, b: seq<SelectedFile>)
    ensures AcceptedFiles(a + b) == AcceptedFiles(a) + AcceptedFiles(b)
  {
    if |a| == 0 {
      assert a + b == b;
    } else {
      assert (a + b)[1..] == a[1..] + b;
      AcceptedAppend(a[1..], b);
    }
  }

  /** Every accepted file lands in exactly one of the two lists, and the
      lists hold nothing else. */
  lemma {:induction false} ClassifyCounts(files: seq<SelectedFile>)
    ensures |ScanItems(files)| + |ScanErrors(files)| == |AcceptedFiles(files)|
  {
    if |files| > 0 {
      ClassifyCounts(files[1..]);
    }
  }

  /** What a single file contributes: nothing when the filter rejects it,
      otherwise one item carrying its payload or one error with a null url. */
  lemma SingleFileOutcome(f: SelectedFile)
    ensures AcceptedFiles([f]) == (if IsImageName(f.name) then [f] else [])
    ensures !IsImageName(f.name) ==> ScanItems([f]) == [] && ScanErrors([f]) == []
    ensures IsImageName(f.name) && f.scan.Some? ==>
              ScanItems([f]) == [QRItem(f.dataUrl, f.name, f.scan)] && ScanErrors([f]) == []
    ensures IsImageName(f.name) && f.scan.None? ==>
              ScanItems([f]) == [] && ScanErrors([f]) == [QRItem(f.dataUrl, f.name, None)]
  {
    assert [f][1..] == [];
  }

  /** A file the filter rejects appears in neither list, wherever it sits
      in the selection. */
  lemma RejectedFileLeavesNoTrace(a: seq<SelectedFile>, f: SelectedFile, b: seq<SelectedFile>)
    requires !IsImageName(f.name)
    ensures ScanItems(a + [f] + b) == ScanItems(a + b)
    ensures ScanErrors(a + [f] + b) == ScanErrors(a + b)
  {
    ClassifyAppend(a + [f], b);
    ClassifyAppend(a, [f]);
    ClassifyAppend(a, b);
    SingleFileOutcome(f);
  }

  /** The upload handler: start from empty lists, then classify each
      selected file in order. The result depends on the selection alone;
      nothing of the previous session survives. */
  method HandleUpload(files: seq<SelectedFile>) returns (s: Session)
    ensures s.items == ScanItems(files) && s.errors == ScanErrors(files)
    ensures |s.items| + |s.errors| == |AcceptedFiles(files)|
    ensures forall k :: 0 <= k < |s.items| ==> s.items[k].url.Some?
    ensures forall k :: 0 <= k < |s.errors| ==> s.errors[k].url.None?
  {
    var items: seq<QRItem> := [];
    var errors: seq<QRItem> := [];
    for i := 0 to |files|
      invariant items == ScanItems(files[..i])
      invariant errors == ScanErrors(files[..i])
    {
      var f := files[i];
      assert files[..i + 1] == files[..i] + [f];
      ClassifyAppend(files[..i], [f]);
      SingleFileOutcome(f);
      if !IsImageName(f.name) {
        continue;
      }
      match f.scan {
        case None =>
          errors := errors + [QRItem(f.dataUrl, f.name, None)];
        case Some(payload) =>
          items := items + [QRItem(f.dataUrl, f.name, Some(payload))];
      }
    }
    assert files[..|files|] == files;
    ClassifyCounts(files);
    s := Session(items, errors);
  }
}
