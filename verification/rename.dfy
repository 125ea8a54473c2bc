/** The filename transform both front ends use to name a re-rendered code:
    `name.replace(/\.[0-9a-z]+$/i, '.svg')` (client.js `createNewFilename`,
    and the same expression inline in index.js).

    The regular expression carries the `i` flag but not the `u` flag, so its
    case folding stays within ASCII: the class accepts exactly the ASCII
    digits and letters of either case. It is anchored at the end of input and
    the class excludes `.`, so it can only match at the LAST dot, and only when
    a non-empty run of such characters follows that dot to the end. */
module Rename {
  import opened Wrappers
  import opened Text

  /** The text put in place of the matched extension. */
  const SvgExtension: string := ".svg"

  /** A character of the class `[0-9a-z]` under the ASCII-only `i` flag. */
  predicate IsExtensionChar(c: char) {
    ('0' <= c <= '9') || ('a' <= c <= 'z') || ('A' <= c <= 'Z')
  }

  /** The pattern `\.[0-9a-z]+$` matches `s` from index `i` to the end. */
  predicate ExtensionAt(s: string, i: int) {
    0 <= i < |s| - 1 && s[i] == '.' &&
    forall k :: i < k < |s| ==> IsExtensionChar(s[k])
  }

  /** The pattern matches somewhere in `s`. */
  predicate HasExtension(s: string) {
    exists i :: 0 <= i < |s| && ExtensionAt(s, i)
  }

  /** The pattern can match at one index at most, so "leftmost match" and
      "last dot" name the same place. */
  lemma ExtensionAtUnique(s: string, i: int, j: int)
    requires ExtensionAt(s, i) && ExtensionAt(s, j)
    ensures i == j
  {
  }

  /** Length of the longest suffix of `s` made of extension characters. */
  function ExtensionRunLength(s: string): (n: nat)
    ensures n <= |s|
    ensures forall k :: |s| - n <= k < |s| ==> IsExtensionChar(s[k])
    ensures n < |s| ==> !IsExtensionChar(s[|s| - n - 1])
  {
    if |s| == 0 || !IsExtensionChar(s[|s| - 1]) then 0
    else ExtensionRunLength(s[..|s| - 1]) + 1
  }

  /** Any match starts just before the trailing run of extension characters. */
  lemma ExtensionStartsBeforeRun(s: string, i: int)
    requires ExtensionAt(s, i)
    ensures i == |s| - ExtensionRunLength(s) - 1
  {
  }

  /** Where the regular expression matches `s`, if it does. */
  function ExtensionStart(s: string): (r: Option<nat>)
    ensures r.Some? ==> ExtensionAt(s, r.value)
    ensures r.None? ==> !HasExtension(s)
  {
    var n := ExtensionRunLength(s);
    if 0 < n < |s| && s[|s| - n - 1] == '.' then Some(|s| - n - 1)
    else
      assert !HasExtension(s) by {
        forall i | ExtensionAt(s, i) ensures i == |s| - n - 1 {
          ExtensionStartsBeforeRun(s, i);
        }
      }
      None
  }

  /** `createNewFilename`: a name with an extension keeps everything before
      its final dot and gets `.svg` instead of the extension; any other name
      is returned unchanged. */
  function CreateNewFilename(name: string): (r: string)
    ensures forall i :: ExtensionAt(name, i) ==> r == name[..i] + SvgExtension
    ensures !HasExtension(name) ==> r == name
  {
    match ExtensionStart(name)
    case Some(i) => name[..i] + SvgExtension
    case None => name
  }

  /** Whenever the pattern matches, the new name ends in `.svg`; so any name
      the transform changes ends in `.svg`. */
  lemma RenameEndsInSvg(s: string)
    ensures HasExtension(s) ==> EndsWith(CreateNewFilename(s), SvgExtension)
    ensures CreateNewFilename(s) != s ==> EndsWith(CreateNewFilename(s), SvgExtension)
  {
    if i :| ExtensionAt(s, i) {
      var r := CreateNewFilename(s);
      assert r[|r| - 4..] == SvgExtension;
    }
  }

  /** A stem followed by `.svg` has its match right after the stem. */
  lemma SvgSuffixIsExtension(stem: string)
    ensures ExtensionAt(stem + SvgExtension, |stem|)
  {
    var r := stem + SvgExtension;
    assert r[|stem|..] == SvgExtension;
  }

  /** Renaming a renamed name changes nothing. */
  lemma RenameIdempotent(s: string)
    ensures CreateNewFilename(CreateNewFilename(s)) == CreateNewFilename(s)
  {
    if i :| ExtensionAt(s, i) {
      var stem := s[..i];
      var r := stem + SvgExtension;
      assert CreateNewFilename(s) == r;
      SvgSuffixIsExtension(stem);
      assert r[..|stem|] == stem;
    }
  }

  /** The transform leaves a name unchanged exactly when the name has no
      extension at all or already ends in lower-case `.svg`. */
  lemma RenameIdentityIff(s: string)
    ensures CreateNewFilename(s) == s <==> !HasExtension(s) || EndsWith(s, SvgExtension)
  {
    if EndsWith(s, SvgExtension) {
      assert ExtensionAt(s, |s| - 4);
      assert s == s[..|s| - 4] + SvgExtension;
    }
    if i :| ExtensionAt(s, i) {
      if CreateNewFilename(s) == s {
        assert s[|s| - 4..] == SvgExtension;
      }
    }
  }

  /** The pattern matches `s` at `i`, checked character by character. */
  lemma RenameAt(s: string, i: nat)
    requires i < |s| - 1 && s[i] == '.'
    requires forall k :: i < k < |s| ==> IsExtensionChar(s[k])
    ensures CreateNewFilename(s) == s[..i] + SvgExtension
  {
    assert ExtensionAt(s, i);
  }

  /** Only the last extension is replaced; earlier dots stay. */
  lemma RenameKeepsEarlierDots()
    ensures CreateNewFilename("a.b.png") == "a.b.svg"
  {
    RenameAt("a.b.png", 3);
    assert "a.b.png"[..3] == "a.b";
  }

  /** Upper-case extensions match too. */
  lemma RenameIgnoresCase()
    ensures CreateNewFilename("A.PNG") == "A.svg"
  {
    RenameAt("A.PNG", 1);
    assert "A.PNG"[..1] == "A";
  }

  /** A name already ending in `.svg` is its own new name. */
  lemma RenameKeepsSvgName()
    ensures CreateNewFilename("photo.svg") == "photo.svg"
  {
    RenameAt("photo.svg", 5);
    assert "photo.svg"[..5] == "photo";
  }

  /** Different image extensions of one stem give the same new name. */
  lemma RenameSharedStem()
    ensures CreateNewFilename("a.png") == "a.svg"
    ensures CreateNewFilename("a.jpg") == "a.svg"
  {
    assert CreateNewFilename("a.png") == "a.svg" by {
      RenameAt("a.png", 1);
      assert "a.png"[..1] == "a";
    }
    assert CreateNewFilename("a.jpg") == "a.svg" by {
      RenameAt("a.jpg", 1);
      assert "a.jpg"[..1] == "a";
    }
  }

  /** Worked examples where the pattern does not match and the name is kept:
      no dot, a trailing dot, a non-alphanumeric character after the last dot. */
  lemma RenameIdentityExamples()
    ensures CreateNewFilename("notes") == "notes"
    ensures CreateNewFilename("trailing.") == "trailing."
    ensures CreateNewFilename("x.tar-gz") == "x.tar-gz"
    ensures CreateNewFilename("x.png~") == "x.png~"
  {
    NoExtensionWithoutDot("notes");
    assert !HasExtension("trailing.");
    var t := "x.tar-gz";
    forall i | 0 <= i < |t| ensures !ExtensionAt(t, i) {
      if i < 5 {
        assert t[5] == '-';
      } else {
        assert t[i] != '.';
      }
    }
    var p := "x.png~";
    forall i | 0 <= i < |p| ensures !ExtensionAt(p, i) {
      assert p[5] == '~';
    }
  }

  /** A name without any dot has no extension. */
  lemma NoExtensionWithoutDot(s: string)
    requires forall k :: 0 <= k < |s| ==> s[k] != '.'
    ensures !HasExtension(s)
  {
  }
}
