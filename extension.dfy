/**
 The file filter `isImageFile` (main.go:88-95) and the extension it
 switches on, as `filepath.Ext` computes it on Unix, where '/' is the only
 path separator.
 */
module ImageFiles {

  /**
   The extension of a path: the text from the last '.' of the final path
   element to the end, or "" when that element has no '.'.
   */
  function Ext(path: string): (e: string)
    ensures e != "" ==> |e| <= |path| && e == path[|path| - |e|..] && e[0] == '.' &&
                        forall j :: 1 <= j < |e| ==> e[j] != '.' && e[j] != '/'
    ensures e == "" ==> forall i :: 0 <= i < |path| && path[i] == '.' ==>
                          exists j :: i < j < |path| && path[j] == '/'
  {
    if |path| == 0 || path[|path| - 1] == '/' then ""
    else if path[|path| - 1] == '.' then "."
    else
      var e := Ext(path[..|path| - 1]);
      if e == "" then "" else e + [path[|path| - 1]]
  }

  /** The extensions the program accepts, spelled exactly as in its switch. */
  const ImageExtensions: set<string> := {".png", ".jpg", ".jpeg", ".gif", ".bmp"}

  predicate IsImageFile(filename: string)
  {
    Ext(filename) in ImageExtensions
  }

  /**
   A path names an image file exactly when it has a '.' followed, up to the
   end, by neither '.' nor '/', and the text from that '.' on is one of the
   accepted extensions, compared case-sensitively.
   */
  lemma IsImageFileIff(path: string)
    ensures IsImageFile(path) <==>
      exists i :: 0 <= i < |path| && path[i] == '.' &&
        (forall j :: i < j < |path| ==> path[j] != '.' && path[j] != '/') &&
        path[i..] in ImageExtensions
  {
    var e := Ext(path);
    if e != "" {
      var i := |path| - |e|;
      assert path[i..] == e;
      forall j | i < j < |path| ensures path[j] != '.' && path[j] != '/' {
        assert path[j] == e[j - i];
      }
      assert path[i] == '.';
      forall k | 0 <= k < |path| && path[k] == '.' && (forall j :: k < j < |path| ==> path[j] != '.' && path[j] != '/')
        ensures k == i
      {
      }
    } else {
      forall k | 0 <= k < |path| && path[k] == '.'
        ensures exists j :: k < j < |path| && (path[j] == '.' || path[j] == '/')
      {
      }
    }
  }

  /**
   The converse of `Ext`'s contract: a '.' followed up to the end by
   neither '.' nor '/' starts the extension.
   */
  lemma ExtFromLastDot(path: string, i: int)
    requires 0 <= i < |path| && path[i] == '.'
    requires forall j :: i < j < |path| ==> path[j] != '.' && path[j] != '/'
    ensures Ext(path) == path[i..]
  {
    var e := Ext(path);
    assert e != "";
    var k := |path| - |e|;
    assert path[k..] == e;
    assert k >= i by {
      assert path[k] == '.';
    }
    assert k <= i by {
      assert path[i] == path[k..][i - k];
    }
  }

  /** A lower-case accepted extension after the last dot is an image file. */
  lemma LowerCaseAccepted()
    ensures IsImageFile("a/b.gif")
  {
    ExtFromLastDot("a/b.gif", 3);
    assert "a/b.gif"[3..] == ".gif";
  }

  /** The comparison is case-sensitive: an upper-case extension is rejected. */
  lemma UpperCaseRejected()
    ensures !IsImageFile("a/b.GIF")
  {
    ExtFromLastDot("a/b.GIF", 3);
    assert "a/b.GIF"[3..] == ".GIF";
    assert ".GIF" != ".png" && ".GIF" != ".jpg" && ".GIF" != ".gif" && ".GIF" != ".bmp" by {
      assert ".GIF"[1] == 'G';
    }
    assert |".GIF"| != |".jpeg"|;
  }

  /** Only the last dot of the final path element counts. */
  lemma LastDotOfLastElement()
    ensures !IsImageFile("a.bmp/b")
    ensures !IsImageFile("a.bmp.c")
  {
    assert "a.bmp/b"[..6] == "a.bmp/";
    assert Ext("a.bmp/b") == "";
    assert "a.bmp.c"[..6] == "a.bmp.";
    assert Ext("a.bmp.") == ".";
    assert Ext("a.bmp.c") == ".c";
  }
}
