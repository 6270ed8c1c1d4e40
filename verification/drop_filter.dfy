/**
  The drag-enter filter of the image label: a drag is accepted only when it carries a
  URL list whose first URL's local path, lower-cased, ends in one of the five image
  extensions.

  Qt's `hasUrls()` reports only that the drag carries the `text/uri-list` format; the
  list it holds may still be empty (an empty `setUrls`, or a list of comment lines).
 */
module DropFilter {
  import opened Wrappers

  /** Python's `str.lower()` on one character, restricted to ASCII letters. */
  function LowerChar(c: char): char
  {
    if 'A' <= c <= 'Z' then (c as int + 32) as char else c
  }

  /** Python's `str.lower()`, restricted to ASCII letters. */
  function Lower(s: string): (r: string)
    ensures |r| == |s|
    ensures forall i :: 0 <= i < |s| ==> r[i] == LowerChar(s[i])
  {
    if s == [] then [] else [LowerChar(s[0])] + Lower(s[1..])
  }

  /** Python's `s.endswith(suffix)`. */
  predicate EndsWith(s: string, suffix: string)
  {
    |suffix| <= |s| && s[|s| - |suffix|..] == suffix
  }

  /** The suffixes the label accepts, in the order the source lists them. */
  const ImageExtensions: seq<string> := [".png", ".jpg", ".jpeg", ".bmp", ".gif"]

  /** Python's `s.endswith(tuple)`: true when some suffix of the tuple matches. */
  function EndsWithAny(s: string, suffixes: seq<string>): (r: bool)
    ensures r <==> exists i :: 0 <= i < |suffixes| && EndsWith(s, suffixes[i])
  {
    if suffixes == [] then false
    else EndsWith(s, suffixes[0]) || EndsWithAny(s, suffixes[1..])
  }

  /** Whether a dropped file's path passes the extension test. */
  predicate Accepts(path: string)
  {
    EndsWithAny(Lower(path), ImageExtensions)
  }

  /** Every extension has at least four characters, so an accepted path has too. */
  lemma AcceptedPathIsLong(path: string)
    ensures Accepts(path) ==> |path| >= 4
  {
    var low := Lower(path);
    assert |low| == |path|;
    assert forall i :: 0 <= i < |ImageExtensions| ==> |ImageExtensions[i]| >= 4;
    if Accepts(path) {
      var i :| 0 <= i < |ImageExtensions| && EndsWith(low, ImageExtensions[i]);
    }
  }

  /** The one way the filter can fail: the first URL of an empty list is indexed. */
  datatype DropFault = IndexError

  /** The drag-enter decision, given whether the drag carries a URL list and the URLs it
      holds. A drag without a URL list is ignored. Otherwise only the first URL is looked
      at, and there is no guard for a list that turns out empty: indexing it fails. */
  function DragEnter(hasUrls: bool, urls: seq<string>): (r: Result<bool, DropFault>)
    ensures r.Failure? <==> hasUrls && urls == []
    ensures r.Success? ==>
              (r.value <==> hasUrls && exists i :: 0 <= i < |ImageExtensions| && EndsWith(Lower(urls[0]), ImageExtensions[i]))
    ensures r == Success(true) ==> |urls[0]| >= 4
  {
    if !hasUrls then Success(false)
    else if urls == [] then Failure(IndexError)
    else
      AcceptedPathIsLong(urls[0]);
      Success(Accepts(urls[0]))
  }

  /** A drag that carries an empty URL list is not ignored: the filter fails. */
  lemma EmptyUriListFails()
    ensures DragEnter(true, []) == Failure(IndexError)
  {
  }

  lemma LowerCharIdempotent(c: char)
    ensures LowerChar(LowerChar(c)) == LowerChar(c)
  {
  }

  /** Lower-casing commutes with taking a suffix. */
  lemma {:induction false} LowerSuffix(s: string, k: nat)
    requires k <= |s|
    ensures Lower(s)[k..] == Lower(s[k..])
  {
    var a := Lower(s)[k..];
    var b := Lower(s[k..]);
    assert |a| == |b|;
    forall i | 0 <= i < |a|
      ensures a[i] == b[i]
    {
      assert a[i] == Lower(s)[k + i] == LowerChar(s[k + i]);
    }
  }

  /** Lower-casing twice is lower-casing once. */
  lemma {:induction false} LowerIdempotent(s: string)
    ensures Lower(Lower(s)) == Lower(s)
  {
    var a := Lower(Lower(s));
    forall i | 0 <= i < |s|
      ensures a[i] == Lower(s)[i]
    {
      LowerCharIdempotent(s[i]);
    }
  }

  /** The filter is case-insensitive: a path and its lower-case form are accepted or
      rejected together. */
  lemma AcceptsIgnoresCase(path: string)
    ensures Accepts(path) <==> Accepts(Lower(path))
  {
    LowerIdempotent(path);
  }

  /** A path is accepted exactly when some tail of it, lower-cased, is one of the image
      extensions. */
  lemma AcceptsCharacterisation(path: string)
    ensures Accepts(path) <==> exists k :: 0 <= k <= |path| && Lower(path[k..]) in ImageExtensions
  {
    var low := Lower(path);
    if Accepts(path) {
      var i :| 0 <= i < |ImageExtensions| && EndsWith(low, ImageExtensions[i]);
      var k := |path| - |ImageExtensions[i]|;
      LowerSuffix(path, k);
      assert Lower(path[k..]) == ImageExtensions[i];
    }
    if exists k :: 0 <= k <= |path| && Lower(path[k..]) in ImageExtensions {
      var k :| 0 <= k <= |path| && Lower(path[k..]) in ImageExtensions;
      LowerSuffix(path, k);
      var i :| 0 <= i < |ImageExtensions| && ImageExtensions[i] == Lower(path[k..]);
      assert EndsWith(low, ImageExtensions[i]);
    }
  }

  /** Any file name followed by any letter-casing of an image extension is accepted. */
  lemma AnyCasingAccepted(stem: string, ext: string)
    requires Lower(ext) in ImageExtensions
    ensures Accepts(stem + ext)
  {
    var path := stem + ext;
    assert path[|stem|..] == ext;
    AcceptsCharacterisation(path);
  }

  lemma AcceptsUpperCaseExample()
    ensures Accepts("a.JPG")
  {
    assert Lower(".JPG") == ".jpg";
    AnyCasingAccepted("a", ".JPG");
    assert "a" + ".JPG" == "a.JPG";
  }

  lemma AcceptsMixedCaseExample()
    ensures Accepts("holiday.Jpeg")
  {
    assert Lower(".Jpeg") == ".jpeg";
    AnyCasingAccepted("holiday", ".Jpeg");
    assert "holiday" + ".Jpeg" == "holiday.Jpeg";
  }

  /** A path with no upper-case ASCII letter is its own lower-case form. */
  lemma LowerOfLowerCase(s: string)
    requires forall i :: 0 <= i < |s| ==> !('A' <= s[i] <= 'Z')
    ensures Lower(s) == s
  {
  }

  /** A path that is its own lower-case form and that none of the extensions ends is
      rejected. */
  lemma RejectedWhenNoExtensionEndsIt(s: string)
    requires Lower(s) == s
    requires forall i :: 0 <= i < |ImageExtensions| ==> !EndsWith(s, ImageExtensions[i])
    ensures !Accepts(s)
  {
  }

  lemma RejectsOtherExtension()
    ensures !Accepts("a.tiff")
  {
    var s := "a.tiff";
    LowerOfLowerCase(s);
    forall i | 0 <= i < |ImageExtensions|
      ensures !EndsWith(s, ImageExtensions[i])
    {
      if i == 0 {
        assert s[2..] != ".png";
      } else if i == 1 {
        assert s[2..] != ".jpg";
      } else if i == 2 {
        assert s[1..] != ".jpeg";
      } else if i == 3 {
        assert s[2..] != ".bmp";
      } else {
        assert s[2..] != ".gif";
      }
    }
    RejectedWhenNoExtensionEndsIt(s);
  }

  lemma RejectsExtensionWithoutDot()
    ensures !Accepts("png")
  {
    LowerOfLowerCase("png");
    RejectedWhenNoExtensionEndsIt("png");
  }
}
